/** Selections: ranges that are kept sorted and apart, and that follow the text through changes. */
module Selection {
  import opened Text

  datatype Range = Range(anchor: Pos, head: Pos) {
    function From(): Pos { MinPos(anchor, head) }

    function To(): Pos { MaxPos(anchor, head) }

    predicate Empty() { anchor == head }

    predicate Inverted() { Cmp(head, anchor) < 0 }

    /** Does the range touch the position `p` or, with `next`, hold what directly follows `p`? */
    predicate Covers(p: Pos, next: bool) { Le(From(), p) && if next then Cmp(p, To()) < 0 else Le(p, To()) }

    predicate Contains(r: Range) { Le(From(), r.From()) && Le(r.To(), To()) }
  }

  // ----- following a change -----

  /** adjustForChange */
  function AdjustForChange(p: Pos, c: Change): Pos
  {
    if Cmp(p, c.from) < 0 then p
    else if Cmp(p, c.to) <= 0 then ChangeEnd(c)
    else
      var line := p.line + |c.text| - (c.to.line - c.from.line) - 1;
      Pos(line, p.ch + if p.line == c.to.line then ChangeEnd(c).ch - c.to.ch else 0)
  }

  /** No change brings two positions out of order. */
  lemma AdjustIsMonotone(p: Pos, q: Pos, c: Change)
    requires Le(c.from, c.to) && Le(p, q)
    ensures Le(AdjustForChange(p, c), AdjustForChange(q, c))
  {
  }

  /** An adjusted position is in the new text; before the change it keeps the text before it, after the
      change it keeps the text after it, and from inside it goes to the end of the new text. */
  lemma AdjustKeepsText(l: Lines, c: Change, p: Pos)
    requires InRange(l, c) && InText(l, p)
    ensures var r, q := Splice(l, c), AdjustForChange(p, c);
            && InText(r, q)
            && (Cmp(p, c.from) < 0 ==> Before(r, q) == Before(l, p))
            && (Le(c.to, p) && Le(c.from, p) ==> After(r, q) == After(l, p))
            && (Le(c.from, p) && Le(p, c.to) ==> q == ChangeEnd(c) && Before(r, q) == Glue(Before(l, c.from), c.text))
  {
    hide Before, After, Between, Glue, End;
    SpliceParts(l, c);
    if Cmp(p, c.from) < 0 {
      BeforeUnchanged(l, c, p);
    } else if Cmp(p, c.to) > 0 {
      AfterShifted(l, c, p);
    } else {
      EndOfChange(l, c);
    }
  }

  lemma EndOfChange(l: Lines, c: Change)
    requires InRange(l, c)
    ensures var b := Glue(Before(l, c.from), c.text);
            End(b) == ChangeEnd(c) && InText(Splice(l, c), ChangeEnd(c)) && Before(Splice(l, c), ChangeEnd(c)) == b
  {
    CutAndGlue(l, c.from);
    EndOfGlue(Before(l, c.from), c.text);
    GlueAndCut(Glue(Before(l, c.from), c.text), After(l, c.to));
  }

  lemma AfterShifted(l: Lines, c: Change, p: Pos)
    requires InRange(l, c) && InText(l, p) && Cmp(p, c.to) > 0
    ensures var r, q := Splice(l, c), AdjustForChange(p, c);
            InText(r, q) && After(r, q) == After(l, p)
  {
    var b, m := Glue(Before(l, c.from), c.text), Between(l, c.to, p);
    EndOfChange(l, c);
    EndOfGlue(b, m);
    assert End(Glue(b, m)) == AdjustForChange(p, c);
    hide Before, After, Between, Glue, End;
    BetweenGlues(l, c.to, p);
    GlueAssociates(b, m, After(l, p));
    GlueAndCut(Glue(b, m), After(l, p));
  }

  // ----- normalizing -----

  ghost predicate SortedRanges(rs: seq<Range>)
  {
    forall i: nat, j: nat | i < j < |rs| :: Le(rs[i].From(), rs[j].From())
  }

  /** Sorted, and neither overlapping nor touching. */
  ghost predicate Separate(rs: seq<Range>)
  {
    forall i: nat, j: nat | i < j < |rs| :: Cmp(rs[i].To(), rs[j].From()) < 0
  }

  ghost predicate Covered(rs: seq<Range>, p: Pos, next: bool)
  {
    exists i: nat | i < |rs| :: rs[i].Covers(p, next)
  }

  ghost predicate SameCover(a: seq<Range>, b: seq<Range>)
  {
    forall p, next :: Covered(a, p, next) <==> Covered(b, p, next)
  }

  /** Each index once: how the built-in sort has arranged the ranges. */
  ghost predicate Arranges(order: seq<nat>, n: nat)
  {
    && |order| == n
    && (forall i: nat | i < n :: order[i] < n && i in order)
    && (forall i: nat, j: nat | i < j < n :: order[i] != order[j])
  }

  function Arranged(rs: seq<Range>, order: seq<nat>): (r: seq<Range>)
    requires forall i: nat | i < |order| :: order[i] < |rs|
    ensures |r| == |order| && forall i: nat | i < |r| :: r[i] == rs[order[i]]
  {
    seq(|order|, i requires 0 <= i < |order| => rs[order[i]])
  }

  /** The range that two touching neighbours are merged into. */
  function Merged(prev: Range, cur: Range): Range
  {
    var from, to := MinPos(prev.From(), cur.From()), MaxPos(prev.To(), cur.To());
    var inv := if prev.Empty() then cur.From() == cur.head else prev.From() == prev.head;
    Range(if inv then to else from, if inv then from else to)
  }

  /** The merged range covers what the two cover, and points the way of the first that is not empty. */
  lemma MergedCovers(prev: Range, cur: Range, p: Pos, next: bool)
    requires Le(prev.From(), cur.From()) && Cmp(prev.To(), cur.From()) >= 0
    ensures var m := Merged(prev, cur);
            && (m.Covers(p, next) <==> prev.Covers(p, next) || cur.Covers(p, next))
            && m.Contains(prev) && m.Contains(cur) && m.From() == prev.From()
            && (!prev.Empty() ==> (m.Inverted() <==> prev.Inverted()))
            && (prev.Empty() && !cur.Empty() ==> (m.Inverted() <==> cur.Inverted()))
  {
    MergedEnds(prev, cur);
    hide Merged;
  }

  lemma MergedEnds(prev: Range, cur: Range)
    requires Le(prev.From(), cur.From()) && Cmp(prev.To(), cur.From()) >= 0
    ensures var m := Merged(prev, cur);
            && m.From() == prev.From() && m.To() == MaxPos(prev.To(), cur.To())
            && (!prev.Empty() ==> (m.Inverted() <==> prev.Inverted()))
            && (prev.Empty() && !cur.Empty() ==> (m.Inverted() <==> cur.Inverted()))
  {
  }

  /** Merging two neighbours in a sorted list of ranges. */
  ghost function MergeAt(rs: seq<Range>, i: nat): (r: seq<Range>)
    requires 0 < i < |rs|
    ensures |r| == |rs| - 1
  {
    rs[..i - 1] + [Merged(rs[i - 1], rs[i])] + rs[i + 1..]
  }

  lemma MergeAtKeeps(rs: seq<Range>, i: nat)
    requires 0 < i < |rs| && SortedRanges(rs) && Separate(rs[..i]) && Cmp(rs[i - 1].To(), rs[i].From()) >= 0
    ensures SortedRanges(MergeAt(rs, i)) && Separate(MergeAt(rs, i)[..i])
  {
    hide Range.To;
    var r, m := MergeAt(rs, i), Merged(rs[i - 1], rs[i]);
    MergedCovers(rs[i - 1], rs[i], rs[i].From(), false);
    forall j: nat, k: nat | j < k < i ensures Cmp(r[..i][j].To(), r[..i][k].From()) < 0 {
      assert rs[..i][j] == rs[j] && rs[..i][k] == rs[k];
      assert Cmp(rs[..i][j].To(), rs[..i][k].From()) < 0;
    }
  }

  lemma MergeAtCovers(rs: seq<Range>, i: nat)
    requires 0 < i < |rs| && SortedRanges(rs) && Cmp(rs[i - 1].To(), rs[i].From()) >= 0
    ensures SameCover(MergeAt(rs, i), rs)
  {
    hide Range.Covers, Merged, Range.Contains, Range.Inverted, Range.From, Range.To, Cmp;
    var r := MergeAt(rs, i);
    StartsInOrder(rs, i);
    forall p, next ensures Covered(r, p, next) <==> Covered(rs, p, next) {
      MergedCovers(rs[i - 1], rs[i], p, next);
      if Covered(rs, p, next) {
        var k: nat :| k < |rs| && rs[k].Covers(p, next);
        var k': nat := if k < i then k else k - 1;
        assert r[k'].Covers(p, next);
      }
      if Covered(r, p, next) {
        var k: nat :| k < |r| && r[k].Covers(p, next);
        var k': nat := if k < i - 1 then k else if k > i - 1 then k + 1 else if rs[i - 1].Covers(p, next) then i - 1
          else i;
        assert rs[k'].Covers(p, next);
      }
    }
  }

  lemma MergeAtPrimary(rs: seq<Range>, i: nat, prim: nat, old_: Range)
    requires 0 < i < |rs| && SortedRanges(rs) && Cmp(rs[i - 1].To(), rs[i].From()) >= 0
    requires prim < |rs| && rs[prim].Contains(old_)
    ensures var p := if i <= prim then prim - 1 else prim;
            p < |MergeAt(rs, i)| && MergeAt(rs, i)[p].Contains(old_)
  {
    MergedCovers(rs[i - 1], rs[i], rs[i].From(), false);
  }

  /** The merging step of normalizeSelection keeps what its loop keeps. */
  lemma MergeStep(rs: seq<Range>, i: nat, prim: nat, ranges: seq<Range>, primIndex: nat)
    requires 0 < i < |rs| && SortedRanges(rs) && Separate(rs[..i]) && Cmp(rs[i - 1].To(), rs[i].From()) >= 0
    requires primIndex < |ranges| && prim < |rs| && rs[prim].Contains(ranges[primIndex]) && SameCover(rs, ranges)
    ensures var r := MergeAt(rs, i);
            var p := if i <= prim then prim - 1 else prim;
            && SortedRanges(r) && Separate(r[..i]) && SameCover(r, ranges)
            && p < |r| && r[p].Contains(ranges[primIndex])
  {
    hide Merged, SameCover, Separate, SortedRanges, Covered, Range.Contains, Range.From, Range.To, MergeAt;
    MergeAtKeeps(rs, i);
    MergeAtCovers(rs, i);
    SameCoverIsTransitive(MergeAt(rs, i), rs, ranges);
    MergeAtPrimary(rs, i, prim, ranges[primIndex]);
  }

  // ----- which ranges are merged -----

  /** The range that a group of neighbours is merged into, one after the other. */
  ghost function MergedAll(g: seq<Range>): Range
    requires g != []
  {
    if |g| == 1 then g[0] else Merged(MergedAll(g[..|g| - 1]), g[|g| - 1])
  }

  /** Each range of the group starts after, and touches, what those before it are merged into. */
  ghost predicate MergesUp(g: seq<Range>)
  {
    |g| > 1 ==>
      var prev, cur := MergedAll(g[..|g| - 1]), g[|g| - 1];
      MergesUp(g[..|g| - 1]) && Le(prev.From(), cur.From()) && Cmp(prev.To(), cur.From()) >= 0
  }

  ghost function Concat(groups: seq<seq<Range>>): seq<Range>
  {
    if groups == [] then [] else groups[0] + Concat(groups[1..])
  }

  /** `out` is what the groups that `rs` falls into are merged into. */
  ghost predicate Groups(groups: seq<seq<Range>>, out: seq<Range>, rs: seq<Range>)
  {
    && |groups| == |out| && Concat(groups) == rs
    && forall i: nat | i < |groups| :: groups[i] != [] && MergesUp(groups[i]) && out[i] == MergedAll(groups[i])
  }

  /** The direction of the first range that is not empty. */
  ghost predicate Direction(g: seq<Range>)
  {
    g != [] && if g[0].Empty() then Direction(g[1..]) else g[0].Inverted()
  }

  ghost predicate AllEmpty(g: seq<Range>)
  {
    forall i: nat | i < |g| :: g[i].Empty()
  }

  lemma {:induction false} DirectionOfLast(g: seq<Range>, r: Range)
    ensures Direction(g + [r]) == if AllEmpty(g) then r.Inverted() else Direction(g)
  {
    if g == [] {
      assert (g + [r])[1..] == [];
    } else {
      assert (g + [r])[1..] == g[1..] + [r];
      DirectionOfLast(g[1..], r);
      assert g == [g[0]] + g[1..];
      if g[0].Empty() && AllEmpty(g[1..]) {
        forall i: nat | i < |g| ensures g[i].Empty() {
          if i > 0 { assert g[i] == g[1..][i - 1]; }
        }
      }
    }
  }

  /** A group is merged into a range that points the way of its first range that is not empty. */
  lemma {:induction false} GroupDirection(g: seq<Range>)
    requires g != [] && MergesUp(g)
    ensures MergedAll(g).Inverted() <==> Direction(g)
    ensures MergedAll(g).Empty() <==> AllEmpty(g)
  {
    var init, last := g[..|g| - 1], g[|g| - 1];
    if |g| == 1 {
      assert g[1..] == [];
    } else {
      assert g == init + [last];
      GroupDirection(init);
      DirectionOfLast(init, last);
      MergedCovers(MergedAll(init), last, last.From(), false);
    }
  }

  lemma {:induction false} ConcatGroups(a: seq<seq<Range>>, b: seq<seq<Range>>)
    ensures Concat(a + b) == Concat(a) + Concat(b)
  {
    if a == [] {
      assert a + b == b;
    } else {
      ConcatGroups(a[1..], b);
      assert (a + b)[1..] == a[1..] + b;
      assert Concat(a + b) == a[0] + (Concat(a[1..]) + Concat(b));
    }
  }

  ghost function Singles(rs: seq<Range>): (r: seq<seq<Range>>)
    ensures |r| == |rs| && forall i: nat | i < |r| :: r[i] == [rs[i]]
  {
    seq(|rs|, i requires 0 <= i < |rs| => [rs[i]])
  }

  lemma {:induction false} SinglesGroup(rs: seq<Range>)
    ensures Groups(Singles(rs), rs, rs)
  {
    if rs != [] {
      SinglesGroup(rs[1..]);
      assert Singles(rs)[1..] == Singles(rs[1..]);
    }
  }

  /** Merging neighbour `i`, on its own so far, into the group before it. */
  ghost function GroupAt(groups: seq<seq<Range>>, i: nat): (r: seq<seq<Range>>)
    requires 0 < i < |groups|
    ensures |r| == |groups| - 1
  {
    groups[..i - 1] + [groups[i - 1] + groups[i]] + groups[i + 1..]
  }

  lemma GroupStep(groups: seq<seq<Range>>, out: seq<Range>, rs: seq<Range>, i: nat)
    requires Groups(groups, out, rs) && 0 < i < |out| && groups[i] == [out[i]]
    requires Le(out[i - 1].From(), out[i].From()) && Cmp(out[i - 1].To(), out[i].From()) >= 0
    ensures Groups(GroupAt(groups, i), MergeAt(out, i), rs)
  {
    hide Range.From, Range.To, Merged, Concat;
    var before, g, after := groups[..i - 1], groups[i - 1] + groups[i], groups[i + 1..];
    assert g[..|g| - 1] == groups[i - 1] && g[|g| - 1] == out[i];
    SameConcat(before, groups[i - 1], groups[i], after);
    assert groups == before + [groups[i - 1], groups[i]] + after;
  }

  lemma SameConcat(before: seq<seq<Range>>, g: seq<Range>, h: seq<Range>, after: seq<seq<Range>>)
    ensures Concat(before + [g + h] + after) == Concat(before + [g, h] + after)
  {
    hide Concat;
    ConcatGroups(before + [g + h], after);
    ConcatGroups(before, [g + h]);
    ConcatGroups(before + [g, h], after);
    ConcatGroups(before, [g, h]);
    FewGroups(g, h);
  }

  lemma FewGroups(g: seq<Range>, h: seq<Range>)
    ensures Concat([g + h]) == Concat([g, h])
  {
    assert [g, h][1..] == [h] && [h][1..] == [] && [g + h][1..] == [];
  }

  method IndexOf(order: seq<nat>, x: nat) returns (i: nat)
    requires x in order
    ensures i < |order| && order[i] == x
  {
    i := 0;
    while order[i] != x
      invariant i < |order| && x in order[i..]
      decreases |order| - i
    {
      i := i + 1;
    }
  }

  /** normalizeSelection. `order`: the arrangement that the built-in sort has chosen, any that puts the
      ranges in order of their start. */
  method NormalizeSelection(ranges: seq<Range>, primIndex: nat, order: seq<nat>)
    returns (out: seq<Range>, prim: nat, ghost groups: seq<seq<Range>>)
    requires primIndex < |ranges| && Arranges(order, |ranges|) && SortedRanges(Arranged(ranges, order))
    ensures Separate(out) && prim < |out| && out[prim].Contains(ranges[primIndex])
    ensures SameCover(out, ranges)
    ensures Groups(groups, out, Arranged(ranges, order))
    ensures forall i: nat | i < |out| :: out[i].Inverted() <==> Direction(groups[i])
  {
    hide Merged, SameCover, Separate, SortedRanges, Covered, Groups, MergeAt, GroupAt, Spliced, Direction, Cmp,
      Range.Contains, Range.From, Range.To, Range.Inverted;
    out := Arranged(ranges, order);
    groups := Singles(out);
    SinglesGroup(out);
    GroupsMatch(groups, out, out);
    prim := IndexOf(order, primIndex);
    ArrangedCovers(ranges, order);
    OneIsSeparate(out);
    ContainsItself(out[prim]);
    var i: nat := 1;
    while i < |out|
      invariant 1 <= i <= |out| && SortedRanges(out) && Separate(out[..i])
      invariant prim < |out| && out[prim].Contains(ranges[primIndex])
      invariant SameCover(out, ranges)
      invariant Groups(groups, out, Arranged(ranges, order)) && |groups| == |out|
      invariant forall k: nat | i <= k < |out| :: groups[k] == [out[k]]
      decreases |out| - i
    {
      var cur, prev := out[i], out[i - 1];
      if Cmp(prev.To(), cur.From()) >= 0 {
        MergeStep(out, i, prim, ranges, primIndex);
        StartsInOrder(out, i);
        GroupStep(groups, out, Arranged(ranges, order), i);
        SinglesStay(groups, out, i);
        groups := GroupAt(groups, i);
        if i <= prim { prim := prim - 1; }
        out := Spliced(out, i, Merged(prev, cur));
      } else {
        StillSeparate(out, i);
        i := i + 1;
      }
    }
    assert out[..i] == out;
    GroupsMatch(groups, out, Arranged(ranges, order));
  }

  /** splice(i - 1, 2, r) */
  function Spliced(rs: seq<Range>, i: nat, r: Range): seq<Range>
    requires 0 < i < |rs|
  {
    rs[..i - 1] + [r] + rs[i + 1..]
  }

  lemma GroupsMatch(groups: seq<seq<Range>>, out: seq<Range>, rs: seq<Range>)
    requires Groups(groups, out, rs)
    ensures |groups| == |out| && forall i: nat | i < |out| :: out[i].Inverted() <==> Direction(groups[i])
  {
    hide Range.Inverted, Direction, Merged;
    forall i: nat | i < |out| ensures out[i].Inverted() <==> Direction(groups[i]) {
      GroupDirection(groups[i]);
    }
  }

  lemma StartsInOrder(rs: seq<Range>, i: nat)
    requires 0 < i < |rs| && SortedRanges(rs)
    ensures Le(rs[i - 1].From(), rs[i].From())
  {
  }

  lemma SinglesStay(groups: seq<seq<Range>>, out: seq<Range>, i: nat)
    requires |groups| == |out| && 0 < i < |out| && forall k: nat | i <= k < |out| :: groups[k] == [out[k]]
    ensures MergeAt(out, i) == Spliced(out, i, Merged(out[i - 1], out[i]))
    ensures |MergeAt(out, i)| == |GroupAt(groups, i)|
    ensures forall k: nat | i <= k < |out| - 1 :: GroupAt(groups, i)[k] == [MergeAt(out, i)[k]]
  {
    hide Merged;
  }

  lemma OneIsSeparate(rs: seq<Range>)
    requires rs != []
    ensures Separate(rs[..1])
  {
  }

  lemma ContainsItself(r: Range)
    ensures r.Contains(r)
  {
  }

  lemma SameCoverIsTransitive(a: seq<Range>, b: seq<Range>, c: seq<Range>)
    requires SameCover(a, b) && SameCover(b, c)
    ensures SameCover(a, c)
  {
    forall p, next ensures Covered(a, p, next) <==> Covered(c, p, next) {
      assert Covered(a, p, next) <==> Covered(b, p, next);
    }
  }

  lemma StillSeparate(rs: seq<Range>, i: nat)
    requires 0 < i < |rs| && Separate(rs[..i]) && SortedRanges(rs) && Cmp(rs[i - 1].To(), rs[i].From()) < 0
    ensures Separate(rs[..i + 1])
  {
    var u := rs[..i + 1];
    forall j: nat, k: nat | j < k < |u| ensures Cmp(u[j].To(), u[k].From()) < 0 {
      if k < i {
        assert rs[..i][j] == u[j] && rs[..i][k] == u[k];
        assert Cmp(rs[..i][j].To(), rs[..i][k].From()) < 0;
      } else if j < i - 1 {
        assert Cmp(rs[..i][j].To(), rs[..i][i - 1].From()) < 0;
      }
    }
  }

  lemma ArrangedCovers(rs: seq<Range>, order: seq<nat>)
    requires Arranges(order, |rs|)
    ensures SameCover(Arranged(rs, order), rs)
  {
    hide Covered;
    forall p, next ensures Covered(Arranged(rs, order), p, next) <==> Covered(rs, p, next) {
      ArrangedCoversAt(rs, order, p, next);
    }
  }

  lemma ArrangedCoversAt(rs: seq<Range>, order: seq<nat>, p: Pos, next: bool)
    requires Arranges(order, |rs|)
    ensures Covered(Arranged(rs, order), p, next) <==> Covered(rs, p, next)
  {
    hide Range.Covers, Arranged;
    if Covered(rs, p, next) {
      var k: nat :| k < |rs| && rs[k].Covers(p, next);
      var i := WhereArranged(rs, order, k);
      assert Arranged(rs, order)[i].Covers(p, next);
    }
    if Covered(Arranged(rs, order), p, next) {
      var i: nat :| i < |order| && Arranged(rs, order)[i].Covers(p, next);
      assert rs[order[i]].Covers(p, next);
    }
  }

  lemma WhereArranged(rs: seq<Range>, order: seq<nat>, k: nat) returns (i: nat)
    requires Arranges(order, |rs|) && k < |rs|
    ensures i < |order| && order[i] == k
  {
    assert k in order;
    i :| i < |order| && order[i] == k;
  }

  /** The first range of a separate list starts at the first position covered and ends where nothing follows. */
  lemma FirstRange(a: seq<Range>, b: seq<Range>)
    requires a != [] && Separate(a) && Separate(b) && SameCover(a, b)
    ensures b != [] && Le(b[0].From(), a[0].From())
  {
    var p := a[0].From();
    assert a[0].Covers(p, false);
    assert Covered(a, p, false);
    var j: nat :| j < |b| && b[j].Covers(p, false);
    if j > 0 { assert Cmp(b[0].To(), b[j].From()) < 0; }
  }

  lemma FirstRangeEnds(a: seq<Range>, b: seq<Range>)
    requires a != [] && b != [] && Separate(a) && Separate(b) && SameCover(a, b) && a[0].From() == b[0].From()
    ensures Le(a[0].To(), b[0].To())
  {
    var p := b[0].To();
    forall j: nat | j < |b| ensures !b[j].Covers(p, true) {
      if j > 0 { assert Cmp(b[0].To(), b[j].From()) < 0; }
    }
    assert !Covered(b, p, true);
    assert !a[0].Covers(p, true);
  }

  lemma TailCover(a: seq<Range>, p: Pos, next: bool)
    requires a != [] && Separate(a)
    ensures Covered(a[1..], p, next) <==> Covered(a, p, next) && Cmp(p, a[0].To()) > 0
  {
    if Covered(a[1..], p, next) {
      var j: nat :| j < |a[1..]| && a[1..][j].Covers(p, next);
      assert a[j + 1].Covers(p, next);
      assert Cmp(a[0].To(), a[j + 1].From()) < 0;
    }
    if Covered(a, p, next) && Cmp(p, a[0].To()) > 0 {
      var j: nat :| j < |a| && a[j].Covers(p, next);
      assert a[1..][j - 1].Covers(p, next);
    }
  }

  /** What is covered determines the ranges: normalizing has only one possible outcome, directions aside. */
  lemma {:induction false} SeparateIsUnique(a: seq<Range>, b: seq<Range>)
    requires Separate(a) && Separate(b) && SameCover(a, b)
    ensures |a| == |b| && forall i: nat | i < |a| :: a[i].From() == b[i].From() && a[i].To() == b[i].To()
  {
    if a == [] {
      if b != [] { FirstRange(b, a); }
    } else {
      FirstRange(a, b);
      FirstRange(b, a);
      FirstRangeEnds(a, b);
      FirstRangeEnds(b, a);
      forall p, next ensures Covered(a[1..], p, next) <==> Covered(b[1..], p, next) {
        TailCover(a, p, next);
        TailCover(b, p, next);
        assert Covered(a, p, next) <==> Covered(b, p, next);
      }
      SeparateIsUnique(a[1..], b[1..]);
      forall i: nat | i < |a| ensures a[i].From() == b[i].From() && a[i].To() == b[i].To() {
        if i > 0 { assert a[i] == a[1..][i - 1] && b[i] == b[1..][i - 1]; }
      }
    }
  }

  /** computeSelAfterChange. `groups`: the ranges, followed and sorted, that each of the new ones is made of. */
  method ComputeSelAfterChange(ranges: seq<Range>, primIndex: nat, c: Change, order: seq<nat>)
    returns (out: seq<Range>, prim: nat, ghost groups: seq<seq<Range>>)
    requires Le(c.from, c.to) && primIndex < |ranges|
    requires Arranges(order, |ranges|) && SortedRanges(Arranged(Adjusted(ranges, c), order))
    ensures Separate(out) && prim < |out|
    ensures out[prim].Contains(Adjusted(ranges, c)[primIndex]) && SameCover(out, Adjusted(ranges, c))
    ensures forall i: nat, p | i < |ranges| && ranges[i].Covers(p, false) :: Covered(out, AdjustForChange(p, c), false)
    ensures Groups(groups, out, Arranged(Adjusted(ranges, c), order))
    ensures forall i: nat | i < |out| :: out[i].Inverted() <==> Direction(groups[i])
  {
    hide Groups, Direction, MergedAll;
    out, prim, groups := NormalizeSelection(Adjusted(ranges, c), primIndex, order);
    forall i: nat, p | i < |ranges| && ranges[i].Covers(p, false) ensures Covered(out, AdjustForChange(p, c), false) {
      AdjustIsMonotone(ranges[i].From(), p, c);
      AdjustIsMonotone(p, ranges[i].To(), c);
      AdjustIsMonotone(ranges[i].From(), ranges[i].To(), c);
      assert Adjusted(ranges, c)[i].Covers(AdjustForChange(p, c), false);
      assert Covered(Adjusted(ranges, c), AdjustForChange(p, c), false);
    }
  }

  function Adjusted(rs: seq<Range>, c: Change): (r: seq<Range>)
    ensures |r| == |rs|
    ensures forall i: nat | i < |rs| :: r[i] == Range(AdjustForChange(rs[i].anchor, c), AdjustForChange(rs[i].head, c))
  {
    seq(|rs|, i requires 0 <= i < |rs| => Range(AdjustForChange(rs[i].anchor, c), AdjustForChange(rs[i].head, c)))
  }
}
