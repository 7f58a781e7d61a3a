/** The document: a tree of lines, changed by updateDoc in five different ways that amount to one splice. */
module Document {
  import opened LineTree
  import opened LineIndex
  import T = Text

  function TextsOf(lines: seq<Line>): (r: seq<string>)
    ensures |r| == |lines| && forall i: nat | i < |lines| :: r[i] == lines[i].text
  {
    seq(|lines|, i requires 0 <= i < |lines| => lines[i].text)
  }

  function IdsOf(lines: seq<Line>): (r: seq<nat>)
    ensures |r| == |lines| && forall i: nat | i < |lines| :: r[i] == lines[i].id
  {
    seq(|lines|, i requires 0 <= i < |lines| => lines[i].id)
  }

  function HeightsOf(lines: seq<Line>): (r: seq<real>)
    ensures |r| == |lines| && forall i: nat | i < |lines| :: r[i] == lines[i].height
  {
    seq(|lines|, i requires 0 <= i < |lines| => lines[i].height)
  }

  /** The heights that lines with these texts get. */
  function Estimates(estimate: string -> real, texts: seq<string>): (r: seq<real>)
    ensures |r| == |texts| && forall i: nat | i < |texts| :: r[i] == estimate(texts[i])
  {
    seq(|texts|, i requires 0 <= i < |texts| => estimate(texts[i]))
  }

  function Total(heights: seq<real>): real
  {
    if heights == [] then 0.0 else heights[0] + Total(heights[1..])
  }

  /** The identities that `n` objects get, from `next` on. */
  function NewIds(next: nat, n: nat): (r: seq<nat>)
    ensures |r| == n && forall i: nat | i < n :: r[i] == next + i
  {
    seq(n, i => next + i)
  }

  /** No two line objects are the same. */
  ghost predicate DistinctIds(ids: seq<nat>, next: nat)
  {
    (forall i: nat | i < |ids| :: ids[i] < next) && forall i: nat, j: nat | i < j < |ids| :: ids[i] != ids[j]
  }

  class Doc {
    var root: Node
    /** The identity of the next line object. */
    var nextLine: nat
    /** The height given to a line with some text. */
    const estimate: string -> real
    /** Is there no editor, or has it wholeLineUpdateBefore set? */
    const wholeLineUpdateBefore: bool

    ghost predicate Valid()
      reads this
    {
      WellFormed(root) && DistinctIds(IdsOf(Lines(root)), nextLine)
    }

    ghost function Texts(): T.Lines
      requires Valid()
      reads this
    {
      BoundedIsNotEmpty(root);
      TextsOf(Lines(root))
    }

    /** The line objects, in order. */
    function LineIds(): seq<nat>
      reads this
    {
      IdsOf(Lines(root))
    }

    /** The heights of the lines, in order. */
    function Heights(): seq<real>
      reads this
    {
      HeightsOf(Lines(root))
    }

    /** Doc, before its initial text is put in: one empty line. */
    constructor (estimate: string -> real, wholeLineUpdateBefore: bool)
      ensures Valid() && Texts() == [""] && Heights() == [1.0]
      ensures this.estimate == estimate && this.wholeLineUpdateBefore == wholeLineUpdateBefore
    {
      var leaf := NewLeaf([Line("", 1.0, 0)]);
      nextLine := 1;
      OneNode(leaf);
      assert Lines(leaf) == [Line("", 1.0, 0)];
      CachedSums([leaf]);
      root := NewBranch([leaf]);
      this.estimate, this.wholeLineUpdateBefore := estimate, wholeLineUpdateBefore;
    }

    lemma SameLength()
      requires Valid()
      ensures |LineIds()| == |Texts()| == |Heights()|
    {
    }

    /** getLine(doc, n).text */
    method LineText(n: int) returns (text: string)
      requires Valid() && 0 <= n < |Texts()|
      ensures text == Texts()[n]
    {
      LineNoOfGetLine(root, n);
      text := LineAt(root, GetLine(root, n)).text;
    }

    /** lineCount */
    method LineCount() returns (n: int)
      requires Valid()
      ensures n == |Texts()|
    {
      n := root.size;
    }

    /** clipPos */
    method ClipPos(p: T.Pos) returns (r: T.Pos)
      requires Valid()
      ensures r == T.Clip(Texts(), p) && T.InText(Texts(), r)
    {
      if p.line < 0 { return T.Pos(0, 0); }
      var last := LineCount();
      last := last - 1;
      if p.line > last {
        var text := LineText(last);
        return T.Pos(last, |text|);
      }
      var text := LineText(p.line);
      return if p.ch > |text| then T.Pos(p.line, |text|) else if p.ch < 0 then T.Pos(p.line, 0) else p;
    }

    /** update in updateDoc: a line gets a text and a new height. */
    method Update(n: int, text: string)
      requires Valid() && 0 <= n < |Texts()|
      modifies this
      ensures Valid() && Texts() == old(Texts())[n := text]
      ensures LineIds() == old(LineIds()) && nextLine == old(nextLine)
      ensures |old(Heights())| == |old(Texts())| && Heights() == old(Heights())[n := estimate(text)]
    {
      SameLength();
      LineNoOfGetLine(root, n);
      var line := LineAt(root, GetLine(root, n)).(text := text, height := estimate(text));
      UpdateLineRefines(root, GetLine(root, n), line);
      ghost var ids, heights := LineIds(), Heights();
      root := UpdateLine(root, GetLine(root, n), line);
      assert LineIds() == ids && Heights() == heights[n := estimate(text)];
    }

    /** doc.insert, with the lines made as in updateDoc */
    method InsertLines(at: int, texts: seq<string>)
      requires Valid() && 0 <= at <= |Texts()|
      modifies this
      ensures Valid() && Texts() == Inserted(old(Texts()), at, texts)
      ensures nextLine == old(nextLine) + |texts|
      ensures |old(LineIds())| == |old(Heights())| == |old(Texts())|
      ensures LineIds() == Inserted(old(LineIds()), at, NewIds(old(nextLine), |texts|))
      ensures Heights() == Inserted(old(Heights()), at, Estimates(estimate, texts))
    {
      hide Insert, Lines, Inserted, TextsOf, IdsOf, HeightsOf, DistinctIds;
      SameLength();
      ghost var ids, next := LineIds(), nextLine;
      var added := MakeLines(texts);
      InsertRefines(root, at, added);
      InsertedParts(Lines(root), at, added);
      InsertedDistinct(ids, next, at, |texts|);
      root := Insert(root, at, added);
    }

    /** The loops in updateDoc that make line objects. */
    method MakeLines(texts: seq<string>) returns (added: seq<Line>)
      modifies this`nextLine
      ensures TextsOf(added) == texts && IdsOf(added) == NewIds(old(nextLine), |texts|)
      ensures HeightsOf(added) == Estimates(estimate, texts) && nextLine == old(nextLine) + |texts|
    {
      added := [];
      for i := 0 to |texts|
        invariant |added| == i && nextLine == old(nextLine) + i
        invariant forall k: nat | k < i :: added[k] == Line(texts[k], estimate(texts[k]), old(nextLine) + k)
      {
        added := added + [Line(texts[i], estimate(texts[i]), nextLine)];
        nextLine := nextLine + 1;
      }
    }

    /** doc.remove */
    method RemoveLines(at: int, n: int)
      requires Valid() && 0 <= at && 0 < n < |Texts()| && at + n <= |Texts()|
      modifies this
      ensures Valid() && Texts() == Removed(old(Texts()), at, n)
      ensures |old(LineIds())| == |old(Heights())| == |old(Texts())|
      ensures LineIds() == Removed(old(LineIds()), at, n) && nextLine == old(nextLine)
      ensures Heights() == Removed(old(Heights()), at, n)
    {
      SameLength();
      ghost var ids, heights := LineIds(), Heights();
      RemoveRefines(root, at, n);
      root := Remove(root, at, n);
      assert LineIds() == Removed(ids, at, n) && Heights() == Removed(heights, at, n);
      RemovedDistinct(ids, nextLine, at, n);
    }

    /** doc.remove, unless there is nothing to remove. */
    method RemoveAny(at: int, n: int)
      requires Valid() && 0 <= at && 0 <= n < |Texts()| && at + n <= |Texts()|
      modifies this
      ensures Valid() && Texts() == Removed(old(Texts()), at, n)
      ensures |old(LineIds())| == |old(Heights())| == |old(Texts())|
      ensures LineIds() == Removed(old(LineIds()), at, n) && nextLine == old(nextLine)
      ensures Heights() == Removed(old(Heights()), at, n)
    {
      SameLength();
      NothingRemoved(Texts(), at);
      NothingRemoved(LineIds(), at);
      NothingRemoved(Heights(), at);
      if n > 0 { RemoveLines(at, n); }
    }

    /** The document is what `c` has made of the texts `l`, the line objects `ids` and their heights. */
    ghost predicate Changed(l: T.Lines, ids: seq<nat>, heights: seq<real>, next: nat, c: T.Change)
      requires Valid() && T.InRange(l, c) && |ids| == |heights| == |l|
      reads this
    {
      var made := T.LinesMade(c, wholeLineUpdateBefore);
      && Texts() == T.Splice(l, c) && nextLine == next + made
      && LineIds() == T.LineObjects(ids, c, wholeLineUpdateBefore, NewIds(next, made))
      && Heights() == Remeasured(heights, Texts(), c, estimate)
    }

    /** updateDoc, without marked spans. */
    method UpdateDoc(c: T.Change)
      requires Valid() && T.InRange(Texts(), c)
      modifies this
      ensures Valid() && Texts() == T.Splice(old(Texts()), c)
      ensures |old(LineIds())| == |old(Heights())| == |old(Texts())|
      ensures Changed(old(Texts()), old(LineIds()), old(Heights()), old(nextLine), c)
    {
      hide T.Splice, Valid, Texts, LineIds, Heights, T.LineObjects, Remeasured, NewIds;
      SameLength();
      if T.IsWholeLineUpdate(c, wholeLineUpdateBefore) {
        UpdateWholeLines(c);
      } else if c.from.line == c.to.line {
        UpdateOneLine(c);
      } else if |c.text| == 1 {
        UpdateJoining(c);
      } else {
        UpdateAcross(c);
      }
    }

    /** The branch of updateDoc for a change within one line. */
    method UpdateOneLine(c: T.Change)
      requires Valid() && T.InRange(Texts(), c) && !T.IsWholeLineUpdate(c, wholeLineUpdateBefore)
      requires c.from.line == c.to.line
      modifies this
      ensures Valid() && |old(LineIds())| == |old(Heights())| == |old(Texts())|
      ensures Changed(old(Texts()), old(LineIds()), old(Heights()), old(nextLine), c)
    {
      hide T.Splice, Inserted, Removed, Valid, Texts, LineIds, Heights, T.LineObjects, Remeasured;
      SameLength();
      ghost var l, ids, heights := Texts(), LineIds(), Heights();
      KeptObjects(ids, c, wholeLineUpdateBefore, NewIds(nextLine, T.LinesMade(c, wholeLineUpdateBefore)));
      var from, to, text := c.from, c.to, c.text;
      var line := LineText(from.line);
      if |text| == 1 {
        Update(from.line, line[..from.ch] + T.Last(text) + line[to.ch..]);
        WithinLine(l, c);
        WithinLineHeights(heights, l, c, estimate);
      } else {
        var added := text[1..|text| - 1] + [T.Last(text) + line[to.ch..]];
        Update(from.line, line[..from.ch] + text[0]);
        InsertLines(from.line + 1, added);
        SplitLine(l, c);
        SplitLineHeights(heights, l, c, estimate);
      }
    }

    /** The branch of updateDoc for a text of one line over several lines. */
    method UpdateJoining(c: T.Change)
      requires Valid() && T.InRange(Texts(), c) && !T.IsWholeLineUpdate(c, wholeLineUpdateBefore)
      requires c.from.line < c.to.line && |c.text| == 1
      modifies this
      ensures Valid() && |old(LineIds())| == |old(Heights())| == |old(Texts())|
      ensures Changed(old(Texts()), old(LineIds()), old(Heights()), old(nextLine), c)
    {
      hide T.Splice, Inserted, Removed, Valid, Texts, LineIds, Heights, T.LineObjects, Remeasured;
      SameLength();
      ghost var l, ids, heights := Texts(), LineIds(), Heights();
      KeptObjects(ids, c, wholeLineUpdateBefore, []);
      assert NewIds(nextLine, 0) == [];
      var firstLine := LineText(c.from.line);
      var lastLine := LineText(c.to.line);
      Update(c.from.line, firstLine[..c.from.ch] + c.text[0] + lastLine[c.to.ch..]);
      RemoveLines(c.from.line + 1, c.to.line - c.from.line);
      JoinLines(l, c);
      JoinLinesHeights(heights, l, c, estimate);
    }

    /** The branch of updateDoc for whole lines. */
    method UpdateWholeLines(c: T.Change)
      requires Valid() && T.InRange(Texts(), c) && T.IsWholeLineUpdate(c, wholeLineUpdateBefore)
      modifies this
      ensures Valid() && |old(LineIds())| == |old(Heights())| == |old(Texts())|
      ensures Changed(old(Texts()), old(LineIds()), old(Heights()), old(nextLine), c)
    {
      hide T.Splice, Inserted, Removed, Valid, Texts, LineIds, Heights, T.LineObjects, Remeasured;
      SameLength();
      ghost var l, ids, heights, next := Texts(), LineIds(), Heights(), nextLine;
      var nlines := c.to.line - c.from.line;
      WholeLinesHeights(heights, l, c, estimate);
      ghost var measured := heights[c.to.line := estimate(l[c.to.line])];
      NothingInserted(Removed(measured, c.from.line, nlines), c.from.line);
      KeptObjects(ids, c, wholeLineUpdateBefore, NewIds(next, |c.text| - 1));
      NothingInserted(Removed(l, c.from.line, nlines), c.from.line);
      NothingInserted(Removed(ids, c.from.line, nlines), c.from.line);
      WholeLines(l, c);
      var lastLine := LineText(c.to.line);
      Update(c.to.line, lastLine);
      assert l[c.to.line := l[c.to.line]] == l;
      RemoveAny(c.from.line, nlines);
      if |c.text| > 1 { InsertLines(c.from.line, c.text[..|c.text| - 1]); }
      assert |c.text| == 1 ==> c.text[..|c.text| - 1] == [] && NewIds(next, 0) == [];
    }

    /** The branch of updateDoc for a text of several lines over several lines. */
    method UpdateAcross(c: T.Change)
      requires Valid() && T.InRange(Texts(), c) && !T.IsWholeLineUpdate(c, wholeLineUpdateBefore)
      requires c.from.line < c.to.line && |c.text| > 1
      modifies this
      ensures Valid() && |old(LineIds())| == |old(Heights())| == |old(Texts())|
      ensures Changed(old(Texts()), old(LineIds()), old(Heights()), old(nextLine), c)
    {
      hide T.Splice, Inserted, Removed, Valid, Texts, LineIds, Heights, Changed, NewIds, Estimates, T.IsWholeLineUpdate;
      SameLength();
      ghost var l, ids, heights, next := Texts(), LineIds(), Heights(), nextLine;
      var from, to, nlines := c.from, c.to, c.to.line - c.from.line;
      var firstLine := LineText(from.line);
      var lastLine := LineText(to.line);
      Update(from.line, firstLine[..from.ch] + c.text[0]);
      Update(to.line, T.Last(c.text) + lastLine[to.ch..]);
      RemoveAny(from.line + 1, nlines - 1);
      InsertLines(from.line + 1, c.text[1..|c.text| - 1]);
      AcrossChanges(l, ids, heights, next, c);
    }

    /** What the calls of that branch come to. */
    lemma AcrossChanges(l: T.Lines, ids: seq<nat>, heights: seq<real>, next: nat, c: T.Change)
      requires Valid() && T.InRange(l, c) && |ids| == |heights| == |l| && nextLine == next + |c.text| - 2
      requires !T.IsWholeLineUpdate(c, wholeLineUpdateBefore) && c.from.line < c.to.line && |c.text| > 1
      requires var from, to, at, n := l[c.from.line], l[c.to.line], c.from.line + 1, c.to.line - c.from.line - 1;
               var first, last, mid := from[..c.from.ch] + c.text[0], T.Last(c.text) + to[c.to.ch..],
                                       c.text[1..|c.text| - 1];
               var texts := l[c.from.line := first][c.to.line := last];
               var measured := heights[c.from.line := estimate(first)][c.to.line := estimate(last)];
               && Texts() == Inserted(Removed(texts, at, n), at, mid)
               && LineIds() == Inserted(Removed(ids, at, n), at, NewIds(next, |mid|))
               && Heights() == Inserted(Removed(measured, at, n), at, Estimates(estimate, mid))
      ensures Changed(l, ids, heights, next, c)
    {
      hide T.Splice, Inserted, Removed, Valid, Texts, LineIds, Heights, T.LineObjects, Remeasured;
      KeptObjects(ids, c, wholeLineUpdateBefore, NewIds(next, |c.text| - 2));
      ReplaceLines(l, c);
      ReplaceLinesHeights(heights, l, c, estimate);
    }

    /** heightAtLine: the height above a line. */
    method HeightAtLine(n: int) returns (h: real)
      requires Valid() && 0 <= n < |Texts()|
      ensures n < |Heights()| && h == Total(Heights()[..n])
    {
      LineNoOfGetLine(root, n);
      PathMeansPosition(root, GetLine(root, n));
      TotalOfPrefix(Lines(root), n);
      h := HeightAt(root, GetLine(root, n));
    }

    /** lineAtHeight: the line at a vertical position, with the first one above and none below the document. */
    method LineNoAtHeight(h: real) returns (n: int)
      requires Valid() && forall i: nat | i < |Heights()| :: Heights()[i] >= 0.0
      ensures h < 0.0 ==> n == 0
      ensures 0.0 <= h < Total(Heights()) ==>
                0 <= n < |Heights()| == |Texts()| && Total(Heights()[..n]) <= h < Total(Heights()[..n + 1])
      ensures 0.0 <= h && h >= Total(Heights()) ==> n == |Texts()|
    {
      ghost var lines := Lines(root);
      assert NoNegativeHeights(lines) by {
        forall i: nat | i < |lines| ensures lines[i].height >= 0.0 { assert lines[i].height == Heights()[i]; }
      }
      TotalNotNegative(lines);
      TotalOfPrefix(lines, |lines|);
      assert lines[..|lines|] == lines && Heights()[..|lines|] == Heights();
      n := LineAtHeight(root, h);
      if h < 0.0 {
        AboveIsFirst(root, h);
      } else if h < Total(Heights()) {
        LineAtHeightContains(root, h);
        TotalOfPrefix(lines, n);
        TotalOfPrefix(lines, n + 1);
      } else {
        BelowIsNone(root, h);
      }
    }

    /** getBetween: the text between two positions. */
    method GetBetween(start: T.Pos, end: T.Pos) returns (out: seq<string>)
      requires Valid() && T.InText(Texts(), start) && T.InText(Texts(), end) && T.Le(start, end)
      ensures out == T.Between(Texts(), start, end)
    {
      out := [];
      ghost var l := Texts();
      var n := start.line;
      while n < end.line + 1
        invariant start.line <= n <= end.line + 1
        invariant |out| == n - start.line
        invariant forall i: nat | i < |out| :: out[i] == Cut(l, start.line + i, start, end)
      {
        var text := LineText(n);
        if n == end.line { text := text[..end.ch]; }
        if n == start.line { text := text[start.ch..]; }
        out := out + [text];
        n := n + 1;
      }
    }
  }

  /** Line `n` of `l`, cut where `end` and then `start` fall into it. */
  ghost function Cut(l: T.Lines, n: int, start: T.Pos, end: T.Pos): string
    requires T.InText(l, start) && T.InText(l, end) && T.Le(start, end) && start.line <= n <= end.line
  {
    var text := if n == end.line then l[n][..end.ch] else l[n];
    if n == start.line then text[start.ch..] else text
  }

  lemma InsertedParts(lines: seq<Line>, at: int, added: seq<Line>)
    requires 0 <= at <= |lines|
    ensures TextsOf(Inserted(lines, at, added)) == Inserted(TextsOf(lines), at, TextsOf(added))
    ensures IdsOf(Inserted(lines, at, added)) == Inserted(IdsOf(lines), at, IdsOf(added))
    ensures HeightsOf(Inserted(lines, at, added)) == Inserted(HeightsOf(lines), at, HeightsOf(added))
  {
  }

  lemma InsertedDistinct(ids: seq<nat>, next: nat, at: int, n: nat)
    requires DistinctIds(ids, next) && 0 <= at <= |ids|
    ensures DistinctIds(Inserted(ids, at, NewIds(next, n)), next + n)
  {
  }

  lemma RemovedDistinct(ids: seq<nat>, next: nat, at: int, n: nat)
    requires DistinctIds(ids, next) && 0 <= at && at + n <= |ids|
    ensures DistinctIds(Removed(ids, at, n), next)
  {
  }

  /** The calls that the branches of updateDoc make, on line objects. */
  lemma KeptObjects(ids: seq<nat>, c: T.Change, option: bool, added: seq<nat>)
    requires 0 <= c.from.line <= c.to.line < |ids| && |added| == T.LinesMade(c, option)
    ensures var r, from, nlines := T.LineObjects(ids, c, option, added), c.from.line, c.to.line - c.from.line;
            if T.IsWholeLineUpdate(c, option) then Inserted(Removed(ids, from, nlines), from, added) == r
            else if nlines == 0 then (if |c.text| == 1 then ids else Inserted(ids, from + 1, added)) == r
            else if |c.text| == 1 then Removed(ids, from + 1, nlines) == r
            else Inserted(Removed(ids, from + 1, nlines - 1), from + 1, added) == r
  {
  }

  // ----- heights -----

  /** The heights after a change that led to `texts`: the lines of its text are measured, and the others keep
      theirs. */
  ghost function Remeasured(heights: seq<real>, texts: seq<string>, c: T.Change, estimate: string -> real): seq<real>
    requires 0 <= c.from.line <= c.to.line < |heights| && c.from.line + |c.text| <= |texts|
  {
    var from := c.from.line;
    heights[..from] + Estimates(estimate, texts[from..from + |c.text|]) + heights[c.to.line + 1..]
  }

  lemma {:induction false} TotalOfPrefix(lines: seq<Line>, n: nat)
    requires n <= |lines|
    ensures TotalHeight(lines[..n]) == Total(HeightsOf(lines)[..n])
  {
    if n > 0 {
      TotalOfPrefix(lines[1..], n - 1);
      assert lines[..n][1..] == lines[1..][..n - 1];
      assert HeightsOf(lines)[..n][1..] == HeightsOf(lines[1..])[..n - 1];
    }
  }

  lemma {:induction false} TotalConcat(a: seq<real>, b: seq<real>)
    ensures Total(a + b) == Total(a) + Total(b)
  {
    if a == [] {
      assert a + b == b;
    } else {
      TotalConcat(a[1..], b);
      assert (a + b)[1..] == a[1..] + b;
    }
  }

  /** updateDoc and then heightAtLine: above a line behind the change lie the lines before the change as they
      were, the lines of its text as measured, and the lines behind it as they were. */
  method HeightAfterChange(doc: Doc, c: T.Change, n: int) returns (h: real)
    requires doc.Valid() && T.InRange(doc.Texts(), c) && 0 <= n < |T.Splice(doc.Texts(), c)|
    modifies doc
    ensures doc.Valid() && doc.Texts() == T.Splice(old(doc.Texts()), c) && |old(doc.Heights())| == |old(doc.Texts())|
    ensures var was, from, to, end := old(doc.Heights()), c.from.line, c.to.line, c.from.line + |c.text|;
            && (n <= from ==> h == Total(was[..n]))
            && end <= |doc.Texts()| == |was| + end - to - 1
            && (from < n <= end ==>
                  h == Total(was[..from]) + Total(Estimates(doc.estimate, doc.Texts()[from..n])))
            && (n > end ==>
                  h == Total(was[..from]) + Total(Estimates(doc.estimate, doc.Texts()[from..end]))
                       + Total(was[to + 1..to + 1 + n - end]))
  {
    hide T.Splice, Doc.Valid, Doc.Texts, Doc.Heights, Remeasured, Total;
    SpliceWrites(doc.Texts(), c);
    ghost var was := doc.Heights();
    doc.UpdateDoc(c);
    doc.SameLength();
    h := doc.HeightAtLine(n);
    RemeasuredAbove(was, doc.Texts(), c, doc.estimate, n);
  }

  lemma RemeasuredAbove(was: seq<real>, texts: seq<string>, c: T.Change, estimate: string -> real, n: nat)
    requires 0 <= c.from.line <= c.to.line < |was| && c.from.line + |c.text| <= |texts|
    requires |texts| == |Remeasured(was, texts, c, estimate)| && n <= |texts|
    ensures var from, to, end := c.from.line, c.to.line, c.from.line + |c.text|;
            var h := Total(Remeasured(was, texts, c, estimate)[..n]);
            && |was| == |texts| + to + 1 - end
            && (n <= from ==> h == Total(was[..n]))
            && (from < n <= end ==> h == Total(was[..from]) + Total(Estimates(estimate, texts[from..n])))
            && (n > end ==>
                  h == Total(was[..from]) + Total(Estimates(estimate, texts[from..end]))
                       + Total(was[to + 1..to + 1 + n - end]))
  {
    hide Total;
    var from, to, end := c.from.line, c.to.line, c.from.line + |c.text|;
    var heights, measured := Remeasured(was, texts, c, estimate), Estimates(estimate, texts[from..end]);
    if n <= from {
      assert heights[..n] == was[..n];
    } else if n <= end {
      assert heights[..n] == was[..from] + Estimates(estimate, texts[from..n]);
      TotalConcat(was[..from], Estimates(estimate, texts[from..n]));
    } else {
      assert heights[..n] == was[..from] + measured + was[to + 1..to + 1 + n - end];
      TotalConcat(was[..from] + measured, was[to + 1..to + 1 + n - end]);
      TotalConcat(was[..from], measured);
    }
  }

  /** The texts of the lines that the text of a change comes to lie in. */
  ghost function Written(l: T.Lines, c: T.Change): (r: seq<string>)
    requires T.InRange(l, c)
    ensures |r| == |c.text|
  {
    var before, after := l[c.from.line][..c.from.ch], l[c.to.line][c.to.ch..];
    if |c.text| == 1 then [before + c.text[0] + after]
    else [before + c.text[0]] + c.text[1..|c.text| - 1] + [T.Last(c.text) + after]
  }

  lemma SpliceWrites(l: T.Lines, c: T.Change)
    requires T.InRange(l, c)
    ensures var r := T.Splice(l, c);
            c.from.line + |c.text| <= |r| && r[c.from.line..c.from.line + |c.text|] == Written(l, c)
  {
    var first, at := l[c.from.line], c.from.line;
    var g := T.Glue(T.Before(l, c.from), c.text);
    if |c.text| == 1 {
      assert g == l[..at] + [first[..c.from.ch] + c.text[0]];
    } else {
      assert g == l[..at] + ([first[..c.from.ch] + c.text[0]] + c.text[1..|c.text| - 1] + [T.Last(c.text)]);
    }
  }

  // The calls that the five branches of updateDoc make, on heights.

  lemma WholeLinesHeights(heights: seq<real>, l: T.Lines, c: T.Change, estimate: string -> real)
    requires T.InRange(l, c) && |heights| == |l| && T.IsWholeLineUpdate(c, true)
    ensures c.from.line + |c.text| <= |T.Splice(l, c)|
    ensures var r, from, to := Remeasured(heights, T.Splice(l, c), c, estimate), c.from.line, c.to.line;
            var u, added := heights[to := estimate(l[to])], Estimates(estimate, c.text[..|c.text| - 1]);
            Inserted(Removed(u, from, to - from), from, added) == r
  {
    hide T.Splice;
    SpliceWrites(l, c);
    WholeLinesWrite(l, c);
  }

  lemma WithinLineHeights(heights: seq<real>, l: T.Lines, c: T.Change, estimate: string -> real)
    requires T.InRange(l, c) && |heights| == |l| && c.from.line == c.to.line && |c.text| == 1
    ensures c.from.line + |c.text| <= |T.Splice(l, c)|
    ensures var r, from, to := Remeasured(heights, T.Splice(l, c), c, estimate), c.from.line, c.to.line;
            heights[from := estimate(l[from][..c.from.ch] + T.Last(c.text) + l[to][c.to.ch..])] == r
  {
    hide T.Splice;
    SpliceWrites(l, c);
  }

  lemma SplitLineHeights(heights: seq<real>, l: T.Lines, c: T.Change, estimate: string -> real)
    requires T.InRange(l, c) && |heights| == |l| && c.from.line == c.to.line && |c.text| > 1
    ensures c.from.line + |c.text| <= |T.Splice(l, c)|
    ensures var r, from, to := Remeasured(heights, T.Splice(l, c), c, estimate), c.from.line, c.to.line;
            var added := c.text[1..|c.text| - 1] + [T.Last(c.text) + l[to][c.to.ch..]];
            var u := heights[from := estimate(l[from][..c.from.ch] + c.text[0])];
            Inserted(u, from + 1, Estimates(estimate, added)) == r
  {
    hide T.Splice;
    SpliceWrites(l, c);
  }

  lemma JoinLinesHeights(heights: seq<real>, l: T.Lines, c: T.Change, estimate: string -> real)
    requires T.InRange(l, c) && |heights| == |l| && c.from.line < c.to.line && |c.text| == 1
    ensures c.from.line + |c.text| <= |T.Splice(l, c)|
    ensures var r, from, to := Remeasured(heights, T.Splice(l, c), c, estimate), c.from.line, c.to.line;
            var u := heights[from := estimate(l[from][..c.from.ch] + c.text[0] + l[to][c.to.ch..])];
            Removed(u, from + 1, to - from) == r
  {
    hide T.Splice;
    SpliceWrites(l, c);
  }

  lemma ReplaceLinesHeights(heights: seq<real>, l: T.Lines, c: T.Change, estimate: string -> real)
    requires T.InRange(l, c) && |heights| == |l| && c.from.line < c.to.line && |c.text| > 1
    ensures c.from.line + |c.text| <= |T.Splice(l, c)|
    ensures var r, from, to := Remeasured(heights, T.Splice(l, c), c, estimate), c.from.line, c.to.line;
            var first, last := l[from][..c.from.ch] + c.text[0], T.Last(c.text) + l[to][c.to.ch..];
            var u, added := heights[from := estimate(first)][to := estimate(last)], c.text[1..|c.text| - 1];
            Inserted(Removed(u, from + 1, to - from - 1), from + 1, Estimates(estimate, added)) == r
  {
    hide T.Splice;
    SpliceWrites(l, c);
  }

  lemma WholeLinesWrite(l: T.Lines, c: T.Change)
    requires T.InRange(l, c) && T.IsWholeLineUpdate(c, true)
    ensures Written(l, c) == c.text[..|c.text| - 1] + [l[c.to.line]]
  {
    var last := l[c.to.line];
    assert l[c.from.line][..0] == "" && last[0..] == last && "" + last == last && "" + c.text[0] == c.text[0];
    assert "" + c.text[0] + last == c.text[0] + last;
  }

  lemma NothingRemoved<X>(l: seq<X>, at: int)
    requires 0 <= at <= |l|
    ensures Removed(l, at, 0) == l
  {
  }

  lemma NothingInserted<X>(l: seq<X>, at: int)
    requires 0 <= at <= |l|
    ensures Inserted(l, at, []) == l
  {
  }

  // ----- the five branches, on plain lists of lines -----

  lemma WholeLines(l: T.Lines, c: T.Change)
    requires T.InRange(l, c) && c.from.ch == 0 && c.to.ch == 0 && T.Last(c.text) == ""
    ensures var kept := Removed(l, c.from.line, c.to.line - c.from.line);
            Inserted(kept, c.from.line, c.text[..|c.text| - 1]) == T.Splice(l, c)
  {
    hide T.Splice, T.Last;
    if |c.text| == 1 {
      NoWholeLines(l, c);
    } else {
      SomeWholeLines(l, c);
    }
  }

  lemma NoWholeLines(l: T.Lines, c: T.Change)
    requires T.InRange(l, c) && c.from.ch == 0 && c.to.ch == 0 && T.Last(c.text) == "" && |c.text| == 1
    ensures var kept := Removed(l, c.from.line, c.to.line - c.from.line);
            Inserted(kept, c.from.line, c.text[..|c.text| - 1]) == T.Splice(l, c)
  {
    var first, last := l[c.from.line], l[c.to.line];
    assert first[..0] == "" && last[0..] == last && "" + last == last;
    assert c.text == [""] && "" + "" == "";
    assert T.Glue(T.Before(l, c.from), c.text) == l[..c.from.line] + [""];
    assert T.Splice(l, c) == l[..c.from.line] + [last] + l[c.to.line + 1..];
  }

  lemma SomeWholeLines(l: T.Lines, c: T.Change)
    requires T.InRange(l, c) && c.from.ch == 0 && c.to.ch == 0 && T.Last(c.text) == "" && |c.text| > 1
    ensures var kept := Removed(l, c.from.line, c.to.line - c.from.line);
            Inserted(kept, c.from.line, c.text[..|c.text| - 1]) == T.Splice(l, c)
  {
    var first, last, init := l[c.from.line], l[c.to.line], c.text[..|c.text| - 1];
    assert first[..0] == "" && last[0..] == last && "" + last == last;
    assert c.text[0] == "" + c.text[0] && c.text == init + [""];
    assert T.Glue(T.Before(l, c.from), c.text) == l[..c.from.line] + init + [""];
    assert T.Splice(l, c) == l[..c.from.line] + init + [last] + l[c.to.line + 1..];
  }

  lemma WithinLine(l: T.Lines, c: T.Change)
    requires T.InRange(l, c) && c.from.line == c.to.line && |c.text| == 1
    ensures var line := l[c.from.line];
            l[c.from.line := line[..c.from.ch] + T.Last(c.text) + line[c.to.ch..]] == T.Splice(l, c)
  {
    var line := l[c.from.line];
    assert T.Glue(T.Before(l, c.from), c.text) == l[..c.from.line] + [line[..c.from.ch] + c.text[0]];
  }

  lemma SplitLine(l: T.Lines, c: T.Change)
    requires T.InRange(l, c) && c.from.line == c.to.line && |c.text| > 1
    ensures var line, at := l[c.from.line], c.from.line;
            var u := l[at := line[..c.from.ch] + c.text[0]];
            Inserted(u, at + 1, c.text[1..|c.text| - 1] + [T.Last(c.text) + line[c.to.ch..]]) == T.Splice(l, c)
  {
    var line, at := l[c.from.line], c.from.line;
    assert T.Glue(T.Before(l, c.from), c.text) ==
      l[..at] + [line[..c.from.ch] + c.text[0]] + c.text[1..|c.text| - 1] + [T.Last(c.text)];
  }

  lemma JoinLines(l: T.Lines, c: T.Change)
    requires T.InRange(l, c) && c.from.line < c.to.line && |c.text| == 1
    ensures var first, last := l[c.from.line], l[c.to.line];
            var u := l[c.from.line := first[..c.from.ch] + c.text[0] + last[c.to.ch..]];
            Removed(u, c.from.line + 1, c.to.line - c.from.line) == T.Splice(l, c)
  {
    var first := l[c.from.line];
    assert T.Glue(T.Before(l, c.from), c.text) == l[..c.from.line] + [first[..c.from.ch] + c.text[0]];
  }

  lemma ReplaceLines(l: T.Lines, c: T.Change)
    requires T.InRange(l, c) && c.from.line < c.to.line && |c.text| > 1
    ensures var first, last, at := l[c.from.line], l[c.to.line], c.from.line;
            var u := l[at := first[..c.from.ch] + c.text[0]][c.to.line := T.Last(c.text) + last[c.to.ch..]];
            Inserted(Removed(u, at + 1, c.to.line - at - 1), at + 1, c.text[1..|c.text| - 1]) == T.Splice(l, c)
  {
    var first, last, at := l[c.from.line], l[c.to.line], c.from.line;
    assert T.Glue(T.Before(l, c.from), c.text) ==
      l[..at] + [first[..c.from.ch] + c.text[0]] + c.text[1..|c.text| - 1] + [T.Last(c.text)];
  }
}
