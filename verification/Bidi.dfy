/** bidiOrdering: from the characters of a line to spans with embedding levels, in visual order. */
module Bidi {
  import opened Common
  import opened BidiTypes
  import opened BidiRules
  import opened BidiLevels
  import opened BidiLaws

  datatype Span = Span(level: int, from: int, to: int)

  // ----- what the spans must be -----

  /** A non-empty stretch of positions of one level. */
  ghost predicate IsRun(t: seq<char>, s: Span)
  {
    0 <= s.from < s.to <= |t| && forall k: nat | s.from <= k < s.to :: Level(t, k) == s.level
  }

  ghost predicate Covered(order: seq<Span>, k: int)
  {
    exists m: nat | m < |order| :: order[m].from <= k < order[m].to
  }

  /** All of from..to is right-to-left. */
  ghost predicate AllRtl(t: seq<char>, from: int, to: int)
  {
    forall k: nat | from <= k < to && k < |t| :: InRtl(t, k)
  }

  /** `a` before `b` on screen, reading from the left: within one right-to-left stretch the later text comes
      first, otherwise the earlier. Either way the two do not overlap. */
  ghost predicate Before(t: seq<char>, a: Span, b: Span)
  {
    if AllRtl(t, a.from, a.to) && AllRtl(t, b.from, b.to) && AllRtl(t, a.from, b.to) && AllRtl(t, b.from, a.to)
    then b.to <= a.from else a.to <= b.from
  }

  ghost predicate InVisualOrder(t: seq<char>, order: seq<Span>)
  {
    forall i: nat, j: nat | i < j < |order| :: Before(t, order[i], order[j])
  }

  /** The spans are runs, in visual order, that cover the positions before `n` and no others. */
  ghost predicate Tiles(t: seq<char>, order: seq<Span>, n: int)
  {
    && (forall m: nat | m < |order| :: IsRun(t, order[m]) && order[m].to <= n)
    && (forall k: nat | k < n :: Covered(order, k))
    && InVisualOrder(t, order)
  }

  lemma BeforeIsApart(t: seq<char>, a: Span, b: Span, k: nat)
    requires Before(t, a, b)
    ensures !(a.from <= k < a.to && b.from <= k < b.to)
  {
  }

  /** Each position is in exactly one span, and has that span's level. */
  lemma TilesExactlyOnce(t: seq<char>, order: seq<Span>, k: nat)
    requires Tiles(t, order, |t|) && k < |t|
    ensures exists i: nat | i < |order| ::
              && order[i].from <= k < order[i].to && order[i].level == Level(t, k)
              && forall j: nat | j < |order| && order[j].from <= k < order[j].to :: j == i
  {
    assert Covered(order, k);
    var i: nat :| i < |order| && order[i].from <= k < order[i].to;
    forall j: nat | j < |order| && j != i ensures !(order[j].from <= k < order[j].to) {
      if i < j {
        BeforeIsApart(t, order[i], order[j], k);
      } else {
        BeforeIsApart(t, order[j], order[i], k);
      }
    }
    assert IsRun(t, order[i]);
  }

  // ----- one right-to-left stretch, built back to front -----

  /** `run` tiles lo..hi from the back. */
  ghost predicate Descending(t: seq<char>, run: seq<Span>, lo: int, hi: int)
  {
    && (forall m: nat | m < |run| :: IsRun(t, run[m]) && lo <= run[m].from && run[m].to <= hi)
    && (forall i: nat, j: nat | i < j < |run| :: run[j].to <= run[i].from)
    && (forall k: int | lo <= k < hi :: Covered(run, k))
  }

  lemma PrependSpan(t: seq<char>, run: seq<Span>, lo: int, s: Span)
    requires Descending(t, run, lo, s.from) && IsRun(t, s) && lo <= s.from
    ensures Descending(t, [s] + run, lo, s.to)
  {
    var r := [s] + run;
    forall k: int | lo <= k < s.to ensures Covered(r, k) {
      if k < s.from {
        assert Covered(run, k);
        var m: nat :| m < |run| && run[m].from <= k < run[m].to;
        assert r[m + 1] == run[m];
      } else {
        assert r[0].from <= k < r[0].to;
      }
    }
  }

  /** A right-to-left stretch goes behind everything before it. */
  lemma AppendRun(t: seq<char>, order: seq<Span>, run: seq<Span>, lo: int, hi: int)
    requires 0 <= lo <= hi <= |t| && Tiles(t, order, lo) && Descending(t, run, lo, hi) && AllRtl(t, lo, hi)
    requires lo > 0 ==> !InRtl(t, lo - 1)
    ensures Tiles(t, order + run, hi)
  {
    var r := order + run;
    forall k: nat | k < hi ensures Covered(r, k) {
      if k < lo {
        assert Covered(order, k);
        var m: nat :| m < |order| && order[m].from <= k < order[m].to;
        assert r[m] == order[m];
      } else {
        assert Covered(run, k);
        var m: nat :| m < |run| && run[m].from <= k < run[m].to;
        assert r[|order| + m] == run[m];
      }
    }
    forall i: nat, j: nat | i < j < |r| ensures Before(t, r[i], r[j]) {
      if j < |order| {
        assert Before(t, order[i], order[j]);
      } else if i < |order| {
        assert r[i].to <= lo <= r[j].from;
        assert !AllRtl(t, r[i].from, r[j].to) by { assert r[i].from <= lo - 1 < r[j].to; }
      } else {
        RtlInside(t, lo, hi, r[i]);
        RtlInside(t, lo, hi, r[j]);
      }
    }
  }

  lemma RtlInside(t: seq<char>, lo: int, hi: int, s: Span)
    requires AllRtl(t, lo, hi) && lo <= s.from && s.to <= hi
    ensures AllRtl(t, s.from, s.to)
  {
  }

  /** A left-to-right run goes behind everything before it. */
  lemma AppendLeft(t: seq<char>, order: seq<Span>, s: Span)
    requires Tiles(t, order, s.from) && IsRun(t, s) && s.level == 0
    ensures Tiles(t, order + [s], s.to)
  {
    var r := order + [s];
    assert !InRtl(t, s.from) by { assert Level(t, s.from) == 0; }
    forall k: nat | k < s.to ensures Covered(r, k) {
      if k < s.from {
        assert Covered(order, k);
        var m: nat :| m < |order| && order[m].from <= k < order[m].to;
        assert r[m] == order[m];
      } else {
        assert r[|order|].from <= k < r[|order|].to;
      }
    }
    forall i: nat, j: nat | i < j < |r| ensures Before(t, r[i], r[j]) {
      if j < |order| {
        assert Before(t, order[i], order[j]);
      } else {
        assert !AllRtl(t, s.from, s.to);
      }
    }
  }

  /** The spans of the right-to-left stretch pos..end, in visual order. */
  method BuildRtl(t: seq<char>, start: nat, end: nat) returns (run: seq<Span>)
    requires start < end <= |t| && AllRtl(t, start, end)
    ensures Descending(t, run, start, end) && run != []
  {
    run := [];
    var pos, j := start, start;
    while j < end
      invariant start <= pos <= j <= end && Descending(t, run, start, pos)
      invariant forall k: nat | pos <= k < j :: !CountsAsNum(t[k])
      invariant run == [] ==> pos == start
      decreases end - j
    {
      if CountsAsNum(t[j]) {
        if pos < j {
          PrependSpan(t, run, start, Span(1, pos, j));
          run := [Span(1, pos, j)] + run;
        }
        var nstart := j;
        j := j + 1;
        while j < end && CountsAsNum(t[j])
          invariant nstart < j <= end && forall k: nat | nstart <= k < j :: CountsAsNum(t[k])
        {
          j := j + 1;
        }
        PrependSpan(t, run, start, Span(2, nstart, j));
        run := [Span(2, nstart, j)] + run;
        pos := j;
      } else {
        j := j + 1;
      }
    }
    if pos < end {
      PrependSpan(t, run, start, Span(1, pos, end));
      run := [Span(1, pos, end)] + run;
    }
  }

  /** The last loop of bidiOrdering. */
  method BuildSpans(t: seq<char>) returns (order: seq<Span>)
    requires t != []
    ensures Tiles(t, order, |t|) && order != []
    ensures t[0] == 'L' ==> order[0].level == 0
    ensures t[|t| - 1] == 'L' ==> order[|order| - 1].level == 0
  {
    hide Tiles, Descending, Level, IsRun;
    order := [];
    EmptyTiles(t);
    var i: nat := 0;
    while i < |t|
      invariant i <= |t| && Tiles(t, order, i) && (i > 0 <==> order != [])
      invariant 0 < i < |t| && !CountsAsLeft(t[i]) ==> !InRtl(t, i - 1)
      invariant 0 < i < |t| && CountsAsLeft(t[i]) ==> t[i] == 'L'
      invariant i > 0 && t[0] == 'L' ==> order[0].level == 0
      invariant i > 0 && t[i - 1] == 'L' ==> order[|order| - 1].level == 0
      decreases |t| - i
    {
      if CountsAsLeft(t[i]) {
        var start := i;
        i := i + 1;
        while i < |t| && CountsAsLeft(t[i])
          invariant start < i <= |t| && forall k: nat | start <= k < i :: CountsAsLeft(t[k])
        {
          i := i + 1;
        }
        LeftRun(t, start, i);
        AppendLeft(t, order, Span(0, start, i));
        order := order + [Span(0, start, i)];
      } else {
        var start := i;
        i := i + 1;
        while i < |t| && t[i] != 'L'
          invariant start < i <= |t| && forall k: nat | start <= k < i :: t[k] != 'L'
        {
          i := i + 1;
        }
        RtlRun(t, start, i);
        var run := BuildRtl(t, start, i);
        AppendRun(t, order, run, start, i);
        order := order + run;
      }
    }
  }

  lemma EmptyTiles(t: seq<char>)
    ensures Tiles(t, [], 0)
  {
  }

  /** Characters that count as left, from the start or from an L on, are left-to-right. */
  lemma {:induction false} LeftRun(t: seq<char>, start: nat, end: nat)
    requires start < end <= |t| && (start == 0 || t[start] == 'L')
    requires forall k: nat | start <= k < end :: CountsAsLeft(t[k])
    ensures IsRun(t, Span(0, start, end)) && !InRtl(t, end - 1)
  {
    if start + 1 < end {
      LeftRun(t, start, end - 1);
    }
  }

  /** From a character that does not count as left to the next L, all is right-to-left. */
  lemma {:induction false} RtlRun(t: seq<char>, start: nat, end: nat)
    requires start < end <= |t| && !CountsAsLeft(t[start]) && forall k: nat | start <= k < end :: t[k] != 'L'
    ensures AllRtl(t, start, end) && InRtl(t, end - 1)
  {
    if start + 1 < end {
      RtlRun(t, start, end - 1);
    }
  }

  // ----- white space at the ends of the line -----

  ghost predicate AllSpaceTypes(s: seq<char>, from: nat, to: nat)
  {
    to <= |s| && forall k: nat | from <= k < to :: SpaceType(s[k])
  }

  ghost predicate AllLeftOrNeutral(s: seq<char>, from: nat, to: nat)
  {
    to <= |s| && forall k: nat | from <= k < to :: IsNeutral(s[k]) || s[k] == 'L'
  }

  /** No rule up to W7 makes a number, or anything right-to-left, of white space at an end of the line. */
  lemma SpacesUpToW7(s: seq<char>, a: seq<char>, b: seq<char>, c: seq<char>, d: seq<char>, e: seq<char>, from: nat,
      to: nat)
    requires ResolvedUpToW7(s, a, b, c, d, e) && AllSpaceTypes(s, from, to) && (from == 0 || to == |s|)
    ensures AllLeftOrNeutral(e, from, to)
  {
    assert forall k: nat | from <= k < to :: a[k] == s[k];
    assert forall k: nat | from <= k < to :: b[k] == s[k];
    forall k: nat | from <= k < to ensures c[k] == s[k] {
      if from == 0 {
        assert k > 0 ==> b[k - 1] == s[k - 1];
      } else {
        assert k + 1 < to ==> b[k + 1] == s[k + 1];
      }
    }
    forall k: nat | from <= k < to ensures d[k] == if s[k] == ',' then 'N' else s[k] {
      assert c[k] == s[k];
    }
    forall k: nat | from <= k < to ensures e[k] == d[k] {
      assert d[k] != '1';
    }
  }

  lemma {:induction false} LeadingFindsL(s: seq<char>, k: nat)
    requires k <= |s| && AllLeftOrNeutral(s, 0, k)
    ensures LastBefore(s, k, NotNeutral) == 'L'
  {
    if k > 0 { LeadingFindsL(s, k - 1); }
  }

  lemma {:induction false} TrailingFindsL(s: seq<char>, k: nat)
    requires k <= |s| && AllLeftOrNeutral(s, k, |s|)
    ensures FirstFrom(s, k, NotNeutral, 'L') == 'L'
    decreases |s| - k
  {
    if k < |s| { TrailingFindsL(s, k + 1); }
  }

  /** White space at an end of the line always ends up left-to-right. */
  lemma SpacesBecomeL(e: seq<char>, f: seq<char>, from: nat, to: nat)
    requires Applied(RuleN1N2, e, f) && AllLeftOrNeutral(e, from, to) && (from == 0 || to == |e|)
    ensures forall k: nat | from <= k < to :: f[k] == 'L'
  {
    forall k: nat | from <= k < to ensures f[k] == 'L' {
      if from == 0 {
        LeadingFindsL(e, k);
      } else {
        TrailingFindsL(e, k);
      }
    }
  }

  // ----- the whole function -----

  /** bidiRE: does the line contain right-to-left characters at all? */
  predicate HasRtl(codes: seq<int>)
  {
    exists i: nat | i < |codes| :: 0x590 <= codes[i] <= 0x5f4 || 0x600 <= codes[i] <= 0x6ff ||
      0x700 <= codes[i] <= 0x8ac
  }

  function CharTypes(codes: seq<int>): (r: seq<char>)
    requires forall i: nat | i < |codes| :: 0 <= codes[i]
    ensures |r| == |codes| && forall i: nat | i < |codes| :: r[i] == CharType(codes[i])
  {
    seq(|codes|, i requires 0 <= i < |codes| => CharType(codes[i]))
  }

  /** All the passes, in order. */
  method Resolve(s: seq<char>) returns (t: seq<char>)
    requires s != []
    ensures Resolved(s, t) && |t| == |s|
    ensures forall from: nat, to: nat | AllSpaceTypes(s, from, to) && (from == 0 || to == |s|) ::
              forall k: nat | from <= k < to :: t[k] == 'L'
  {
    hide Applied;
    var types := new char[|s|](i requires 0 <= i < |s| => s[i]);
    assert types[..] == s;
    PassW1(types);
    ghost var a := types[..];
    PassW2W3(types);
    ghost var b := types[..];
    PassW4(types);
    ghost var c := types[..];
    PassW5W6(types);
    ghost var d := types[..];
    PassW7(types);
    ghost var e := types[..];
    PassN1N2(types);
    t := types[..];
    assert ResolvedUpToW7(s, a, b, c, d, e);
    forall from: nat, to: nat | AllSpaceTypes(s, from, to) && (from == 0 || to == |s|)
      ensures forall k: nat | from <= k < to :: t[k] == 'L'
    {
      SpacesUpToW7(s, a, b, c, d, e, from, to);
      SpacesBecomeL(e, t, from, to);
    }
  }

  /** The number of characters that ^\\s+ or \\s+$ matches; 0 when it does not match. */
  function LeadingSpaces(codes: seq<int>): (n: nat)
    ensures n <= |codes| && forall i: nat | i < n :: IsSpace(codes[i])
  {
    if codes == [] || !IsSpace(codes[0]) then 0 else 1 + LeadingSpaces(codes[1..])
  }

  function TrailingSpaces(codes: seq<int>): (n: nat)
    ensures n <= |codes| && forall i: nat | |codes| - n <= i < |codes| :: IsSpace(codes[i])
  {
    if codes == [] || !IsSpace(codes[|codes| - 1]) then 0 else 1 + TrailingSpaces(codes[..|codes| - 1])
  }

  /** No white space at an end of the line where the span is right-to-left. */
  predicate NothingToTrim(spans: seq<Span>, codes: seq<int>)
    requires spans != []
  {
    && (spans[0].level == 1 ==> LeadingSpaces(codes) == 0)
    && (spans[|spans| - 1].level == 1 ==> TrailingSpaces(codes) == 0)
  }

  /** The code that takes leading and trailing white space out of right-to-left spans at the ends. */
  method TrimSpaces(spans: seq<Span>, codes: seq<int>) returns (order: seq<Span>)
    requires spans != []
    ensures order != []
    ensures NothingToTrim(spans, codes) ==> order == spans
  {
    order := spans;
    var m := LeadingSpaces(codes);
    if order[0].level == 1 && m > 0 {
      order := [Span(0, 0, m)] + order[0 := order[0].(from := m)];
    }
    m := TrailingSpaces(codes);
    var last := |order| - 1;
    if order[last].level == 1 && m > 0 {
      order := order[last := order[last].(to := order[last].to - m)] + [Span(0, |codes| - m, |codes|)];
    }
  }

  /** Position `k` is on level `l`: in some span, and only in spans of that level. */
  ghost predicate OnLevel(order: seq<Span>, k: nat, l: int)
  {
    && (exists m: nat :: m < |order| && order[m].from <= k < order[m].to && order[m].level == l)
    && forall m: nat | m < |order| && order[m].from <= k < order[m].to :: order[m].level == l
  }

  /** The code points by which bidiOrdering decides whether to order a line. */
  predicate IsRtlCode(code: int)
    requires 0 <= code
  {
    var t := CharType(code);
    t == 'R' || t == 'r' || t == 'n' || 0x600 <= code <= 0x6ed
  }

  /** bidiOrdering. The spans of positive length tile the line, each position having the level the rules give
      it; an empty one may follow, so that the line starts and ends on the same level. */
  method BidiOrdering(codes: seq<int>)
    returns (order: Option<seq<Span>>, ghost types: seq<char>, ghost levels: seq<int>)
    requires forall i: nat | i < |codes| :: 0 <= codes[i]
    ensures order.Some? <==> exists i: nat :: i < |codes| && IsRtlCode(codes[i])
    ensures order.Some? ==> LevelLaws(CharTypes(codes), levels)
    ensures order.Some? ==> forall k: nat | k < |codes| :: k < |levels| && OnLevel(order.value, k, levels[k])
    ensures order == None ==>
              (AllLeft(CharTypes(codes)) <==> !exists i: nat, j: nat :: BetweenBoundaries(CharTypes(codes), i, j))
    ensures order.Some? ==> Resolved(CharTypes(codes), types) && |types| == |codes|
    ensures order.Some? ==> exists spans: seq<Span> | Tiles(types, spans, |codes|) ::
              order.value == spans ||
              (spans != [] && order.value == spans + [Span(spans[0].level, |codes|, |codes|)])
    ensures order.Some? ==> order.value != [] && order.value[0].level == order.value[|order.value| - 1].level
  {
    hide Tiles, Resolved, LeadingSpaces, TrailingSpaces, HasRtl, IsRtlCode, LevelLaws, Level, OnLevel, AllLeft,
      BetweenBoundaries;
    types, levels := [], [];
    RtlCodes(codes);
    if !HasRtl(codes) {
      AllLeftIff(CharTypes(codes));
      return None, [], [];
    }
    var s := CharTypes(codes);
    var t := Resolve(s);
    types, levels := t, Levels(t);
    LawsHold(s, t);
    var spans := BuildSpans(t);
    LevelsOfSpans(t, spans);
    SpaceTypesAtEnds(codes, s);
    var trimmed := TrimSpaces(spans, codes);
    if trimmed[0].level != trimmed[|trimmed| - 1].level {
      order := Some(trimmed + [Span(trimmed[0].level, |codes|, |codes|)]);
    } else {
      order := Some(trimmed);
    }
  }

  /** Where Hebrew or Arabic can be. */
  lemma RtlCodes(codes: seq<int>)
    requires forall i: nat | i < |codes| :: 0 <= codes[i]
    ensures HasRtl(codes) <==> exists i: nat :: i < |codes| && IsRtlCode(codes[i])
    ensures !HasRtl(codes) ==> AllTypes(PlainType, CharTypes(codes))
    ensures '!' !in CharTypes(codes)
  {
    forall i: nat | i < |codes|
      ensures IsRtlCode(codes[i]) <==>
              0x590 <= codes[i] <= 0x5f4 || 0x600 <= codes[i] <= 0x6ff || 0x700 <= codes[i] <= 0x8ac
      ensures IsRtlCode(codes[i]) || PlainType(CharType(codes[i]))
      ensures CharType(codes[i]) != '!'
    {
      TypesAreKnown(codes[i]);
    }
  }

  /** The spans put every position on its level, with an empty one behind them too. */
  lemma LevelsOfSpans(t: seq<char>, spans: seq<Span>)
    requires Tiles(t, spans, |t|)
    ensures forall k: nat | k < |t| :: OnLevel(spans, k, Level(t, k))
    ensures forall k: nat, l: int | k < |t| :: OnLevel(spans + [Span(l, |t|, |t|)], k, Level(t, k))
  {
    hide Tiles, Level;
    forall k: nat | k < |t| ensures OnLevel(spans, k, Level(t, k)) {
      TilesExactlyOnce(t, spans, k);
    }
    forall k: nat, l: int | k < |t| ensures OnLevel(spans + [Span(l, |t|, |t|)], k, Level(t, k)) {
      EmptySpanBehind(spans, k, Level(t, k), Span(l, |t|, |t|));
    }
  }

  lemma EmptySpanBehind(spans: seq<Span>, k: nat, l: int, last: Span)
    requires OnLevel(spans, k, l) && k < last.from
    ensures OnLevel(spans + [last], k, l)
  {
    var all := spans + [last];
    var m: nat :| m < |spans| && spans[m].from <= k < spans[m].to && spans[m].level == l;
    assert all[m] == spans[m];
    assert forall n: nat | n < |all| && all[n].from <= k < all[n].to :: n < |spans| && all[n] == spans[n];
  }

  lemma SpaceTypesAtEnds(codes: seq<int>, s: seq<char>)
    requires (forall i: nat | i < |codes| :: 0 <= codes[i]) && s == CharTypes(codes)
    ensures AllSpaceTypes(s, 0, LeadingSpaces(codes)) && AllSpaceTypes(s, |s| - TrailingSpaces(codes), |s|)
  {
    forall k: nat | k < |s| && IsSpace(codes[k]) ensures SpaceType(s[k]) {
      SpacesAreHarmless(codes[k]);
    }
  }

  // ----- where W5 as written is not W5 -----

  /** W5 and W6 as the standard has them: terminators next to a European number, on either side, join it. */
  function StandardW5W6(s: seq<char>, i: nat): char
    requires i < |s|
  {
    if s[i] == ',' then 'N'
    else if s[i] == '%' then
      if LastBefore(s, i, NotTerminator) == '1' || FirstFrom(s, i, NotTerminator, 'L') == '1' then '1' else 'N'
    else s[i]
  }

  /** A European number directly before terminators, and none directly after them. */
  ghost predicate NumberOnlyBefore(s: seq<char>, i: nat)
  {
    i + 1 < |s| && s[i] == '1' && s[i + 1] == '%' && FirstFrom(s, i + 1, NotTerminator, 'L') != '1'
  }

  /** The rule as written is the standard's exactly when no terminators follow a European number without
      another number behind them. ('!' is not a character type.) */
  lemma W5AsWrittenIff(s: seq<char>)
    requires '!' !in s
    ensures (forall i: nat | i < |s| :: RuleW5W6(s, i) == StandardW5W6(s, i))
            <==> !exists i: nat :: NumberOnlyBefore(s, i)
  {
    if i: nat :| NumberOnlyBefore(s, i) {
      assert LastBefore(s, i + 1, NotTerminator) == '1';
      assert RuleW5W6(s, i + 1) != StandardW5W6(s, i + 1);
    } else {
      forall k: nat | k < |s| ensures RuleW5W6(s, k) == StandardW5W6(s, k) {
        LastBeforeIsIn(s, k, NotTerminator);
        if s[k] == '%' && LastBefore(s, k, NotTerminator) == '1' {
          var i := NumberBefore(s, k);
          assert !NumberOnlyBefore(s, i);
        }
      }
    }
  }

  /** The number before the terminators up to `k`. */
  lemma {:induction false} NumberBefore(s: seq<char>, k: nat) returns (i: nat)
    requires k < |s| && s[k] == '%' && LastBefore(s, k, NotTerminator) == '1'
    ensures i + 1 < |s| && s[i] == '1' && s[i + 1] == '%'
    ensures FirstFrom(s, i + 1, NotTerminator, 'L') == FirstFrom(s, k, NotTerminator, 'L')
  {
    if s[k - 1] == '1' {
      i := k - 1;
    } else {
      i := NumberBefore(s, k - 1);
    }
  }

  /** As Resolved, with W5 as the standard has it. */
  ghost predicate ResolvedByStandard(s: seq<char>, t: seq<char>)
  {
    exists a, b, c, d, e ::
      && Applied(RuleW1, s, a) && Applied(RuleW2W3, a, b) && Applied(RuleW4, b, c)
      && Applied(StandardW5W6, c, d) && Applied(RuleW7, d, e) && Applied(RuleN1N2, e, t)
  }

  /** A Hebrew letter, the digit 1 and a per cent sign. */
  const HEBREW_PERCENT: seq<int> := [0x5d0, 0x31, 0x25]

  /** On that line bidiOrdering puts the per cent sign on level 0; by the standard it is on level 2, as the number. */
  method PercentSignAfterNumber() returns (order: seq<Span>)
    ensures exists i: nat | i < |order| :: order[i].from <= 2 < order[i].to && order[i].level == 0
    ensures exists std: seq<char> :: ResolvedByStandard(CharTypes(HEBREW_PERCENT), std) && |std| == 3
    ensures forall std: seq<char>, spans: seq<Span>, i: nat |
              ResolvedByStandard(CharTypes(HEBREW_PERCENT), std) && Tiles(std, spans, 3) &&
              i < |spans| && spans[i].from <= 2 < spans[i].to :: spans[i].level == 2
  {
    hide Resolved, ResolvedByStandard, Tiles, Level, CharTypes, IsRtlCode, LevelLaws, OnLevel, AllLeft,
      BetweenBoundaries;
    PercentTypes();
    var found: Option<seq<Span>>;
    ghost var types;
    ghost var levels;
    found, types, levels := BidiOrdering(HEBREW_PERCENT);
    order := found.value;
    PercentSpan(types, order);
    StandardPercent();
    StandardLevels();
  }

  lemma PercentSpan(types: seq<char>, order: seq<Span>)
    requires Resolved("R1%", types)
    requires exists spans: seq<Span> | Tiles(types, spans, 3) ::
               order == spans || (spans != [] && order == spans + [Span(spans[0].level, 3, 3)])
    ensures exists i: nat | i < |order| :: order[i].from <= 2 < order[i].to && order[i].level == 0
  {
    hide Resolved, Tiles, Level;
    PercentResolved(types);
    var spans: seq<Span> :| Tiles(types, spans, 3) &&
      (order == spans || (spans != [] && order == spans + [Span(spans[0].level, 3, 3)]));
    TilesExactlyOnce(types, spans, 2);
    var i: nat :| i < |spans| && spans[i].from <= 2 < spans[i].to && spans[i].level == Level(types, 2);
    assert order[i] == spans[i];
  }

  lemma StandardLevels()
    ensures forall std: seq<char>, spans: seq<Span>, i: nat |
              ResolvedByStandard("R1%", std) && Tiles(std, spans, 3) &&
              i < |spans| && spans[i].from <= 2 < spans[i].to :: spans[i].level == 2
  {
    hide ResolvedByStandard, Tiles, Level;
    forall std: seq<char>, spans: seq<Span>, i: nat |
      ResolvedByStandard("R1%", std) && Tiles(std, spans, 3) && i < |spans| && spans[i].from <= 2 < spans[i].to
      ensures spans[i].level == 2
    {
      PercentByStandard(std);
      TileLevel(std, spans, i, 2);
    }
  }

  lemma PercentTypes()
    ensures CharTypes(HEBREW_PERCENT) == "R1%" && IsRtlCode(HEBREW_PERCENT[0])
  {
    assert LOW_TYPES[0x31] == '1' && LOW_TYPES[0x25] == '%';
  }

  lemma TileLevel(t: seq<char>, spans: seq<Span>, i: nat, k: nat)
    requires Tiles(t, spans, |t|) && i < |spans| && k < |t| && spans[i].from <= k < spans[i].to
    ensures spans[i].level == Level(t, k)
  {
  }

  /** What the rules before W5 make of the line, and what those after it look at. */
  lemma PercentBefore(a: seq<char>, b: seq<char>, c: seq<char>)
    requires Applied(RuleW1, "R1%", a) && Applied(RuleW2W3, a, b) && Applied(RuleW4, b, c)
    ensures c == "R1%" && LastBefore(c, 2, NotTerminator) == '1' && FirstFrom(c, 3, NotTerminator, 'L') == 'L'
  {
    assert a == "R1%";
    assert LastBefore(a, 1, IsStrong) == 'R';
    assert b == "R1%";
  }

  lemma PercentResolved(t: seq<char>)
    requires Resolved("R1%", t)
    ensures t == "R1L" && Level(t, 2) == 0
  {
    var a, b, c, d, e :| ResolvedUpToW7("R1%", a, b, c, d, e) && Applied(RuleN1N2, e, t);
    PercentBefore(a, b, c);
    assert d == "R1N";
    assert LastBefore(d, 1, IsStrong) == 'R';
    assert e == "R1N" && FirstFrom(e, 3, NotNeutral, 'L') == 'L';
    assert FirstFrom(e, 2, NotNeutral, 'L') == 'L';
  }

  lemma PercentByStandard(t: seq<char>)
    requires ResolvedByStandard("R1%", t)
    ensures t == "R11" && Level(t, 2) == 2
  {
    var a, b, c, d, e :|
      && Applied(RuleW1, "R1%", a) && Applied(RuleW2W3, a, b) && Applied(RuleW4, b, c)
      && Applied(StandardW5W6, c, d) && Applied(RuleW7, d, e) && Applied(RuleN1N2, e, t);
    PercentBefore(a, b, c);
    assert d == "R11";
    assert LastBefore(d, 1, IsStrong) == 'R' && LastBefore(d, 2, IsStrong) == 'R';
    assert e == "R11" && InRtl(t, 0) && InRtl(t, 1);
  }

  lemma StandardPercent()
    ensures ResolvedByStandard("R1%", "R11")
  {
    hide Applied;
    StandardBefore();
    StandardAfter();
  }

  lemma StandardBefore()
    ensures var s := "R1%"; Applied(RuleW1, s, s) && Applied(RuleW2W3, s, s) && Applied(RuleW4, s, s)
    ensures Applied(StandardW5W6, "R1%", "R11")
  {
    var s := "R1%";
    assert LastBefore(s, 1, IsStrong) == 'R' && LastBefore(s, 2, NotTerminator) == '1';
  }

  lemma StandardAfter()
    ensures Applied(RuleW7, "R11", "R11") && Applied(RuleN1N2, "R11", "R11")
  {
    assert LastBefore("R11", 1, IsStrong) == 'R' && LastBefore("R11", 2, IsStrong) == 'R';
  }

  // ----- where a line that is not ordered has levels -----

  /** A blank between two control characters. */
  const BLANK_AMONG_CONTROLS: seq<int> := [0, 0x20, 0]

  /** That line is not ordered, though by the rules the blank is on level 1. */
  method BlankBetweenBoundaries() returns (order: Option<seq<Span>>)
    ensures order == None && !AllLeft(CharTypes(BLANK_AMONG_CONTROLS))
  {
    hide CharTypes, AllLeft;
    BlankTypes();
    ghost var types, levels;
    order, types, levels := BidiOrdering(BLANK_AMONG_CONTROLS);
  }

  lemma BlankTypes()
    ensures CharTypes(BLANK_AMONG_CONTROLS) == "bwb" && BetweenBoundaries(CharTypes(BLANK_AMONG_CONTROLS), 0, 2)
    ensures forall i: nat | i < 3 :: !IsRtlCode(BLANK_AMONG_CONTROLS[i])
  {
    assert LOW_TYPES[0] == 'b' && LOW_TYPES[0x20] == 'w';
    assert CharTypes(BLANK_AMONG_CONTROLS) == "bwb";
  }
}
