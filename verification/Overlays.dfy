/** Merging overlay segments into a line's style segments, and finding the style at a character. */
module Overlays {
  import opened Common
  import opened Highlight

  const OVERLAY := "cm-overlay "

  /** The style of a character with style `base` under an overlay's style. */
  function Combine(base: Style, ov: Style, opaque_: bool): Style
  {
    if Falsy(ov) then base
    else if opaque_ then Some(OVERLAY + ov.value)
    else Some((if Falsy(base) then "" else base.value + " ") + OVERLAY + ov.value)
  }

  function CombineAll(base: seq<Style>, ov: seq<Style>, opaque_: bool): (r: seq<Style>)
    requires |base| == |ov|
    ensures |r| == |base| && forall i: nat | i < |r| :: r[i] == Combine(base[i], ov[i], opaque_)
  {
    seq(|base|, i requires 0 <= i < |base| => Combine(base[i], ov[i], opaque_))
  }

  function Restyled(segs: seq<Seg>, ov: Style): (r: seq<Seg>)
    ensures |r| == |segs| && forall i: nat | i < |r| :: r[i] == Seg(segs[i].end, Combine(segs[i].style, ov, false))
  {
    seq(|segs|, i requires 0 <= i < |segs| => Seg(segs[i].end, Combine(segs[i].style, ov, false)))
  }

  lemma CombineConcat(a: seq<Style>, b: seq<Style>, x: seq<Style>, y: seq<Style>, opaque_: bool)
    requires |a| == |x| && |b| == |y|
    ensures CombineAll(a + b, x + y, opaque_) == CombineAll(a, x, opaque_) + CombineAll(b, y, opaque_)
  {
  }

  /** Restyling segments restyles each of their characters. */
  ghost predicate RestylesTo(segs: seq<Seg>, lo: int, ov: Style)
  {
    var r, n := Restyled(segs, ov), EndOf(segs, lo) - lo;
    && Tiled(r, lo) && EndOf(r, lo) == EndOf(segs, lo) && |Paint(segs, lo)| == n
    && Paint(r, lo) == CombineAll(Paint(segs, lo), Fill(n, ov), false)
  }

  lemma RestyleOne(s: Seg, lo: int, ov: Style)
    requires lo < s.end
    ensures RestylesTo([s], lo, ov)
  {
    assert Restyled([s], ov) == [Seg(s.end, Combine(s.style, ov, false))];
    PaintOne(s, lo);
    PaintOne(Seg(s.end, Combine(s.style, ov, false)), lo);
    FillCombined(s.end - lo, s.style, ov);
  }

  lemma RestyledConcat(a: seq<Seg>, b: seq<Seg>, ov: Style)
    ensures Restyled(a + b, ov) == Restyled(a, ov) + Restyled(b, ov)
  {
  }

  lemma RestyleConcat(a: seq<Seg>, b: seq<Seg>, lo: int, ov: Style)
    requires Tiled(a, lo) && Tiled(b, EndOf(a, lo)) && RestylesTo(a, lo, ov) && RestylesTo(b, EndOf(a, lo), ov)
    ensures RestylesTo(a + b, lo, ov)
  {
    hide Tiled, Paint, Fill, EndOf, Combine, CombineAll, Restyled;
    var mid, end := EndOf(a, lo), EndOf(b, EndOf(a, lo));
    PaintLength(a, lo);
    PaintLength(b, mid);
    RestyledConcat(a, b, ov);
    FillConcat(mid - lo, end - mid, ov);
    TiledConcat(a, b, lo);
    TiledConcat(Restyled(a, ov), Restyled(b, ov), lo);
    CombineConcat(Paint(a, lo), Paint(b, mid), Fill(mid - lo, ov), Fill(end - mid, ov), false);
  }

  lemma {:induction false} RestyledPaint(segs: seq<Seg>, lo: int, ov: Style)
    requires Tiled(segs, lo)
    ensures RestylesTo(segs, lo, ov)
  {
    if segs != [] {
      RestyledPaint(segs[1..], segs[0].end, ov);
      RestyleOne(segs[0], lo, ov);
      assert EndOf([segs[0]], lo) == segs[0].end;
      PaintOne(segs[0], lo);
      RestyleConcat([segs[0]], segs[1..], lo, ov);
      assert segs == [segs[0]] + segs[1..];
    }
  }

  lemma FillCombined(k: nat, base: Style, ov: Style)
    ensures Fill(k, Combine(base, ov, false)) == CombineAll(Fill(k, base), Fill(k, ov), false)
  {
  }

  lemma OpaquePaint(base: seq<Style>, ov: Style, n: nat)
    requires !Falsy(ov) && |base| == n
    ensures Fill(n, Some(OVERLAY + ov.value)) == CombineAll(base, Fill(n, ov), true)
  {
  }

  lemma NoStylePaint(base: seq<Style>, ov: Style, opaque_: bool)
    requires Falsy(ov)
    ensures CombineAll(base, Fill(|base|, ov), opaque_) == base
  {
  }

  /** A line's segments, cut where the merging has got to: `front` ends at character `at`, and `rest` goes on
      from there to `n`. The pair stands for the array st and the index i into it. */
  ghost predicate CutAt(front: seq<Seg>, rest: seq<Seg>, at: int, n: int)
  {
    && Tiled(front, 0) && EndOf(front, 0) == at && Tiled(rest, at) && EndOf(rest, at) == n
  }

  /** The while loop of the callback: makes sure a segment ends at `end`, and takes those up to it. */
  method TakeUpTo(rest0: seq<Seg>, at0: int, end: int, ghost n: int) returns (mid: seq<Seg>, rest: seq<Seg>)
    requires Tiled(rest0, at0) && EndOf(rest0, at0) == n && at0 < end <= n
    ensures Tiled(mid, at0) && EndOf(mid, at0) == end && Tiled(rest, end) && EndOf(rest, end) == n
    ensures Paint(rest0, at0) == Paint(mid, at0) + Paint(rest, end)
  {
    hide Tiled, Paint, Fill;
    mid, rest := [], rest0;
    var at := at0;
    NothingTaken(rest0, at0);
    while at < end
      invariant at0 <= at <= end && Tiled(mid, at0) && EndOf(mid, at0) == at && Tiled(rest, at) && EndOf(rest, at) == n
      invariant Paint(rest0, at0) == Paint(mid, at0) + Paint(rest, at)
      decreases end - at
    {
      HasNext(rest, at, n);
      var i_end := rest[0].end;
      if i_end > end {
        SplitFirst(rest, at, end);
        rest := [Seg(end, rest[0].style), Seg(i_end, rest[0].style)] + rest[1..];
      }
      TakeFirst(mid, rest, at0, at);
      ConcatAssociates(Paint(mid, at0), Paint([rest[0]], at), Paint(rest[1..], rest[0].end));
      mid, rest := mid + [rest[0]], rest[1..];
      at := if end < i_end then end else i_end;
    }
  }

  lemma NothingTaken(rest: seq<Seg>, at: int)
    ensures Tiled([], at) && EndOf([], at) == at && Paint(rest, at) == Paint([], at) + Paint(rest, at)
  {
  }

  lemma HasNext(rest: seq<Seg>, at: int, n: int)
    requires EndOf(rest, at) == n && at < n && Tiled(rest, at)
    ensures rest != [] && at < rest[0].end
  {
  }

  lemma SplitOne(lo: int, end: int, s: Seg)
    requires lo < end < s.end
    ensures var r := [Seg(end, s.style), s];
            && Tiled(r, lo) && EndOf(r, lo) == s.end && Paint(r, lo) == Paint([s], lo)
            && Tiled([s], lo) && EndOf([s], lo) == s.end
  {
    var a := Seg(end, s.style);
    assert [a, s] == [a] + [s];
    TiledConcat([a], [s], lo);
    PaintOne(a, lo);
    PaintOne(s, end);
    PaintOne(s, lo);
    FillConcat(end - lo, s.end - end, s.style);
  }

  /** Splitting the first segment changes no character. */
  lemma SplitFirst(rest: seq<Seg>, lo: int, end: int)
    requires rest != [] && Tiled(rest, lo) && lo < end < rest[0].end
    ensures var r := [Seg(end, rest[0].style), Seg(rest[0].end, rest[0].style)] + rest[1..];
            Tiled(r, lo) && EndOf(r, lo) == EndOf(rest, lo) && Paint(r, lo) == Paint(rest, lo)
  {
    hide Tiled, Paint, Fill, EndOf;
    var s, tail := rest[0], rest[1..];
    var ab := [Seg(end, s.style), s];
    SplitOne(lo, end, s);
    TiledConcat(ab, tail, lo);
    TiledConcat([s], tail, lo);
    assert rest == [s] + tail;
  }

  lemma TakeFirst(mid: seq<Seg>, rest: seq<Seg>, lo: int, at: int)
    requires Tiled(mid, lo) && EndOf(mid, lo) == at && rest != [] && Tiled(rest, at)
    ensures Tiled(mid + [rest[0]], lo) && EndOf(mid + [rest[0]], lo) == rest[0].end > at
    ensures Tiled(rest[1..], rest[0].end) && EndOf(rest[1..], rest[0].end) == EndOf(rest, at)
    ensures Paint(mid + [rest[0]], lo) == Paint(mid, lo) + Paint([rest[0]], at)
    ensures Paint(rest, at) == Paint([rest[0]], at) + Paint(rest[1..], rest[0].end)
  {
    assert rest == [rest[0]] + rest[1..];
    TiledConcat([rest[0]], rest[1..], at);
    TiledConcat(mid, [rest[0]], lo);
    PaintOne(rest[0], at);
  }

  /** The rest of the callback: the segments taken get the overlay's style. */
  method Restyle(mid: seq<Seg>, at: int, end: int, style: Style, opaque_: bool) returns (r: seq<Seg>)
    requires Tiled(mid, at) && EndOf(mid, at) == end && at < end
    ensures Tiled(r, at) && EndOf(r, at) == end && |Paint(mid, at)| == end - at
    ensures Paint(r, at) == CombineAll(Paint(mid, at), Fill(end - at, style), opaque_)
  {
    hide Tiled, Paint, Fill, CombineAll;
    PaintLength(mid, at);
    if style == None || style.value == "" {
      NoStylePaint(Paint(mid, at), style, opaque_);
      return mid;
    }
    if opaque_ {
      PaintOne(Seg(end, Some(OVERLAY + style.value)), at);
      OpaquePaint(Paint(mid, at), style, end - at);
      return [Seg(end, Some(OVERLAY + style.value))];
    }
    r := mid;
    for k := 0 to |mid|
      invariant |r| == |mid|
      invariant forall j: nat | j < k :: r[j] == Seg(mid[j].end, Combine(mid[j].style, style, false))
      invariant forall j: nat | k <= j < |mid| :: r[j] == mid[j]
    {
      var cur := r[k].style;
      r := r[k := Seg(r[k].end, Some((if Falsy(cur) then "" else cur.value + " ") + OVERLAY + style.value))];
    }
    assert r == Restyled(mid, style);
    RestyledPaint(mid, at, style);
  }

  /** The overlay loop of highlightLine for one overlay: `ov` are the segments it is called back with. Still a
      tiling of the line, each character's style combined with the overlay's. */
  method MergeOverlay(base: seq<Seg>, ov: seq<Seg>, opaque_: bool, n: int) returns (st: seq<Seg>)
    requires Tiled(base, 0) && EndOf(base, 0) == n && Tiled(ov, 0) && EndOf(ov, 0) == n
    ensures Tiled(st, 0) && EndOf(st, 0) == n && |Paint(base, 0)| == |Paint(ov, 0)|
    ensures Paint(st, 0) == CombineAll(Paint(base, 0), Paint(ov, 0), opaque_)
  {
    hide Tiled, Paint, Fill, CombineAll, EndOf;
    PaintLength(base, 0);
    PaintLength(ov, 0);
    var front: seq<Seg>, rest, at := [], base, 0;
    ghost var below: seq<Style>, over: seq<Style> := [], [];
    NothingMerged(base, ov);
    for i := 0 to |ov|
      invariant Tiled(ov[i..], at) && EndOf(ov[i..], at) == n && CutAt(front, rest, at, n) && |below| == |over|
      invariant Paint(base, 0) == below + Paint(rest, at) && Paint(ov, 0) == over + Paint(ov[i..], at)
      invariant Paint(front, 0) == CombineAll(below, over, opaque_)
    {
      assert ov[i..][1..] == ov[i + 1..];
      var end, style := ov[i].end, ov[i].style;
      NextSegment(ov[i..], at, n);
      var mid;
      ghost var before := rest;
      mid, rest := TakeUpTo(rest, at, end, n);
      var restyled := Restyle(mid, at, end, style, opaque_);
      ConcatAssociates(below, Paint(mid, at), Paint(rest, end));
      ConcatAssociates(over, Fill(end - at, style), Paint(ov[i + 1..], end));
      TiledConcat(front, restyled, 0);
      CombineConcat(below, Paint(mid, at), over, Fill(end - at, style), opaque_);
      below, over := below + Paint(mid, at), over + Fill(end - at, style);
      front := front + restyled;
      at := end;
    }
    NothingLeft(ov[|ov|..], at, n);
    EmptyRest(rest, at, n);
    assert below + [] == below && over + [] == over;
    st := front;
  }

  lemma NothingMerged(base: seq<Seg>, ov: seq<Seg>)
    ensures Tiled([], 0) && EndOf([], 0) == 0 &&
              Paint([], 0) == [] == CombineAll([], [], true) == CombineAll([], [], false)
    ensures ov[0..] == ov && [] + Paint(base, 0) == Paint(base, 0) && [] + Paint(ov, 0) == Paint(ov, 0)
  {
  }

  lemma NextSegment(ov: seq<Seg>, at: int, n: int)
    requires ov != [] && Tiled(ov, at) && EndOf(ov, at) == n
    ensures at < ov[0].end <= n && Tiled(ov[1..], ov[0].end) && EndOf(ov[1..], ov[0].end) == n
    ensures Paint(ov, at) == Fill(ov[0].end - at, ov[0].style) + Paint(ov[1..], ov[0].end)
  {
    FirstEnd(ov, at);
    PaintLength(ov[1..], ov[0].end);
  }

  lemma NothingLeft(ov: seq<Seg>, at: int, n: int)
    requires ov == [] && EndOf(ov, at) == n
    ensures at == n && Paint(ov, at) == []
  {
  }

  lemma EmptyRest(rest: seq<Seg>, at: int, n: int)
    requires Tiled(rest, at) && EndOf(rest, at) == n && at == n
    ensures rest == [] && Paint(rest, at) == []
  {
    if rest != [] {
      NextSegment(rest, at, n);
      assert false;
    }
  }
}
