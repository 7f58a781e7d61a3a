/** Highlighting a line: the segments runMode emits, overlays merged into them, and looking up a style. All of
    it is measured against the style of each single character. */
module Highlight {
  import opened Common

  /** A style string, or null. */
  type Style = Option<string>

  predicate Falsy(s: Style) { s == None || s == Some("") }

  /** A segment ends before character `end` and has one style. */
  datatype Seg = Seg(end: int, style: Style)

  // ----- segments and the characters they paint -----

  function Fill(n: int, s: Style): (r: seq<Style>)
    ensures |r| == (if n < 0 then 0 else n) && forall i: nat | i < |r| :: r[i] == s
  {
    if n < 0 then [] else seq(n, _ => s)
  }

  function EndOf(segs: seq<Seg>, lo: int): int
  {
    if segs == [] then lo else segs[|segs| - 1].end
  }

  /** Ends go up strictly from `lo`. */
  predicate Tiled(segs: seq<Seg>, lo: int)
  {
    segs == [] || (lo < segs[0].end && Tiled(segs[1..], segs[0].end))
  }

  /** The style of each character from `lo` on. */
  function Paint(segs: seq<Seg>, lo: int): seq<Style>
  {
    if segs == [] then [] else Fill(segs[0].end - lo, segs[0].style) + Paint(segs[1..], segs[0].end)
  }

  lemma EndOfConcat(a: seq<Seg>, b: seq<Seg>, lo: int)
    ensures EndOf(a + b, lo) == EndOf(b, EndOf(a, lo))
  {
    if b == [] { assert a + b == a; }
  }

  lemma {:induction false} TiledConcat(a: seq<Seg>, b: seq<Seg>, lo: int)
    ensures Tiled(a + b, lo) <==> Tiled(a, lo) && Tiled(b, EndOf(a, lo))
    ensures Paint(a + b, lo) == Paint(a, lo) + Paint(b, EndOf(a, lo))
    ensures EndOf(a + b, lo) == EndOf(b, EndOf(a, lo))
  {
    EndOfConcat(a, b, lo);
    PaintConcat(a, b, lo);
    hide Paint, EndOf;
    if a == [] {
      assert a + b == b;
      NoEnd(lo);
    } else {
      TiledConcat(a[1..], b, a[0].end);
      assert (a + b)[1..] == a[1..] + b && (a + b)[0] == a[0];
      FirstEnd(a, lo);
    }
  }

  lemma {:induction false} PaintConcat(a: seq<Seg>, b: seq<Seg>, lo: int)
    ensures Paint(a + b, lo) == Paint(a, lo) + Paint(b, EndOf(a, lo))
  {
    hide EndOf, Fill, Tiled;
    if a == [] {
      assert a + b == b;
      NoEnd(lo);
    } else {
      var head, tail := a[0], a[1..];
      PaintConcat(tail, b, head.end);
      assert (a + b)[1..] == tail + b && (a + b)[0] == head;
      FirstEnd(a, lo);
      ConcatAssociates(Fill(head.end - lo, head.style), Paint(tail, head.end), Paint(b, EndOf(a, lo)));
    }
  }

  lemma NoEnd(lo: int)
    ensures EndOf([], lo) == lo
  {
  }

  lemma FirstEnd(a: seq<Seg>, lo: int)
    requires a != []
    ensures EndOf(a[1..], a[0].end) == EndOf(a, lo)
  {
  }

  lemma ConcatAssociates(a: seq<Style>, b: seq<Style>, c: seq<Style>)
    ensures (a + b) + c == a + (b + c)
  {
  }

  lemma {:induction false} PaintLength(segs: seq<Seg>, lo: int)
    requires Tiled(segs, lo)
    ensures lo <= EndOf(segs, lo) && |Paint(segs, lo)| == EndOf(segs, lo) - lo
  {
    if segs != [] {
      PaintLength(segs[1..], segs[0].end);
    }
  }

  lemma PaintOne(s: Seg, lo: int)
    ensures Paint([s], lo) == Fill(s.end - lo, s.style) && (Tiled([s], lo) <==> lo < s.end)
  {
    assert [s][1..] == [];
  }

  lemma FillConcat(a: int, b: int, s: Style)
    requires 0 <= a && 0 <= b
    ensures Fill(a, s) + Fill(b, s) == Fill(a + b, s)
  {
  }

  // ----- reading tokens -----

  datatype Token<+St> = Token(pos: nat, style: Style, state: St)

  /** A mode: what one call of its token function does at a position of a line, in a state. */
  datatype Mode<!St> = Mode(token: (string, nat, St) -> Token<St>)

  /** A mode only moves forward, and not past the end of the line. */
  ghost predicate Forward<St(!new)>(mode: Mode<St>)
  {
    forall text, pos: nat, st | pos <= |text| :: pos <= mode.token(text, pos, st).pos <= |text|
  }

  /** readToken: up to `tries` calls, until one moves; None: it gives up with an error. */
  function ReadToken<St>(mode: Mode<St>, text: string, pos: nat, st: St, tries: nat): Option<Token<St>>
  {
    if tries == 0 then None
    else
      var t := mode.token(text, pos, st);
      if t.pos > pos then Some(t) else ReadToken(mode, text, pos, t.state, tries - 1)
  }

  lemma {:induction false} ReadTokenMoves<St(!new)>(mode: Mode<St>, text: string, pos: nat, st: St, tries: nat)
    requires Forward(mode) && pos <= |text|
    ensures var t := ReadToken(mode, text, pos, st, tries); t.Some? ==> pos < t.value.pos <= |text|
  {
    if tries > 0 {
      ReadTokenMoves(mode, text, pos, mode.token(text, pos, st).state, tries - 1);
    }
  }

  const TRIES := 10
  const MAX_NODE := 50000

  /** The tokens of a line from `pos` on; what lies beyond `max` is one token without style. None: the mode
      gets stuck. */
  function Tokens<St(!new)>(mode: Mode<St>, text: string, pos: nat, st: St, max: int): Option<seq<Seg>>
    requires Forward(mode) && pos <= |text|
    decreases |text| - pos
  {
    if pos == |text| then Some([])
    else if pos > max then Some([Seg(|text|, None)])
    else
      ReadTokenMoves(mode, text, pos, st, TRIES);
      var t := ReadToken(mode, text, pos, st, TRIES);
      if t == None then None
      else
        var rest := Tokens(mode, text, t.value.pos, t.value.state, max);
        if rest == None then None else Some([Seg(t.value.pos, t.value.style)] + rest.value)
  }

  lemma {:induction false} TokensTile<St(!new)>(mode: Mode<St>, text: string, pos: nat, st: St, max: int)
    requires Forward(mode) && pos <= |text|
    ensures var ts := Tokens(mode, text, pos, st, max);
            ts.Some? ==> Tiled(ts.value, pos) && EndOf(ts.value, pos) == |text|
    decreases |text| - pos
  {
    if pos < |text| && pos <= max {
      ReadTokenMoves(mode, text, pos, st, TRIES);
      var t := ReadToken(mode, text, pos, st, TRIES);
      if t.Some? {
        TokensTile(mode, text, t.value.pos, t.value.state, max);
      }
    }
  }

  /** The segments emitted so far, and the open one from `curStart` to `pos`, paint `done`. */
  ghost predicate Emitting(out: seq<Seg>, curStart: int, curStyle: Style, pos: int, done: seq<Style>)
  {
    && Tiled(out, 0) && EndOf(out, 0) == curStart <= pos
    && done == Paint(out, 0) + Fill(pos - curStart, curStyle)
  }

  lemma EmitToken(out: seq<Seg>, curStart: int, curStyle: Style, pos: int, done: seq<Style>, t: Seg, split: bool)
    requires Emitting(out, curStart, curStyle, pos, done) && pos < t.end && (!split ==> curStyle == t.style)
    ensures var out' := if split && curStart < pos then out + [Seg(pos, curStyle)] else out;
            Emitting(out', if split then pos else curStart, t.style, t.end, done + Fill(t.end - pos, t.style))
  {
    if split {
      TiledConcat(out, [Seg(pos, curStyle)], 0);
      PaintOne(Seg(pos, curStyle), curStart);
    } else {
      FillConcat(pos - curStart, t.end - pos, curStyle);
    }
  }

  /** runMode. The segments it emits go up strictly, end with the line, and give every character the style of
      the token it is in. */
  method RunMode<St(!new)>(text: string, mode: Mode<St>, state: St, flatten: bool, maxHighlightLength: int)
    returns (out: Option<seq<Seg>>)
    requires Forward(mode)
    ensures out.Some? <==> Tokens(mode, text, 0, state, maxHighlightLength).Some?
    ensures out.Some? ==> Tiled(out.value, 0) && EndOf(out.value, 0) == |text|
    ensures out.Some? ==> Paint(out.value, 0) == Paint(Tokens(mode, text, 0, state, maxHighlightLength).value, 0)
  {
    hide Forward, Tiled, Paint, Emitting;
    var flattenSpans, curStart, curStyle: Style, pos: nat, st := flatten, 0, None, 0, state;
    var segs: seq<Seg> := [];
    ghost var all := Tokens(mode, text, 0, state, maxHighlightLength);
    ghost var done: seq<Style> := [];
    StartEmitting();
    while pos < |text|
      invariant pos <= |text| && 0 <= curStart && Emitting(segs, curStart, curStyle, pos, done)
      invariant var rest := Tokens(mode, text, pos, st, maxHighlightLength);
                && (all.Some? <==> rest.Some?)
                && (all.Some? ==> Paint(all.value, 0) == done + Paint(rest.value, pos))
      decreases |text| - pos
    {
      var style: Style;
      var start := pos;
      if pos > maxHighlightLength {
        // the rest of a very long line is left without style
        flattenSpans := false;
        pos, style := |text|, None;
      } else {
        ReadTokenMoves(mode, text, pos, st, TRIES);
        var t := ReadToken(mode, text, pos, st, TRIES);
        if t == None { return None; }
        pos, style, st := t.value.pos, t.value.style, t.value.state;
      }
      ghost var rest := Tokens(mode, text, pos, st, maxHighlightLength);
      if rest.Some? { PaintNext(done, Seg(pos, style), start, rest.value); }
      assert [Seg(pos, style)] + [] == [Seg(pos, style)];
      EmitToken(segs, curStart, curStyle, start, done, Seg(pos, style), !flattenSpans || curStyle != style);
      done := done + Fill(pos - start, style);
      if !flattenSpans || curStyle != style {
        if curStart < start { segs := segs + [Seg(start, curStyle)]; }
        curStart, curStyle := start, style;
      }
    }
    PaintNothing(done, pos);
    while curStart < pos
      invariant Emitting(segs, curStart, curStyle, pos, done)
      decreases pos - curStart
    {
      var end := if pos < curStart + MAX_NODE then pos else curStart + MAX_NODE;
      EmitPiece(segs, curStart, curStyle, pos, done, end);
      segs := segs + [Seg(end, curStyle)];
      curStart := end;
    }
    EmittedAll(segs, curStart, curStyle, pos, done);
    out := Some(segs);
  }

  lemma StartEmitting()
    ensures Emitting([], 0, None, 0, [])
  {
  }

  lemma PaintNext(done: seq<Style>, t: Seg, lo: int, rest: seq<Seg>)
    ensures done + Paint([t] + rest, lo) == done + Fill(t.end - lo, t.style) + Paint(rest, t.end)
  {
    TiledConcat([t], rest, lo);
    PaintOne(t, lo);
  }

  lemma PaintNothing(done: seq<Style>, lo: int)
    ensures done + Paint([], lo) == done
  {
  }

  lemma EmitPiece(out: seq<Seg>, curStart: int, curStyle: Style, pos: int, done: seq<Style>, end: int)
    requires Emitting(out, curStart, curStyle, pos, done) && curStart < end <= pos
    ensures Emitting(out + [Seg(end, curStyle)], end, curStyle, pos, done)
  {
    TiledConcat(out, [Seg(end, curStyle)], 0);
    PaintOne(Seg(end, curStyle), curStart);
    FillConcat(end - curStart, pos - end, curStyle);
  }

  lemma EmittedAll(out: seq<Seg>, curStart: int, curStyle: Style, pos: int, done: seq<Style>)
    requires Emitting(out, curStart, curStyle, pos, done) && curStart >= pos
    ensures Tiled(out, 0) && EndOf(out, 0) == pos && Paint(out, 0) == done
  {
  }
}
