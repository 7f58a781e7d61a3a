/** Highlighting a line with all its overlays, and looking up the style at a position of it. */
module StyleLookup {
  import opened Common
  import opened Highlight
  import opened Overlays

  datatype OverlayMode<!O> = OverlayMode(mode: Mode<O>, isOpaque: bool)

  /** A style under several overlays' styles, applied in order. */
  function Stacked(base: Style, layers: seq<(Style, bool)>): Style
  {
    if layers == [] then base
    else
      var top := layers[|layers| - 1];
      Combine(Stacked(base, layers[..|layers| - 1]), top.0, top.1)
  }

  /** What the overlays painted at character `c`. */
  ghost function Column<O>(layers: seq<seq<Style>>, overlays: seq<OverlayMode<O>>, c: nat): (r: seq<(Style, bool)>)
    requires |layers| <= |overlays| && forall k: nat | k < |layers| :: c < |layers[k]|
    ensures |r| == |layers| && forall k: nat | k < |r| :: r[k] == (layers[k][c], overlays[k].isOpaque)
  {
    seq(|layers|, k requires 0 <= k < |layers| => (layers[k][c], overlays[k].isOpaque))
  }

  /** `now` is `base` with the layers stacked on it, character by character. */
  ghost predicate StackedOn<O>(now: seq<Style>, base: seq<Style>, layers: seq<seq<Style>>,
      overlays: seq<OverlayMode<O>>)
  {
    && |now| == |base| && |layers| <= |overlays| && (forall k: nat | k < |layers| :: |layers[k]| == |base|)
    && forall c: nat | c < |base| :: now[c] == Stacked(base[c], Column(layers, overlays, c))
  }

  lemma StackOneMore<O>(now: seq<Style>, base: seq<Style>, layers: seq<seq<Style>>, overlays: seq<OverlayMode<O>>,
      layer: seq<Style>)
    requires StackedOn(now, base, layers, overlays) && |layers| < |overlays| && |layer| == |base|
    ensures StackedOn(CombineAll(now, layer, overlays[|layers|].isOpaque), base, layers + [layer], overlays)
  {
    forall c: nat | c < |base|
      ensures Combine(now[c], layer[c], overlays[|layers|].isOpaque) ==
                Stacked(base[c], Column(layers + [layer], overlays, c))
    {
      var col := Column(layers + [layer], overlays, c);
      assert col[..|layers|] == Column(layers, overlays, c);
    }
  }

  // ----- stacked styles, read as words -----

  /** The styles of the layers that paint, in order, each behind its marker. */
  function Words(layers: seq<(Style, bool)>): seq<string>
  {
    if layers == [] then []
    else
      var top := layers[|layers| - 1];
      Words(layers[..|layers| - 1]) + if Falsy(top.0) then [] else ["cm-overlay " + top.0.value]
  }

  /** Parts with blanks between them. */
  function Spaced(parts: seq<string>): string
  {
    if parts == [] then ""
    else if |parts| == 1 then parts[0]
    else Spaced(parts[..|parts| - 1]) + " " + parts[|parts| - 1]
  }

  /** An opaque overlay paints over what is below. */
  ghost predicate Hidden(layers: seq<(Style, bool)>)
  {
    exists k: nat :: k < |layers| && layers[k].1 && !Falsy(layers[k].0)
  }

  /** `s` is the style of the last opaque layer that paints, or else the mode's own style, and then the styles of the
      painting layers above that, each behind its marker. */
  ghost predicate Reads(s: Style, base: Style, layers: seq<(Style, bool)>)
  {
    && (forall k: nat :: k < |layers| && layers[k].1 && !Falsy(layers[k].0) && !Hidden(layers[k + 1..]) ==>
          s == Some(Spaced(Words(layers[k..]))))
    && (!Hidden(layers) ==> ReadsPlain(s, base, layers))
  }

  /** The mode's own style, and then the styles of the painting layers. */
  ghost predicate ReadsPlain(s: Style, base: Style, layers: seq<(Style, bool)>)
  {
    var own := if Falsy(base) then [] else [base.value];
    s == if Words(layers) == [] then base else Some(Spaced(own + Words(layers)))
  }

  /** What the stacking of styles comes to. */
  lemma {:induction false} StackReads(base: Style, layers: seq<(Style, bool)>)
    ensures Reads(Stacked(base, layers), base, layers)
  {
    if layers != [] {
      StackReads(base, layers[..|layers| - 1]);
      forall k: nat | k < |layers| && layers[k].1 && !Falsy(layers[k].0) && !Hidden(layers[k + 1..])
        ensures Stacked(base, layers) == Some(Spaced(Words(layers[k..])))
      {
        ReadsFrom(base, layers, k);
      }
      HiddenBelow(layers);
      if !Hidden(layers) { ReadsAll(base, layers); }
    }
  }

  /** With no opaque layer. */
  lemma ReadsAll(base: Style, layers: seq<(Style, bool)>)
    requires layers != [] && !Hidden(layers)
    requires ReadsPlain(Stacked(base, layers[..|layers| - 1]), base, layers[..|layers| - 1])
    ensures ReadsPlain(Stacked(base, layers), base, layers)
  {
    hide Spaced, Hidden;
    var below, top := layers[..|layers| - 1], layers[|layers| - 1];
    var own := if Falsy(base) then [] else [base.value];
    HiddenBelow(layers);
    if Falsy(top.0) {
      assert Words(layers) == Words(below);
    } else {
      assert own + Words(layers) == own + Words(below) + [OVERLAY + top.0.value];
      WordsNotEmpty(below);
      assert Words(below) == [] ==> own + Words(below) == own;
      if Words(below) == [] && !Falsy(base) { OneWord(base.value); }
      OneMoreWord(Stacked(base, below), own + Words(below), top.0);
    }
  }

  lemma OneWord(word: string)
    ensures Spaced([word]) == word
  {
  }

  /** A transparent layer over parts with blanks between them. */
  lemma OneMoreWord(below: Style, parts: seq<string>, ov: Style)
    requires forall i: nat | i < |parts| :: parts[i] != ""
    requires !Falsy(ov) && if parts == [] then Falsy(below) else below == Some(Spaced(parts))
    ensures Combine(below, ov, false) == Some(Spaced(parts + [OVERLAY + ov.value]))
  {
    assert (parts + [OVERLAY + ov.value])[..|parts|] == parts;
    if parts == [] {
      assert "" + OVERLAY == OVERLAY;
    } else {
      var last := parts[|parts| - 1];
      assert Spaced(parts) + " " + OVERLAY + ov.value == Spaced(parts) + " " + (OVERLAY + ov.value);
    }
  }

  lemma {:induction false} WordsNotEmpty(layers: seq<(Style, bool)>)
    ensures forall i: nat | i < |Words(layers)| :: Words(layers)[i] != ""
  {
    if layers != [] {
      WordsNotEmpty(layers[..|layers| - 1]);
    }
  }

  lemma HiddenBelow(layers: seq<(Style, bool)>)
    requires layers != []
    ensures var below, top := layers[..|layers| - 1], layers[|layers| - 1];
            Hidden(layers) <==> Hidden(below) || (top.1 && !Falsy(top.0))
  {
    var below := layers[..|layers| - 1];
    if Hidden(layers) {
      var k: nat :| k < |layers| && layers[k].1 && !Falsy(layers[k].0);
      assert k < |below| ==> below[k] == layers[k];
    }
    if Hidden(below) {
      var k: nat :| k < |below| && below[k].1 && !Falsy(below[k].0);
      assert layers[k] == below[k];
    }
  }

  /** From the last opaque layer that paints. */
  lemma ReadsFrom(base: Style, layers: seq<(Style, bool)>, k: nat)
    requires k < |layers| && layers[k].1 && !Falsy(layers[k].0) && !Hidden(layers[k + 1..])
    requires Reads(Stacked(base, layers[..|layers| - 1]), base, layers[..|layers| - 1])
    ensures Stacked(base, layers) == Some(Spaced(Words(layers[k..])))
  {
    hide Spaced, Words, Hidden, Stacked;
    var below, top := layers[..|layers| - 1], layers[|layers| - 1];
    if k == |layers| - 1 {
      assert layers[k..] == [top];
      OpaqueTop(base, layers);
    } else {
      var upper := layers[k + 1..];
      HiddenBelow(upper);
      assert upper[..|upper| - 1] == below[k + 1..] && upper[|upper| - 1] == top;
      assert below[k] == layers[k];
      OneLayerMore(base, layers, k);
    }
  }

  lemma OpaqueTop(base: Style, layers: seq<(Style, bool)>)
    requires layers != [] && layers[|layers| - 1].1 && !Falsy(layers[|layers| - 1].0)
    ensures Stacked(base, layers) == Some(Spaced(Words([layers[|layers| - 1]])))
  {
    var top := layers[|layers| - 1];
    assert [top][..0] == [];
  }

  /** A layer that leaves what lies from layer `k` on. */
  lemma OneLayerMore(base: Style, layers: seq<(Style, bool)>, k: nat)
    requires k < |layers| - 1 && !Falsy(layers[k].0) && (layers[|layers| - 1].1 ==> Falsy(layers[|layers| - 1].0))
    requires Stacked(base, layers[..|layers| - 1]) == Some(Spaced(Words(layers[..|layers| - 1][k..])))
    ensures Stacked(base, layers) == Some(Spaced(Words(layers[k..])))
  {
    hide Spaced;
    var below, top := layers[..|layers| - 1], layers[|layers| - 1];
    assert layers[k..][..|layers| - k - 1] == below[k..] && layers[k..][|layers| - k - 1] == top;
    WordsNotEmpty(below[k..]);
    PaintsSomething(below[k..]);
    if Falsy(top.0) {
      assert Words(layers[k..]) == Words(below[k..]);
    } else {
      OneMoreWord(Stacked(base, below), Words(below[k..]), top.0);
    }
  }

  lemma {:induction false} PaintsSomething(layers: seq<(Style, bool)>)
    requires layers != [] && !Falsy(layers[0].0)
    ensures Words(layers) != []
  {
    if |layers| > 1 {
      PaintsSomething(layers[..|layers| - 1]);
    }
  }

  /** highlightLine. Every character gets the style of its token with each overlay's style stacked on it. */
  method HighlightLine<St(!new), O(!new)>(text: string, mode: Mode<St>, state: St, overlays: seq<OverlayMode<O>>,
      start: O, flatten: bool, max: int)
    returns (styles: Option<seq<Seg>>, ghost layers: seq<seq<Style>>)
    requires Forward(mode) && forall k: nat | k < |overlays| :: Forward(overlays[k].mode)
    ensures styles.Some? <==>
              Tokens(mode, text, 0, state, max).Some? &&
              forall k: nat | k < |overlays| :: Tokens(overlays[k].mode, text, 0, start, max).Some?
    ensures styles.Some? ==> Tiled(styles.value, 0) && EndOf(styles.value, 0) == |text|
    ensures styles.Some? ==>
              Tokens(mode, text, 0, state, max).Some? && |layers| == |overlays| &&
              StackedOn(Paint(styles.value, 0), Paint(Tokens(mode, text, 0, state, max).value, 0), layers, overlays) &&
              ReadsOn(Paint(styles.value, 0), Paint(Tokens(mode, text, 0, state, max).value, 0), layers, overlays)
    ensures styles.Some? ==> forall k: nat | k < |overlays| ::
              var ts := Tokens(overlays[k].mode, text, 0, start, max); ts.Some? && layers[k] == Paint(ts.value, 0)
  {
    hide Forward, Tiled, Paint, EndOf, StackedOn, ReadsOn;
    layers := [];
    var st := RunMode(text, mode, state, flatten, max);
    if st == None { return None, []; }
    ghost var base := Paint(Tokens(mode, text, 0, state, max).value, 0);
    NothingStacked(base, overlays);
    for o := 0 to |overlays|
      invariant st.Some? && Tiled(st.value, 0) && EndOf(st.value, 0) == |text| && |layers| == o
      invariant StackedOn(Paint(st.value, 0), base, layers, overlays)
      invariant forall k: nat | k < o ::
                  var ts := Tokens(overlays[k].mode, text, 0, start, max); ts.Some? && layers[k] == Paint(ts.value, 0)
    {
      var ov := RunMode(text, overlays[o].mode, start, flatten, max);
      if ov == None {
        assert Tokens(overlays[o].mode, text, 0, start, max) == None;
        return None, layers;
      }
      var merged := MergeOverlay(st.value, ov.value, overlays[o].isOpaque, |text|);
      SameLength(Paint(st.value, 0), base, layers, overlays);
      StackOneMore(Paint(st.value, 0), base, layers, overlays, Paint(ov.value, 0));
      layers := layers + [Paint(ov.value, 0)];
      st := Some(merged);
    }
    StackedReads(Paint(st.value, 0), base, layers, overlays);
    styles := st;
  }

  /** Every character's style reads as its token's and the overlays' styles. */
  ghost predicate ReadsOn<O>(now: seq<Style>, base: seq<Style>, layers: seq<seq<Style>>, overlays: seq<OverlayMode<O>>)
  {
    && |now| == |base| && |layers| <= |overlays| && (forall k: nat | k < |layers| :: |layers[k]| == |base|)
    && forall c: nat | c < |base| :: Reads(now[c], base[c], Column(layers, overlays, c))
  }

  lemma StackedReads<O>(now: seq<Style>, base: seq<Style>, layers: seq<seq<Style>>, overlays: seq<OverlayMode<O>>)
    requires StackedOn(now, base, layers, overlays)
    ensures ReadsOn(now, base, layers, overlays)
  {
    forall c: nat | c < |base| ensures Reads(now[c], base[c], Column(layers, overlays, c)) {
      StackReads(base[c], Column(layers, overlays, c));
    }
  }

  lemma NothingStacked<O>(base: seq<Style>, overlays: seq<OverlayMode<O>>)
    ensures StackedOn(base, base, [], overlays)
  {
  }

  lemma SameLength<O>(now: seq<Style>, base: seq<Style>, layers: seq<seq<Style>>, overlays: seq<OverlayMode<O>>)
    requires StackedOn(now, base, layers, overlays)
    ensures |now| == |base|
  {
  }

  // ----- looking up -----

  function StartOf(segs: seq<Seg>, i: nat, lo: int): int
    requires i <= |segs|
  {
    if i == 0 then lo else segs[i - 1].end
  }

  lemma {:induction false} PaintAt(segs: seq<Seg>, lo: int, i: nat, c: int)
    requires Tiled(segs, lo) && i < |segs| && StartOf(segs, i, lo) <= c < segs[i].end
    ensures lo <= c < lo + |Paint(segs, lo)| && Paint(segs, lo)[c - lo] == segs[i].style
  {
    PaintLength(segs, lo);
    if i > 0 {
      StartsRise(segs[1..], segs[0].end, i - 1);
      PaintAt(segs[1..], segs[0].end, i - 1, c);
    } else {
      PaintLength(segs[1..], segs[0].end);
    }
  }

  lemma {:induction false} StartsRise(segs: seq<Seg>, lo: int, i: nat)
    requires Tiled(segs, lo) && i <= |segs|
    ensures lo <= StartOf(segs, i, lo) <= EndOf(segs, lo) && (i > 0 ==> lo < StartOf(segs, i, lo))
  {
    if segs != [] {
      FirstEnd(segs, lo);
      PaintLength(segs, lo);
      if i > 0 {
        StartsRise(segs[1..], segs[0].end, i - 1);
      }
    }
  }

  lemma {:induction false} EndsRise(segs: seq<Seg>, lo: int, i: nat, j: nat)
    requires Tiled(segs, lo) && i <= j <= |segs|
    ensures StartOf(segs, i, lo) <= StartOf(segs, j, lo)
  {
    if i == 0 {
      StartsRise(segs, lo, j);
    } else {
      EndsRise(segs[1..], segs[0].end, i - 1, j - 1);
    }
  }

  /** The style of the character before position `ch`, or of the first one; none on an empty line. */
  ghost function StyleAt(segs: seq<Seg>, ch: int): Style
    requires Tiled(segs, 0) && 0 <= ch <= EndOf(segs, 0)
  {
    PaintLength(segs, 0);
    if EndOf(segs, 0) == 0 then None else Paint(segs, 0)[if ch == 0 then 0 else ch - 1]
  }

  /** getTokenTypeAt's search: the style of the character before position `ch`, by bisection. */
  method StyleBefore(segs: seq<Seg>, ch: int) returns (type_: Style)
    requires Tiled(segs, 0) && 0 <= ch <= EndOf(segs, 0)
    ensures type_ == StyleAt(segs, ch)
  {
    hide Tiled, Paint, EndOf;
    PaintLength(segs, 0);
    if ch == 0 {
      // styles[2], which is not there when the line is empty
      if segs == [] { EmptyLine(); return None; }
      FirstStart(segs);
      PaintAt(segs, 0, 0, 0);
      return segs[0].style;
    }
    NotEmpty(segs, ch);
    var before: nat, after: nat := 0, |segs|;
    while true
      invariant before <= after <= |segs| && StartOf(segs, before, 0) < ch <= StartOf(segs, after, 0)
      decreases after - before
    {
      EndsRise(segs, 0, before, after);
      var mid: nat := (before + after) / 2;
      if (if mid > 0 then segs[mid - 1].end else 0) >= ch {
        after := mid;
      } else if segs[mid].end < ch {
        before := mid + 1;
      } else {
        PaintAt(segs, 0, mid, ch - 1);
        return segs[mid].style;
      }
    }
  }

  lemma EmptyLine()
    ensures EndOf([], 0) == 0
  {
  }

  lemma FirstStart(segs: seq<Seg>)
    requires segs != [] && Tiled(segs, 0)
    ensures 0 < segs[0].end
  {
  }

  lemma NotEmpty(segs: seq<Seg>, ch: int)
    requires 0 < ch <= EndOf(segs, 0)
    ensures segs != [] && StartOf(segs, |segs|, 0) == EndOf(segs, 0)
  {
  }

  // ----- taking the overlays' part off again -----

  predicate OccursAt(s: string, pat: string, i: nat)
  {
    i + |pat| <= |s| && s[i..i + |pat|] == pat
  }

  /** indexOf */
  function IndexOf(s: string, pat: string, from: nat): (r: int)
    ensures r == -1 || (from <= r && OccursAt(s, pat, r))
    ensures forall i: nat | from <= i && (r == -1 || i < r) :: !OccursAt(s, pat, i)
    decreases |s| - from
  {
    if from + |pat| > |s| then -1 else if OccursAt(s, pat, from) then from else IndexOf(s, pat, from + 1)
  }

  /** The last two lines of getTokenTypeAt: what is before the first "cm-overlay ". */
  function WithoutOverlays(type_: Style): Style
  {
    var cut := if Falsy(type_) then -1 else IndexOf(type_.value, OVERLAY, 0);
    if cut < 0 then type_ else if cut == 0 then None else Some(type_.value[..cut - 1])
  }

  /** "cm-overlay " can be found in what a mode's style and a following blank make. */
  ghost predicate Confusing(base: Style)
  {
    base.Some? && exists i: nat :: OccursAt(base.value + " ", OVERLAY, i)
  }

  /** A mode's style, alone or with transparent overlays' styles behind it. */
  ghost predicate Carries(s: Style, base: Style)
  {
    || s == base
    || (Falsy(base) && s.Some? && OccursAt(s.value, OVERLAY, 0))
    || (!Falsy(base) && s.Some? && OccursAt(s.value, base.value + " " + OVERLAY, 0))
  }

  lemma {:induction false} StackCarries(base: Style, layers: seq<(Style, bool)>)
    requires !Hidden(layers)
    ensures Carries(Stacked(base, layers), base)
  {
    if layers != [] {
      var below, top := layers[..|layers| - 1], layers[|layers| - 1];
      assert !Hidden(below) by {
        forall k: nat | k < |below| ensures below[k] == layers[k] {
        }
      }
      StackCarries(base, below);
      if !Falsy(top.0) {
        CombineCarries(Stacked(base, below), base, top.0);
      }
    }
  }

  /** Over an opaque overlay's style, everything starts with "cm-overlay ". */
  lemma {:induction false} HiddenStack(base: Style, layers: seq<(Style, bool)>)
    requires Hidden(layers)
    ensures var s := Stacked(base, layers); s.Some? && OccursAt(s.value, OVERLAY, 0) && WithoutOverlays(s) == None
  {
    var below, top := layers[..|layers| - 1], layers[|layers| - 1];
    if !(top.1 && !Falsy(top.0)) {
      var k: nat :| k < |layers| && layers[k].1 && !Falsy(layers[k].0);
      assert below[k] == layers[k];
      HiddenStack(base, below);
      if !Falsy(top.0) {
        var s := Stacked(base, below).value;
        assert s + " " + OVERLAY + top.0.value == s + (" " + OVERLAY + top.0.value);
      }
    }
  }

  lemma CombineCarries(below: Style, base: Style, ov: Style)
    requires Carries(below, base) && !Falsy(ov)
    ensures Carries(Combine(below, ov, false), base)
  {
    var s := Combine(below, ov, false).value;
    if below == base {
      if Falsy(base) {
        assert s == OVERLAY + ov.value by { assert "" + OVERLAY == OVERLAY; }
      } else {
        assert s == (base.value + " " + OVERLAY) + ov.value;
      }
    } else {
      var head := if Falsy(base) then OVERLAY else base.value + " " + OVERLAY;
      assert s == below.value + (" " + OVERLAY + ov.value);
      assert s[0..|head|] == below.value[0..|head|];
    }
  }

  /** The pattern's only blank is its last character. */
  lemma OverlayBlank(i: nat)
    requires i < |OVERLAY|
    ensures OVERLAY[i] == ' ' <==> i == |OVERLAY| - 1
  {
  }

  /** In base + " cm-overlay ...", the pattern starts before the end of base only when base and the blank
      already contain it. */
  lemma EarlyOccurrence(s: string, base: string, i: nat)
    requires OccursAt(s, base + " " + OVERLAY, 0) && i <= |base|
    ensures OccursAt(s, OVERLAY, i) <==> OccursAt(base + " ", OVERLAY, i)
  {
    var head := base + " ";
    assert (head + OVERLAY)[..|head|] == head;
    assert s[0..|head + OVERLAY|][..|head|] == s[..|head|];
    if OccursAt(s, OVERLAY, i) {
      var k := |base| - i;
      if k < |OVERLAY| {
        assert s[i..i + |OVERLAY|][k] == s[|base|] == ' ';
        OverlayBlank(k);
      }
      assert i + |OVERLAY| <= |head|;
      assert head[i..i + |OVERLAY|] == s[..|head|][i..i + |OVERLAY|] == s[i..i + |OVERLAY|];
    }
    if OccursAt(head, OVERLAY, i) {
      assert head[i..i + |OVERLAY|] == s[..|head|][i..i + |OVERLAY|] == s[i..i + |OVERLAY|];
    }
  }

  /** Under transparent overlays that do paint, the lookup gives back the mode's own style exactly when that
      style, with a blank, does not contain "cm-overlay " itself. */
  lemma StripsToBaseIff(s: Style, base: Style)
    requires Carries(s, base) && s != base
    ensures Falsy(base) ==> WithoutOverlays(s) == None
    ensures !Falsy(base) ==> (WithoutOverlays(s) == base <==> !Confusing(base))
  {
    if Falsy(base) {
      assert OccursAt(s.value, OVERLAY, 0);
    } else {
      var b, cut := base.value, IndexOf(s.value, OVERLAY, 0);
      forall i: nat | i <= |b| ensures OccursAt(s.value, OVERLAY, i) <==> OccursAt(b + " ", OVERLAY, i) {
        EarlyOccurrence(s.value, b, i);
      }
      OverlayBehindBase(s.value, b);
      assert cut <= |b| + 1;
      if cut == |b| + 1 {
        assert s.value[..|b|] == b by { assert s.value[0..|b + " " + OVERLAY|][..|b|] == (b + " " + OVERLAY)[..|b|]; }
        forall i: nat ensures !OccursAt(b + " ", OVERLAY, i) {
        }
      } else {
        assert OccursAt(b + " ", OVERLAY, cut);
      }
    }
  }

  /** A mode style of "cm-overlay" under an overlay's "x" is taken for no style at all. */
  lemma MarkerAsOwnStyle()
    ensures var own := Some("cm-overlay"); WithoutOverlays(Combine(own, Some("x"), false)) != own
  {
    var own := Some("cm-overlay");
    CombineCarries(own, own, Some("x"));
    assert own.value + " " == OVERLAY && OVERLAY[0..0 + |OVERLAY|] == OVERLAY;
    assert OccursAt(own.value + " ", OVERLAY, 0);
    assert |Combine(own, Some("x"), false).value| > |own.value|;
    StripsToBaseIff(Combine(own, Some("x"), false), own);
  }

  lemma OverlayBehindBase(s: string, b: string)
    requires OccursAt(s, b + " " + OVERLAY, 0)
    ensures OccursAt(s, OVERLAY, |b| + 1)
  {
    assert s[0..|b + " " + OVERLAY|][|b| + 1..] == s[|b| + 1..|b| + 1 + |OVERLAY|];
    assert (b + " " + OVERLAY)[|b| + 1..] == OVERLAY;
  }

  /** `type_` is the mode's style, or null for an empty one. */
  predicate IsStyle(type_: Style, own: Style)
  {
    type_ == own || (Falsy(own) && type_ == None)
  }

  /** "cm-overlay " can be found in the style itself. */
  ghost predicate Marked(own: Style)
  {
    own.Some? && exists i: nat :: OccursAt(own.value, OVERLAY, i)
  }

  /** Some overlay has a style. */
  ghost predicate Painted(layers: seq<(Style, bool)>)
  {
    exists k: nat :: k < |layers| && !Falsy(layers[k].0)
  }

  /** Where nothing is painted, the lookup gives back the mode's own style exactly when the marker is not in it. */
  lemma StripsOwnIff(own: Style)
    ensures Falsy(own) ==> WithoutOverlays(own) == own
    ensures !Falsy(own) ==> (WithoutOverlays(own) == own <==> !Marked(own))
  {
    if !Falsy(own) {
      var cut := IndexOf(own.value, OVERLAY, 0);
      if cut >= 0 { assert OccursAt(own.value, OVERLAY, cut); }
    }
  }

  /** Transparent overlays change a style exactly when one of them has a style. */
  lemma {:induction false} StackChangesIff(own: Style, layers: seq<(Style, bool)>)
    requires !Hidden(layers)
    ensures Stacked(own, layers) != own <==> Painted(layers)
    ensures Stacked(own, layers) != own ==>
              Stacked(own, layers).Some? && (own.Some? ==> |Stacked(own, layers).value| > |own.value|)
  {
    if layers != [] {
      var below, top := layers[..|layers| - 1], layers[|layers| - 1];
      assert layers == below + [top];
      if Painted(below) {
        var k: nat :| k < |below| && !Falsy(below[k].0);
        assert layers[k] == below[k];
      }
      assert !Hidden(below) by {
        forall k: nat | k < |below| ensures below[k] == layers[k] {
        }
      }
      StackChangesIff(own, below);
    }
  }

  /** What comes back from under transparent overlays is the mode's own style if and only if: it has none, or where
      an overlay paints it does not contain the marker with a blank behind it, or where none does it does not
      contain the marker. */
  lemma StripsStackIff(own: Style, layers: seq<(Style, bool)>)
    requires !Hidden(layers)
    ensures IsStyle(WithoutOverlays(Stacked(own, layers)), own)
            <==> Falsy(own) || (if Painted(layers) then !Confusing(own) else !Marked(own))
  {
    StackCarries(own, layers);
    StackChangesIff(own, layers);
    if Painted(layers) {
      StripsToBaseIff(Stacked(own, layers), own);
    } else {
      StripsOwnIff(own);
    }
  }

  /** Overlay `o` has a style at the character before position `ch`. */
  ghost predicate PaintsAt<O(!new)>(o: OverlayMode<O>, text: string, start: O, max: int, ch: int)
    requires Forward(o.mode) && 0 <= ch <= |text|
  {
    var ts := Tokens(o.mode, text, 0, start, max);
    ts.Some? && Tiled(ts.value, 0) && EndOf(ts.value, 0) == |text| && !Falsy(StyleAt(ts.value, ch))
  }

  /** Does an overlay paint at the character before position `ch`? An opaque one? */
  ghost predicate AnyPaints<O(!new)>(overlays: seq<OverlayMode<O>>, opaqueOnly: bool, text: string, start: O, max: int,
      ch: int)
    requires 0 <= ch <= |text| && forall k: nat | k < |overlays| :: Forward(overlays[k].mode)
  {
    exists k: nat | k < |overlays| ::
      (opaqueOnly ==> overlays[k].isOpaque) && PaintsAt(overlays[k], text, start, max, ch)
  }

  /** getTokenTypeAt: null under an opaque overlay; else the style the mode gave to the character before the
      position, if and only if the overlay marker does not get in the way. */
  method TokenTypeAt<St(!new), O(!new)>(text: string, mode: Mode<St>, state: St, overlays: seq<OverlayMode<O>>,
      start: O, flatten: bool, max: int, ch: int)
    returns (type_: Option<Style>)
    requires Forward(mode) && forall k: nat | k < |overlays| :: Forward(overlays[k].mode)
    requires 0 <= ch <= |text|
    ensures type_.Some? <==>
              Tokens(mode, text, 0, state, max).Some? &&
              forall k: nat | k < |overlays| :: Tokens(overlays[k].mode, text, 0, start, max).Some?
    ensures type_.Some? ==>
              var ts := Tokens(mode, text, 0, state, max).value;
              && Tiled(ts, 0) && EndOf(ts, 0) == |text|
              && var own := StyleAt(ts, ch);
                 if AnyPaints(overlays, true, text, start, max, ch) then type_.value == None
                 else IsStyle(type_.value, own) <==>
                   Falsy(own) || (if AnyPaints(overlays, false, text, start, max, ch) then !Confusing(own)
                     else !Marked(own))
  {
    hide Forward, Tiled, Paint, EndOf, StackedOn, Confusing, Marked, WithoutOverlays, AnyPaints, Hidden, Painted,
      StyleAt;
    var styles;
    ghost var layers;
    styles, layers := HighlightLine(text, mode, state, overlays, start, flatten, max);
    if styles == None { return None; }
    var found := StyleBefore(styles.value, ch);
    type_ := Some(WithoutOverlays(found));
    ghost var ts := Tokens(mode, text, 0, state, max).value;
    TokensTile(mode, text, 0, state, max);
    ghost var own, col := StyleAt(ts, ch), FoundColumn(ts, layers, overlays, ch);
    FoundIsStacked(styles.value, ts, layers, overlays, ch);
    FoundLayers(text, overlays, start, max, ch, ts, layers);
    if Hidden(col) {
      HiddenStack(own, col);
    } else {
      StripsStackIff(own, col);
      StripsOwnIff(None);
    }
  }

  /** What the overlays have stacked on the style that StyleAt finds. */
  ghost function FoundColumn<O>(ts: seq<Seg>, layers: seq<seq<Style>>, overlays: seq<OverlayMode<O>>,
      ch: int): (r: seq<(Style, bool)>)
  {
    var c := if ch <= 0 then 0 else ch - 1;
    if |layers| <= |overlays| && forall k: nat | k < |layers| :: c < |layers[k]| then Column(layers, overlays, c)
      else []
  }

  lemma FoundIsStacked<O>(segs: seq<Seg>, ts: seq<Seg>, layers: seq<seq<Style>>, overlays: seq<OverlayMode<O>>, ch: int)
    requires Tiled(segs, 0) && Tiled(ts, 0) && EndOf(segs, 0) == EndOf(ts, 0) && 0 <= ch <= EndOf(ts, 0)
    requires StackedOn(Paint(segs, 0), Paint(ts, 0), layers, overlays)
    ensures EndOf(ts, 0) > 0 ==> StyleAt(segs, ch) == Stacked(StyleAt(ts, ch), FoundColumn(ts, layers, overlays, ch))
    ensures EndOf(ts, 0) == 0 ==> StyleAt(segs, ch) == None == StyleAt(ts, ch)
  {
    PaintLength(segs, 0);
    PaintLength(ts, 0);
  }

  /** The layers found at a position are those of the overlays' own tokens there. */
  lemma FoundLayers<O(!new)>(text: string, overlays: seq<OverlayMode<O>>, start: O, max: int, ch: int,
      ts: seq<Seg>, layers: seq<seq<Style>>)
    requires 0 <= ch <= |text| && |layers| == |overlays| && forall k: nat | k < |overlays| :: Forward(overlays[k].mode)
    requires forall k: nat | k < |overlays| ::
               var os := Tokens(overlays[k].mode, text, 0, start, max); os.Some? && layers[k] == Paint(os.value, 0)
    ensures var col := FoundColumn(ts, layers, overlays, ch);
            && (Hidden(col) <==> AnyPaints(overlays, true, text, start, max, ch))
            && (Painted(col) <==> AnyPaints(overlays, false, text, start, max, ch))
            && (Painted(col) || Hidden(col) ==> |text| > 0)
  {
    hide Forward;
    var col, c := FoundColumn(ts, layers, overlays, ch), if ch <= 0 then 0 else ch - 1;
    forall k: nat | k < |overlays|
      ensures |layers[k]| == |text|
      ensures |text| > 0 ==> (PaintsAt(overlays[k], text, start, max, ch) <==> !Falsy(layers[k][c]))
      ensures |text| == 0 ==> !PaintsAt(overlays[k], text, start, max, ch)
    {
      var os := Tokens(overlays[k].mode, text, 0, start, max).value;
      TokensTile(overlays[k].mode, text, 0, start, max);
      PaintLength(os, 0);
    }
    hide PaintsAt, Tokens, Paint;
    if |text| > 0 {
      forall k: nat | k < |overlays| ensures col[k] == (layers[k][c], overlays[k].isOpaque) {
      }
    }
  }
}
