/** The editor's view: the line objects that are drawn, kept in step with the document without redrawing
    what has not changed. Lines are objects, modelled by their identity; no collapsed spans. */
module ViewCache {
  import opened Common
  import T = Text
  import opened Document

  /** A drawn line; without collapsed spans `size` is 1. */
  datatype LineView<+L> = LineView(line: L, size: int)

  /** externalMeasured: a line view kept for a line outside the view. */
  datatype External<+L> = External(line: L, lineN: int)

  /** `after` is the document `before` with the lines from..to replaced by others, `lendiff` more of them. */
  ghost predicate Replaced<L>(before: seq<L>, after: seq<L>, from: int, to: int, lendiff: int)
  {
    && 0 <= from <= to <= |before| && from <= to + lendiff && |after| == |before| + lendiff
    && after[..from] == before[..from] && after[to + lendiff..] == before[to..]
  }

  class Display<L> {
    var view: seq<LineView<L>>
    var viewFrom: int
    var viewTo: int
    var externalMeasured: Option<External<L>>

    /** v[k] shows the document's line from + k, up to `to`. */
    static ghost predicate Shows(v: seq<LineView<L>>, doc: seq<L>, from: int, to: int)
    {
      && 0 <= from <= to <= |doc| && |v| == to - from
      && forall k: nat | k < |v| :: v[k] == LineView(doc[from + k], 1)
    }

    ghost predicate Exact(doc: seq<L>)
      reads this
    {
      Shows(view, doc, viewFrom, viewTo)
    }

    ghost predicate ExternalExact(doc: seq<L>)
      reads this
    {
      externalMeasured.Some? ==>
        var e := externalMeasured.value;
        0 <= e.lineN < |doc| && doc[e.lineN] == e.line
    }

    /** The bounds of the view after a change: above and below it the view is left alone, except that what is below
        a change moves by `lendiff`; around the view nothing is left; and where a change reaches over one end, the
        view ends at the change. */
    static function BoundsAfter(top: int, end: int, from: int, to: int, lendiff: int): (int, int)
    {
      if end <= from then (top, end)
      else if to <= top then (top + lendiff, end + lendiff)
      else if from <= top && end <= to then (0, 0)
      else (if from <= top then to + lendiff else top, if end <= to then from else end + lendiff)
    }

    /** The measured line stays unless the change touches it, or ends just above it. */
    static function ExternalAfter(e: Option<External<L>>, from: int, to: int, lendiff: int): Option<External<L>>
    {
      if e == None || (from <= e.value.lineN <= to) then None
      else Some(External(e.value.line, if to < e.value.lineN then e.value.lineN + lendiff else e.value.lineN))
    }

    constructor ()
      ensures viewFrom == viewTo == 0 && view == [] && externalMeasured == None
    {
      view, viewFrom, viewTo, externalMeasured := [], 0, 0, None;
    }

    /** resetView */
    method ResetView()
      modifies this`view, this`viewFrom, this`viewTo
      ensures viewFrom == viewTo == 0 && view == []
    {
      viewFrom, viewTo := 0, 0;
      view := [];
    }

    /** buildViewArray */
    static method BuildViewArray(doc: seq<L>, from: int, to: int) returns (array_: seq<LineView<L>>)
      requires 0 <= from <= to <= |doc|
      ensures Shows(array_, doc, from, to)
    {
      array_ := [];
      var pos := from;
      while pos < to
        invariant from <= pos <= to && |array_| == pos - from
        invariant forall k: nat | k < |array_| :: array_[k] == LineView(doc[from + k], 1)
      {
        var v := LineView(doc[pos], 1);
        pos := pos + v.size;
        array_ := array_ + [v];
      }
    }

    /** findViewIndex: the view element that shows line `n`. */
    method FindViewIndex(n: int) returns (index: Option<nat>)
      requires viewFrom <= viewTo && |view| == viewTo - viewFrom && forall k: nat | k < |view| :: view[k].size == 1
      ensures index == if viewFrom <= n < viewTo then Some(n - viewFrom) else None
    {
      if n >= viewTo { return None; }
      var left := n - viewFrom;
      if left < 0 { return None; }
      for i := 0 to |view|
        invariant left == n - viewFrom - i && left >= 0
      {
        left := left - view[i].size;
        if left < 0 { return Some(i); }
      }
      return None;
    }

    /** regChange, `from` and `to` in coordinates before the change and `doc` the document after it: after,
        before, around, at the top of, at the bottom of and within the view. */
    method RegChange(ghost before: seq<L>, doc: seq<L>, from: int, to: int, lendiff: int)
      requires Exact(before) && ExternalExact(before) && Replaced(before, doc, from, to, lendiff)
      modifies this
      ensures Exact(doc) && ExternalExact(doc)
      ensures (viewFrom, viewTo) == BoundsAfter(old(viewFrom), old(viewTo), from, to, lendiff)
      ensures externalMeasured == ExternalAfter(old(externalMeasured), from, to, lendiff)
    {
      RegView(before, doc, from, to, lendiff);
      if externalMeasured.Some? {
        var e := externalMeasured.value;
        if to < e.lineN {
          externalMeasured := Some(External(e.line, e.lineN + lendiff));
          assert doc[to + lendiff..][e.lineN - to] == before[to..][e.lineN - to];
        } else if from < e.lineN + 1 {
          externalMeasured := None;
        } else {
          assert doc[..from][e.lineN] == before[..from][e.lineN];
        }
      }
    }

    /** The part of regChange about the view. */
    method RegView(ghost before: seq<L>, doc: seq<L>, from: int, to: int, lendiff: int)
      requires Exact(before) && Replaced(before, doc, from, to, lendiff)
      modifies this`view, this`viewFrom, this`viewTo
      ensures Exact(doc)
      ensures (viewFrom, viewTo) == BoundsAfter(old(viewFrom), old(viewTo), from, to, lendiff)
    {
      hide Replaced, Shows;
      ShowsAll(view, before, viewFrom, viewTo);
      ReplacedLengths(before, doc, from, to, lendiff);
      if from >= viewTo {
        Above(before, doc, from, to, lendiff, view, viewFrom, viewTo);
      } else if to <= viewFrom {
        Below(before, doc, from, to, lendiff, view, viewFrom, viewTo);
        viewFrom := viewFrom + lendiff;
        viewTo := viewTo + lendiff;
      } else if from <= viewFrom && to >= viewTo {
        ResetView();
        ShowsNothing(doc);
      } else if from <= viewFrom {
        var cut := FindViewIndex(to);
        ShowsPart(view, before, viewFrom, viewTo, cut.value, |view|);
        view := view[cut.value..];
        Below(before, doc, from, to, lendiff, view, to, viewTo);
        viewFrom := to + lendiff;
        viewTo := viewTo + lendiff;
      } else if to >= viewTo {
        var cut := FindViewIndex(from);
        ShowsPart(view, before, viewFrom, viewTo, 0, cut.value);
        view := view[..cut.value];
        Above(before, doc, from, to, lendiff, view, viewFrom, from);
        viewTo := from;
      } else {
        var cutTop := FindViewIndex(from);
        var cutBot := FindViewIndex(to);
        var middle := BuildViewArray(doc, from, to + lendiff);
        WithinView(before, doc, from, to, lendiff, middle);
        view := view[..cutTop.value] + middle + view[cutBot.value..];
        viewTo := viewTo + lendiff;
      }
    }

    static lemma ShowsAll(v: seq<LineView<L>>, doc: seq<L>, from: int, to: int)
      requires Shows(v, doc, from, to)
      ensures 0 <= from <= to <= |doc| && |v| == to - from && forall k: nat | k < |v| :: v[k].size == 1
    {
    }

    static lemma ShowsNothing(doc: seq<L>)
      ensures Shows([], doc, 0, 0)
    {
    }

    static lemma ShowsPart(v: seq<LineView<L>>, doc: seq<L>, from: int, to: int, i: nat, j: nat)
      requires Shows(v, doc, from, to) && i <= j <= |v|
      ensures Shows(v[i..j], doc, from + i, from + j)
    {
    }

    static lemma ShowsConcat(u: seq<LineView<L>>, v: seq<LineView<L>>, doc: seq<L>, from: int, mid: int, to: int)
      requires Shows(u, doc, from, mid) && Shows(v, doc, mid, to)
      ensures Shows(u + v, doc, from, to)
    {
    }

    /** Lines above the change show what they showed. */
    static lemma Above(before: seq<L>, doc: seq<L>, from: int, to: int, lendiff: int, v: seq<LineView<L>>, top: int,
        end: int)
      requires Replaced(before, doc, from, to, lendiff) && Shows(v, before, top, end) && end <= from
      ensures Shows(v, doc, top, end)
    {
      KeptLines(before, doc, from, to, lendiff);
    }

    /** Lines below the change show what they showed, `lendiff` lines further down. */
    static lemma Below(before: seq<L>, doc: seq<L>, from: int, to: int, lendiff: int, v: seq<LineView<L>>, top: int,
        end: int)
      requires Replaced(before, doc, from, to, lendiff) && Shows(v, before, top, end) && to <= top
      ensures Shows(v, doc, top + lendiff, end + lendiff)
    {
      KeptLines(before, doc, from, to, lendiff);
    }

    /** A change within the view: what shows the lines above it, new views for its lines, what shows those below. */
    lemma WithinView(before: seq<L>, doc: seq<L>, from: int, to: int, lendiff: int, middle: seq<LineView<L>>)
      requires Exact(before) && Replaced(before, doc, from, to, lendiff) && viewFrom < from && to < viewTo
      requires Shows(middle, doc, from, to + lendiff)
      ensures |view| == viewTo - viewFrom && viewFrom < from <= to < viewTo
      ensures Shows(view[..from - viewFrom] + middle + view[to - viewFrom..], doc, viewFrom, viewTo + lendiff)
    {
      hide Replaced, Shows;
      ShowsAll(view, before, viewFrom, viewTo);
      ReplacedLengths(before, doc, from, to, lendiff);
      var top, bottom := view[..from - viewFrom], view[to - viewFrom..];
      ShowsPart(view, before, viewFrom, viewTo, 0, from - viewFrom);
      ShowsPart(view, before, viewFrom, viewTo, to - viewFrom, |view|);
      Above(before, doc, from, to, lendiff, top, viewFrom, from);
      Below(before, doc, from, to, lendiff, bottom, to, viewTo);
      ShowsConcat(top, middle, doc, viewFrom, from, to + lendiff);
      ShowsConcat(top + middle, bottom, doc, viewFrom, to + lendiff, viewTo + lendiff);
    }

    static lemma ReplacedLengths(before: seq<L>, after: seq<L>, from: int, to: int, lendiff: int)
      requires Replaced(before, after, from, to, lendiff)
      ensures 0 <= from <= to <= |before| && from <= to + lendiff && |after| == |before| + lendiff
    {
    }

    static lemma KeptLines(before: seq<L>, after: seq<L>, from: int, to: int, lendiff: int)
      requires Replaced(before, after, from, to, lendiff)
      ensures 0 <= from <= to <= |before| && from <= to + lendiff && |after| == |before| + lendiff
      ensures forall i | 0 <= i < from :: after[i] == before[i]
      ensures forall i {:trigger before[i]} | to <= i < |before| :: after[i + lendiff] == before[i]
      ensures forall i {:trigger after[i]} | to + lendiff <= i < |after| :: after[i] == before[i - lendiff]
    {
      forall i | 0 <= i < from ensures after[i] == before[i] {
        assert after[..from][i] == before[..from][i];
      }
      forall i | to <= i < |before| ensures after[i + lendiff] == before[i] {
        assert after[to + lendiff..][i - to] == before[to..][i - to];
      }
      forall i | to + lendiff <= i < |after| ensures after[i] == before[i - lendiff] {
        assert after[to + lendiff..][i - to - lendiff] == before[to..][i - to - lendiff];
      }
    }

    /** regLineChange: the line measured outside the view is forgotten when it is the one that changes. What it
        does to the view is to mark the line for redrawing. */
    method RegLineChange(line: int)
      modifies this`externalMeasured
      ensures externalMeasured == ExternalAfterLine(old(externalMeasured), line)
    {
      if externalMeasured.Some? && line == externalMeasured.value.lineN { externalMeasured := None; }
    }

    static function ExternalAfterLine(e: Option<External<L>>, line: int): Option<External<L>>
    {
      if e.Some? && e.value.lineN == line then None else e
    }
  }

  /** After a change the view shows exactly what it showed above and below the change, and the lines of the change
      exactly when it showed lines on both sides of it. */
  lemma BoundsKeepShown(top: int, end: int, from: int, to: int, lendiff: int, line: int)
    requires 0 <= top <= end && 0 <= from <= to && from <= to + lendiff
    ensures var (top', end') := Display<nat>.BoundsAfter(top, end, from, to, lendiff);
            && (line < from && 0 <= line ==> (top' <= line < end' <==> top <= line < end))
            && (line >= to ==> (top' <= line + lendiff < end' <==> top <= line < end))
            && (from <= line < to + lendiff ==> (top' <= line < end' <==> top < from && to < end))
  {
  }

  // ----- the document and its view -----

  /** Does the change only give one line another text? */
  predicate OneLineOnly(c: T.Change, option: bool)
  {
    c.from.line == c.to.line && |c.text| == 1 && !T.IsWholeLineUpdate(c, option)
  }

  /** makeChangeSingleDocInEditor: the document is changed, and the view is told. */
  method ChangeInEditor(d: Display<nat>, doc: Doc, c: T.Change)
    requires doc.Valid() && T.InRange(doc.Texts(), c)
    requires d.Exact(doc.LineIds()) && d.ExternalExact(doc.LineIds())
    modifies d, doc
    ensures doc.Valid() && doc.Texts() == T.Splice(old(doc.Texts()), c)
    ensures d.Exact(doc.LineIds()) && d.ExternalExact(doc.LineIds())
    ensures var from, to, lendiff := c.from.line, c.to.line + 1, |c.text| - (c.to.line - c.from.line) - 1;
            var within := OneLineOnly(c, doc.wholeLineUpdateBefore);
            var top, end := old(d.viewFrom), old(d.viewTo);
            && (d.viewFrom, d.viewTo) ==
               (if within then (top, end) else Display<nat>.BoundsAfter(top, end, from, to, lendiff))
            && d.externalMeasured ==
               (if within then Display.ExternalAfterLine(old(d.externalMeasured), from)
                else Display.ExternalAfter(old(d.externalMeasured), from, to, lendiff))
  {
    hide Doc.Valid, Doc.Texts, Doc.LineIds, T.Splice, Display<nat>.Shows, T.LineObjects;
    ghost var before, next, option := doc.LineIds(), doc.nextLine, doc.wholeLineUpdateBefore;
    doc.UpdateDoc(c);
    ghost var added := NewIds(next, T.LinesMade(c, option));
    var lendiff := |c.text| - (c.to.line - c.from.line) - 1;
    if OneLineOnly(c, doc.wholeLineUpdateBefore) {
      SameObjects(before, c, option, added);
      d.RegLineChange(c.from.line);
    } else {
      LineObjectsReplaced(before, c, option, added);
      d.RegChange(before, doc.LineIds(), c.from.line, c.to.line + 1, lendiff);
    }
  }

  lemma SameObjects<L>(before: seq<L>, c: T.Change, option: bool, added: seq<L>)
    requires 0 <= c.from.line <= c.to.line < |before| && OneLineOnly(c, option)
    ensures T.LineObjects(before, c, option, added) == before
  {
  }

  lemma LineObjectsReplaced<L>(before: seq<L>, c: T.Change, wholeLineUpdateBefore: bool, added: seq<L>)
    requires 0 <= c.from.line <= c.to.line < |before| && |added| == T.LinesMade(c, wholeLineUpdateBefore)
    ensures Replaced(before, T.LineObjects(before, c, wholeLineUpdateBefore, added),
                     c.from.line, c.to.line + 1, |c.text| - (c.to.line - c.from.line) - 1)
  {
  }
}
