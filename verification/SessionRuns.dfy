/** Whole editing sessions against stacks of text snapshots. */
module SessionRuns {
  import opened Common
  import opened Document
  import opened Text
  import opened History
  import opened Session

  /** A call, as the public interface takes it: positions are clipped and put in order first. */
  datatype Call<+S> =
    | ReplaceRange(text: Lines, from: Pos, to: Pos, origin: Option<string>, selAfter: S, opId: OpId, recent: bool)
    | UndoCall
    | RedoCall
    | MarkCleanCall
    | SelectCall(sel: S, opId: OpId, alike: bool, clearRedo: bool)

  /** The texts before, now and after, and the text last marked clean. */
  datatype Snapshots = Snapshots(past: seq<Lines>, now: Lines, future: seq<Lines>, clean: Lines)

  /** replaceRange's clipping and ordering. */
  function Clipped(l: Lines, from: Pos, to: Pos, text: Lines): Change
  {
    var f, t := Clip(l, from), Clip(l, to);
    if Cmp(t, f) < 0 then Change(t, f, text) else Change(f, t, text)
  }

  lemma ClippedInRange(l: Lines, from: Pos, to: Pos, text: Lines)
    ensures InRange(l, Clipped(l, from, to, text))
  {
    ClipIsNearest(l, from, to);
    ClipIsNearest(l, to, from);
  }

  /** What else a session goes by: its two stacks, the selection and what was done last. */
  datatype Status<+S> = Status(done: seq<Event<S>>, undone: seq<Event<S>>, sel: S, lastOp: OpId,
      lastOrigin: Option<string>)

  /** Does the change go into the event on top? */
  ghost predicate Merges<S>(p: Status<S>, call: Call<S>)
    requires call.ReplaceRange?
  {
    MergesByOrigin(p.lastOp, p.lastOrigin, call.origin, call.opId, call.recent) &&
      Mergeable(p.done, SameOp(call.opId, p.lastOp))
  }

  /** A selection that overwrites an event: the one call that breaks the history. */
  ghost predicate Loses<S>(p: Status<S>, call: Call<S>)
  {
    call.SelectCall? && (SameOp(call.opId, p.lastOp) || call.alike) && p.done != [] && Last(p.done).Edit?
  }

  /** One call on the snapshots. `depth`: the undo depth, if there is one. */
  ghost predicate Step<S>(a: Snapshots, p: Status<S>, call: Call<S>, b: Snapshots, depth: Option<nat>)
  {
    match call
    case ReplaceRange(text, from, to, _, _, _, _) =>
      var c := Clipped(a.now, from, to, text);
      ClippedInRange(a.now, from, to, text);
      && b.now == Splice(a.now, c) && b.clean == a.clean
      && if Nothing(c) then b.past == a.past && b.future == a.future
         else
           && b.future == []
           && if Merges(p, call) then a.past != [] && b.past == a.past
              else if depth == None || |p.done| + 2 <= depth.value then b.past == a.past + [a.now]
              else IsSuffix(b.past, a.past + [a.now])
    case UndoCall =>
      if a.past == [] then b == a
      else b == Snapshots(a.past[..|a.past| - 1], Last(a.past), a.future + [a.now], a.clean)
    case RedoCall =>
      if a.future == [] then b == a
      else b == Snapshots(a.past + [a.now], Last(a.future), a.future[..|a.future| - 1], a.clean)
    case MarkCleanCall => b == a.(clean := a.now)
    case SelectCall(_, _, _, _) => b == a
  }

  predicate Nothing(c: Change)
  {
    c.text == [""] && c.from == c.to
  }

  /** What the call does to stacks and selection. */
  ghost predicate Moves<S>(a: Snapshots, p: Status<S>, call: Call<S>, q: Status<S>)
  {
    match call
    case ReplaceRange(text, from, to, origin, selAfter, opId, _) =>
      if Nothing(Clipped(a.now, from, to, text)) then q == p
      else
        && q.done != [] && Last(q.done) == Sel(selAfter)
        && q == Status(q.done, [], selAfter, opId, origin)
    case UndoCall =>
      if a.past == [] then q == p
      else Session<S>.Replayed(p.done, q.done, q.undone, q.sel) && q.lastOp == p.lastOp && q.lastOrigin == None
    case RedoCall =>
      if a.future == [] then q == p
      else Session<S>.Replayed(p.undone, q.undone, q.done, q.sel) && q.lastOp == p.lastOp && q.lastOrigin == None
    case MarkCleanCall => q == p.(lastOp := NoOp, lastOrigin := None)
    case SelectCall(sel, opId, alike, clearRedo) =>
      && q.sel == sel && q.lastOp == opId && q.lastOrigin == p.lastOrigin
      && q.undone == (if clearRedo then WithoutSelections(p.undone) else p.undone)
      && |q.done| >= |p.done|
      && if SameOp(opId, p.lastOp) || alike then p.done != [] ==> q.done == p.done[|p.done| - 1 := Sel(sel)]
         else q.done != [] && Last(q.done) == Sel(sel) && (q.done == p.done || q.done == p.done + [Sel(sel)])
  }

  /** Redo after undo, and undo after redo, lead back to the same text with the same way on. */
  lemma UndoRedoIsIdentity<S>(a: Snapshots, p: Status<S>, b: Snapshots, q: Status<S>, c: Snapshots, depth: Option<nat>)
    ensures a.past != [] && Step(a, p, UndoCall, b, depth) && Step(b, q, RedoCall, c, depth) ==> c == a
    ensures a.future != [] && Step(a, p, RedoCall, b, depth) && Step(b, q, UndoCall, c, depth) ==> c == a
  {
    if a.past != [] { assert a.past[..|a.past| - 1] + [Last(a.past)] == a.past; }
    if a.future != [] { assert a.future[..|a.future| - 1] + [Last(a.future)] == a.future; }
  }

  ghost function Snap<S>(s: Session<S>): Snapshots
    requires s.Valid()
    reads s, s.doc
  {
    Snapshots(s.past, s.doc.Texts(), s.future, s.cleanText)
  }

  ghost function StatusOf<S>(s: Session<S>): Status<S>
    reads s
  {
    Status(s.done, s.undone, s.sel, s.lastOp, s.lastOrigin)
  }

  /** One call on a session. It breaks the history exactly when it is a selection that overwrites an event. */
  method Perform<S(==)>(s: Session<S>, call: Call<S>)
    requires s.Valid()
    modifies s, s.doc
    ensures s.undoDepth == old(s.undoDepth) && (s.Valid() <==> !Loses(old(StatusOf(s)), call))
    ensures s.Valid() ==> Step(old(Snap(s)), old(StatusOf(s)), call, Snap(s), s.undoDepth)
    ensures s.Valid() ==> Moves(old(Snap(s)), old(StatusOf(s)), call, StatusOf(s))
  {
    hide Session.Valid, Doc.Valid, Doc.Texts, Splice, InRange, Clip, IsSuffix, Mergeable, MergesByOrigin, SameOp,
      Session.Replayed, WithoutSelections;
    ValidDoc(s);
    match call {
      case ReplaceRange(text, from, to, origin, selAfter, opId, recent) =>
        ClippedInRange(s.doc.Texts(), from, to, text);
        var f := s.doc.ClipPos(from);
        var t := s.doc.ClipPos(to);
        if Cmp(t, f) < 0 { f, t := t, f; }
        var _ := s.MakeChange(Change(f, t, text), origin, selAfter, opId, recent);
      case UndoCall => s.MakeChangeFromHistory(true);
      case RedoCall => s.MakeChangeFromHistory(false);
      case MarkCleanCall => s.MarkClean();
      case SelectCall(sel, opId, alike, clearRedo) => s.SetSelection(sel, opId, alike, clearRedo);
    }
  }

  lemma ValidDoc<S>(s: Session<S>)
    requires s.Valid()
    ensures s.doc.Valid()
  {
  }

  ghost predicate Trace<S>(calls: seq<Call<S>>, clean: seq<bool>, snaps: seq<Snapshots>, stats: seq<Status<S>>,
      depth: Option<nat>)
  {
    && |snaps| == |stats| == |clean| + 1 && |clean| <= |calls|
    && (forall i: nat | i < |clean| ::
          Step(snaps[i], stats[i], calls[i], snaps[i + 1], depth) && Moves(snaps[i], stats[i], calls[i], stats[i + 1]))
    && (forall i: nat | i < |clean| && clean[i] :: snaps[i + 1].now == snaps[i + 1].clean)
  }

  /** Any run of changes (merged or not), selections, undos, redos and markCleans: the session goes through exactly
      the texts that stacks of snapshots prescribe, and whenever isClean() says so the text is the marked one. The
      run stops only at a selection that overwrites an event. */
  method Run<S(==)>(s: Session<S>, calls: seq<Call<S>>)
    returns (clean: seq<bool>, ghost snaps: seq<Snapshots>, ghost stats: seq<Status<S>>)
    requires s.Valid()
    modifies s, s.doc
    ensures Trace(calls, clean, snaps, stats, s.undoDepth)
    ensures snaps[0] == old(Snap(s)) && stats[0] == old(StatusOf(s))
    ensures |clean| == |calls| ==> s.Valid() && snaps[|calls|] == Snap(s) && stats[|calls|] == StatusOf(s)
    ensures |clean| < |calls| ==> !s.Valid() && Loses(stats[|clean|], calls[|clean|])
  {
    hide Session.Valid, Doc.Valid, Doc.Texts, Step, Moves, Loses;
    clean, snaps, stats := [], [Snap(s)], [StatusOf(s)];
    for i := 0 to |calls|
      invariant s.Valid() && s.undoDepth == old(s.undoDepth) && |clean| == i
      invariant Trace(calls, clean, snaps, stats, s.undoDepth)
      invariant snaps[0] == old(Snap(s)) && snaps[i] == Snap(s)
      invariant stats[0] == old(StatusOf(s)) && stats[i] == StatusOf(s)
    {
      var stops := IsLost(s, calls[i]);
      Perform(s, calls[i]);
      if stops { return; }
      if s.IsClean() { s.CleanMeansSameText(); }
      clean := clean + [s.IsClean()];
      snaps, stats := snaps + [Snap(s)], stats + [StatusOf(s)];
    }
  }

  /** Whether a call would overwrite an event can be seen before it is made. */
  method IsLost<S>(s: Session<S>, call: Call<S>) returns (lost: bool)
    ensures lost <==> Loses(StatusOf(s), call)
  {
    match call {
      case SelectCall(_, opId, alike, _) =>
        return (SameOp(opId, s.lastOp) || alike) && s.done != [] && Last(s.done).Edit?;
      case _ => return false;
    }
  }

  /** What markClean is for: a change right after it is an event of its own, and undoing it makes the
      document clean again. */
  method CleanAgainAfterUndo<S(==)>(s: Session<S>, c: Change, origin: Option<string>, selAfter: S, opId: OpId,
      recent: bool)
    requires s.Valid() && InRange(s.doc.Texts(), c) && !s.IsNothing(c) && s.undoDepth == None
    modifies s, s.doc
    ensures s.Valid() && s.IsClean() && s.doc.Texts() == old(s.doc.Texts())
  {
    hide Session.Valid, Doc.Valid, Doc.Texts, Splice, Inverse, InRange;
    s.MarkClean();
    var merged := s.MakeChange(c, origin, selAfter, opId, recent);
    s.MakeChangeFromHistory(true);
  }

  // ----- what is undone together -----

  /** A change with what the history goes by. `recent`: within historyEventDelay of the change before. */
  datatype Entry<+S> = Entry(change: Change, origin: Option<string>, selAfter: S, opId: OpId, recent: bool)

  /** A selection that is set. `alike`: its origin lets it replace the selection before it in the history. */
  datatype Pick<+S> = Pick(sel: S, opId: OpId, alike: bool, clearRedo: bool)

  /** The operation and the selection that come before pick `i` of those made after `first`. */
  function OpBefore<S>(first: Entry<S>, picks: seq<Pick<S>>, i: nat): OpId
    requires i <= |picks|
  {
    if i == 0 then first.opId else picks[i - 1].opId
  }

  function SelBefore<S>(first: Entry<S>, picks: seq<Pick<S>>, i: nat): S
    requires i <= |picks|
  {
    if i == 0 then first.selAfter else picks[i - 1].sel
  }

  /** A pick that leaves the selection before it in the history: another one, in an operation of its own. */
  ghost predicate Moved<S>(first: Entry<S>, picks: seq<Pick<S>>)
  {
    exists i: nat :: i < |picks| && SetsApart(first, picks, i)
  }

  predicate SetsApart<S(==)>(first: Entry<S>, picks: seq<Pick<S>>, i: nat)
    requires i < |picks|
  {
    var p := picks[i];
    p.sel != SelBefore(first, picks, i) && !p.alike && (!p.opId.Op? || p.opId != OpBefore(first, picks, i))
  }

  /** Two changes are undone together in one operation; and when they have the same origin, one that starts with *,
      or one that starts with + soon after each other, and the selection has not been moved between them. */
  ghost predicate Together<S>(first: Entry<S>, picks: seq<Pick<S>>, second: Entry<S>)
  {
    || (second.opId.Op? && second.opId == OpBefore(first, picks, |picks|))
    || (first.origin == second.origin && second.origin.Some? && second.origin.value != "" && !Moved(first, picks) &&
        (second.origin.value[0] == '*' || (second.origin.value[0] == '+' && second.recent)))
  }

  /** Two changes after markClean, with any selections set between them, and two undos. */
  method TwoChanges<S(==)>(s: Session<S>, first: Entry<S>, picks: seq<Pick<S>>, second: Entry<S>)
    returns (ghost once: Lines)
    requires s.Valid() && s.undoDepth == None
    requires InRange(s.doc.Texts(), first.change) && !s.IsNothing(first.change)
    requires InRange(Splice(s.doc.Texts(), first.change), second.change) && !s.IsNothing(second.change)
    modifies s, s.doc
    ensures s.Valid() && s.doc.Valid()
    ensures Together(first, picks, second) ==> once == old(s.doc.Texts())
    ensures Together(first, picks, second) ==>
              s.doc.Texts() == if old(s.past) == [] then old(s.doc.Texts()) else Last(old(s.past))
    ensures !Together(first, picks, second) ==>
              once == Splice(old(s.doc.Texts()), first.change) && s.doc.Texts() == old(s.doc.Texts())
  {
    hide Session.Valid, Doc.Valid, Doc.Texts, Splice, Inverse, InRange, Edits, Moved, SameOp, Together, MergesByOrigin,
      Mergeable, OpBefore, SelBefore, Session.Replayed, Awaits;
    ChangeAndPick(s, first, picks);
    EventsAreTexts(s);
    MergedTogether(s, first, picks, second);
    var _ := s.MakeChange(second.change, second.origin, second.selAfter, second.opId, second.recent);
    s.MakeChangeFromHistory(true);
    ValidDoc(s);
    once := s.doc.Texts();
    s.MakeChangeFromHistory(true);
    ValidDoc(s);
  }

  /** A change of its own, and the selections set after it: its event stays under one selection as long as none of
      them is set apart. */
  method ChangeAndPick<S(==)>(s: Session<S>, first: Entry<S>, picks: seq<Pick<S>>)
    requires s.Valid() && s.undoDepth == None
    requires InRange(s.doc.Texts(), first.change) && !s.IsNothing(first.change)
    modifies s, s.doc
    ensures s.Valid() && s.undoDepth == None && s.doc.Valid()
    ensures s.doc.Texts() == Splice(old(s.doc.Texts()), first.change)
    ensures s.past == old(s.past) + [old(s.doc.Texts())] && Awaits(s, first, picks)
  {
    hide Session.Valid, Doc.Valid, Doc.Texts, Splice, Inverse, InRange, Edits, TopEvent, Mergeable;
    s.MarkClean();
    var _ := s.MakeChange(first.change, first.origin, first.selAfter, first.opId, first.recent);
    ValidDoc(s);
    SetSelections(s, first, picks);
  }

  /** The session after `first` and `picks`. */
  ghost predicate Awaits<S>(s: Session<S>, first: Entry<S>, picks: seq<Pick<S>>)
    reads s
  {
    && s.lastOp == OpBefore(first, picks, |picks|) && s.lastOrigin == first.origin
    && s.done != [] && Last(s.done) == Sel(SelBefore(first, picks, |picks|))
    && (|s.done| > 1 && s.done[|s.done| - 2].Edit? <==> !Moved(first, picks))
  }

  method SetSelections<S(==)>(s: Session<S>, first: Entry<S>, picks: seq<Pick<S>>)
    requires s.Valid() && s.undoDepth == None && s.lastOp == first.opId && s.lastOrigin == first.origin
    requires |s.done| > 1 && s.done[|s.done| - 2].Edit? && Last(s.done) == Sel(first.selAfter) && s.doc.Valid()
    modifies s
    ensures s.Valid() && s.undoDepth == None && s.doc.Valid() && s.doc.Texts() == old(s.doc.Texts())
    ensures s.past == old(s.past) && Awaits(s, first, picks)
  {
    hide Session.Valid, Doc.Valid, Doc.Texts, Moved, WithoutSelections, OpBefore, SelBefore, SetsApart;
    assert Awaits(s, first, picks[..0]) by { NotMoved(first, picks[..0]); }
    for i := 0 to |picks|
      invariant s.Valid() && s.undoDepth == None && s.past == old(s.past) && Awaits(s, first, picks[..i])
    {
      var p := picks[i];
      OneMorePick(first, picks, i);
      s.SetSelection(p.sel, p.opId, p.alike, p.clearRedo);
    }
    assert picks[..|picks|] == picks;
  }

  lemma NotMoved<S>(first: Entry<S>, picks: seq<Pick<S>>)
    ensures picks == [] ==> !Moved(first, picks)
    ensures OpBefore(first, picks, 0) == first.opId && SelBefore(first, picks, 0) == first.selAfter
  {
  }

  lemma OneMorePick<S>(first: Entry<S>, picks: seq<Pick<S>>, i: nat)
    requires i < |picks|
    ensures var p, last, op := picks[i], SelBefore(first, picks[..i], i), OpBefore(first, picks[..i], i);
            && SelBefore(first, picks[..i + 1], i + 1) == p.sel && OpBefore(first, picks[..i + 1], i + 1) == p.opId
            && (Moved(first, picks[..i + 1]) <==>
                  Moved(first, picks[..i]) || (p.sel != last && !p.alike && !SameOp(p.opId, op)))
  {
    forall k: nat | k < i
      ensures SetsApart(first, picks[..i + 1], k) <==> SetsApart(first, picks[..i], k)
    {
      assert picks[..i + 1][k] == picks[..i][k] && (k > 0 ==> picks[..i + 1][k - 1] == picks[..i][k - 1]);
    }
    assert SetsApart(first, picks[..i + 1], i) <==> SetsApart(first, picks, i);
    if Moved(first, picks[..i]) {
      var k: nat :| k < i && SetsApart(first, picks[..i], k);
      assert SetsApart(first, picks[..i + 1], k);
    }
    if Moved(first, picks[..i + 1]) {
      var k: nat :| k < i + 1 && SetsApart(first, picks[..i + 1], k);
      assert k < i ==> SetsApart(first, picks[..i], k);
    }
  }

  /** What is undone together is what goes into the event on top. */
  lemma MergedTogether<S>(s: Session<S>, first: Entry<S>, picks: seq<Pick<S>>, second: Entry<S>)
    requires Awaits(s, first, picks) && Edits(s.done) > 0
    ensures Together(first, picks, second) <==>
            s.MayMerge(second.origin, second.opId, second.recent) && Mergeable(s.done, SameOp(second.opId, s.lastOp))
  {
    hide Moved, OpBefore, Edits;
  }

  /** Where the history is lost: within one operation, a change, an undo, a redo and a selection. The selection
      overwrites the event that the redo put back: the text stays changed, and the stack is one event short. With
      no event before it, there is nothing left to undo. */
  method SelectionAfterRedoLosesEvent<S(==)>(s: Session<S>, c: Change, sel: S) returns (undoable: bool)
    requires s.Valid() && InRange(s.doc.Texts(), c) && !s.IsNothing(c) && s.undoDepth == None
    modifies s, s.doc
    ensures s.doc.Valid() && s.doc.Texts() == Splice(old(s.doc.Texts()), c)
    ensures !s.Valid() && |s.past| == |old(s.past)| + 1 && Edits(s.done) == |old(s.past)|
    ensures undoable <==> old(s.past) != []
  {
    hide Session.Valid, Doc.Valid, Doc.Texts, Splice, InRange, Edits, WithoutSelections, PushSel;
    ChangeUndoRedo(s, c, sel, Op(7));
    EventsAreTexts(s);
    OneEventLess(s.done, sel);
    s.SetSelection(sel, Op(7), false, true);
    undoable := s.HasEvent(s.done);
  }

  /** A change of its own, undone and redone: its event is on top of the stack again. */
  method ChangeUndoRedo<S(==)>(s: Session<S>, c: Change, sel: S, op: OpId)
    requires s.Valid() && InRange(s.doc.Texts(), c) && !s.IsNothing(c) && s.undoDepth == None && op.Op?
    modifies s, s.doc
    ensures s.Valid() && s.doc.Valid() && s.doc.Texts() == Splice(old(s.doc.Texts()), c)
    ensures s.done != [] && Last(s.done).Edit? && s.lastOp == op && |s.past| == |old(s.past)| + 1
  {
    hide Session.Valid, Doc.Valid, Doc.Texts, Splice, InRange, Inverse, Edits, TopEvent, UnderTop, Mergeable;
    s.MarkClean();
    var merged := s.MakeChange(c, None, sel, op, false);
    s.MakeChangeFromHistory(true);
    s.MakeChangeFromHistory(false);
    ValidDoc(s);
  }

  lemma EventsAreTexts<S>(s: Session<S>)
    requires s.Valid()
    ensures Edits(s.done) == |s.past|
  {
    ChainCounts(s.doc.Texts(), s.done, s.past, s.tags);
  }

  lemma OneEventLess<S>(events: seq<Event<S>>, sel: S)
    requires events != [] && Last(events).Edit?
    ensures Edits(events[|events| - 1 := Sel(sel)]) == Edits(events) - 1
  {
    assert events[|events| - 1 := Sel(sel)][..|events| - 1] == events[..|events| - 1];
  }
}
