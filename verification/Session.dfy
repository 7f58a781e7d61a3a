/** An editing session: a document with its history, as driven by changes, selections, undo, redo
    and markClean. */
module Session {
  import opened Common
  import opened Document
  import opened Text
  import opened History

  /** pushSelectionToHistory: not twice the same selection in a row. */
  function PushSel<S(==)>(events: seq<Event<S>>, s: S): (r: seq<Event<S>>)
    ensures r != [] && Last(r).Sel?
  {
    if events != [] && Last(events) == Sel(s) then events else events + [Sel(s)]
  }

  /** Directly below every event on the stack lies the selection to restore with it. */
  ghost predicate Fenced<S>(events: seq<Event<S>>)
  {
    forall i: nat | i < |events| && events[i].Edit? :: i > 0 && events[i - 1].Sel?
  }

  lemma PushSelKeeps<S>(l: Lines, events: seq<Event<S>>, texts: seq<Lines>, tags: map<nat, Lines>, s: S)
    requires Chain(l, events, texts, tags) && Fenced(events)
    ensures Chain(l, PushSel(events, s), texts, tags) && Fenced(PushSel(events, s))
  {
    ChainPush(l, events, texts, tags, s);
  }

  /** The stack when the selection `s` has been put on it: over what is on top, or as an entry of its own. */
  function Selected<S(==)>(events: seq<Event<S>>, s: S, over: bool): seq<Event<S>>
  {
    if !over then PushSel(events, s)
    else if events == [] then [] else events[|events| - 1 := Sel(s)]
  }

  /** May a change be merged into the last event, as far as operation and origin go? `recent`: in time. */
  predicate MergesByOrigin(lastOp: OpId, lastOrigin: Option<string>, origin: Option<string>, opId: OpId, recent: bool)
  {
    || SameOp(opId, lastOp)
    || (lastOrigin == origin && origin.Some? && origin.value != "" &&
        ((origin.value[0] == '+' && recent) || origin.value[0] == '*'))
  }

  class Session<S(==)> {
    const doc: Doc
    var sel: S
    var done: seq<Event<S>>
    var undone: seq<Event<S>>
    /** None: unlimited. */
    var undoDepth: Option<nat>
    var generation: nat
    var maxGeneration: nat
    var cleanGeneration: nat
    var lastOp: OpId
    var lastOrigin: Option<string>

    /** The texts that undo, and redo, will go through, nearest last. */
    ghost var past: seq<Lines>
    ghost var future: seq<Lines>
    /** The text each generation number was given to, and the text at the last markClean. */
    ghost var tags: map<nat, Lines>
    ghost var cleanText: Lines

    ghost predicate TagsMatch(l: Lines)
      reads this
    {
      && generation != 0 && generation in tags && tags[generation] == l
      && (forall g | g in tags :: g <= maxGeneration)
      && cleanGeneration in tags && tags[cleanGeneration] == cleanText
    }

    ghost predicate Valid()
      reads this, doc
    {
      && doc.Valid() && Fenced(done) && Fenced(undone)
      && Chain(doc.Texts(), done, past, tags) && Chain(doc.Texts(), undone, future, tags)
      && TagsMatch(doc.Texts())
    }

    /** A document just made: history empty, generation 1, clean. */
    constructor (doc: Doc, sel: S, undoDepth: Option<nat>)
      requires doc.Valid()
      ensures Valid() && this.doc == doc && past == [] && future == [] && cleanText == doc.Texts() && IsClean()
      ensures this.undoDepth == undoDepth
    {
      this.doc, this.sel, this.undoDepth := doc, sel, undoDepth;
      done, undone := [], [];
      generation, maxGeneration, cleanGeneration := 1, 1, 1;
      lastOp, lastOrigin := NoOp, None;
      past, future, tags, cleanText := [], [], map[1 := doc.Texts()], doc.Texts();
    }

    predicate IsClean()
      reads this
    {
      generation == cleanGeneration
    }

    /** isClean() is true only of the text there was at the last markClean. */
    lemma CleanMeansSameText()
      requires Valid() && IsClean()
      ensures doc.Texts() == cleanText
    {
    }

    /** markClean: also keeps the next change from being merged into the last event. */
    method MarkClean()
      requires Valid()
      modifies this
      ensures Valid() && cleanText == doc.Texts() && IsClean()
      ensures past == old(past) && future == old(future) && undoDepth == old(undoDepth)
      ensures lastOp == NoOp && lastOrigin == None && done == old(done) && undone == old(undone) && sel == old(sel)
    {
      lastOp, lastOrigin := NoOp, None;
      cleanGeneration := generation;
      cleanText := doc.Texts();
    }

    /** May the history have `n` entries? */
    predicate Fits(n: int)
      reads this`undoDepth
    {
      undoDepth == None || n <= undoDepth.value
    }

    /** lastChangeEvent: uncovers the event on top of `done`, if the selections above it may go. */
    method LastChangeEvent(force: bool, ghost l: Lines) returns (found: bool)
      requires Fenced(done) && Chain(l, done, past, tags)
      modifies this`done
      ensures Fenced(done) && Chain(l, done, past, tags) && |done| <= |old(done)|
      ensures found ==> done != [] && Last(done).Edit?
      ensures found <==> Mergeable(old(done), force)
      ensures !found && Edits(old(done)) > 0 ==> done == old(done)
    {
      if force {
        while done != [] && Last(done).Sel?
          invariant Fenced(done) && Chain(l, done, past, tags) && |done| <= |old(done)|
          invariant Edits(done) == Edits(old(done))
        {
          done := done[..|done| - 1];
        }
        return done != [];
      } else if done != [] && Last(done).Edit? {
        return true;
      } else if |done| > 1 && done[|done| - 2].Edit? {
        done := done[..|done| - 1];
        return true;
      }
      return false;
    }

    /** The loop that forgets what is beyond undoDepth, run on a stack with an event on top. */
    method Forget(ghost l: Lines)
      requires Fenced(done) && Chain(l, done, past, tags) && done != [] && Last(done).Edit?
      modifies this`done, this`past
      ensures Fenced(done) && Chain(l, done, past, tags)
      ensures IsSuffix(past, old(past)) && Fits(|done|)
      ensures Fits(|old(done)|) ==> past == old(past) && done == old(done)
      ensures !Fits(|old(done)|) ==> |done| >= undoDepth.value - 1
    {
      hide Chain, Fenced;
      while undoDepth.Some? && |done| > undoDepth.value
        invariant Fenced(done) && Chain(l, done, past, tags) && (done == [] || Last(done).Edit?)
        invariant IsSuffix(past, old(past)) && (Fits(|old(done)|) ==> past == old(past) && done == old(done))
        invariant !Fits(|old(done)|) ==> |done| >= undoDepth.value - 1
        decreases |done|
      {
        FencedShift(done);
        ChainShift(l, done, past, tags);
        done := done[1..];
        if done[0].Edit? {
          ChainShift(l, done, past, tags);
          done := done[1..];
          past := past[1..];
        }
      }
    }

    /** The oldest entry is a selection; it goes together with the event on it, if there is one. */
    static lemma FencedShift(events: seq<Event<S>>)
      requires Fenced(events) && events != [] && Last(events).Edit?
      ensures events[0].Sel? && |events| > 1 && Last(events[1..]).Edit?
      ensures if events[1].Edit? then Fenced(events[1..][1..]) else Fenced(events[1..])
      ensures |events| > 2 ==> Last(events[1..][1..]).Edit?
    {
      var u := if events[1].Edit? then events[1..][1..] else events[1..];
      var k := |events| - |u|;
      forall i: nat | i < |u| && u[i].Edit? ensures i > 0 && u[i - 1].Sel? {
        assert u[i] == events[i + k];
        assert events[i + k - 1].Sel?;
      }
    }

    predicate MayMerge(origin: Option<string>, opId: OpId, recent: bool)
      reads this
    {
      MergesByOrigin(lastOp, lastOrigin, origin, opId, recent)
    }

    /** addChangeToHistory, called before the document is changed. */
    method AddChangeToHistory(c: Change, origin: Option<string>, selAfter: S, opId: OpId, recent: bool)
        returns (merged: bool)
      requires Valid() && InRange(doc.Texts(), c)
      modifies this
      ensures var r := Splice(doc.Texts(), c);
              && Fenced(done) && Chain(r, done, past, tags) && TagsMatch(r)
      ensures undone == [] && future == [] && undoDepth == old(undoDepth) && lastOp == opId && lastOrigin == origin
      ensures done != [] && Last(done) == Sel(selAfter)
      ensures cleanText == old(cleanText) && cleanGeneration == old(cleanGeneration)
      ensures merged <==> old(MayMerge(origin, opId, recent) && Mergeable(done, SameOp(opId, lastOp)))
      ensures merged ==> past == old(past) && past != []
      ensures !merged ==> IsSuffix(past, old(past) + [doc.Texts()]) && Fits(|done| - 1)
      ensures merged || Fits(|old(done)| + 2) || Edits(old(done)) == 0 || |done| >= undoDepth.value
      ensures merged || Fits(|old(done)| + 2) ==> |done| > 1 && done[|done| - 2].Edit?
      ensures !merged && Fits(|old(done)| + 2) ==>
                past == old(past) + [doc.Texts()] && Edits(done) > 0 &&
                  TopEvent(done) == Edit([Inverse(doc.Texts(), c)], old(generation))
    {
      hide Chain, Fenced, Splice, Inverse, InRange, LeadsTo, Doc.Valid, Doc.Texts, MayMerge, Mergeable, IsSuffix,
        Edits, TopEvent;
      ghost var r := Splice(doc.Texts(), c);
      var mergeable := MayMerge(origin, opId, recent);
      undone, future := [], [];
      merged := RecordChange(c, mergeable, SameOp(opId, lastOp), selAfter);
      lastOp, lastOrigin := opId, origin;
      NextGeneration(r);
    }

    /** The event, and the selection after it. */
    method RecordChange(c: Change, mergeable: bool, force: bool, selAfter: S) returns (merged: bool)
      requires doc.Valid() && InRange(doc.Texts(), c) && Fenced(done) && Chain(doc.Texts(), done, past, tags)
      requires generation != 0 && generation in tags && tags[generation] == doc.Texts()
      modifies this`done, this`past
      ensures Fenced(done) && Chain(Splice(doc.Texts(), c), done, past, tags) && done != [] &&
                Last(done) == Sel(selAfter)
      ensures merged <==> mergeable && Mergeable(old(done), force)
      ensures merged ==> past == old(past) && past != []
      ensures !merged ==> IsSuffix(past, old(past) + [doc.Texts()]) && Fits(|done| - 1)
      ensures merged || Fits(|old(done)| + 2) || Edits(old(done)) == 0 || |done| >= undoDepth.value
      ensures merged || Fits(|old(done)| + 2) ==> |done| > 1 && done[|done| - 2].Edit?
      ensures !merged && Fits(|old(done)| + 2) ==>
                past == old(past) + [doc.Texts()] && Edits(done) > 0 &&
                  TopEvent(done) == Edit([Inverse(doc.Texts(), c)], generation)
    {
      hide Chain, Fenced, Splice, Inverse, InRange, LeadsTo, Doc.Valid, Doc.Texts, Mergeable, IsSuffix, Edits, TopEvent;
      merged := MergeOrStart(c, mergeable, force);
      ghost var events := done;
      PushSelAlways(Splice(doc.Texts(), c), selAfter);
      if !merged && Fits(|old(done)| + 2) { TopOfPushed(events, selAfter); }
    }

    static lemma TopOfPushed(events: seq<Event<S>>, s: S)
      requires events != [] && Last(events).Edit?
      ensures Edits(events + [Sel(s)]) > 0 && TopEvent(events + [Sel(s)]) == Last(events)
    {
      TopUnderSelection(events[..|events| - 1], Last(events), s);
      assert events[..|events| - 1] + [Last(events)] == events;
    }

    /** The text to come gets a generation number of its own. */
    method NextGeneration(ghost r: Lines)
      requires Chain(r, done, past, tags) && forall g | g in tags :: g <= maxGeneration
      requires cleanGeneration in tags && tags[cleanGeneration] == cleanText
      modifies this`generation, this`maxGeneration, this`tags
      ensures Chain(r, done, past, tags) && TagsMatch(r)
    {
      hide Chain;
      NewTag(r, maxGeneration + 1);
      maxGeneration := maxGeneration + 1;
      tags := tags[maxGeneration := r];
      generation := maxGeneration;
    }

    lemma NewTag(r: Lines, g: nat)
      requires Chain(r, done, past, tags) && forall x | x in tags :: x < g
      ensures Chain(r, done, past, tags[g := r])
    {
      ChainMoreTags(r, done, past, tags, tags[g := r]);
    }

    /** The choice in addChangeToHistory between merging and starting a new event. */
    method MergeOrStart(c: Change, mergeable: bool, force: bool) returns (merged: bool)
      requires doc.Valid() && InRange(doc.Texts(), c) && Fenced(done) && Chain(doc.Texts(), done, past, tags)
      requires generation != 0 && generation in tags && tags[generation] == doc.Texts()
      modifies this`done, this`past
      ensures Fenced(done) && Chain(Splice(doc.Texts(), c), done, past, tags)
      ensures merged <==> mergeable && Mergeable(old(done), force)
      ensures merged ==> past == old(past) && past != []
      ensures !merged ==> IsSuffix(past, old(past) + [doc.Texts()]) && Fits(|done|)
      ensures merged ==> done != [] && Last(done).Edit?
      ensures merged || Fits(|old(done)| + 2) || Edits(old(done)) == 0 || |done| >= undoDepth.value - 1
      ensures !merged && Fits(|old(done)| + 2) ==>
                past == old(past) + [doc.Texts()] && done != [] &&
                  Last(done) == Edit([Inverse(doc.Texts(), c)], generation)
    {
      hide Chain, Fenced, Splice, Inverse, InRange, LeadsTo, Doc.Valid, Doc.Texts, Mergeable;
      merged := false;
      if mergeable {
        merged := LastChangeEvent(force, doc.Texts());
      }
      if merged {
        MergeChange(c);
      } else {
        NewEvent(c);
      }
    }

    /** Merge the change into the event on top. */
    method MergeChange(c: Change)
      requires doc.Valid() && InRange(doc.Texts(), c) && Fenced(done) && Chain(doc.Texts(), done, past, tags)
      requires done != [] && Last(done).Edit?
      modifies this`done
      ensures Fenced(done) && Chain(Splice(doc.Texts(), c), done, past, tags) && past != []
      ensures done != [] && Last(done).Edit?
    {
      hide Chain, Fenced, Splice, InRange, LeadsTo, Doc.Valid, Doc.Texts;
      ghost var l, r := doc.Texts(), Splice(doc.Texts(), c);
      ChainTop(l, done, past, tags);
      var cur, rest := Last(done), done[..|done| - 1];
      var changes := MergedChanges(cur.changes, c, Last(past));
      ChainPushEdit(r, Last(past), rest, past[..|past| - 1], tags, changes, cur.generation);
      assert past[..|past| - 1] + [Last(past)] == past;
      FencedReplace(done, Edit(changes, cur.generation));
      done := rest + [Edit(changes, cur.generation)];
    }

    /** The changes of an event that also takes back `c`. */
    method MergedChanges(changes: seq<Change>, c: Change, ghost r: Lines) returns (merged: seq<Change>)
      requires doc.Valid() && InRange(doc.Texts(), c) && changes != [] && LeadsTo(doc.Texts(), changes, r)
      ensures merged != [] && LeadsTo(Splice(doc.Texts(), c), merged, r)
    {
      hide Splice, Between, InText, LeadsTo, Extended, Doc.Valid, Doc.Texts;
      if c.from == c.to && c.from == Last(changes).to {
        // an insertion at the end of the last change only makes that change longer
        merged := Extended(changes, c);
        LeadsToExtended(doc.Texts(), changes, r, c);
        ExtendedNotEmpty(changes, c);
      } else {
        var text := doc.GetBetween(c.from, c.to);
        merged := changes + [Change(c.from, ChangeEnd(c), text)];
        LeadsToOneMore(doc.Texts(), changes, r, c);
      }
    }

    static lemma ExtendedNotEmpty(changes: seq<Change>, c: Change)
      requires changes != []
      ensures Extended(changes, c) != []
    {
    }

    static lemma FencedPush(events: seq<Event<S>>, e: Event<S>)
      requires Fenced(events) && events != [] && Last(events).Sel?
      ensures Fenced(events + [e])
    {
    }

    static lemma FencedReplace(events: seq<Event<S>>, b: Event<S>)
      requires Fenced(events) && events != [] && Last(events).Edit?
      ensures Fenced(events[..|events| - 1] + [b])
    {
      var u := events[..|events| - 1] + [b];
      forall i: nat | i < |u| && u[i].Edit? ensures i > 0 && u[i - 1].Sel? {
        assert events[i].Edit? && (i > 0 ==> u[i - 1] == events[i - 1]);
      }
    }

    /** Start a new event. */
    method NewEvent(c: Change)
      requires doc.Valid() && InRange(doc.Texts(), c) && Fenced(done) && Chain(doc.Texts(), done, past, tags)
      requires generation != 0 && generation in tags && tags[generation] == doc.Texts()
      modifies this`done, this`past
      ensures Fenced(done) && Chain(Splice(doc.Texts(), c), done, past, tags)
      ensures IsSuffix(past, old(past) + [doc.Texts()]) && Fits(|done|)
      ensures Fits(|old(done)| + 2) || |done| >= undoDepth.value - 1
      ensures Fits(|old(done)| + 2) ==>
                past == old(past) + [doc.Texts()] && done != [] &&
                  Last(done) == Edit([Inverse(doc.Texts(), c)], generation)
    {
      hide Chain, Fenced, Splice, Between, InText, LeadsTo, Doc.Valid, Doc.Texts, IsSuffix;
      ghost var l, r := doc.Texts(), Splice(doc.Texts(), c);
      if done == [] || Last(done).Edit? {
        PushSelKeeps(l, done, past, tags, sel);
        done := PushSel(done, sel);
      }
      var text := doc.GetBetween(c.from, c.to);
      ghost var inverse := Inverse(l, c);
      LeadsToOne(l, c);
      ChainPushEdit(r, l, done, past, tags, [inverse], generation);
      FencedPush(done, Edit([inverse], generation));
      done := done + [Edit([Change(c.from, ChangeEnd(c), text)], generation)];
      past := past + [l];
      WholeSuffix(past);
      if undoDepth.Some? {
        Forget(r);
      }
    }

    static lemma WholeSuffix(texts: seq<Lines>)
      ensures IsSuffix(texts, texts)
    {
    }

    method PushSelAlways(ghost r: Lines, s: S)
      requires Fenced(done) && Chain(r, done, past, tags)
      modifies this`done
      ensures done == old(done) + [Sel(s)] && Fenced(done) && Chain(r, done, past, tags)
    {
      ChainPush(r, done, past, tags, s);
      done := done + [Sel(s)];
    }

    /** makeChangeInner makes no change at all of an empty insertion. */
    predicate IsNothing(c: Change)
    {
      c.text == [""] && c.from == c.to
    }

    /** makeChangeInner. `selAfter`: the selection after the change. */
    method MakeChange(c: Change, origin: Option<string>, selAfter: S, opId: OpId, recent: bool) returns (merged: bool)
      requires Valid() && InRange(doc.Texts(), c)
      modifies this, doc
      ensures Valid() && doc.Texts() == Splice(old(doc.Texts()), c)
      ensures undoDepth == old(undoDepth) && cleanText == old(cleanText) && cleanGeneration == old(cleanGeneration)
      ensures IsNothing(c) ==> past == old(past) && future == old(future) && !merged
      ensures IsNothing(c) ==> done == old(done) && undone == old(undone) && sel == old(sel)
      ensures IsNothing(c) ==> lastOp == old(lastOp) && lastOrigin == old(lastOrigin)
      ensures !IsNothing(c) ==> future == [] && undone == [] && lastOp == opId && lastOrigin == origin
      ensures !IsNothing(c) ==> sel == selAfter && done != [] && Last(done) == Sel(selAfter)
      ensures !IsNothing(c) ==>
                (merged <==> old(MayMerge(origin, opId, recent) && Mergeable(done, SameOp(opId, lastOp))))
      ensures merged ==> past == old(past) && past != []
      ensures !IsNothing(c) && !merged ==> IsSuffix(past, old(past) + [old(doc.Texts())]) && Fits(|done| - 1)
      ensures IsNothing(c) || merged || Fits(|old(done)| + 2) || Edits(old(done)) == 0 || |done| >= undoDepth.value
      ensures !IsNothing(c) && (merged || Fits(|old(done)| + 2)) ==> |done| > 1 && done[|done| - 2].Edit?
      ensures !IsNothing(c) && !merged && Fits(|old(done)| + 2) ==> past == old(past) + [old(doc.Texts())]
      ensures !IsNothing(c) && !merged && Fits(|old(done)| + 2) ==>
                Edits(done) > 0 && TopEvent(done) == Edit([Inverse(old(doc.Texts()), c)], old(generation))
    {
      hide Chain, Fenced, Splice, Inverse, InRange, LeadsTo, Doc.Valid, Doc.Texts, MayMerge, Mergeable, IsSuffix,
        Edits, TopEvent, Doc.Changed, Doc.LineIds, Doc.Heights;
      if c.text == [""] && c.from == c.to {
        NothingIsNothing(doc.Texts(), c);
        return false;
      }
      merged := AddChangeToHistory(c, origin, selAfter, opId, recent);
      EmptyStack(Splice(doc.Texts(), c));
      doc.UpdateDoc(c);
      sel := selAfter;
    }

    static lemma NothingIsNothing(l: Lines, c: Change)
      requires InRange(l, c) && c.text == [""] && c.from == c.to
      ensures Splice(l, c) == l
    {
      CutAndGlue(l, c.from);
      var b := Before(l, c.from);
      assert Last(b) + "" == Last(b);
      assert Glue(b, [""]) == b;
    }

    lemma EmptyStack(r: Lines)
      requires undone == [] && future == []
      ensures Fenced(undone) && Chain(r, undone, future, tags)
    {
    }

    /** Applies the changes of an event, last one first, and collects the changes that take them back. */
    method ApplyBackwards(changes: seq<Change>, ghost r: Lines) returns (anti: seq<Change>)
      requires doc.Valid() && LeadsTo(doc.Texts(), changes, r)
      modifies doc
      ensures doc.Valid() && doc.Texts() == r && LeadsTo(r, anti, old(doc.Texts())) && |anti| == |changes|
    {
      hide LeadsTo, Splice, Between, InText, Doc.Valid, Doc.Texts, Doc.Changed, Doc.LineIds, Doc.Heights;
      anti := [];
      var i := |changes|;
      ghost var start := doc.Texts();
      assert changes[..i] == changes;
      LeadsNowhere(start, start);
      while i > 0
        invariant 0 <= i <= |changes| && |anti| == |changes| - i
        invariant doc.Valid() && LeadsTo(doc.Texts(), changes[..i], r) && LeadsTo(doc.Texts(), anti, start)
      {
        i := i - 1;
        ghost var l := doc.Texts();
        LeadsToStep(l, changes, i, r);
        var change := changes[i];
        var text := doc.GetBetween(change.from, change.to);
        LeadsToOneMore(l, anti, start, change);
        anti := anti + [Change(change.from, ChangeEnd(change), text)];
        doc.UpdateDoc(change);
      }
      LeadsNowhere(doc.Texts(), r);
    }

    /** The generation an event was made in comes back; an event that has none gets a new one. */
    method RestoreGeneration(g: nat)
      modifies this`generation, this`maxGeneration
      ensures g != 0 ==> generation == g && maxGeneration == old(maxGeneration)
    {
      if g != 0 {
        generation := g;
      } else {
        maxGeneration := maxGeneration + 1;
        generation := maxGeneration;
      }
    }

    /** Taking the entries off `source` down to and including its top event, selections going over to `dest`. */
    method PopEvent(source: seq<Event<S>>, dest: seq<Event<S>>, ghost l: Lines, ghost texts: seq<Lines>,
        ghost others: seq<Lines>)
      returns (source': seq<Event<S>>, dest': seq<Event<S>>, event: Event<S>, selAfter: S)
      requires Chain(l, source, texts, tags) && Chain(l, dest, others, tags) && Fenced(source) && Fenced(dest) &&
                 texts != []
      ensures event.Edit? && Fenced(source') && Fenced(dest') && source' != [] && Last(source').Sel?
      ensures event.changes != [] && LeadsTo(l, event.changes, Last(texts))
      ensures event.generation != 0 && event.generation in tags && tags[event.generation] == Last(texts)
      ensures Chain(Last(texts), source', texts[..|texts| - 1], tags)
      ensures Chain(l, dest', others, tags) && dest' != [] && Last(dest').Sel?
      ensures Edits(source) > 0 && event == TopEvent(source) && source' == UnderTop(source)
    {
      hide LeadsTo;
      ChainCounts(l, source, texts, tags);
      source', dest', selAfter := source, dest, sel;
      while true
        invariant Chain(l, source', texts, tags) && Chain(l, dest', others, tags) && Fenced(source') && Fenced(dest')
        invariant Edits(source') > 0 && TopEvent(source') == TopEvent(source) && UnderTop(source') == UnderTop(source)
        decreases |source'|
      {
        event := Last(source');
        match event {
          case Sel(s) =>
            ChainPop(l, source', texts, tags);
            source' := source'[..|source'| - 1];
            PushSelKeeps(l, dest', others, tags, s);
            dest' := PushSel(dest', s);
            selAfter := s;
          case Edit(_, _) =>
            ChainTop(l, source', texts, tags);
            source' := source'[..|source'| - 1];
            break;
        }
      }
      PushSelKeeps(l, dest', others, tags, selAfter);
      dest' := PushSel(dest', selAfter);
    }

    /** What has been replayed is off its stack, its inverse is on the other one, and the selection that lay below it
        is back. */
    static ghost predicate Replayed(source: seq<Event<S>>, source': seq<Event<S>>, dest': seq<Event<S>>, sel: S)
    {
      && Edits(source) > 0 && source' == UnderTop(source) && source' != [] && Last(source') == Sel(sel)
      && dest' != [] && Last(dest').Edit?
    }

    /** makeChangeFromHistory, without selection-only events: the text goes back to what it was before the
        last event (or, on redo, before the last undo), and forth again from there. */
    method MakeChangeFromHistory(undo: bool)
      requires Valid()
      modifies this, doc
      ensures Valid() && undoDepth == old(undoDepth) && lastOp == old(lastOp)
      ensures cleanText == old(cleanText) && cleanGeneration == old(cleanGeneration)
      ensures old(if undo then past else future) == [] ==>
                doc.Texts() == old(doc.Texts()) && past == old(past) && future == old(future) &&
                  generation == old(generation)
      ensures old(if undo then past else future) == [] ==>
                done == old(done) && undone == old(undone) && sel == old(sel) && lastOrigin == old(lastOrigin)
      ensures old(if undo then past else future) != [] ==> lastOrigin == None
      ensures undo && old(past) != [] ==>
                doc.Texts() == Last(old(past)) && past == old(past)[..|old(past)| - 1] &&
                  future == old(future) + [old(doc.Texts())]
      ensures !undo && old(future) != [] ==>
                doc.Texts() == Last(old(future)) && future == old(future)[..|old(future)| - 1] &&
                  past == old(past) + [old(doc.Texts())]
      ensures undo && old(past) != [] ==> old(Edits(done)) > 0 && generation == old(TopEvent(done)).generation
      ensures undo && old(past) != [] ==> Replayed(old(done), done, undone, sel)
      ensures !undo && old(future) != [] ==> Replayed(old(undone), undone, done, sel)
    {
      hide Valid, Edits, TopEvent, Replayed, Doc.Valid, Doc.Texts;
      if undo {
        FromDone();
      } else {
        FromUndone();
      }
    }

    /** makeChangeFromHistory with the stack `done` as its source. */
    method FromDone()
      requires Valid()
      modifies this, doc
      ensures Valid() && undoDepth == old(undoDepth) && lastOp == old(lastOp)
      ensures cleanText == old(cleanText) && cleanGeneration == old(cleanGeneration)
      ensures old(past) == [] ==>
                && doc.Texts() == old(doc.Texts()) && past == old(past) && future == old(future) &&
                  generation == old(generation)
                && done == old(done) && undone == old(undone) && sel == old(sel) && lastOrigin == old(lastOrigin)
      ensures old(past) != [] ==>
                && lastOrigin == None && doc.Texts() == Last(old(past))
                && past == old(past)[..|old(past)| - 1] && future == old(future) + [old(doc.Texts())]
                && old(Edits(done)) > 0 && generation == old(TopEvent(done)).generation
                && Replayed(old(done), done, undone, sel)
    {
      hide LeadsTo, Doc.Valid, Doc.Texts, Chain, Fenced, Edits, TopEvent, Replayed;
      ghost var l := doc.Texts();
      ChainCounts(l, done, past, tags);
      var usable := HasEvent(done);
      if !usable { return; }
      lastOrigin := None;
      done, undone := Replay(done, undone, past, future);
      past, future := past[..|past| - 1], future + [l];
    }

    /** makeChangeFromHistory with the stack `undone` as its source. */
    method FromUndone()
      requires Valid()
      modifies this, doc
      ensures Valid() && undoDepth == old(undoDepth) && lastOp == old(lastOp)
      ensures cleanText == old(cleanText) && cleanGeneration == old(cleanGeneration)
      ensures old(future) == [] ==>
                && doc.Texts() == old(doc.Texts()) && past == old(past) && future == old(future) &&
                  generation == old(generation)
                && done == old(done) && undone == old(undone) && sel == old(sel) && lastOrigin == old(lastOrigin)
      ensures old(future) != [] ==>
                && lastOrigin == None && doc.Texts() == Last(old(future))
                && future == old(future)[..|old(future)| - 1] && past == old(past) + [old(doc.Texts())]
                && Replayed(old(undone), undone, done, sel)
    {
      hide LeadsTo, Doc.Valid, Doc.Texts, Chain, Fenced, Edits, TopEvent, Replayed;
      ghost var l := doc.Texts();
      ChainCounts(l, undone, future, tags);
      var usable := HasEvent(undone);
      if !usable { return; }
      lastOrigin := None;
      undone, done := Replay(undone, done, future, past);
      future, past := future[..|future| - 1], past + [l];
    }

    /** Replays the top event of `source`, leaving on `dest` the event that takes it back. */
    method Replay(source: seq<Event<S>>, dest: seq<Event<S>>, ghost texts: seq<Lines>, ghost others: seq<Lines>)
      returns (source': seq<Event<S>>, dest': seq<Event<S>>)
      requires doc.Valid() && TagsMatch(doc.Texts()) && texts != []
      requires Chain(doc.Texts(), source, texts, tags) && Chain(doc.Texts(), dest, others, tags) && Fenced(source) &&
                 Fenced(dest)
      modifies this`generation, this`maxGeneration, this`sel, doc
      ensures doc.Valid() && doc.Texts() == Last(texts) && TagsMatch(doc.Texts())
      ensures Chain(doc.Texts(), source', texts[..|texts| - 1], tags) && Fenced(source')
      ensures Chain(doc.Texts(), dest', others + [old(doc.Texts())], tags) && Fenced(dest') && dest' != [] &&
                Last(dest').Edit?
      ensures Edits(source) > 0 && generation == TopEvent(source).generation && Replayed(source, source', dest', sel)
    {
      hide LeadsTo, Doc.Valid, Doc.Texts, Chain, Fenced, UnderTop;
      ghost var l, r := doc.Texts(), Last(texts);
      var event, selAfter;
      source', dest', event, selAfter := PopEvent(source, dest, l, texts, others);
      var current := generation;
      var anti := ApplyBackwards(event.changes, r);
      ChainPushEdit(r, l, dest', others, tags, anti, current);
      FencedPush(dest', Edit(anti, current));
      dest' := dest' + [Edit(anti, current)];
      RestoreGeneration(event.generation);
      sel := Last(source').sel;
    }

    /** Verify that there is a usable event. */
    method HasEvent(events: seq<Event<S>>) returns (usable: bool)
      ensures usable <==> Edits(events) > 0
    {
      usable := false;
      for i := 0 to |events|
        invariant Edits(events[..i]) == 0
      {
        assert events[..i + 1][..i] == events[..i];
        if events[i].Edit? {
          EditsPrefix(events, i + 1);
          return true;
        }
      }
      assert events[..|events|] == events;
    }

    static lemma {:induction false} EditsPrefix(events: seq<Event<S>>, i: nat)
      requires i <= |events|
      ensures Edits(events[..i]) <= Edits(events)
    {
      if i < |events| {
        EditsPrefix(events[..|events| - 1], i);
        assert events[..|events| - 1][..i] == events[..i];
      } else {
        assert events[..i] == events;
      }
    }

    /** addSelectionToHistory, as written. `alike`: the origins allow merging with the selection on top. When
        it merges, it overwrites whatever is on top, and after a redo that is an event: the history stays
        sound exactly when that is not so. */
    method AddSelection(s: S, opId: OpId, alike: bool, clearRedo: bool)
      requires Valid()
      modifies this
      ensures doc.Texts() == old(doc.Texts()) && past == old(past) && future == old(future) &&
                generation == old(generation)
      ensures cleanText == old(cleanText) && undoDepth == old(undoDepth) && sel == old(sel) &&
                lastOrigin == old(lastOrigin)
      ensures undone == (if clearRedo then WithoutSelections(old(undone)) else old(undone)) && lastOp == opId
      ensures done == Selected(old(done), s, old(SameOp(opId, lastOp)) || alike)
      ensures Valid() <==> !((old(SameOp(opId, lastOp)) || alike) && old(done != [] && Last(done).Edit?))
    {
      hide LeadsTo, Doc.Valid, Doc.Texts, Chain, Fenced, PushSel, WithoutSelections;
      ghost var l := doc.Texts();
      if SameOp(opId, lastOp) || alike {
        if done != [] {
          ReplaceTop(l, s);
          done := done[|done| - 1 := Sel(s)];
        }
      } else {
        PushSelKeeps(l, done, past, tags, s);
        done := PushSel(done, s);
      }
      lastOp := opId;
      if clearRedo { ClearSelectionEvents(l); }
    }

    /** setSelection */
    method SetSelection(s: S, opId: OpId, alike: bool, clearRedo: bool)
      requires Valid()
      modifies this
      ensures doc.Texts() == old(doc.Texts()) && past == old(past) && future == old(future) &&
                generation == old(generation)
      ensures cleanText == old(cleanText) && undoDepth == old(undoDepth) && sel == s && lastOrigin == old(lastOrigin)
      ensures undone == (if clearRedo then WithoutSelections(old(undone)) else old(undone)) && lastOp == opId
      ensures done == Selected(old(done), s, old(SameOp(opId, lastOp)) || alike)
      ensures Valid() <==> !((old(SameOp(opId, lastOp)) || alike) && old(done != [] && Last(done).Edit?))
    {
      hide Chain, Fenced, Doc.Valid, Doc.Texts;
      sel := s;
      AddSelection(s, opId, alike, clearRedo);
    }

    /** clearSelectionEvents, on what has been undone. */
    method ClearSelectionEvents(ghost l: Lines)
      requires Fenced(undone) && Chain(l, undone, future, tags)
      modifies this`undone
      ensures Fenced(undone) && Chain(l, undone, future, tags) && undone == WithoutSelections(old(undone))
    {
      while undone != [] && Last(undone).Sel?
        invariant Fenced(undone) && Chain(l, undone, future, tags)
        invariant WithoutSelections(undone) == WithoutSelections(old(undone))
      {
        undone := undone[..|undone| - 1];
      }
    }

    lemma ReplaceTop(l: Lines, s: S)
      requires Chain(l, done, past, tags) && Fenced(done) && done != []
      ensures var u := done[|done| - 1 := Sel(s)];
              (Chain(l, u, past, tags) && Fenced(u)) <==> Last(done).Sel?
    {
      var n := |done| - 1;
      var u := done[n := Sel(s)];
      assert u[..n] == done[..n];
      ChainCounts(l, done, past, tags);
      if Last(done).Edit? {
        if Chain(l, u, past, tags) {
          ChainCounts(l, u, past, tags);
        }
      }
    }
  }
}
