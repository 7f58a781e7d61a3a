/** Undo and redo: a session on one document, with merging of changes into events and generation numbers. */
module History {
  import opened Text

  /** An entry of the done or undone stack: a selection, or an event with the changes that take it back. */
  datatype Event<+S> = Sel(sel: S) | Edit(changes: seq<Change>, generation: nat)

  /** lastOp and operation ids; an operation outside an editor is NaN, which equals nothing. */
  datatype OpId = NoOp | NotANumber | Op(id: int)

  predicate SameOp(a: OpId, b: OpId)
  {
    a.Op? && a == b
  }

  // ----- what a stack of events stands for -----

  /** The changes of an event can be applied to `l`, last one first, and lead to `r`. */
  ghost predicate LeadsTo(l: Lines, changes: seq<Change>, r: Lines)
    decreases |changes|
  {
    if changes == [] then l == r
    else InRange(l, Last(changes)) && LeadsTo(Splice(l, Last(changes)), changes[..|changes| - 1], r)
  }

  /** From the text `l`, the events, last one first, lead through exactly the texts of `texts`, last one
      first; and each event's generation number is the tag of the text it leads to. */
  ghost predicate Chain<S>(l: Lines, events: seq<Event<S>>, texts: seq<Lines>, tags: map<nat, Lines>)
    decreases |events|
  {
    if events == [] then texts == []
    else
      var rest := events[..|events| - 1];
      match Last(events)
      case Sel(_) => Chain(l, rest, texts, tags)
      case Edit(changes, generation) =>
        && texts != [] && changes != [] && LeadsTo(l, changes, Last(texts))
        && generation != 0 && generation in tags && tags[generation] == Last(texts)
        && Chain(Last(texts), rest, texts[..|texts| - 1], tags)
  }

  ghost function Edits<S>(events: seq<Event<S>>): nat
  {
    if events == [] then 0 else Edits(events[..|events| - 1]) + if Last(events).Edit? then 1 else 0
  }

  /** The event next to be undone. */
  ghost function TopEvent<S>(events: seq<Event<S>>): (e: Event<S>)
    requires Edits(events) > 0
    ensures e.Edit?
  {
    if Last(events).Edit? then Last(events) else TopEvent(events[..|events| - 1])
  }

  /** What is left of the stack when the event next to be undone has been taken off. */
  ghost function UnderTop<S>(events: seq<Event<S>>): seq<Event<S>>
    requires Edits(events) > 0
  {
    var rest := events[..|events| - 1];
    if Last(events).Edit? then rest else UnderTop(rest)
  }

  /** Is there an event to merge into? Under any selections with `force`, else under one at most. */
  ghost predicate Mergeable<S>(events: seq<Event<S>>, force: bool)
  {
    if force then Edits(events) > 0
    else (events != [] && Last(events).Edit?) || (|events| > 1 && events[|events| - 2].Edit?)
  }

  /** Down to the event on top. */
  ghost function WithoutSelections<S>(events: seq<Event<S>>): seq<Event<S>>
    decreases |events|
  {
    if events != [] && Last(events).Sel? then WithoutSelections(events[..|events| - 1]) else events
  }

  lemma TopUnderSelection<S>(events: seq<Event<S>>, e: Event<S>, s: S)
    requires e.Edit?
    ensures Edits(events + [e] + [Sel(s)]) == Edits(events) + 1 && TopEvent(events + [e] + [Sel(s)]) == e
  {
    assert (events + [e] + [Sel(s)])[..|events| + 1] == events + [e];
    assert (events + [e])[..|events|] == events;
  }

  lemma {:induction false} ChainCounts<S>(l: Lines, events: seq<Event<S>>, texts: seq<Lines>, tags: map<nat, Lines>)
    requires Chain(l, events, texts, tags)
    ensures |texts| == Edits(events)
    decreases |events|
  {
    if events != [] {
      match Last(events)
      case Sel(_) => ChainCounts(l, events[..|events| - 1], texts, tags);
      case Edit(_, _) => ChainCounts(Last(texts), events[..|events| - 1], texts[..|texts| - 1], tags);
    }
  }

  lemma ChainPush<S>(l: Lines, events: seq<Event<S>>, texts: seq<Lines>, tags: map<nat, Lines>, s: S)
    ensures Chain(l, events + [Sel(s)], texts, tags) <==> Chain(l, events, texts, tags)
  {
    assert (events + [Sel(s)])[..|events|] == events;
  }

  lemma ChainPushEdit<S>(l: Lines, r: Lines, events: seq<Event<S>>, texts: seq<Lines>, tags: map<nat, Lines>,
      changes: seq<Change>, generation: nat)
    requires Chain(r, events, texts, tags) && changes != [] && LeadsTo(l, changes, r)
    requires generation != 0 && generation in tags && tags[generation] == r
    ensures Chain(l, events + [Edit(changes, generation)], texts + [r], tags)
  {
    assert (events + [Edit(changes, generation)])[..|events|] == events;
    assert (texts + [r])[..|texts|] == texts;
  }

  lemma ChainTop<S>(l: Lines, events: seq<Event<S>>, texts: seq<Lines>, tags: map<nat, Lines>)
    requires Chain(l, events, texts, tags) && events != [] && Last(events).Edit?
    ensures texts != []
    ensures var e, r := Last(events), Last(texts);
            && e.changes != [] && LeadsTo(l, e.changes, r)
            && e.generation != 0 && e.generation in tags && tags[e.generation] == r
            && Chain(r, events[..|events| - 1], texts[..|texts| - 1], tags)
  {
  }

  lemma ChainPop<S>(l: Lines, events: seq<Event<S>>, texts: seq<Lines>, tags: map<nat, Lines>)
    requires Chain(l, events, texts, tags) && events != [] && Last(events).Sel?
    ensures Chain(l, events[..|events| - 1], texts, tags)
  {
  }

  /** More tags do no harm. */
  lemma {:induction false} ChainMoreTags<S>(l: Lines, events: seq<Event<S>>, texts: seq<Lines>, tags: map<nat, Lines>,
      more: map<nat, Lines>)
    requires Chain(l, events, texts, tags)
    requires forall g | g in tags :: g in more && more[g] == tags[g]
    ensures Chain(l, events, texts, more)
    decreases |events|
  {
    if events != [] {
      match Last(events)
      case Sel(_) => ChainMoreTags(l, events[..|events| - 1], texts, tags, more);
      case Edit(_, _) => ChainMoreTags(Last(texts), events[..|events| - 1], texts[..|texts| - 1], tags, more);
    }
  }

  /** Forgetting the oldest entry forgets at most the oldest text. */
  lemma {:induction false} ChainShift<S>(l: Lines, events: seq<Event<S>>, texts: seq<Lines>, tags: map<nat, Lines>)
    requires Chain(l, events, texts, tags) && events != []
    ensures events[0].Edit? ==> texts != []
    ensures Chain(l, events[1..], if events[0].Edit? then texts[1..] else texts, tags)
    decreases |events|
  {
    var n := |events| - 1;
    if n > 0 {
      var shorter := events[..n];
      assert events[1..][..n - 1] == shorter[1..];
      match Last(events)
      case Sel(_) => ChainShift(l, shorter, texts, tags);
      case Edit(_, _) =>
        ChainShift(Last(texts), shorter, texts[..|texts| - 1], tags);
        if events[0].Edit? {
          assert texts[1..][..|texts| - 2] == texts[..|texts| - 1][1..];
        }
    }
  }

  lemma LeadsToStep(l: Lines, changes: seq<Change>, i: nat, r: Lines)
    requires i < |changes| && LeadsTo(l, changes[..i + 1], r)
    ensures InRange(l, changes[i]) && LeadsTo(Splice(l, changes[i]), changes[..i], r)
  {
    assert changes[..i + 1][..i] == changes[..i];
  }

  lemma LeadsNowhere(l: Lines, r: Lines)
    ensures LeadsTo(l, [], r) <==> l == r
  {
  }

  /** An event with one more change, or with its last change extended, leads where it led before. */
  lemma LeadsToOneMore(l: Lines, changes: seq<Change>, r: Lines, c: Change)
    requires LeadsTo(l, changes, r) && InRange(l, c)
    ensures LeadsTo(Splice(l, c), changes + [Inverse(l, c)], r)
  {
    InverseUndoes(l, c);
    assert (changes + [Inverse(l, c)])[..|changes|] == changes;
  }

  lemma LeadsToOne(l: Lines, c: Change)
    requires InRange(l, c)
    ensures LeadsTo(Splice(l, c), [Inverse(l, c)], l)
  {
    LeadsToOneMore(l, [], l, c);
    assert [] + [Inverse(l, c)] == [Inverse(l, c)];
  }

  lemma LeadsToExtended(l: Lines, changes: seq<Change>, r: Lines, c: Change)
    requires changes != [] && LeadsTo(l, changes, r) && InRange(l, c) && c.from == c.to == Last(changes).to
    ensures LeadsTo(Splice(l, c), Extended(changes, c), r)
  {
    ExtendedInverse(l, Last(changes), c);
    assert Extended(changes, c)[..|changes| - 1] == changes[..|changes| - 1];
  }

  /** The last change made to cover an insertion at its end as well. */
  function Extended(changes: seq<Change>, c: Change): seq<Change>
    requires changes != []
  {
    changes[..|changes| - 1] + [Last(changes).(to := ChangeEnd(c))]
  }

  ghost predicate IsSuffix<X>(a: seq<X>, b: seq<X>)
  {
    |a| <= |b| && b[|b| - |a|..] == a
  }
}
