/** What becomes of notifications: which data each progress callback of a Deferred is called with, over any run, by a
    schedule that is made from the calls alone. */
module DeferredNotes {
  import opened Common
  import opened Deferred

  /** Who talks to whom. `notes`: the notifications that are delivered; `starts`: for each progress registration, the
      first of them that it gets; `at`: the note being delivered and the registration whose callback runs. `counts`:
      the registrations made with done and fail; `sideAt`: the one of the winner whose callback runs. `stack`: the
      lists of the callbacks that run, innermost last. */
  datatype Talk = Talk(
    notes: seq<nat>, starts: seq<nat>, at: Option<(nat, nat)>,
    winner: Option<nat>, counts: (nat, nat), sideAt: Option<nat>, stack: seq<nat>)

  const SILENCE := Talk([], [], None, None, (0, 0), None, [])

  /** From registration `k` on for note `round`, of `n` registrations: the next callback to run, if any. */
  function Forward(notes: nat, n: nat, round: nat, k: nat): Option<(nat, nat)>
  {
    if k < n then Some((round, k)) else if n > 0 && round + 1 < notes then Some((round + 1, 0)) else None
  }

  function Repeat(x: nat, count: nat): (r: seq<nat>)
    ensures |r| == count && forall i: nat | i < count :: r[i] == x
  {
    seq(count, _ => x)
  }

  function CountOf(t: Talk, side: nat): nat
  {
    if side == DONE then t.counts.0 else t.counts.1
  }

  /** The first note for a registration made now: the one being delivered, or else the last one. */
  function StartNow(t: Talk): nat
  {
    if t.at.Some? then t.at.value.0 else if t.notes == [] then 0 else |t.notes| - 1
  }

  /** `id`'s loop, which starts if it has somebody to call. */
  function Pushed(stack: seq<nat>, id: nat, starts: bool): seq<nat>
  {
    if starts then stack + [id] else stack
  }

  /** What a call comes to. */
  function Heard(t: Talk, call: Call): Talk
  {
    match call
    case FireWith(id, data) =>
      if id >= 3 || t.winner.Some? then t
      else if id == PROGRESS then
        var notes := t.notes + [data];
        if t.at.Some? then t.(notes := notes)
        else
          var at := Forward(|notes|, |t.starts|, |t.notes|, 0);
          t.(notes := notes, at := at, stack := Pushed(t.stack, id, at.Some?))
      else
        var sideAt := if CountOf(t, id) > 0 then Some(0) else None;
        // notifications that still wait are lost
        var notes := if t.at.Some? && t.at.value.0 < |t.notes| then t.notes[..t.at.value.0 + 1] else t.notes;
        t.(winner := Some(id), notes := notes, sideAt := sideAt, stack := Pushed(t.stack, id, sideAt.Some?))
    case Add(id, count) =>
      if id >= 3 then t
      else if id == PROGRESS then
        var starts := t.starts + Repeat(StartNow(t), count);
        if t.at.Some? || t.notes == [] then t.(starts := starts)
        else
          var at := Forward(|t.notes|, |starts|, |t.notes| - 1, |t.starts|);
          t.(starts := starts, at := at, stack := Pushed(t.stack, id, at.Some?))
      else
        var n := CountOf(t, id);
        var counts := if id == DONE then (n + count, t.counts.1) else (t.counts.0, n + count);
        if t.winner == Some(id) && t.sideAt == None && count > 0 then
          t.(counts := counts, sideAt := Some(n), stack := t.stack + [id])
        else t.(counts := counts)
    case Return =>
      if t.stack == [] then t
      else
        var rest := t.stack[..|t.stack| - 1];
        if t.stack[|rest|] == PROGRESS && t.at.Some? then
          var at := Forward(|t.notes|, |t.starts|, t.at.value.0, t.at.value.1 + 1);
          t.(at := at, stack := if at.Some? then t.stack else rest)
        else if t.stack[|rest|] != PROGRESS && t.sideAt.Some? && t.winner.Some? then
          var next := t.sideAt.value + 1;
          if next < CountOf(t, t.winner.value) then t.(sideAt := Some(next))
          else t.(sideAt := None, stack := rest)
        else t
  }

  function HeardAll(calls: seq<Call>): Talk
  {
    if calls == [] then SILENCE else Heard(HeardAll(calls[..|calls| - 1]), calls[|calls| - 1])
  }

  /** The data that the progress callback of registration `reg` has been called with, in order. */
  function DataOf(log: seq<Fired>, reg: nat): seq<nat>
  {
    if log == [] then []
    else
      var n := |log| - 1;
      DataOf(log[..n], reg) + if log[n].id == PROGRESS && log[n].reg == reg then [log[n].data] else []
  }

  lemma DataAppend(log: seq<Fired>, f: Fired, reg: nat)
    ensures DataOf(log + [f], reg) ==
            DataOf(log, reg) + if f.id == PROGRESS && f.reg == reg then [f.data] else []
  {
    assert (log + [f])[..|log|] == log;
  }

  lemma {:induction false} NoData(log: seq<Fired>, reg: nat)
    requires forall f | f in log && f.id == PROGRESS :: f.reg != reg
    ensures DataOf(log, reg) == []
  {
    if log != [] {
      assert forall f | f in log[..|log| - 1] :: f in log;
      NoData(log[..|log| - 1], reg);
    }
  }

  // ----- how the schedule and the machine go together -----

  function RegsP(s: State): seq<nat>
  {
    RegsOf(s.registered, PROGRESS)
  }

  /** The list has the last registrations, and the log only registrations there are. */
  ghost predicate ListsRegs(s: State)
  {
    var list, regs := s.cbs[PROGRESS].list, RegsP(s);
    && (forall f | f in s.log && f.id == PROGRESS :: f.reg < |s.registered|)
    && (list.Some? ==>
          && |list.value| <= |regs|
          && forall k: nat | k < |list.value| :: list.value[k] == RegAt(regs, |regs| - |list.value| + k))
  }

  function RegAt(regs: seq<nat>, i: int): Item
    requires 0 <= i < |regs|
  {
    User(regs[i])
  }

  /** Registration number `i` has been called with all its notes before number `hi`. */
  ghost predicate HasHeard(notes: seq<nat>, starts: seq<nat>, s: State, i: nat, hi: nat)
    requires i < |starts| == |RegsP(s)|
  {
    starts[i] <= hi <= |notes| && DataOf(s.log, RegsP(s)[i]) == notes[starts[i]..hi]
  }

  /** Which notes number `i` has heard when note `round` has come to number `k`. */
  function HeardBy(round: nat, k: nat, i: nat): nat
  {
    if i < k then round + 1 else round
  }

  ghost predicate AllHeard(notes: seq<nat>, starts: seq<nat>, s: State, round: nat, k: nat)
  {
    |starts| == |RegsP(s)| && forall i: nat | i < |starts| :: HasHeard(notes, starts, s, i, HeardBy(round, k, i))
  }

  /** Note `round` is being delivered: the registrations before number `k` have heard it, and position `index` of the
      list is number `k`. */
  ghost predicate InRound(t: Talk, s: State, round: nat, k: nat, index: int)
  {
    var cb, n := s.cbs[PROGRESS], |RegsP(s)|;
    && n == |t.starts| && round < |t.notes| && k <= n && ListsRegs(s)
    && cb.list.Some? && cb.firing && cb.memory == Some(t.notes[round])
    && index == k - (n - |cb.list.value|) && 0 <= index && cb.firingLength == |cb.list.value|
    && (if t.winner == None then cb.stack == Some(t.notes[round + 1..]) && |cb.list.value| == n
        else cb.stack == None && |t.notes| == round + 1)
    && (forall f | f in s.frames && f.id == PROGRESS :: f.data == t.notes[round])
    && AllHeard(t.notes, t.starts, s, round, k)
  }

  /** No note is being delivered. */
  ghost predicate AtRest(t: Talk, s: State)
  {
    var cb, n := s.cbs[PROGRESS], |RegsP(s)|;
    && n == |t.starts| && ListsRegs(s) && !cb.firing
    && cb.memory == (if t.notes == [] then None else Some(t.notes[|t.notes| - 1]))
    && (if t.winner == None then cb.stack == Some([]) && cb.list.Some? && |cb.list.value| == n else cb.stack == None)
    && (cb.list == None ==> t.notes == [] && t.winner.Some?)
    && (t.winner.Some? && t.notes == [] ==> cb.list == None)
    && (forall i: nat | i < n :: HasHeard(t.notes, t.starts, s, i, |t.notes|))
  }

  ghost predicate ProgressTalk(t: Talk, s: State)
  {
    && s.cbs[PROGRESS].firingStart == 0
    && if t.at == None then AtRest(t, s)
       else InRound(t, s, t.at.value.0, t.at.value.1 + 1, s.cbs[PROGRESS].firingIndex + 1)
  }

  /** Done and fail: who has won, and how far its loop has got. */
  ghost predicate SideTalk(t: Talk, s: State)
  {
    && t.winner == (if s.settled == [] then None else Some(s.settled[0].side))
    && |RegsOf(s.registered, DONE)| == t.counts.0 && |RegsOf(s.registered, FAIL)| == t.counts.1
    && (t.winner == None ==> t.sideAt == None)
    && (t.winner.Some? ==>
          && t.winner.value < 2 && (s.cbs[t.winner.value].firing <==> t.sideAt.Some?)
          && (t.sideAt.Some? ==> |CallsOf(s.log, t.winner.value)| == t.sideAt.value + 1))
  }

  /** The same loops run. */
  ghost predicate SameStack(t: Talk, s: State)
  {
    |t.stack| == |s.frames| && forall i: nat | i < |t.stack| :: t.stack[i] == s.frames[i].id
  }

  ghost predicate Tracks(t: Talk, s: State)
  {
    ProgressTalk(t, s) && SideTalk(t, s) && SameStack(t, s)
  }

  // ----- the loop on the progress list -----

  /** What a loop on the progress list leaves alone. */
  ghost predicate OnlyProgress(s: State, u: State)
  {
    && u.cbs[DONE] == s.cbs[DONE] && u.cbs[FAIL] == s.cbs[FAIL] && u.settled == s.settled
    && u.registered == s.registered && SameCalls(s, u)
  }

  /** The loop's own frame is on top, and there is no other. */
  ghost predicate OnTop(s: State)
  {
    && s.frames != [] && s.frames[|s.frames| - 1].id == PROGRESS
    && forall i: nat | i < |s.frames| - 1 :: s.frames[i].id != PROGRESS
  }

  /** Where the loop has got: at the callback of `at`, or over. */
  ghost predicate Reached(t: Talk, s: State, at: Option<(nat, nat)>, u: State)
    requires s.frames != []
  {
    var n := |s.frames| - 1;
    && ProgressTalk(t.(at := at), u) && OnlyProgress(s, u)
    && if at.Some? then |u.frames| == n + 1 && u.frames[..n] == s.frames[..n] && u.frames[n].id == PROGRESS
       else u.frames == s.frames[..n]
  }

  /** The next callback is called. */
  lemma CallsNext(t: Talk, s: State, round: nat, k: nat)
    requires InRound(t, s, round, k, s.cbs[PROGRESS].firingIndex) && s.cbs[PROGRESS].firingStart == 0
    requires OnTop(s) && k < |RegsP(s)|
    ensures Reached(t, s, Some((round, k)), Loop(s, PROGRESS))
  {
    hide Loop, RegsOf, CallsOf, DataOf, AllHeard;
    var cb, top := s.cbs[PROGRESS], s.frames[|s.frames| - 1];
    assert cb.list.value[cb.firingIndex] == User(RegsP(s)[k]);
    CallsUser(s, PROGRESS);
    var f := Fired(PROGRESS, RegsP(s)[k], t.notes[round]);
    assert top in s.frames && Loop(s, PROGRESS) == s.(log := s.log + [f]);
    HeardNext(t, s, round, k);
  }

  lemma HeardNext(t: Talk, s: State, round: nat, k: nat)
    requires k < |RegsP(s)| == |t.starts| && round < |t.notes|
    requires AllHeard(t.notes, t.starts, s, round, k)
    ensures var u := s.(log := s.log + [Fired(PROGRESS, RegsP(s)[k], t.notes[round])]);
            AllHeard(t.notes, t.starts, u, round, k + 1)
    ensures RegsP(s)[k] < |s.registered|
  {
    hide RegsOf, DataOf;
    var regs, next := RegsP(s), k + 1;
    RegsOfOnce(s.registered, PROGRESS);
    assert regs[k] in regs;
    var f := Fired(PROGRESS, regs[k], t.notes[round]);
    var u := s.(log := s.log + [f]);
    forall i: nat | i < |regs| ensures HasHeard(t.notes, t.starts, u, i, HeardBy(round, next, i)) {
      assert HasHeard(t.notes, t.starts, s, i, HeardBy(round, k, i));
      DataAppend(s.log, f, regs[i]);
      assert i == k ==> t.notes[t.starts[i]..round] + [t.notes[round]] == t.notes[t.starts[i]..round + 1];
    }
  }

  /** Everybody has heard the note, and no other one waits. */
  lemma RoundsOver(t: Talk, s: State, round: nat)
    requires InRound(t, s, round, |RegsP(s)|, s.cbs[PROGRESS].firingIndex) && s.cbs[PROGRESS].firingStart == 0
    requires OnTop(s) && round + 1 == |t.notes|
    ensures Reached(t, s, None, Loop(s, PROGRESS))
  {
    hide Loop, RegsOf, CallsOf, DataOf;
    var cb := s.cbs[PROGRESS];
    var u := With(s, PROGRESS, cb.(firing := false)).(frames := s.frames[..|s.frames| - 1]);
    LoopEnds(s, PROGRESS);
    if t.winner == None {
      assert Loop(s, PROGRESS) == u;
    } else {
      var v := With(u, PROGRESS, cb.(firing := false, list := Some([])));
      assert Loop(s, PROGRESS) == v;
    }
    forall i: nat | i < |RegsP(s)| ensures HasHeard(t.notes, t.starts, Loop(s, PROGRESS), i, |t.notes|) {
      assert HasHeard(t.notes, t.starts, s, i, HeardBy(round, |RegsP(s)|, i));
    }
  }

  /** The note waiting longest is next. */
  lemma NextRound(t: Talk, s: State, round: nat) returns (u: State)
    requires InRound(t, s, round, |RegsP(s)|, s.cbs[PROGRESS].firingIndex) && s.cbs[PROGRESS].firingStart == 0
    requires OnTop(s) && round + 1 < |t.notes|
    ensures OnTop(u) && Loop(s, PROGRESS) == Loop(u, PROGRESS) && u.cbs[PROGRESS].firingStart == 0
    ensures InRound(t, u, round + 1, 0, u.cbs[PROGRESS].firingIndex)
    ensures OnlyProgress(s, u) && u.log == s.log && |u.frames| == |s.frames|
    ensures u.frames[..|u.frames| - 1] == s.frames[..|s.frames| - 1]
  {
    hide Loop, RegsOf, CallsOf, DataOf;
    var cb, data := s.cbs[PROGRESS], t.notes[round + 1];
    var popped := With(s, PROGRESS, cb.(firing := false)).(frames := s.frames[..|s.frames| - 1]);
    LoopEnds(s, PROGRESS);
    var shifted := With(popped, PROGRESS, popped.cbs[PROGRESS].(stack := Some(cb.stack.value[1..])));
    u := Started(shifted, PROGRESS, data);
    assert cb.stack.value[1..] == t.notes[round + 2..];
    var next := round + 1;
    forall i: nat | i < |RegsP(s)| ensures HasHeard(t.notes, t.starts, u, i, HeardBy(next, 0, i)) {
      assert HasHeard(t.notes, t.starts, s, i, HeardBy(round, |RegsP(s)|, i));
    }
  }

  /** The loop goes on as Forward says. */
  lemma LoopTalks(t: Talk, s: State, round: nat, k: nat)
    requires InRound(t, s, round, k, s.cbs[PROGRESS].firingIndex) && s.cbs[PROGRESS].firingStart == 0
    requires OnTop(s) && (|RegsP(s)| > 0 || round + 1 == |t.notes|)
    ensures Reached(t, s, Forward(|t.notes|, |RegsP(s)|, round, k), Loop(s, PROGRESS))
  {
    hide Loop, InRound, RegsOf, ProgressTalk;
    assert k <= |RegsP(s)| && round < |t.notes| by { InBounds(t, s, round, k); }
    if k < |RegsP(s)| {
      CallsNext(t, s, round, k);
    } else if round + 1 < |t.notes| {
      var u := NextRound(t, s, round);
      CallsNext(t, u, round + 1, 0);
      assert SameCalls(s, Loop(s, PROGRESS));
    } else {
      RoundsOver(t, s, round);
    }
  }

  lemma InBounds(t: Talk, s: State, round: nat, k: nat)
    requires InRound(t, s, round, k, s.cbs[PROGRESS].firingIndex)
    ensures k <= |RegsP(s)| && round < |t.notes|
  {
  }

  // ----- notify, progress, and the return of a progress callback -----

  lemma SidesKept(t: Talk, s: State, t': Talk, u: State)
    requires SideTalk(t, s) && OnlyProgress(s, u)
    requires t'.winner == t.winner && t'.counts == t.counts && t'.sideAt == t.sideAt
    ensures SideTalk(t', u)
  {
    hide RegsOf, CallsOf;
    CallsKept(s, u, DONE);
    CallsKept(s, u, FAIL);
  }

  /** A loop on the progress list that has just been started, and what it comes to. */
  lemma StartTalks(t: Talk, v: State, round: nat, k: nat)
    requires InRound(t, v, round, k, v.cbs[PROGRESS].firingIndex) && v.cbs[PROGRESS].firingStart == 0 && OnTop(v)
    requires (|RegsP(v)| > 0 || round + 1 == |t.notes|) && SideTalk(t, v)
    requires SameStack(t, v.(frames := v.frames[..|v.frames| - 1]))
    ensures var at := Forward(|t.notes|, |t.starts|, round, k);
            Tracks(t.(at := at, stack := Pushed(t.stack, PROGRESS, at.Some?)), Loop(v, PROGRESS))
  {
    hide Loop, InRound, RegsOf, ProgressTalk, SideTalk, OnlyProgress;
    assert |RegsP(v)| == |t.starts| by { RoundLengths(t, v, round, k); }
    LoopTalks(t, v, round, k);
    var at := Forward(|t.notes|, |t.starts|, round, k);
    var u, t' := Loop(v, PROGRESS), t.(at := at, stack := Pushed(t.stack, PROGRESS, at.Some?));
    SidesKept(t, v, t', u);
    SameProgress(t.(at := at), t', u);
    forall i: nat | i < |u.frames| && i < |v.frames| - 1 ensures u.frames[i] == v.frames[i] {
      assert u.frames[i] == u.frames[..|v.frames| - 1][i];
    }
  }

  lemma RoundLengths(t: Talk, v: State, round: nat, k: nat)
    requires InRound(t, v, round, k, v.cbs[PROGRESS].firingIndex)
    ensures |RegsP(v)| == |t.starts|
  {
  }

  /** ProgressTalk does not look at the stack. */
  lemma SameProgress(t: Talk, t': Talk, s: State)
    requires ProgressTalk(t, s) && t' == t.(stack := t'.stack)
    ensures ProgressTalk(t', s)
  {
  }

  lemma NotifyTalks(t: Talk, s: State, data: nat)
    requires Inv(s) && Tracks(t, s)
    ensures Tracks(Heard(t, FireWith(PROGRESS, data)), Step(s, FireWith(PROGRESS, data)))
  {
    hide Loop, RegsOf, CallsOf, DataOf;
    var cb := s.cbs[PROGRESS];
    if t.winner == None {
      var t' := t.(notes := t.notes + [data]);
      if t.at.Some? {
        var u := With(s, PROGRESS, cb.(stack := Some(cb.stack.value + [data])));
        assert t'.notes[t.at.value.0 + 1..] == t.notes[t.at.value.0 + 1..] + [data];
        OneNoteMore(t, s, u, data, t.at.value.0, t.at.value.1 + 1);
      } else {
        var v := Started(s, PROGRESS, data);
        OneNoteMore(t, s, v, data, |t.notes|, 0);
        assert v.frames[..|s.frames|] == s.frames && t'.notes[|t.notes| + 1..] == [];
        NotFiring(s);
        StartTalks(t', v, |t.notes|, 0);
      }
    }
  }

  lemma NotFiring(s: State)
    requires FramesOK(s) && !s.cbs[PROGRESS].firing
    ensures forall f | f in s.frames :: f.id != PROGRESS
  {
  }

  /** What has been heard of the notes before stays what it is. */
  lemma OneNoteMore(t: Talk, s: State, u: State, data: nat, round: nat, k: nat)
    requires u.log == s.log && u.registered == s.registered && round <= |t.notes|
    requires |t.starts| == |RegsP(s)| && (round == |t.notes| ==> k == 0)
    requires forall i: nat | i < |t.starts| :: HasHeard(t.notes, t.starts, s, i, HeardBy(round, k, i))
    ensures AllHeard(t.notes + [data], t.starts, u, round, k)
  {
    forall i: nat | i < |t.starts| ensures HasHeard(t.notes + [data], t.starts, u, i, HeardBy(round, k, i)) {
      assert HasHeard(t.notes, t.starts, s, i, HeardBy(round, k, i));
      var hi := HeardBy(round, k, i);
      assert (t.notes + [data])[t.starts[i]..hi] == t.notes[t.starts[i]..hi];
    }
  }

  lemma {:induction false} NewUserAt(first: nat, count: nat, j: nat)
    requires j < count
    ensures |NewUsers(first, count)| == count && NewUsers(first, count)[j] == User(first + j)
  {
    CopiesAndUsers(0, first, count - 1);
    if j < count - 1 { NewUserAt(first, count - 1, j); }
  }

  lemma {:induction false} NewRegsAre(registered: seq<nat>, count: nat)
    ensures var regs, more := RegsOf(registered, PROGRESS), RegsOf(registered + Copies(PROGRESS, count), PROGRESS);
            && |more| == |regs| + count && more[..|regs|] == regs
            && forall i: nat | |regs| <= i < |more| :: more[i] == |registered| + i - |regs|
  {
    hide RegsOf;
    if count == 0 {
      assert registered + [] == registered;
    } else {
      NewRegsAre(registered, count - 1);
      OneRegMore(registered, count);
    }
  }

  lemma OneRegMore(registered: seq<nat>, count: nat)
    requires count > 0
    ensures RegsOf(registered + Copies(PROGRESS, count), PROGRESS) ==
            RegsOf(registered + Copies(PROGRESS, count - 1), PROGRESS) + [|registered| + count - 1]
  {
    hide RegsOf;
    CopiesAndUsers(PROGRESS, 0, count - 1);
    assert registered + Copies(PROGRESS, count) == registered + Copies(PROGRESS, count - 1) + [PROGRESS];
    RegsAppendOne(registered + Copies(PROGRESS, count - 1), PROGRESS, PROGRESS);
  }

  /** The registrations made by a call of progress join those there are; nobody has called them. */
  lemma JoinHeard(t: Talk, s: State, u: State, count: nat, round: nat, k: nat)
    requires u.log == s.log && u.registered == s.registered + Copies(PROGRESS, count) && ListsRegs(s)
    requires |t.starts| == |RegsP(s)| && round <= |t.notes| && k <= |t.starts|
    requires forall i: nat | i < |t.starts| :: HasHeard(t.notes, t.starts, s, i, HeardBy(round, k, i))
    ensures AllHeard(t.notes, t.starts + Repeat(round, count), u, round, k)
  {
    hide RegsOf, DataOf;
    NewRegsAre(s.registered, count);
    var starts := t.starts + Repeat(round, count);
    forall i: nat | i < |starts| ensures HasHeard(t.notes, starts, u, i, HeardBy(round, k, i)) {
      if i < |t.starts| {
        assert HasHeard(t.notes, t.starts, s, i, HeardBy(round, k, i));
        assert RegsP(u)[i] == RegsP(u)[..|RegsP(s)|][i];
      } else {
        NoData(s.log, RegsP(u)[i]);
      }
    }
  }

  /** They join the list. */
  lemma JoinList(s: State, u: State, count: nat)
    requires ListsRegs(s) && s.cbs[PROGRESS].list.Some? && u.log == s.log
    requires u.registered == s.registered + Copies(PROGRESS, count)
    requires u.cbs[PROGRESS].list == Some(s.cbs[PROGRESS].list.value + NewUsers(|s.registered|, count))
    ensures ListsRegs(u)
    ensures |RegsP(u)| == |RegsP(s)| + count && |u.cbs[PROGRESS].list.value| == |s.cbs[PROGRESS].list.value| + count
  {
    hide RegsOf;
    NewRegsAre(s.registered, count);
    CopiesAndUsers(PROGRESS, |s.registered|, count);
    var list, regs, more := s.cbs[PROGRESS].list.value, RegsP(s), RegsP(u);
    var list' := u.cbs[PROGRESS].list.value;
    forall k: nat | k < |list'| ensures list'[k] == RegAt(more, |more| - |list'| + k) {
      if k < |list| {
        assert list[k] == RegAt(regs, |regs| - |list| + k);
        assert more[|regs| - |list| + k] == more[..|regs|][|regs| - |list| + k];
      } else {
        NewUserAt(|s.registered|, count, k - |list|);
      }
    }
  }

  /** Registrations with progress are none with done or fail. */
  lemma JoinSides(t: Talk, s: State, t': Talk, u: State, count: nat)
    requires SideTalk(t, s) && u.registered == s.registered + Copies(PROGRESS, count)
    requires u.cbs[DONE] == s.cbs[DONE] && u.cbs[FAIL] == s.cbs[FAIL] && u.settled == s.settled && u.log == s.log
    requires t'.winner == t.winner && t'.counts == t.counts && t'.sideAt == t.sideAt
    ensures SideTalk(t', u)
  {
    hide RegsOf, CallsOf;
    RegsAppend(s.registered, PROGRESS, count, DONE);
    RegsAppend(s.registered, PROGRESS, count, FAIL);
  }

  lemma AddTalks(t: Talk, s: State, count: nat)
    requires Inv(s) && Tracks(t, s)
    ensures Tracks(Heard(t, Add(PROGRESS, count)), Step(s, Add(PROGRESS, count)))
  {
    hide Loop, RegsOf, CallsOf, DataOf, SideTalk, ListsRegs, NewUsers, Copies;
    var cb := s.cbs[PROGRESS];
    if t.at.Some? {
      AddInRound(t, s, count);
    } else if t.notes == [] {
      AddSilent(t, s, count);
    } else {
      AddAfter(t, s, count);
    }
  }

  /** progress while a note is being delivered. */
  lemma AddInRound(t: Talk, s: State, count: nat)
    requires Inv(s) && Tracks(t, s) && t.at.Some?
    ensures Tracks(Heard(t, Add(PROGRESS, count)), Step(s, Add(PROGRESS, count)))
  {
    hide Loop, RegsOf, CallsOf, DataOf, SideTalk, ListsRegs, NewUsers, Copies;
    var u := Step(s, Add(PROGRESS, count));
    JoinHeard(t, s, u, count, t.at.value.0, t.at.value.1 + 1);
    JoinList(s, u, count);
    JoinSides(t, s, Heard(t, Add(PROGRESS, count)), u, count);
  }

  /** progress before the first note. */
  lemma AddSilent(t: Talk, s: State, count: nat)
    requires Inv(s) && Tracks(t, s) && t.at == None && t.notes == []
    ensures Tracks(Heard(t, Add(PROGRESS, count)), Step(s, Add(PROGRESS, count)))
  {
    hide Loop, RegsOf, CallsOf, DataOf, SideTalk, NewUsers, Copies;
    var u, t' := Step(s, Add(PROGRESS, count)), Heard(t, Add(PROGRESS, count));
    forall i: nat | i < |t.starts| ensures HasHeard(t.notes, t.starts, s, i, HeardBy(0, 0, i)) {
      assert HasHeard(t.notes, t.starts, s, i, |t.notes|);
    }
    JoinHeard(t, s, u, count, 0, 0);
    if s.cbs[PROGRESS].list.Some? {
      JoinList(s, u, count);
    } else {
      NewRegsAre(s.registered, count);
    }
    JoinSides(t, s, t', u, count);
    forall i: nat | i < |t'.starts| ensures HasHeard(t'.notes, t'.starts, u, i, |t'.notes|) {
      assert HasHeard(t'.notes, t'.starts, u, i, HeardBy(0, 0, i));
    }
  }

  /** progress between notes: the new ones are called with the last one. */
  lemma AddAfter(t: Talk, s: State, count: nat)
    requires Inv(s) && Tracks(t, s) && t.at == None && t.notes != []
    ensures Tracks(Heard(t, Add(PROGRESS, count)), Step(s, Add(PROGRESS, count)))
  {
    hide Loop, RegsOf, CallsOf, DataOf, SideTalk, ListsRegs, NewUsers, Copies;
    var cb, round, n := s.cbs[PROGRESS], |t.notes| - 1, |t.starts|;
    var list := cb.list.value + NewUsers(|s.registered|, count);
    var joined := With(s.(registered := s.registered + Copies(PROGRESS, count)), PROGRESS,
      cb.(list := Some(list), firingStart := |cb.list.value|));
    var v := Started(joined, PROGRESS, cb.memory.value);
    assert Step(s, Add(PROGRESS, count)) == Loop(v, PROGRESS);
    forall i: nat | i < n ensures HasHeard(t.notes, t.starts, s, i, HeardBy(round, n, i)) {
      assert HasHeard(t.notes, t.starts, s, i, |t.notes|);
    }
    JoinHeard(t, s, v, count, round, n);
    JoinList(s, v, count);
    var t' := t.(starts := t.starts + Repeat(round, count));
    JoinSides(t, s, t', v, count);
    NotFiring(s);
    assert v.frames[..|s.frames|] == s.frames && t.notes[round + 1..] == [];
    StartTalks(t', v, round, n);
  }

  /** The round goes on from the next position. */
  lemma Advances(t: Talk, s: State, round: nat, k: nat)
    requires InRound(t, s, round, k, s.cbs[PROGRESS].firingIndex + 1)
    ensures var v := Advanced(s, PROGRESS); InRound(t, v, round, k, v.cbs[PROGRESS].firingIndex)
  {
    hide RegsOf, DataOf;
    var v := Advanced(s, PROGRESS);
    forall i: nat | i < |t.starts| ensures HasHeard(t.notes, t.starts, v, i, HeardBy(round, k, i)) {
      assert HasHeard(t.notes, t.starts, s, i, HeardBy(round, k, i));
    }
  }

  lemma ProgressOnTop(t: Talk, s: State)
    requires Inv(s) && Tracks(t, s) && s.frames != [] && s.frames[|s.frames| - 1].id == PROGRESS
    ensures t.at.Some? && InRound(t, s, t.at.value.0, t.at.value.1 + 1, s.cbs[PROGRESS].firingIndex + 1)
    ensures s.cbs[PROGRESS].firingStart == 0 && OnTop(s) && |RegsP(s)| == |t.starts| > 0
  {
    hide RegsOf, CallsOf, DataOf, ListsRegs, AllHeard, SidesOK, ProgressOK;
  }

  lemma RoundOf(t: Talk, t': Talk, s: State, round: nat, k: nat)
    requires InRound(t, s, round, k, s.cbs[PROGRESS].firingIndex) && t' == t.(stack := t'.stack, at := t'.at)
    ensures InRound(t', s, round, k, s.cbs[PROGRESS].firingIndex)
  {
  }

  /** A progress callback returns. */
  lemma ReturnTalks(t: Talk, s: State)
    requires Inv(s) && Tracks(t, s) && s.frames != [] && s.frames[|s.frames| - 1].id == PROGRESS
    ensures Tracks(Heard(t, Return), Step(s, Return))
  {
    hide Loop, RegsOf, CallsOf, DataOf, InRound, ProgressTalk, SideTalk, Inv;
    ProgressOnTop(t, s);
    var n, v := |s.frames| - 1, Advanced(s, PROGRESS);
    var rest, round, k := t.stack[..n], t.at.value.0, t.at.value.1 + 1;
    Advances(t, s, round, k);
    SidesKept(t, s, t.(stack := rest, at := None), v);
    RoundOf(t, t.(stack := rest, at := None), v, round, k);
    StartTalks(t.(stack := rest, at := None), v, round, k);
    assert rest + [PROGRESS] == t.stack;
  }

  // ----- resolve, reject, done and fail, and the return of one of their callbacks -----

  /** What a call on a side leaves alone. */
  ghost predicate ProgressAlone(s: State, u: State)
  {
    && u.cbs[PROGRESS] == s.cbs[PROGRESS] && RegsP(u) == RegsP(s) && |s.registered| <= |u.registered|
    && (forall f | f in u.log && f.id == PROGRESS :: f in s.log)
    && (forall reg: nat :: DataOf(u.log, reg) == DataOf(s.log, reg))
    && (forall f | f in u.frames && f.id == PROGRESS :: f in s.frames)
  }

  lemma ProgressKept(t: Talk, s: State, t': Talk, u: State)
    requires ProgressTalk(t, s) && ProgressAlone(s, u)
    requires t'.notes == t.notes && t'.starts == t.starts && t'.at == t.at && t'.winner == t.winner
    ensures ProgressTalk(t', u)
  {
    hide RegsOf, DataOf;
    forall i: nat, hi: nat | i < |t.starts| == |RegsP(s)| && HasHeard(t.notes, t.starts, s, i, hi)
      ensures HasHeard(t.notes, t.starts, u, i, hi)
    {
    }
  }

  /** The winner's loop calls the next registration if there is one, and else is over. */
  lemma WinnerTalks(v: State, w: nat, data: nat)
    requires w < 2 && InLoop(v, w) && v.settled == [Settled(w, data)] && v.cbs[PROGRESS].stack == None
    requires Lost(v, 1 - w) && v.cbs[w].firing && Won(v, w, data, v.cbs[w].firingIndex)
    ensures var u := Loop(v, w);
            && ProgressAlone(v, u) && u.settled == v.settled && u.registered == v.registered
            && if |CallsOf(v.log, w)| < |RegsOf(v.registered, w)| then
                 u.frames == v.frames && u.cbs[w].firing && |CallsOf(u.log, w)| == |CallsOf(v.log, w)| + 1
               else u.frames == v.frames[..|v.frames| - 1] && !u.cbs[w].firing && u.log == v.log
  {
    hide Loop, CallsOf, RegsOf, DataOf;
    var cb := v.cbs[w];
    if cb.firingIndex < |cb.list.value| {
      TakeUser(cb.list.value, cb.firingIndex);
      CallsUser(v, w);
      var f := Fired(w, cb.list.value[cb.firingIndex].reg, v.frames[|v.frames| - 1].data);
      CallsAppend(v.log, f, w);
      forall reg: nat ensures DataOf(v.log + [f], reg) == DataOf(v.log, reg) {
        DataAppend(v.log, f, reg);
      }
    } else {
      NoUsers();
      assert cb.list.value[cb.firingIndex..] == [];
      LoopEndsOnce(v, w);
    }
  }

  /** The winner's loop has been started or goes on. */
  lemma SideLoopTalks(t: Talk, v: State, w: nat, data: nat)
    requires w < 2 && InLoop(v, w) && v.settled == [Settled(w, data)] && v.cbs[PROGRESS].stack == None
    requires Lost(v, 1 - w) && v.cbs[w].firing && Won(v, w, data, v.cbs[w].firingIndex)
    requires ProgressTalk(t, v) && t.winner == Some(w)
    requires |RegsOf(v.registered, DONE)| == t.counts.0 && |RegsOf(v.registered, FAIL)| == t.counts.1
    requires SameStack(t, v.(frames := v.frames[..|v.frames| - 1]))
    ensures var called := |CallsOf(v.log, w)|;
            var sideAt := if called < CountOf(t, w) then Some(called) else None;
            Tracks(t.(sideAt := sideAt, stack := Pushed(t.stack, w, sideAt.Some?)), Loop(v, w))
  {
    hide Loop, CallsOf, RegsOf, DataOf, ProgressTalk, ProgressAlone;
    WinnerTalks(v, w, data);
    var called := |CallsOf(v.log, w)|;
    var sideAt := if called < CountOf(t, w) then Some(called) else None;
    ProgressKept(t, v, t.(sideAt := sideAt, stack := Pushed(t.stack, w, sideAt.Some?)), Loop(v, w));
  }

  /** The progress list is locked: what waits is lost. */
  lemma LockTalks(t: Talk, s: State, v: State, t': Talk, w: nat)
    requires ProgressTalk(t, s) && t.winner == None && t'.winner == Some(w) && t'.at == t.at && t'.starts == t.starts
    requires t'.notes == if t.at.Some? then t.notes[..t.at.value.0 + 1] else t.notes
    requires v.cbs[PROGRESS] == Locked(s.cbs[PROGRESS]) && v.registered == s.registered && v.log == s.log
    requires forall f | f in v.frames && f.id == PROGRESS :: f in s.frames
    ensures ProgressTalk(t', v)
  {
    hide RegsOf, DataOf;
    if t.at.Some? {
      var round, k := t.at.value.0, t.at.value.1 + 1;
      forall i: nat | i < |t.starts| ensures HasHeard(t'.notes, t.starts, v, i, HeardBy(round, k, i)) {
        assert HasHeard(t.notes, t.starts, s, i, HeardBy(round, k, i));
        PartOfPrefix(t.notes, round + 1, t.starts[i], HeardBy(round, k, i));
      }
    } else {
      forall i: nat | i < |t.starts| ensures HasHeard(t.notes, t.starts, v, i, |t.notes|) {
        assert HasHeard(t.notes, t.starts, s, i, |t.notes|);
      }
    }
  }

  lemma PartOfPrefix(notes: seq<nat>, n: nat, a: nat, b: nat)
    requires a <= b <= n <= |notes|
    ensures notes[..n][a..b] == notes[a..b]
  {
  }

  /** The lists once the Deferred's own functions have run. */
  lemma SettlingIsWon(s: State, w: nat, data: nat)
    requires Inv(s) && w < 2 && s.settled == []
    ensures var v := Settling(s, w, data);
            && InLoop(v, w) && v.settled == [Settled(w, data)] && v.cbs[PROGRESS].stack == None
            && Lost(v, 1 - w) && v.cbs[w].firing && Won(v, w, data, v.cbs[w].firingIndex) && CallsOf(v.log, w) == []
  {
    hide Loop, UsersOf, RegsOf, CallsOf, AllUsers;
    PushFrame(s, w, data);
    NoneYet(s, w);
    SameFrames(Started(s, w, data), Settling(s, w, data));
  }

  /** The first resolve or reject. */
  lemma SettleTalks(t: Talk, s: State, w: nat, data: nat)
    requires Inv(s) && Tracks(t, s) && w < 2 && s.settled == []
    ensures Tracks(Heard(t, FireWith(w, data)), Step(s, FireWith(w, data)))
  {
    hide Loop, UsersOf, RegsOf, CallsOf, AllUsers, ProgressTalk, Locked, DataOf, Won, Lost, InLoop, SidesOK;
    assert Unsettled(s, w) by { UnsettledSides(s); }
    OwnItems(s, w, data);
    SettlingIsWon(s, w, data);
    RoundsAreNotes(t, s);
    var v := Settling(s, w, data);
    var notes := if t.at.Some? then t.notes[..t.at.value.0 + 1] else t.notes;
    var t' := t.(winner := Some(w), notes := notes);
    LockTalks(t, s, v, t', w);
    assert v.frames[..|s.frames|] == s.frames;
    SideLoopTalks(t', v, w, data);
  }

  lemma UnsettledSides(s: State)
    requires Inv(s) && s.settled == []
    ensures Unsettled(s, DONE) && Unsettled(s, FAIL)
  {
  }

  lemma RoundsAreNotes(t: Talk, s: State)
    requires ProgressTalk(t, s)
    ensures t.at.Some? ==> t.at.value.0 < |t.notes|
  {
  }

  /** Registrations with one side are none with progress, and none with the other side. */
  lemma JoinSide(t: Talk, s: State, u: State, w: nat, count: nat)
    requires ProgressTalk(t, s) && w < 2 && u.registered == s.registered + Copies(w, count)
    requires u.log == s.log && u.cbs[PROGRESS] == s.cbs[PROGRESS]
    requires forall f | f in u.frames && f.id == PROGRESS :: f in s.frames
    ensures ProgressTalk(t, u)
    ensures forall side: nat | side < 2 ::
              |RegsOf(u.registered, side)| == |RegsOf(s.registered, side)| + if side == w then count else 0
  {
    hide RegsOf, DataOf, ProgressTalk;
    CopiesAndUsers(w, |s.registered|, count);
    RegsAppend(s.registered, w, count, PROGRESS);
    ProgressKept(t, s, t, u);
    UsersOfAll(NewUsers(|s.registered|, count));
    forall side: nat | side < 2
      ensures |RegsOf(u.registered, side)| == |RegsOf(s.registered, side)| + if side == w then count else 0
    {
      RegsAppend(s.registered, w, count, side);
    }
  }

  lemma {:induction false} UsersOfAll(items: seq<Item>)
    requires AllUsers(items)
    ensures |UsersOf(items)| == |items|
  {
    if items != [] {
      assert forall i: nat | i < |items| - 1 :: items[1..][i] == items[i + 1];
      UsersOfAll(items[1..]);
    }
  }

  /** done or fail. */
  lemma AddSideTalks(t: Talk, s: State, w: nat, count: nat)
    requires Inv(s) && Tracks(t, s) && w < 2
    ensures Tracks(Heard(t, Add(w, count)), Step(s, Add(w, count)))
  {
    hide Loop, UsersOf, RegsOf, CallsOf, AllUsers, ProgressTalk, DataOf, NewUsers, Copies;
    if s.settled != [] && s.settled[0].side == w && !s.cbs[w].firing {
      AddToWinner(t, s, w, count);
    } else {
      var u := Step(s, Add(w, count));
      JoinSide(t, s, u, w, count);
      SameCounts(t, s, Heard(t, Add(w, count)), u);
    }
  }

  lemma SameCounts(t: Talk, s: State, t': Talk, u: State)
    requires ProgressTalk(t, u) && SideTalk(t, s) && SameStack(t, s) && u.frames == s.frames && u.log == s.log
    requires t' == t.(counts := t'.counts) && u.settled == s.settled
    requires forall side: nat | side < 2 :: u.cbs[side].firing == s.cbs[side].firing
    requires |RegsOf(u.registered, DONE)| == t'.counts.0 && |RegsOf(u.registered, FAIL)| == t'.counts.1
    ensures Tracks(t', u)
  {
    hide RegsOf, CallsOf, DataOf, ListsRegs;
    forall i: nat, hi: nat | i < |t.starts| == |RegsP(u)| && HasHeard(t.notes, t.starts, u, i, hi)
      ensures HasHeard(t'.notes, t'.starts, u, i, hi)
    {
    }
  }

  /** The winner's list, started again for registrations made after its loop. */
  lemma RestartedIsWon(s: State, w: nat, count: nat)
    requires Inv(s) && w < 2 && s.settled != [] && s.settled[0].side == w && !s.cbs[w].firing
    ensures var cb, data := s.cbs[w], s.settled[0].data;
            var joined := With(s.(registered := s.registered + Copies(w, count)), w,
                               cb.(list := Some(NewUsers(|s.registered|, count)), firingStart := 0));
            var v := Started(joined, w, data);
            && cb.list == Some([]) && Step(s, Add(w, count)) == Loop(v, w)
            && InLoop(v, w) && v.settled == [Settled(w, data)] && v.cbs[PROGRESS].stack == None
            && Lost(v, 1 - w) && v.cbs[w].firing && Won(v, w, data, v.cbs[w].firingIndex)
            && |CallsOf(v.log, w)| == |RegsOf(s.registered, w)|
  {
    hide Loop, UsersOf, RegsOf, CallsOf, FramesOK;
    var cb, added := s.cbs[w], NewUsers(|s.registered|, count);
    RegsAppend(s.registered, w, count, w);
    CopiesAndUsers(w, |s.registered|, count);
    var joined := With(s.(registered := s.registered + Copies(w, count)), w,
      cb.(list := Some(added), firingStart := 0));
    assert [] + added == added && added[0..] == added;
    SameFrames(s, joined);
    PushFrame(joined, w, s.settled[0].data);
  }

  lemma AddToWinner(t: Talk, s: State, w: nat, count: nat)
    requires Inv(s) && Tracks(t, s) && w < 2 && s.settled != [] && s.settled[0].side == w && !s.cbs[w].firing
    ensures Tracks(Heard(t, Add(w, count)), Step(s, Add(w, count)))
  {
    hide Loop, UsersOf, RegsOf, CallsOf, AllUsers, ProgressTalk, DataOf, NewUsers, Copies, Won, Lost, InLoop, Step, Inv;
    RestartedIsWon(s, w, count);
    var cb, data := s.cbs[w], s.settled[0].data;
    var joined := With(s.(registered := s.registered + Copies(w, count)), w,
      cb.(list := Some(NewUsers(|s.registered|, count)), firingStart := 0));
    var v := Started(joined, w, data);
    JoinSide(t, s, v, w, count);
    var t' := t.(counts := Heard(t, Add(w, count)).counts);
    OtherCounts(t, t', v);
    assert v.frames[..|s.frames|] == s.frames;
    SideLoopTalks(t', v, w, data);
  }

  lemma OtherCounts(t: Talk, t': Talk, s: State)
    requires ProgressTalk(t, s) && t' == t.(counts := t'.counts)
    ensures ProgressTalk(t', s)
  {
  }

  /** The winner's list when its callback has returned. */
  lemma ReturnedIsWon(s: State)
    requires Inv(s) && s.frames != [] && s.frames[|s.frames| - 1].id != PROGRESS
    ensures var w := s.frames[|s.frames| - 1].id;
            && w < 2 && s.settled != [] && s.settled[0].side == w
            && var v, data := Advanced(s, w), s.settled[0].data;
               && InLoop(v, w) && v.settled == [Settled(w, data)] && v.cbs[PROGRESS].stack == None
               && Lost(v, 1 - w) && v.cbs[w].firing && Won(v, w, data, v.cbs[w].firingIndex)
  {
    hide Loop, UsersOf, RegsOf, CallsOf, AllUsers, FramesOK;
    TopFrame(s);
    SameFrames(s, Advanced(s, s.frames[|s.frames| - 1].id));
  }

  /** A callback of the winner returns. */
  lemma ReturnSideTalks(t: Talk, s: State)
    requires Inv(s) && Tracks(t, s) && s.frames != [] && s.frames[|s.frames| - 1].id != PROGRESS
    ensures Tracks(Heard(t, Return), Step(s, Return))
  {
    hide Loop, UsersOf, RegsOf, CallsOf, AllUsers, ProgressTalk, DataOf, Won, Lost, InLoop, Inv;
    ReturnedIsWon(s);
    var n, w := |s.frames| - 1, s.frames[|s.frames| - 1].id;
    var v, data, rest := Advanced(s, w), s.settled[0].data, t.stack[..n];
    ProgressKept(t, s, t.(stack := rest), v);
    SideLoopTalks(t.(stack := rest), v, w, data);
    assert rest + [w] == t.stack;
  }

  // ----- whole runs -----

  lemma StepTalks(t: Talk, s: State, call: Call)
    requires Inv(s) && Tracks(t, s)
    ensures Tracks(Heard(t, call), Step(s, call))
  {
    hide Loop, RegsOf, CallsOf, UsersOf, AllUsers, ProgressTalk, Heard, SideTalk;
    match call
    case FireWith(id, data) =>
      if id == PROGRESS {
        NotifyTalks(t, s, data);
      } else if id < 2 && s.settled == [] {
        SettleTalks(t, s, id, data);
      } else {
        NothingHeard(t, s, call);
      }
    case Add(id, count) =>
      if id == PROGRESS {
        AddTalks(t, s, count);
      } else if id < 2 {
        AddSideTalks(t, s, id, count);
      } else {
        NothingHeard(t, s, call);
      }
    case Return =>
      if s.frames == [] {
        NothingHeard(t, s, call);
      } else if s.frames[|s.frames| - 1].id == PROGRESS {
        ReturnTalks(t, s);
      } else {
        ReturnSideTalks(t, s);
      }
  }

  lemma NothingHeard(t: Talk, s: State, call: Call)
    requires Inv(s) && Tracks(t, s)
    requires match call
             case FireWith(id, _) => id != PROGRESS && (id < 2 ==> s.settled != [])
             case Add(id, _) => id >= 3
             case Return => s.frames == []
    ensures Heard(t, call) == t && Step(s, call) == s
  {
    hide RegsOf, CallsOf, UsersOf, AllUsers, ProgressTalk, FramesOK;
  }

  /** The schedule follows the machine through every run. */
  lemma {:induction false} RunTalks(calls: seq<Call>)
    ensures Tracks(HeardAll(calls), Run(INITIAL, calls))
    decreases |calls|
  {
    hide Inv, Step, Heard;
    if calls != [] {
      var n := |calls| - 1;
      RunTalks(calls[..n]);
      RunInv(calls[..n]);
      StepTalks(HeardAll(calls[..n]), Run(INITIAL, calls[..n]), calls[n]);
    }
  }

  /** After any run a progress callback has been called with its notes, in order; with all of them when no note is
      being delivered. */
  lemma ProgressCallsOfAnyRun(calls: seq<Call>)
    ensures var s, t := Run(INITIAL, calls), HeardAll(calls);
            var regs := RegsOf(s.registered, PROGRESS);
            && |regs| == |t.starts|
            && (forall i: nat | i < |regs| ::
                  && t.starts[i] <= |t.notes| && DataOf(s.log, regs[i]) <= t.notes[t.starts[i]..]
                  && (t.at == None ==> DataOf(s.log, regs[i]) == t.notes[t.starts[i]..]))
            && (t.at == None <==> !s.cbs[PROGRESS].firing) && (s.frames == [] ==> t.at == None)
  {
    hide Run, HeardAll, DataOf, RegsOf;
    RunTalks(calls);
    RunInv(calls);
    var s, t := Run(INITIAL, calls), HeardAll(calls);
    forall i: nat | i < |t.starts|
      ensures t.starts[i] <= |t.notes| && DataOf(s.log, RegsP(s)[i]) <= t.notes[t.starts[i]..]
      ensures t.at == None ==> DataOf(s.log, RegsP(s)[i]) == t.notes[t.starts[i]..]
    {
      if t.at.Some? {
        var hi := HeardBy(t.at.value.0, t.at.value.1 + 1, i);
        assert HasHeard(t.notes, t.starts, s, i, hi);
        assert t.notes[t.starts[i]..hi] == t.notes[t.starts[i]..][..hi - t.starts[i]];
      } else {
        assert HasHeard(t.notes, t.starts, s, i, |t.notes|);
      }
    }
  }

  /** The data of all calls of notify. */
  function NotifyData(calls: seq<Call>): seq<nat>
  {
    if calls == [] then []
    else
      var n := |calls| - 1;
      var call := calls[n];
      NotifyData(calls[..n]) + if call.FireWith? && call.id == PROGRESS then [call.data] else []
  }

  /** Until something settles every notification is delivered, and then those whose delivery has begun. */
  lemma {:induction false} NotesOfRun(calls: seq<Call>)
    ensures HeardAll(calls).winner == None <==> FirstSettled(calls) == []
    ensures FirstSettled(calls) == [] ==> HeardAll(calls).notes == NotifyData(calls)
    ensures HeardAll(calls).notes <= NotifyData(calls)
  {
    if calls != [] {
      NotesOfRun(calls[..|calls| - 1]);
    }
  }

  /** What resolve and reject leave of the notifications. */
  lemma NotesWhenSettled(calls: seq<Call>, side: nat, data: nat)
    requires FirstSettled(calls) == [] && side < 2
    ensures var t, u := HeardAll(calls), HeardAll(calls + [FireWith(side, data)]);
            && (t.at == None ==> u.notes == NotifyData(calls))
            && (t.at.Some? ==> t.at.value.0 < |NotifyData(calls)| && u.notes == NotifyData(calls)[..t.at.value.0 + 1])
  {
    assert (calls + [FireWith(side, data)])[..|calls|] == calls;
    NotesOfRun(calls);
    RunTalks(calls);
    RoundsAreNotes(HeardAll(calls), Run(INITIAL, calls));
  }

  /** Then there are no more. */
  lemma {:induction false} NotesStay(calls: seq<Call>, more: seq<Call>)
    ensures var t, u := HeardAll(calls), HeardAll(calls + more);
            && t.starts <= u.starts && (t.winner.Some? ==> u.winner == t.winner && u.notes == t.notes)
    decreases |more|
  {
    hide Heard, HeardAll;
    if more == [] {
      assert calls + more == calls;
    } else {
      var n := |more| - 1;
      NotesStay(calls, more[..n]);
      assert calls + more == calls + more[..n] + [more[n]];
      NextHeard(calls + more[..n], more[n]);
      StaysOneCall(HeardAll(calls + more[..n]), more[n]);
    }
  }

  lemma StaysOneCall(t: Talk, call: Call)
    ensures var u := Heard(t, call);
            t.starts <= u.starts && (t.winner.Some? ==> u.winner == t.winner && u.notes == t.notes)
  {
  }

  /** From the last notification before a registration on. */
  function FromLast(before: seq<nat>, all: seq<nat>): seq<nat>
    requires before <= all
  {
    all[if before == [] then 0 else |before| - 1..]
  }

  lemma {:induction false} NotifyDataGrows(calls: seq<Call>, more: seq<Call>)
    ensures NotifyData(calls) <= NotifyData(calls + more)
    decreases |more|
  {
    if more == [] {
      assert calls + more == calls;
    } else {
      var n := |more| - 1;
      NotifyDataGrows(calls, more[..n]);
      assert (calls + more)[..|calls| + n] == calls + more[..n];
    }
  }

  /** How many notifications wait behind the one being delivered. */
  lemma WaitingNotes(calls: seq<Call>)
    requires FirstSettled(calls) == []
    ensures var t := HeardAll(calls);
            && t.notes == NotifyData(calls)
            && (Waiting(Run(INITIAL, calls), PROGRESS) > 0 ==> Waiting(Run(INITIAL, calls), PROGRESS) < |t.notes|)
            && StartNow(t) == if t.notes == [] then 0 else |t.notes| - 1 - Waiting(Run(INITIAL, calls), PROGRESS)
  {
    hide Run, HeardAll, RegsOf, CallsOf, DataOf;
    RunTalks(calls);
    NotesOfRun(calls);
  }

  /** The schedule when a registration is made decides what it hears. */
  lemma HearsFrom(calls: seq<Call>, count: nat, more: seq<Call>, i: nat)
    requires Run(INITIAL, calls + [Add(PROGRESS, count)] + more).frames == []
    requires |RegsP(Run(INITIAL, calls))| <= i < |RegsP(Run(INITIAL, calls))| + count
    ensures var s, t := Run(INITIAL, calls + [Add(PROGRESS, count)] + more),
                        HeardAll(calls + [Add(PROGRESS, count)] + more);
            && i < |RegsP(s)| && StartNow(HeardAll(calls)) <= |t.notes|
            && DataOf(s.log, RegsP(s)[i]) == t.notes[StartNow(HeardAll(calls))..]
  {
    hide Run, RegsOf, DataOf, HeardAll;
    var added := calls + [Add(PROGRESS, count)];
    var t0, t1, t := HeardAll(calls), HeardAll(added), HeardAll(added + more);
    NextHeard(calls, Add(PROGRESS, count));
    ProgressCallsOfAnyRun(calls);
    NotesStay(added, more);
    ProgressCallsOfAnyRun(added + more);
    assert t.starts[i] == t1.starts[i] == Repeat(StartNow(t0), count)[i - |t0.starts|];
  }

  lemma NextHeard(calls: seq<Call>, call: Call)
    ensures HeardAll(calls + [call]) == Heard(HeardAll(calls), call)
  {
    assert (calls + [call])[..|calls|] == calls;
  }

  /** A progress callback registered before anything settles, when no callback runs any more: it has been called with
      every notification from the one on that was being delivered, or else was the last, when it was registered. */
  lemma RegisteredHears(calls: seq<Call>, count: nat, more: seq<Call>, i: nat)
    requires var before, all := Run(INITIAL, calls), calls + [Add(PROGRESS, count)] + more;
             && FirstSettled(all) == [] && Run(INITIAL, all).frames == []
             && |RegsOf(before.registered, PROGRESS)| <= i < |RegsOf(before.registered, PROGRESS)| + count
    ensures var waiting, notes := Waiting(Run(INITIAL, calls), PROGRESS), |NotifyData(calls)|;
            var all := calls + [Add(PROGRESS, count)] + more;
            var s := Run(INITIAL, all);
            var regs := RegsOf(s.registered, PROGRESS);
            && i < |regs| && NotifyData(calls) <= NotifyData(all) && (waiting > 0 ==> waiting < notes)
            && DataOf(s.log, regs[i]) == NotifyData(all)[if notes == 0 then 0 else notes - 1 - waiting..]
  {
    hide Run, RegsOf, DataOf, HeardAll, NotifyData, FirstSettled, Waiting;
    var all := calls + [Add(PROGRESS, count)] + more;
    HearsFrom(calls, count, more, i);
    NotesOfRun(all);
    NotSettledBefore(calls, [Add(PROGRESS, count)] + more);
    NotifyDataGrows(calls, [Add(PROGRESS, count)] + more);
    assert calls + ([Add(PROGRESS, count)] + more) == all;
    WaitingNotes(calls);
  }

  lemma NotSettledBefore(calls: seq<Call>, more: seq<Call>)
    ensures FirstSettled(calls + more) == [] ==> FirstSettled(calls) == []
  {
    NotesStay(calls, more);
    NotesOfRun(calls);
    NotesOfRun(calls + more);
  }

  /** So it is the last notification before the registration and every later one exactly when none was waiting. */
  lemma HearsLastIffNoneWaits(calls: seq<Call>, count: nat, more: seq<Call>, i: nat)
    requires var before, all := Run(INITIAL, calls), calls + [Add(PROGRESS, count)] + more;
             && FirstSettled(all) == [] && Run(INITIAL, all).frames == []
             && |RegsOf(before.registered, PROGRESS)| <= i < |RegsOf(before.registered, PROGRESS)| + count
    ensures var all := calls + [Add(PROGRESS, count)] + more;
            var regs := RegsOf(Run(INITIAL, all).registered, PROGRESS);
            && i < |regs| && NotifyData(calls) <= NotifyData(all)
            && (DataOf(Run(INITIAL, all).log, regs[i]) == FromLast(NotifyData(calls), NotifyData(all)) <==>
                  Waiting(Run(INITIAL, calls), PROGRESS) == 0)
  {
    hide Run, RegsOf, DataOf, NotifyData, FirstSettled, Waiting;
    RegisteredHears(calls, count, more, i);
  }

  /** A progress callback registered after something has settled is called once, with the last note that was delivered
      at all, or never when there was none. */
  lemma RegisteredLate(calls: seq<Call>, count: nat, more: seq<Call>, i: nat)
    requires var before, all := Run(INITIAL, calls), calls + [Add(PROGRESS, count)] + more;
             && FirstSettled(calls) != [] && Run(INITIAL, all).frames == []
             && |RegsOf(before.registered, PROGRESS)| <= i < |RegsOf(before.registered, PROGRESS)| + count
    ensures var s, notes := Run(INITIAL, calls + [Add(PROGRESS, count)] + more), HeardAll(calls).notes;
            var regs := RegsOf(s.registered, PROGRESS);
            i < |regs| && DataOf(s.log, regs[i]) == if notes == [] then [] else [notes[|notes| - 1]]
  {
    hide Run, RegsOf, DataOf, HeardAll, FirstSettled;
    var t := HeardAll(calls);
    HearsFrom(calls, count, more, i);
    NotesOfRun(calls);
    NotesStay(calls, [Add(PROGRESS, count)] + more);
    assert calls + ([Add(PROGRESS, count)] + more) == calls + [Add(PROGRESS, count)] + more;
    LastRound(calls);
    assert t.notes != [] ==> t.notes[|t.notes| - 1..] == [t.notes[|t.notes| - 1]];
  }

  /** Once something has settled, the note being delivered is the last. */
  lemma LastRound(calls: seq<Call>)
    requires HeardAll(calls).winner.Some?
    ensures var t := HeardAll(calls); StartNow(t) == if t.notes == [] then 0 else |t.notes| - 1
  {
    hide Run, HeardAll, RegsOf, CallsOf, DataOf;
    RunTalks(calls);
  }

  /** Inside a callback: one that is registered while the notification 2 waits behind 1 is called with 1 and 2. */
  const NESTED: seq<Call> := [Add(PROGRESS, 1), FireWith(PROGRESS, 1), FireWith(PROGRESS, 2)]

  lemma RegisteredWhileOneWaits()
    ensures var s := Run(INITIAL, NESTED + [Add(PROGRESS, 1)] + Returns(4));
            && s.frames == [] && |RegsOf(s.registered, PROGRESS)| == 2
            && DataOf(s.log, RegsOf(s.registered, PROGRESS)[1]) == [1, 2]
            && NotifyData(NESTED) == [1, 2] && FromLast(NotifyData(NESTED), NotifyData(NESTED)) == [2]
  {
    hide Run, RegsOf, DataOf, HeardAll, Returns;
    var all := NESTED + [Add(PROGRESS, 1)] + Returns(4);
    NestedHeard();
    NestedNotes();
    RunTalks(all);
    ProgressCallsOfAnyRun(all);
    assert [1, 2][0..] == [1, 2];
  }

  lemma NestedNotes()
    ensures NotifyData(NESTED) == [1, 2]
  {
    hide NotifyData;
    var add, one, two := Add(PROGRESS, 1), FireWith(PROGRESS, 1), FireWith(PROGRESS, 2);
    assert NotifyData([]) == [] by { NoNotes(); }
    NextNote([], add);
    NextNote([add], one);
    NextNote([add, one], two);
    assert [] + [add] == [add] && [add] + [one] == [add, one] && [add, one] + [two] == NESTED;
  }

  lemma NoNotes()
    ensures NotifyData([]) == []
  {
  }

  lemma NextNote(calls: seq<Call>, call: Call)
    ensures NotifyData(calls + [call]) ==
            NotifyData(calls) + if call.FireWith? && call.id == PROGRESS then [call.data] else []
  {
    assert (calls + [call])[..|calls|] == calls;
  }

  lemma NestedHeard()
    ensures var t := HeardAll(NESTED + [Add(PROGRESS, 1)] + Returns(4));
            t.notes == [1, 2] && t.starts == [0, 0] && t.at == None && t.stack == []
  {
    hide HeardAll;
    NestedStarts();
    var calls := NESTED + [Add(PROGRESS, 1)];
    ReturnsHeard(calls, 1);
    ReturnsHeard(calls, 2);
    ReturnsHeard(calls, 3);
    ReturnsHeard(calls, 4);
    assert HeardAll(calls + Returns(1)).at == Some((0, 1));
    assert HeardAll(calls + Returns(2)).at == Some((1, 0));
    assert HeardAll(calls + Returns(3)).at == Some((1, 1));
  }

  lemma ReturnsHeard(calls: seq<Call>, n: nat)
    requires n > 0
    ensures HeardAll(calls + Returns(n)) == Heard(HeardAll(calls + Returns(n - 1)), Return)
    ensures n == 1 ==> calls + Returns(0) == calls
  {
    hide HeardAll, Heard;
    NextReturn(n);
    assert calls + Returns(n) == calls + Returns(n - 1) + [Return];
    assert Returns(0) == [] && calls + [] == calls;
    NextHeard(calls + Returns(n - 1), Return);
  }

  lemma NestedStarts()
    ensures HeardAll(NESTED + [Add(PROGRESS, 1)]) ==
            Talk([1, 2], [0, 0], Some((0, 0)), None, (0, 0), None, [PROGRESS])
  {
    hide HeardAll;
    var add, one, two := Add(PROGRESS, 1), FireWith(PROGRESS, 1), FireWith(PROGRESS, 2);
    assert HeardAll([]) == SILENCE by { NothingYet(); }
    NextHeard([], add);
    NextHeard([add], one);
    NextHeard([add, one], two);
    NextHeard([add, one, two], add);
    assert [] + [add] == [add] && [add] + [one] == [add, one] && [add, one] + [two] == [add, one, two];
    assert HeardAll([add]).starts == [0] && HeardAll([add, one]).notes == [1];
    assert HeardAll(NESTED).notes == [1, 2] && HeardAll(NESTED + [add]).starts == [0, 0];
  }

  lemma NothingYet()
    ensures HeardAll([]) == SILENCE
  {
  }
}
