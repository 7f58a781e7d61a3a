/** Callback lists and Deferred as a state machine. Callbacks can call back into the machine at any time: a run
    is any sequence of calls and returns, with a stack of the fire loops that are waiting for a callback. */
module Deferred {
  import opened Common

  /** The lists of a Deferred, and the names of their registrations. */
  const DONE := 0
  const FAIL := 1
  const PROGRESS := 2

  /** A list entry: one of the three functions a Deferred puts first, or registration number `reg`. */
  datatype Item = SetState(side: nat) | Disable(id: nat) | Lock(id: nat) | User(reg: nat)

  /** A callback list: the variables of its closure. None stands for undefined or false; `stack` is None from
      the start with the option "once". All lists of a Deferred have the option "memory". */
  datatype Cb = Cb(
    list: Option<seq<Item>>, stack: Option<seq<nat>>, memory: Option<nat>,
    fired: bool, firing: bool, firingIndex: int, firingLength: int, firingStart: int)

  /** A fire loop in progress on list `id`, called with `data`. */
  datatype Frame = Frame(id: nat, data: nat)

  /** Registration `reg` of list `id` was called with `data`. */
  datatype Fired = Fired(id: nat, reg: nat, data: nat)

  datatype Settled = Settled(side: nat, data: nat)

  /** A Deferred. `registered[r]`: the list registration r was made with; `settled`: each time `state` was set;
      `log`: each call of a registered callback. */
  datatype St = St(cbs: seq<Cb>, frames: seq<Frame>, registered: seq<nat>, settled: seq<Settled>, log: seq<Fired>)

  /** What user code, at the top level or inside a callback, can do: resolve, reject and notify; register `count`
      callbacks with done, fail or progress; or, inside a callback, return. */
  datatype Call = FireWith(id: nat, data: nat) | Add(id: nat, count: nat) | Return

  type State = s: St | |s.cbs| == 3 witness INITIAL

  const INITIAL := St(
    [NewList([SetState(DONE), Disable(FAIL), Lock(PROGRESS)], None),
     NewList([SetState(FAIL), Disable(DONE), Lock(PROGRESS)], None),
     NewList([], Some([]))], [], [], [], [])

  function NewList(items: seq<Item>, stack: Option<seq<nat>>): Cb
  {
    Cb(Some(items), stack, None, false, false, 0, 0, 0)
  }

  // ----- the closures' code -----

  function With(s: State, id: nat, cb: Cb): (r: State)
    requires id < 3
  {
    s.(cbs := s.cbs[id := cb])
  }

  /** disable */
  function Disabled(cb: Cb): Cb
  {
    cb.(list := None, stack := None, memory := None)
  }

  /** lock */
  function Locked(cb: Cb): Cb
  {
    var c := cb.(stack := None);
    if c.memory == None then Disabled(c) else c
  }

  /** fire, up to its loop */
  function Started(s: State, id: nat, data: nat): (r: State)
    requires id < 3
  {
    var cb := s.cbs[id];
    var n := if cb.list.Some? then |cb.list.value| else 0;
    With(s, id, cb.(memory := Some(data), fired := true, firing := true,
                    firingIndex := cb.firingStart, firingStart := 0, firingLength := n))
      .(frames := s.frames + [Frame(id, data)])
  }

  /** What one of the Deferred's own functions does to the lists. */
  function Effect(s: State, item: Item, data: nat): (r: State)
    requires !item.User?
  {
    match item
    case SetState(side) => s.(settled := s.settled + [Settled(side, data)])
    case Disable(i) => if i < 3 then With(s, i, Disabled(s.cbs[i])) else s
    case Lock(i) => if i < 3 then With(s, i, Locked(s.cbs[i])) else s
  }

  function Advanced(s: State, id: nat): (r: State)
    requires id < 3
  {
    With(s, id, s.cbs[id].(firingIndex := s.cbs[id].firingIndex + 1))
  }

  function Waiting(s: State, id: nat): nat
    requires id < 3
  {
    if s.cbs[id].stack.Some? then |s.cbs[id].stack.value| else 0
  }

  function Left(s: State, id: nat): nat
    requires id < 3
  {
    var d := s.cbs[id].firingLength - s.cbs[id].firingIndex;
    if d < 0 then 0 else d
  }

  /** fire's loop on list `id`, until a registered callback is called, and what follows the loop. */
  function Loop(s: State, id: nat): State
    requires id < 3 && s.frames != []
    decreases Waiting(s, id), Left(s, id)
  {
    var cb := s.cbs[id];
    var frame := s.frames[|s.frames| - 1];
    if cb.list.Some? && 0 <= cb.firingIndex < cb.firingLength && cb.firingIndex < |cb.list.value| then
      var item := cb.list.value[cb.firingIndex];
      if item.User? then s.(log := s.log + [Fired(id, item.reg, frame.data)])
      else Loop(Advanced(Effect(s, item, frame.data), id), id)
    else
      var t := With(s, id, cb.(firing := false)).(frames := s.frames[..|s.frames| - 1]);
      if cb.list == None then t
      else if cb.stack.Some? then
        if cb.stack.value == [] then t
        else
          var shifted := With(t, id, cb.(firing := false, stack := Some(cb.stack.value[1..])));
          Loop(Started(shifted, id, cb.stack.value[0]), id)
      else if cb.memory.Some? then With(t, id, cb.(firing := false, list := Some([])))
      else With(t, id, Disabled(cb.(firing := false)))
  }

  function Copies(id: nat, count: nat): seq<nat>
  {
    if count == 0 then [] else Copies(id, count - 1) + [id]
  }

  /** Entries for registrations `first`, `first` + 1, ... */
  function NewUsers(first: nat, count: nat): seq<Item>
  {
    if count == 0 then [] else NewUsers(first, count - 1) + [User(first + count - 1)]
  }

  /** One call or return. */
  function Step(s: State, call: Call): State
  {
    match call
    case FireWith(id, data) =>
      if id >= 3 then s
      else
        var cb := s.cbs[id];
        if cb.list.Some? && (!cb.fired || cb.stack.Some?) then
          if cb.firing then
            (if cb.stack.Some? then With(s, id, cb.(stack := Some(cb.stack.value + [data]))) else s)
          else Loop(Started(s, id, data), id)
        else s
    case Add(id, count) =>
      if id >= 3 then s
      else
        var cb, t := s.cbs[id], s.(registered := s.registered + Copies(id, count));
        if cb.list == None then t
        else
          var start, list := |cb.list.value|, cb.list.value + NewUsers(|s.registered|, count);
          if cb.firing then With(t, id, cb.(list := Some(list), firingLength := |list|))
          else if cb.memory.Some? then
            Loop(Started(With(t, id, cb.(list := Some(list), firingStart := start)), id, cb.memory.value), id)
          else With(t, id, cb.(list := Some(list)))
    case Return =>
      if s.frames == [] || s.frames[|s.frames| - 1].id >= 3 then s
      else
        var id := s.frames[|s.frames| - 1].id;
        Loop(Advanced(s, id), id)
  }

  function Run(s: State, calls: seq<Call>): State
    decreases |calls|
  {
    if calls == [] then s else Step(Run(s, calls[..|calls| - 1]), calls[|calls| - 1])
  }

  /** What follows a loop that has come to its end. */
  lemma LoopEnds(s: State, id: nat)
    requires id < 3 && s.frames != []
    requires var cb := s.cbs[id];
             !(cb.list.Some? && 0 <= cb.firingIndex < cb.firingLength && cb.firingIndex < |cb.list.value|)
    ensures var t := With(s, id, s.cbs[id].(firing := false)).(frames := s.frames[..|s.frames| - 1]);
            var cb := t.cbs[id];
            Loop(s, id) ==
              if cb.list == None then t
              else if cb.stack == None then With(t, id, if cb.memory.Some? then cb.(list := Some([])) else Disabled(cb))
              else if cb.stack.value == [] then t
              else Loop(Started(With(t, id, cb.(stack := Some(cb.stack.value[1..]))), id, cb.stack.value[0]), id)
  {
  }

  // ----- registrations and calls -----

  /** The registrations made with list `id`, in order. */
  function RegsOf(registered: seq<nat>, id: nat): seq<nat>
  {
    if registered == [] then []
    else
      var n := |registered| - 1;
      RegsOf(registered[..n], id) + if registered[n] == id then [n] else []
  }

  /** The registrations of list `id` that have been called, in order. */
  function CallsOf(log: seq<Fired>, id: nat): seq<nat>
  {
    if log == [] then []
    else
      var n := |log| - 1;
      CallsOf(log[..n], id) + if log[n].id == id then [log[n].reg] else []
  }

  function UsersOf(items: seq<Item>): seq<nat>
  {
    if items == [] then [] else (if items[0].User? then [items[0].reg] else []) + UsersOf(items[1..])
  }

  ghost predicate AllUsers(items: seq<Item>)
  {
    forall i: nat | i < |items| :: items[i].User?
  }

  lemma {:induction false} UsersConcat(a: seq<Item>, b: seq<Item>)
    ensures UsersOf(a + b) == UsersOf(a) + UsersOf(b)
  {
    if a == [] {
      assert a + b == b;
    } else {
      UsersConcat(a[1..], b);
      assert (a + b)[1..] == a[1..] + b;
    }
  }

  lemma CallsAppend(log: seq<Fired>, f: Fired, id: nat)
    ensures CallsOf(log + [f], id) == CallsOf(log, id) + if f.id == id then [f.reg] else []
  {
    assert (log + [f])[..|log|] == log;
  }

  lemma {:induction false} CopiesAndUsers(id: nat, first: nat, count: nat)
    ensures |Copies(id, count)| == count && |NewUsers(first, count)| == count && AllUsers(NewUsers(first, count))
  {
    if count > 0 { CopiesAndUsers(id, first, count - 1); }
  }

  lemma {:induction false} RegsAppend(registered: seq<nat>, id: nat, count: nat, k: nat)
    ensures RegsOf(registered + Copies(id, count), k)
            == RegsOf(registered, k) + if id == k then UsersOf(NewUsers(|registered|, count)) else []
  {
    hide RegsOf, UsersOf;
    if count == 0 {
      assert registered + [] == registered;
      NoUsers();
    } else {
      var n := |registered| + count - 1;
      RegsAppend(registered, id, count - 1, k);
      CopiesAndUsers(id, |registered|, count - 1);
      RegsAppendOne(registered + Copies(id, count - 1), id, k);
      assert registered + Copies(id, count) == registered + Copies(id, count - 1) + [id];
      UsersConcat(NewUsers(|registered|, count - 1), [User(n)]);
      OneUser(n);
    }
  }

  lemma RegsAppendOne(registered: seq<nat>, id: nat, k: nat)
    ensures RegsOf(registered + [id], k) == RegsOf(registered, k) + if id == k then [|registered|] else []
  {
    assert (registered + [id])[..|registered|] == registered;
  }

  lemma NoUsers()
    ensures UsersOf([]) == []
  {
  }

  lemma OneUser(n: nat)
    ensures UsersOf([User(n)]) == [n]
  {
    assert [User(n)][1..] == [];
  }

  // ----- what holds between calls -----

  /** The functions a Deferred's done (fail) list starts with. */
  function Own(side: nat): seq<Item>
    requires side < 2
  {
    [SetState(side), Disable(1 - side), Lock(PROGRESS)]
  }

  /** One fire loop at most for each list: the one its `firing` tells of. */
  ghost predicate FramesOK(s: State)
  {
    && (forall i: nat | i < |s.frames| :: s.frames[i].id < 3 && s.cbs[s.frames[i].id].firing)
    && (forall i: nat, j: nat | i < j < |s.frames| :: s.frames[i].id != s.frames[j].id)
    && (forall id: nat | id < 3 && s.cbs[id].firing :: exists i: nat | i < |s.frames| :: s.frames[i].id == id)
  }

  /** The progress list; `at`: how far a loop on it may have got. */
  ghost predicate ProgressOK(cb: Cb, atEnd: bool)
  {
    && cb.firingStart == 0 && (cb.list.Some? ==> AllUsers(cb.list.value)) 
    && (cb.list.Some? && (cb.memory.Some? || cb.stack == None) ==> cb.fired)
    && (!cb.firing && cb.stack.Some? ==> cb.stack.value == [])
    && (cb.firing ==>
          && cb.list.Some? && cb.memory.Some? && cb.firingLength == |cb.list.value|
          && 0 <= cb.firingIndex <= |cb.list.value| && (atEnd || cb.firingIndex < |cb.list.value|))
  }

  /** The list of a side, nothing settled yet: its own functions and every registration. */
  ghost predicate Unsettled(s: State, side: nat)
    requires side < 2
  {
    var cb := s.cbs[side];
    && cb.list.Some? && |cb.list.value| >= 3 && cb.list.value[..3] == Own(side) && AllUsers(cb.list.value[3..])
    && UsersOf(cb.list.value[3..]) == RegsOf(s.registered, side)
    && cb.stack == None && cb.memory == None && !cb.fired && !cb.firing && cb.firingStart == 0
    && CallsOf(s.log, side) == []
  }

  /** The list of the side that lost: disabled, and none of its registrations called. */
  ghost predicate Lost(s: State, side: nat)
    requires side < 2
  {
    var cb := s.cbs[side];
    cb.list == None && cb.stack == None && cb.memory == None && !cb.firing && CallsOf(s.log, side) == []
  }

  /** The list of the side that won with `data`: what is registered is what has been called, in order, and
      then what the list still has ahead from position `ahead` on. */
  ghost predicate Won(s: State, side: nat, data: nat, ahead: int)
    requires side < 2
  {
    var cb := s.cbs[side];
    && cb.list.Some? && cb.stack == None && cb.memory == Some(data) && cb.fired && cb.firingStart == 0
    && (if cb.firing then
          && 0 <= ahead <= |cb.list.value| && cb.firingLength == |cb.list.value| && AllUsers(cb.list.value[ahead..])
          && RegsOf(s.registered, side) == CallsOf(s.log, side) + UsersOf(cb.list.value[ahead..])
        else cb.list.value == [] && RegsOf(s.registered, side) == CallsOf(s.log, side))
    && (forall i: nat | i < |s.log| && s.log[i].id == side :: s.log[i].data == data)
    && (forall i: nat | i < |s.frames| && s.frames[i].id == side :: s.frames[i].data == data)
  }

  ghost predicate SidesOK(s: State)
  {
    || (s.settled == [] && Unsettled(s, DONE) && Unsettled(s, FAIL)
        && s.cbs[PROGRESS].list.Some? && s.cbs[PROGRESS].stack.Some?)
    || (|s.settled| == 1 && s.settled[0].side < 2 && s.cbs[PROGRESS].stack == None &&
        var w, data := s.settled[0].side, s.settled[0].data;
        Lost(s, 1 - w) && Won(s, w, data, s.cbs[w].firingIndex + 1) && 0 <= s.cbs[w].firingIndex)
  }

  ghost predicate Inv(s: State)
  {
    FramesOK(s) && ProgressOK(s.cbs[PROGRESS], false) && SidesOK(s)
  }

  /** The loop on `id` has just been started or taken up again: its frame is on top. */
  ghost predicate InLoop(s: State, id: nat)
  {
    id < 3 && s.frames != [] && s.frames[|s.frames| - 1].id == id && FramesOK(s)
  }

  lemma InitialInv()
    ensures Inv(INITIAL)
  {
    assert INITIAL.cbs[0].list.value[..3] == Own(DONE) && INITIAL.cbs[1].list.value[..3] == Own(FAIL);
  }

  /** Leaving the loop on `id`. */
  lemma PopFrame(s: State, id: nat, cb: Cb)
    requires InLoop(s, id) && !cb.firing
    ensures FramesOK(With(s, id, cb).(frames := s.frames[..|s.frames| - 1]))
  {
    var n := |s.frames| - 1;
    var t := With(s, id, cb).(frames := s.frames[..n]);
    forall k: nat | k < 3 && t.cbs[k].firing ensures exists i: nat | i < |t.frames| :: t.frames[i].id == k {
      var i: nat :| i < |s.frames| && s.frames[i].id == k;
      assert t.frames[i].id == k;
    }
  }

  lemma PushFrame(s: State, id: nat, data: nat)
    requires id < 3 && FramesOK(s) && !s.cbs[id].firing
    ensures InLoop(Started(s, id, data), id)
  {
    var t := Started(s, id, data);
    forall k: nat | k < 3 && t.cbs[k].firing ensures exists i: nat | i < |t.frames| :: t.frames[i].id == k {
      if k == id {
        assert t.frames[|s.frames|].id == k;
      } else {
        var i: nat :| i < |s.frames| && s.frames[i].id == k;
        assert t.frames[i].id == k;
      }
    }
  }

  /** Only what FramesOK looks at matters to it. */
  lemma SameFrames(s: State, t: State)
    requires FramesOK(s) && t.frames == s.frames && forall id: nat | id < 3 :: t.cbs[id].firing == s.cbs[id].firing
    ensures FramesOK(t)
  {
    forall id: nat | id < 3 && t.cbs[id].firing ensures exists i: nat | i < |t.frames| :: t.frames[i].id == id {
      var i: nat :| i < |s.frames| && s.frames[i].id == id;
      assert t.frames[i].id == id;
    }
  }

  lemma TakeUser(list: seq<Item>, i: nat)
    requires i < |list| && AllUsers(list[i..])
    ensures list[i].User? && AllUsers(list[i + 1..]) && UsersOf(list[i..]) == [list[i].reg] + UsersOf(list[i + 1..])
  {
    var rest, tail := list[i..], list[i + 1..];
    assert rest[0] == list[i] && rest[1..] == tail;
    forall k: nat | k < |tail| ensures tail[k].User? {
      assert tail[k] == rest[k + 1];
    }
  }

  /** A call of a progress callback is not a call of a done or fail callback. */
  ghost predicate SameCalls(s: State, t: State)
  {
    t.log == s.log || (|t.log| == |s.log| + 1 && t.log[..|s.log|] == s.log && t.log[|s.log|].id == PROGRESS)
  }

  lemma CallsKept(s: State, t: State, side: nat)
    requires SameCalls(s, t) && side < 2
    ensures CallsOf(t.log, side) == CallsOf(s.log, side)
    ensures forall f | f in t.log && f.id == side :: f in s.log
  {
    if t.log != s.log {
      assert t.log == s.log + [t.log[|s.log|]];
      CallsAppend(s.log, t.log[|s.log|], side);
    }
  }

  /** The two sides do not depend on the progress list, its frames, registrations and calls. */
  lemma SameSides(s: State, t: State)
    requires SidesOK(s) && t.cbs[DONE] == s.cbs[DONE] && t.cbs[FAIL] == s.cbs[FAIL] && t.settled == s.settled
    requires s.cbs[PROGRESS].stack.Some? <==> t.cbs[PROGRESS].stack.Some?
    requires s.cbs[PROGRESS].list.Some? ==> t.cbs[PROGRESS].list.Some?
    requires forall side: nat | side < 2 :: RegsOf(t.registered, side) == RegsOf(s.registered, side)
    requires SameCalls(s, t) && forall f | f in t.frames && f.id < 2 :: f in s.frames
    ensures SidesOK(t)
  {
    hide RegsOf, CallsOf, UsersOf, AllUsers, SameCalls;
    CallsKept(s, t, DONE);
    CallsKept(s, t, FAIL);
    if s.settled != [] {
      var w, data := s.settled[0].side, s.settled[0].data;
      forall i: nat | i < |t.log| && t.log[i].id == w ensures t.log[i].data == data {
        assert t.log[i] in s.log;
      }
      forall i: nat | i < |t.frames| && t.frames[i].id == w ensures t.frames[i].data == data {
        assert t.frames[i] in s.frames;
      }
    }
  }

  /** The winner's loop: the next registration is called, or the loop ends with all of them called. */
  lemma WinnerLoop(s: State, w: nat, data: nat)
    requires w < 2 && InLoop(s, w) && ProgressOK(s.cbs[PROGRESS], false) && s.settled == [Settled(w, data)]
    requires Lost(s, 1 - w) && s.cbs[w].firing && Won(s, w, data, s.cbs[w].firingIndex) && s.cbs[PROGRESS].stack == None
    ensures Inv(Loop(s, w)) && Loop(s, w).settled == s.settled
  {
    hide Loop, UsersOf, AllUsers, CallsOf, RegsOf;
    if s.cbs[w].firingIndex < |s.cbs[w].list.value| {
      WinnerCalls(s, w, data);
      SameFrames(s, Loop(s, w));
    } else {
      WinnerEnds(s, w, data);
    }
  }

  lemma WinnerEnds(s: State, w: nat, data: nat)
    requires w < 2 && InLoop(s, w) && ProgressOK(s.cbs[PROGRESS], false) && s.settled == [Settled(w, data)]
    requires Lost(s, 1 - w) && s.cbs[w].firing && Won(s, w, data, s.cbs[w].firingIndex) && s.cbs[PROGRESS].stack == None
    requires s.cbs[w].firingIndex == |s.cbs[w].list.value|
    ensures Inv(Loop(s, w)) && Loop(s, w).settled == s.settled
  {
    hide UsersOf, AllUsers, CallsOf, RegsOf, FramesOK, ProgressOK;
    var cb := s.cbs[w];
    NoUsers();
    assert cb.list.value[cb.firingIndex..] == [];
    var ended := cb.(firing := false, list := Some([]));
    PopFrame(s, w, ended);
    LoopEndsOnce(s, w);
  }

  /** The end of a loop on a list that is called once, and remembers. */
  lemma LoopEndsOnce(s: State, id: nat)
    requires id < 3 && s.frames != [] && s.cbs[id].list.Some? && s.cbs[id].stack == None && s.cbs[id].memory.Some?
    requires s.cbs[id].firingIndex >= s.cbs[id].firingLength
    ensures Loop(s, id) ==
              With(s, id, s.cbs[id].(firing := false, list := Some([]))).(frames := s.frames[..|s.frames| - 1])
  {
    var t := With(s, id, s.cbs[id].(firing := false)).(frames := s.frames[..|s.frames| - 1]);
    var ended := s.cbs[id].(firing := false, list := Some([]));
    assert t.cbs[id := ended] == s.cbs[id := ended];
  }

  lemma WinnerCalls(s: State, w: nat, data: nat)
    requires w < 2 && s.frames != [] && s.frames[|s.frames| - 1].id == w && s.settled == [Settled(w, data)]
    requires Lost(s, 1 - w) && s.cbs[w].firing && Won(s, w, data, s.cbs[w].firingIndex) && s.cbs[PROGRESS].stack == None
    requires s.cbs[w].firingIndex < |s.cbs[w].list.value|
    ensures SidesOK(Loop(s, w)) && Loop(s, w) == s.(log := Loop(s, w).log)
  {
    var list, i := s.cbs[w].list.value, s.cbs[w].firingIndex;
    TakeUser(list, i);
    hide UsersOf, AllUsers;
    var f := Fired(w, list[i].reg, s.frames[|s.frames| - 1].data);
    assert Loop(s, w) == s.(log := s.log + [f]);
    CallsAppend(s.log, f, w);
    CallsAppend(s.log, f, 1 - w);
  }

  /** The progress loop, round after round of waiting notifications: the two sides are left alone. */
  lemma {:induction false} ProgressLoop(s: State)
    requires InLoop(s, PROGRESS) && s.cbs[PROGRESS].firing && ProgressOK(s.cbs[PROGRESS], true) && SidesOK(s)
    ensures Inv(Loop(s, PROGRESS)) && Loop(s, PROGRESS).settled == s.settled
    decreases Waiting(s, PROGRESS), 1
  {
    hide SidesOK, FramesOK;
    var id, cb, n := PROGRESS, s.cbs[PROGRESS], |s.frames| - 1;
    if cb.firingIndex < |cb.list.value| {
      var t := s.(log := s.log + [Fired(id, cb.list.value[cb.firingIndex].reg, s.frames[n].data)]);
      SameSides(s, t);
      SameFrames(s, t);
    } else {
      var popped := s.frames[..n];
      PopFrame(s, id, cb.(firing := false));
      var t := With(s, id, cb.(firing := false)).(frames := popped);
      if cb.stack.Some? && cb.stack.value != [] {
        ShiftRound(s, t, cb);
      } else if cb.stack.Some? {
        SameSides(s, t);
      } else {
        var emptied := With(s, id, cb.(firing := false, list := Some([]))).(frames := popped);
        assert With(t, id, cb.(firing := false, list := Some([]))) == emptied;
        PopFrame(s, id, cb.(firing := false, list := Some([])));
        SameSides(s, emptied);
      }
    }
  }

  /** The next round, for the notification waiting longest. */
  lemma {:induction false} ShiftRound(s: State, t: State, cb: Cb)
    requires InLoop(s, PROGRESS) && cb == s.cbs[PROGRESS] && cb.firing && ProgressOK(cb, true) && SidesOK(s)
    requires cb.firingIndex >= |cb.list.value| && cb.stack.Some? && cb.stack.value != []
    requires t == With(s, PROGRESS, cb.(firing := false)).(frames := s.frames[..|s.frames| - 1]) && FramesOK(t)
    ensures Inv(Loop(s, PROGRESS)) && Loop(s, PROGRESS).settled == s.settled
    decreases Waiting(s, PROGRESS), 0
  {
    hide SidesOK, FramesOK;
    var id, data := PROGRESS, cb.stack.value[0];
    var shifted := With(t, id, cb.(firing := false, stack := Some(cb.stack.value[1..])));
    SameFrames(t, shifted);
    PushFrame(shifted, id, data);
    var u := Started(shifted, id, data);
    SameSides(s, u);
    assert Waiting(u, id) < Waiting(s, id);
    ProgressLoop(u);
    assert Loop(s, id) == Loop(u, id);
  }

  // ----- every call keeps the invariant -----

  /** The loop runs one of the Deferred's own functions and goes on. */
  lemma OwnItem(s: State, id: nat)
    requires id < 3 && s.frames != [] && s.cbs[id].list.Some?
    requires 0 <= s.cbs[id].firingIndex < s.cbs[id].firingLength == |s.cbs[id].list.value|
    requires !s.cbs[id].list.value[s.cbs[id].firingIndex].User?
    ensures var item := s.cbs[id].list.value[s.cbs[id].firingIndex];
            Loop(s, id) == Loop(Advanced(Effect(s, item, s.frames[|s.frames| - 1].data), id), id)
  {
  }

  /** The state once the own functions of side `w` have been run. */
  function Settling(s: State, w: nat, data: nat): State
    requires w < 2
  {
    var u := Started(s, w, data);
    u.(cbs := u.cbs[w := u.cbs[w].(firingIndex := 3)][1 - w := Disabled(s.cbs[1 - w])]
                   [PROGRESS := Locked(s.cbs[PROGRESS])],
       settled := s.settled + [Settled(w, data)])
  }

  lemma OwnItems(s: State, w: nat, data: nat)
    requires w < 2 && Unsettled(s, w)
    ensures Loop(Started(s, w, data), w) == Loop(Settling(s, w, data), w)
  {
    hide Loop, AllUsers, UsersOf, RegsOf, CallsOf, Disabled, Locked;
    var list := s.cbs[w].list.value;
    assert list[0] == list[..3][0] && list[1] == list[..3][1] && list[2] == list[..3][2];
    var u0 := Started(s, w, data);
    OwnItem(u0, w);
    var u1 := Advanced(Effect(u0, list[0], data), w);
    OwnItem(u1, w);
    var u2 := Advanced(Effect(u1, list[1], data), w);
    OwnItem(u2, w);
    var u3 := Advanced(Effect(u2, list[2], data), w);
    assert u3.cbs == Settling(s, w, data).cbs;
  }

  /** Nothing of a side that has not settled is in a frame or in the log. */
  lemma NoneYet(s: State, side: nat)
    requires side < 2 && FramesOK(s) && Unsettled(s, side)
    ensures forall i: nat | i < |s.frames| :: s.frames[i].id != side
    ensures forall i: nat | i < |s.log| :: s.log[i].id != side
  {
    forall i: nat | i < |s.log| ensures s.log[i].id != side {
      if s.log[i].id == side { NotCalled(s.log, s.log[i]); }
    }
  }

  lemma {:induction false} NotCalled(log: seq<Fired>, f: Fired)
    requires f in log
    ensures CallsOf(log, f.id) != []
  {
    var n := |log| - 1;
    if log[n] != f {
      assert f in log[..n];
      NotCalled(log[..n], f);
    }
  }

  lemma FirstSettling(s: State, w: nat, data: nat)
    requires w < 2 && Inv(s) && s.settled == []
    ensures var t := Loop(Started(s, w, data), w); Inv(t) && t.settled == [Settled(w, data)]
  {
    hide Loop, UsersOf, RegsOf, CallsOf, AllUsers;
    OwnItems(s, w, data);
    PushFrame(s, w, data);
    NoneYet(s, w);
    var u, v := Started(s, w, data), Settling(s, w, data);
    SameFrames(u, v);
    WinnerLoop(v, w, data);
  }

  /** notify */
  lemma NotifyStep(s: State, data: nat)
    requires Inv(s)
    ensures Inv(Step(s, FireWith(PROGRESS, data))) && Step(s, FireWith(PROGRESS, data)).settled == s.settled
  {
    hide Loop, SidesOK, FramesOK;
    var cb := s.cbs[PROGRESS];
    if cb.list.Some? && (!cb.fired || cb.stack.Some?) {
      if cb.firing {
        if cb.stack.Some? {
          var t := With(s, PROGRESS, cb.(stack := Some(cb.stack.value + [data])));
          SameFrames(s, t);
          SameSides(s, t);
        }
      } else {
        StartProgress(s, s, 0, data);
      }
    }
  }

  /** A loop on the progress list that starts at `start`. */
  lemma StartProgress(s: State, t: State, start: nat, data: nat)
    requires Inv(s) && !s.cbs[PROGRESS].firing && t.cbs[PROGRESS].list.Some? && AllUsers(t.cbs[PROGRESS].list.value)
    requires t.cbs[PROGRESS].firingStart == start <= |t.cbs[PROGRESS].list.value| && !t.cbs[PROGRESS].firing
    requires t.cbs[PROGRESS].stack == s.cbs[PROGRESS].stack
    requires t == With(s, PROGRESS, t.cbs[PROGRESS]).(registered := t.registered)
    requires forall side: nat | side < 2 :: RegsOf(t.registered, side) == RegsOf(s.registered, side)
    ensures var u := Loop(Started(t, PROGRESS, data), PROGRESS); Inv(u) && u.settled == s.settled
  {
    hide Loop, SidesOK, FramesOK, RegsOf;
    SameFrames(s, t);
    PushFrame(t, PROGRESS, data);
    var u := Started(t, PROGRESS, data);
    SameSides(s, u);
    ProgressLoop(u);
  }

  /** progress */
  lemma AddProgress(s: State, count: nat)
    requires Inv(s)
    ensures Inv(Step(s, Add(PROGRESS, count))) && Step(s, Add(PROGRESS, count)).settled == s.settled
  {
    hide Loop, SidesOK, FramesOK, RegsOf;
    var cb, t := s.cbs[PROGRESS], s.(registered := s.registered + Copies(PROGRESS, count));
    RegsAppend(s.registered, PROGRESS, count, DONE);
    RegsAppend(s.registered, PROGRESS, count, FAIL);
    CopiesAndUsers(PROGRESS, |s.registered|, count);
    if cb.list.Some? {
      var start, list := |cb.list.value|, cb.list.value + NewUsers(|s.registered|, count);
      if !cb.firing && cb.memory.Some? {
        StartProgress(s, With(t, PROGRESS, cb.(list := Some(list), firingStart := start)), start, cb.memory.value);
      } else {
        var u := Step(s, Add(PROGRESS, count));
        SameFrames(s, u);
        SameSides(s, u);
      }
    } else {
      SameFrames(s, t);
      SameSides(s, t);
    }
  }

  /** done or fail before anything is settled. */
  lemma AddUnsettled(s: State, w: nat, count: nat)
    requires w < 2 && Inv(s) && s.settled == []
    ensures Inv(Step(s, Add(w, count))) && Step(s, Add(w, count)).settled == []
  {
    hide Loop, UsersOf, RegsOf, CallsOf;
    var list, added := s.cbs[w].list.value, NewUsers(|s.registered|, count);
    RegsAppend(s.registered, w, count, w);
    RegsAppend(s.registered, w, count, 1 - w);
    CopiesAndUsers(w, |s.registered|, count);
    UsersConcat(list[3..], added);
    assert (list + added)[..3] == list[..3] && (list + added)[3..] == list[3..] + added;
    SameFrames(s, Step(s, Add(w, count)));
  }

  /** done or fail on the side that lost. */
  lemma AddLost(s: State, w: nat, count: nat)
    requires w < 2 && Inv(s) && s.settled != [] && s.settled[0].side == 1 - w
    ensures Inv(Step(s, Add(w, count))) && Step(s, Add(w, count)).settled == s.settled
  {
    hide Loop, UsersOf, RegsOf, CallsOf, AllUsers;
    RegsAppend(s.registered, w, count, 1 - w);
    SameFrames(s, Step(s, Add(w, count)));
  }

  /** done or fail on the side that won: called in the running loop, or in a new one. */
  lemma AddWon(s: State, w: nat, count: nat)
    requires w < 2 && Inv(s) && s.settled != [] && s.settled[0].side == w
    ensures Inv(Step(s, Add(w, count))) && Step(s, Add(w, count)).settled == s.settled
  {
    hide Loop, UsersOf, RegsOf, CallsOf, FramesOK;
    var cb, data, added := s.cbs[w], s.settled[0].data, NewUsers(|s.registered|, count);
    var t, list := s.(registered := s.registered + Copies(w, count)), cb.list.value + added;
    RegsAppend(s.registered, w, count, w);
    CopiesAndUsers(w, |s.registered|, count);
    if cb.firing {
      AddFiring(s, w, data, added, With(t, w, cb.(list := Some(list), firingLength := |list|)));
    } else {
      var restarted := With(t, w, cb.(list := Some(list), firingStart := 0));
      assert list == added && list[0..] == added;
      SameFrames(s, restarted);
      PushFrame(restarted, w, data);
      WinnerLoop(Started(restarted, w, data), w, data);
    }
  }

  lemma AddFiring(s: State, w: nat, data: nat, added: seq<Item>, t: State)
    requires w < 2 && Inv(s) && s.settled == [Settled(w, data)] && s.cbs[w].firing && AllUsers(added)
    requires var cb := s.cbs[w];
             var list := cb.list.value + added;
             t == With(s, w, cb.(list := Some(list), firingLength := |list|)).(registered := t.registered)
    requires RegsOf(t.registered, w) == RegsOf(s.registered, w) + UsersOf(added)
    ensures Inv(t)
  {
    hide UsersOf, RegsOf, CallsOf, FramesOK;
    var list, ahead := s.cbs[w].list.value, s.cbs[w].firingIndex + 1;
    UsersConcat(list[ahead..], added);
    assert (list + added)[ahead..] == list[ahead..] + added;
    SameFrames(s, t);
  }

  /** A callback returns. */
  lemma ReturnStep(s: State)
    requires Inv(s) && s.frames != []
    ensures Inv(Step(s, Return)) && Step(s, Return).settled == s.settled
  {
    hide Loop, UsersOf, RegsOf, CallsOf, AllUsers, FramesOK, ProgressOK;
    TopFrame(s);
    var id := s.frames[|s.frames| - 1].id;
    if id == PROGRESS {
      ReturnToProgress(s);
    } else {
      SameFrames(s, Advanced(s, id));
      WinnerLoop(Advanced(s, id), id, s.settled[0].data);
    }
  }

  lemma TopFrame(s: State)
    requires FramesOK(s) && s.frames != []
    ensures var id := s.frames[|s.frames| - 1].id; id < 3 && s.cbs[id].firing
  {
  }

  lemma ReturnToProgress(s: State)
    requires Inv(s) && s.frames != [] && s.frames[|s.frames| - 1].id == PROGRESS
    ensures Inv(Step(s, Return)) && Step(s, Return).settled == s.settled
  {
    hide Loop, SidesOK, RegsOf;
    var t := Advanced(s, PROGRESS);
    SameFrames(s, t);
    SameSides(s, t);
    ProgressLoop(t);
  }

  /** The first resolve or reject settles, and nothing else does. */
  function SettledBy(settled: seq<Settled>, call: Call): seq<Settled>
  {
    if settled == [] && call.FireWith? && call.id < 2 then [Settled(call.id, call.data)] else settled
  }

  lemma StepInv(s: State, call: Call)
    requires Inv(s)
    ensures Inv(Step(s, call)) && Step(s, call).settled == SettledBy(s.settled, call)
  {
    hide Inv, Loop, UsersOf, RegsOf, CallsOf, AllUsers, FramesOK, ProgressOK;
    assert SidesOK(s) by { InvSides(s); }
    match call
    case FireWith(id, data) =>
      if id == PROGRESS {
        NotifyStep(s, data);
      } else if id < 2 && s.settled == [] {
        FirstSettling(s, id, data);
      }
    case Add(id, count) =>
      if id == PROGRESS {
        AddProgress(s, count);
      } else if id < 2 {
        if s.settled == [] {
          AddUnsettled(s, id, count);
        } else if s.settled[0].side == id {
          AddWon(s, id, count);
        } else {
          AddLost(s, id, count);
        }
      }
    case Return =>
      if s.frames != [] { ReturnStep(s); }
  }

  lemma InvSides(s: State)
    requires Inv(s)
    ensures SidesOK(s)
  {
  }

  // ----- whole runs -----

  /** What settles a Deferred: the first resolve or reject, wherever it is made. */
  function FirstSettled(calls: seq<Call>): seq<Settled>
  {
    if calls == [] then [] else SettledBy(FirstSettled(calls[..|calls| - 1]), calls[|calls| - 1])
  }

  lemma {:induction false} RunInv(calls: seq<Call>)
    ensures Inv(Run(INITIAL, calls)) && Run(INITIAL, calls).settled == FirstSettled(calls)
    decreases |calls|
  {
    hide Inv, Step;
    if calls == [] {
      InitialInv();
    } else {
      RunInv(calls[..|calls| - 1]);
      StepInv(Run(INITIAL, calls[..|calls| - 1]), calls[|calls| - 1]);
    }
  }

  /** A Deferred settles at most once: never twice, never as both, and never back. */
  lemma {:induction false} SettlesAtMostOnce(calls: seq<Call>, more: seq<Call>)
    ensures var before := Run(INITIAL, calls).settled;
            |before| <= 1 && (before != [] ==> before[0].side < 2 && Run(INITIAL, calls + more).settled == before)
    decreases |more|
  {
    hide Inv, Step;
    RunInv(calls);
    RunInv(calls + more);
    SettlesOnce(calls);
    if more == [] {
      assert calls + more == calls;
    } else {
      var n := |more| - 1;
      assert (calls + more)[..|calls| + n] == calls + more[..n];
      SettlesAtMostOnce(calls, more[..n]);
      RunInv(calls + more[..n]);
    }
  }

  lemma {:induction false} SettlesOnce(calls: seq<Call>)
    ensures |FirstSettled(calls)| <= 1 && forall x | x in FirstSettled(calls) :: x.side < 2
  {
    if calls != [] { SettlesOnce(calls[..|calls| - 1]); }
  }

  /** After any run, done and fail callbacks have been called in the order of their registration, each at most once
      and with what settled the Deferred: none before it settles, none of the side that lost, and all of the side
      that won as soon as its loop is over. */
  lemma CallsOfAnyRun(calls: seq<Call>, side: nat)
    requires side < 2
    ensures var s := Run(INITIAL, calls);
            var called, registered := CallsOf(s.log, side), RegsOf(s.registered, side);
            && called <= registered
            && (forall i: nat | i < |s.log| && s.log[i].id == side :: s.settled == [Settled(side, s.log[i].data)])
            && (s.settled == [] || s.settled[0].side != side ==> called == [])
            && (s.settled != [] && s.settled[0].side == side && !s.cbs[side].firing ==> called == registered)
            && (s.frames == [] ==> !s.cbs[side].firing)
  {
    hide Run, CallsOf, RegsOf, UsersOf, AllUsers;
    RunInv(calls);
    var s := Run(INITIAL, calls);
    forall i: nat | i < |s.log| && s.log[i].id == side ensures s.settled == [Settled(side, s.log[i].data)] {
      NotCalled(s.log, s.log[i]);
    }
  }

  /** RegsOf lists the registrations of `id`, each once and in order. */
  lemma {:induction false} RegsOfOnce(registered: seq<nat>, id: nat)
    ensures forall r: nat :: r in RegsOf(registered, id) <==> r < |registered| && registered[r] == id
    ensures forall i: nat, j: nat | i < j < |RegsOf(registered, id)| ::
              RegsOf(registered, id)[i] < RegsOf(registered, id)[j]
  {
    if registered != [] {
      var n := |registered| - 1;
      RegsOfOnce(registered[..n], id);
      var before := RegsOf(registered[..n], id);
      forall i: nat | i < |before| ensures before[i] < n { assert before[i] in before; }
    }
  }

  // ----- notifications -----

  /** Once settled, notify does nothing, in any run. */
  lemma NotifyAfterSettling(calls: seq<Call>, data: nat)
    ensures var s := Run(INITIAL, calls); s.settled != [] ==> Step(s, FireWith(PROGRESS, data)) == s
  {
    hide Run, FramesOK, Lost, Won, Unsettled;
    RunInv(calls);
  }

  function Returns(n: nat): seq<Call>
  {
    if n == 0 then [] else Returns(n - 1) + [Return]
  }

  /** The calls of the first `n` entries of a list. */
  function CallsOfFirst(list: seq<Item>, n: nat, data: nat): (r: seq<Fired>)
    requires n <= |list| && AllUsers(list)
  {
    if n == 0 then [] else CallsOfFirst(list, n - 1, data) + [Fired(PROGRESS, list[n - 1].reg, data)]
  }

  /** `n` progress callbacks have returned and the next one has been called. */
  ghost function Notifying(s: State, data: nat, n: nat): State
    requires s.cbs[PROGRESS].list.Some? && AllUsers(s.cbs[PROGRESS].list.value) && n < |s.cbs[PROGRESS].list.value|
  {
    var u, list := Started(s, PROGRESS, data), s.cbs[PROGRESS].list.value;
    u.(cbs := u.cbs[PROGRESS := u.cbs[PROGRESS].(firingIndex := n)], log := s.log + CallsOfFirst(list, n + 1, data))
  }

  lemma CallsUser(s: State, id: nat)
    requires id < 3 && s.frames != [] && s.cbs[id].list.Some?
    requires 0 <= s.cbs[id].firingIndex < s.cbs[id].firingLength == |s.cbs[id].list.value|
    requires s.cbs[id].list.value[s.cbs[id].firingIndex].User?
    ensures var reg := s.cbs[id].list.value[s.cbs[id].firingIndex].reg;
            Loop(s, id) == s.(log := s.log + [Fired(id, reg, s.frames[|s.frames| - 1].data)])
  {
  }

  /** The loop on the progress list ends, and no notification waits. */
  lemma EndsQuietly(s: State)
    requires s.frames != [] && s.cbs[PROGRESS].list.Some? && s.cbs[PROGRESS].stack == Some([])
    requires s.cbs[PROGRESS].firingIndex == s.cbs[PROGRESS].firingLength == |s.cbs[PROGRESS].list.value|
    ensures var stopped := s.cbs[PROGRESS].(firing := false);
            Loop(s, PROGRESS) == With(s, PROGRESS, stopped).(frames := s.frames[..|s.frames| - 1])
  {
  }

  /** The progress list before anything is settled and outside its loop. */
  ghost predicate Quiet(s: State)
  {
    var cb := s.cbs[PROGRESS];
    cb.list.Some? && AllUsers(cb.list.value) && cb.stack == Some([]) && cb.firingStart == 0 && !cb.firing
  }

  lemma IsQuiet(s: State)
    requires Inv(s) && s.settled == [] && !s.cbs[PROGRESS].firing
    ensures Quiet(s)
  {
  }

  lemma NotifyStarts(s: State, data: nat)
    requires Quiet(s)
    ensures Run(s, [FireWith(PROGRESS, data)] + Returns(0)) == Loop(Started(s, PROGRESS, data), PROGRESS)
  {
    hide Loop;
    var notify := FireWith(PROGRESS, data);
    assert [notify] + Returns(0) == [notify] && [notify][..0] == [];
    assert Run(s, [notify]) == Step(s, notify);
  }

  lemma {:induction false} NotifiedSoFar(s: State, data: nat, n: nat)
    requires Quiet(s) && n < |s.cbs[PROGRESS].list.value|
    ensures Run(s, [FireWith(PROGRESS, data)] + Returns(n)) == Notifying(s, data, n)
  {
    hide Loop, Run, Returns;
    var notify, u, list := FireWith(PROGRESS, data), Started(s, PROGRESS, data), s.cbs[PROGRESS].list.value;
    if n == 0 {
      NotifyStarts(s, data);
      CallsUser(u, PROGRESS);
      assert CallsOfFirst(list, 1, data) == [Fired(PROGRESS, list[0].reg, data)];
      assert u.cbs[PROGRESS := u.cbs[PROGRESS].(firingIndex := 0)] == u.cbs;
    } else {
      NotifiedSoFar(s, data, n - 1);
      OneMoreReturn(s, notify, n);
      var v := Advanced(Notifying(s, data, n - 1), PROGRESS);
      assert v.cbs == Notifying(s, data, n).cbs;
      CallsUser(v, PROGRESS);
      assert v.log + [Fired(PROGRESS, list[n].reg, data)] == s.log + CallsOfFirst(list, n + 1, data);
    }
  }

  lemma OneMoreReturn(s: State, notify: Call, n: nat)
    requires n > 0
    ensures Run(s, [notify] + Returns(n)) == Step(Run(s, [notify] + Returns(n - 1)), Return)
  {
    hide Run, Step, Returns;
    NextReturn(n);
    assert [notify] + (Returns(n - 1) + [Return]) == [notify] + Returns(n - 1) + [Return];
    NextCall(s, [notify] + Returns(n - 1), Return);
  }

  lemma NextReturn(n: nat)
    requires n > 0
    ensures Returns(n) == Returns(n - 1) + [Return]
  {
  }

  lemma NextCall(s: State, calls: seq<Call>, call: Call)
    ensures Run(s, calls + [call]) == Step(Run(s, calls), call)
  {
    hide Step;
    assert (calls + [call])[..|calls|] == calls;
  }

  lemma NoCalls(data: nat)
    ensures CallsOfFirst([], 0, data) == []
  {
  }

  /** A notification calls every progress callback once and in order, and is over when they have returned. */
  lemma NotifyCallsAll(s: State, data: nat)
    requires Inv(s) && s.settled == [] && !s.cbs[PROGRESS].firing
    ensures var list := s.cbs[PROGRESS].list.value;
            var t := Run(s, [FireWith(PROGRESS, data)] + Returns(|list|));
            t.log == s.log + CallsOfFirst(list, |list|, data) && t.frames == s.frames && !t.cbs[PROGRESS].firing
  {
    hide Inv, Loop, Run, Returns, CallsOfFirst;
    IsQuiet(s);
    var notify, n := FireWith(PROGRESS, data), |s.cbs[PROGRESS].list.value|;
    if n == 0 {
      NotifyStarts(s, data);
      EndsQuietly(Started(s, PROGRESS, data));
      assert s.log + [] == s.log && CallsOfFirst([], 0, data) == [] by { NoCalls(data); }
    } else {
      var v := Notifying(s, data, n - 1);
      NotifiedSoFar(s, data, n - 1);
      OneMoreReturn(s, notify, n);
      assert Step(v, Return) == Loop(Advanced(v, PROGRESS), PROGRESS);
      hide Step;
      EndsQuietly(Advanced(v, PROGRESS));
    }
  }
}
