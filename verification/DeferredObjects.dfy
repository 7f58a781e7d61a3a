/** The closures of jQuery.Callbacks and jQuery.Deferred as objects: each call does to the objects' variables what
    the state machine of module Deferred says. */
module DeferredObjects {
  import opened Common
  import opened Deferred
  import Notes = DeferredNotes

  /** The variables of one callback list. */
  class Callbacks {
    var list: Option<seq<Item>>
    var stack: Option<seq<nat>>
    var memory: Option<nat>
    var fired: bool
    var firing: bool
    var firingIndex: int
    var firingLength: int
    var firingStart: int

    constructor (once: bool)
      ensures View() == NewList([], if once then None else Some([]))
    {
      list, stack, memory := Some([]), if once then None else Some([]), None;
      fired, firing := false, false;
      firingIndex, firingLength, firingStart := 0, 0, 0;
    }

    function View(): Cb
      reads this
    {
      Cb(list, stack, memory, fired, firing, firingIndex, firingLength, firingStart)
    }

    method Disable()
      modifies this
      ensures View() == Disabled(old(View()))
    {
      list, stack, memory := None, None, None;
    }

    method Lock()
      modifies this
      ensures View() == Locked(old(View()))
    {
      stack := None;
      if memory == None { Disable(); }
    }
  }

  /** A Deferred with its three lists, and the fire loops that wait for a callback to return. */
  class DeferredObject {
    const done: Callbacks
    const fail: Callbacks
    const progress: Callbacks
    var frames: seq<Frame>
    var registered: seq<nat>
    var settled: seq<Settled>
    var log: seq<Fired>

    ghost predicate Distinct()
    {
      done != fail && done != progress && fail != progress
    }

    ghost function Now(): State
      reads this, done, fail, progress
    {
      St([done.View(), fail.View(), progress.View()], frames, registered, settled, log)
    }

    function List(id: nat): Callbacks
      requires id < 3
    {
      if id == DONE then done else if id == FAIL then fail else progress
    }

    constructor ()
      ensures Distinct() && Now() == INITIAL
      ensures fresh(done) && fresh(fail) && fresh(progress)
    {
      done := new Callbacks(true);
      fail := new Callbacks(true);
      progress := new Callbacks(false);
      frames, registered, settled, log := [], [], [], [];
      new;
      done.list := Some([SetState(DONE), Item.Disable(FAIL), Item.Lock(PROGRESS)]);
      fail.list := Some([SetState(FAIL), Item.Disable(DONE), Item.Lock(PROGRESS)]);
    }

    /** One of the Deferred's own functions. */
    method Apply(item: Item, data: nat)
      requires Distinct() && !item.User?
      modifies this`settled, done, fail, progress
      ensures Now() == Effect(old(Now()), item, data)
    {
      ghost var s := Now();
      match item {
        case SetState(side) => settled := settled + [Settled(side, data)];
        case Disable(i) =>
          if i < 3 {
            List(i).Disable();
            assert Now().cbs == s.cbs[i := Disabled(s.cbs[i])];
          }
        case Lock(i) =>
          if i < 3 {
            List(i).Lock();
            assert Now().cbs == s.cbs[i := Locked(s.cbs[i])];
          }
      }
    }

    /** One round of the loop of fire that calls one of the Deferred's own functions. */
    method RunOwn(id: nat, item: Item, data: nat)
      requires Distinct() && id < 3 && !item.User?
      modifies this`settled, done, fail, progress
      ensures Now() == Advanced(Effect(old(Now()), item, data), id)
      ensures frames == old(frames) && Waiting(Now(), id) <= Waiting(old(Now()), id)
      ensures var cb, cb' := old(Now()).cbs[id], Now().cbs[id];
              cb'.firingIndex == cb.firingIndex + 1 && cb'.firingLength == cb.firingLength
    {
      hide Effect;
      ghost var t := Now();
      Apply(item, data);
      KeepsIndex(t, item, data, id);
      Advance(id);
    }

    /** firingIndex++ */
    method Advance(id: nat)
      requires Distinct() && id < 3
      modifies done, fail, progress
      ensures Now() == Advanced(old(Now()), id)
    {
      ghost var s := Now();
      List(id).firingIndex := List(id).firingIndex + 1;
      assert Now().cbs == Advanced(s, id).cbs;
    }

    /** The loop of fire, up to the call of a registered callback, and what follows the loop. */
    method Continue(id: nat)
      requires Distinct() && id < 3 && frames != []
      modifies this, done, fail, progress
      ensures Now() == Loop(old(Now()), id)
      decreases Waiting(Now(), id), 1
    {
      hide Effect, Advanced, With;
      ghost var s := Now();
      var cb, data := List(id), frames[|frames| - 1].data;
      while cb.list.Some? && 0 <= cb.firingIndex < cb.firingLength && cb.firingIndex < |cb.list.value|
        invariant frames == old(frames) && Loop(Now(), id) == Loop(s, id)
        invariant Waiting(Now(), id) <= Waiting(s, id)
        decreases Left(Now(), id)
      {
        var item := cb.list.value[cb.firingIndex];
        if item.User? {
          log := log + [Fired(id, item.reg, data)];
          return;
        }
        RunOwn(id, item, data);
      }
      LeaveLoop(id);
    }

    method LeaveLoop(id: nat)
      requires Distinct() && id < 3 && frames != []
      requires var cb := List(id);
               !(cb.list.Some? && 0 <= cb.firingIndex < cb.firingLength && cb.firingIndex < |cb.list.value|)
      modifies this, done, fail, progress
      ensures Now() == Loop(old(Now()), id)
      decreases Waiting(Now(), id), 0
    {
      hide Loop, Disabled, Started, With;
      LoopEnds(Now(), id);
      StopFiring(id);
      var cb := List(id);
      if cb.list.Some? {
        if cb.stack.Some? {
          if cb.stack.value != [] {
            var waiting := ShiftStack(id);
            Fire(id, waiting);
          }
        } else {
          Forget(id);
        }
      }
    }

    /** After the only round of a list that is called once. */
    method Forget(id: nat)
      requires Distinct() && id < 3
      modifies done, fail, progress
      ensures var s := old(Now());
              var cb := s.cbs[id];
              Now() == With(s, id, if cb.memory.Some? then cb.(list := Some([])) else Disabled(cb))
    {
      ghost var s := Now();
      var cb := List(id);
      if cb.memory.Some? {
        cb.list := Some([]);
        assert Now().cbs == s.cbs[id := s.cbs[id].(list := Some([]))];
      } else {
        cb.Disable();
        assert Now().cbs == s.cbs[id := Disabled(s.cbs[id])];
      }
    }

    method StopFiring(id: nat)
      requires Distinct() && id < 3 && frames != []
      modifies this`frames, done, fail, progress
      ensures var s := old(Now());
              Now() == With(s, id, s.cbs[id].(firing := false)).(frames := s.frames[..|s.frames| - 1])
      ensures Now().cbs[id] == old(Now()).cbs[id].(firing := false)
    {
      ghost var s := Now();
      List(id).firing := false;
      frames := frames[..|frames| - 1];
      assert Now().cbs == s.cbs[id := s.cbs[id].(firing := false)];
    }

    /** stack.shift() */
    method ShiftStack(id: nat) returns (waiting: nat)
      requires Distinct() && id < 3 && Now().cbs[id].stack.Some? && Now().cbs[id].stack.value != []
      modifies done, fail, progress
      ensures var s := old(Now());
              var stack := s.cbs[id].stack.value;
              waiting == stack[0] && Now() == With(s, id, s.cbs[id].(stack := Some(stack[1..])))
      ensures Waiting(Now(), id) == Waiting(old(Now()), id) - 1
    {
      ghost var s := Now();
      var cb := List(id);
      waiting := cb.stack.value[0];
      cb.stack := Some(cb.stack.value[1..]);
      assert Now().cbs == s.cbs[id := s.cbs[id].(stack := cb.stack)];
    }

    method Fire(id: nat, data: nat)
      requires Distinct() && id < 3
      modifies this, done, fail, progress
      ensures Now() == Loop(Started(old(Now()), id, data), id)
      decreases Waiting(Now(), id), 2
    {
      ghost var s := Now();
      var cb := List(id);
      cb.memory, cb.fired, cb.firingIndex, cb.firingStart := Some(data), true, cb.firingStart, 0;
      cb.firingLength, cb.firing := if cb.list.Some? then |cb.list.value| else 0, true;
      frames := frames + [Frame(id, data)];
      assert Now().cbs == Started(s, id, data).cbs;
      Continue(id);
    }

    /** resolve, reject and notify */
    method FireWith(id: nat, data: nat)
      requires Distinct() && id < 3
      modifies this, done, fail, progress
      ensures Now() == Step(old(Now()), Call.FireWith(id, data))
    {
      ghost var s := Now();
      var cb := List(id);
      if cb.list.Some? && (!cb.fired || cb.stack.Some?) {
        if cb.firing {
          if cb.stack.Some? {
            cb.stack := Some(cb.stack.value + [data]);
            assert Now().cbs == s.cbs[id := s.cbs[id].(stack := cb.stack)];
          }
        } else {
          Fire(id, data);
        }
      }
    }

    /** done, fail and progress with `count` functions */
    method Add(id: nat, count: nat)
      requires Distinct() && id < 3
      modifies this, done, fail, progress
      ensures Now() == Step(old(Now()), Call.Add(id, count))
    {
      ghost var s := Now();
      var cb := List(id);
      var first := |registered|;
      registered := registered + Copies(id, count);
      if cb.list.Some? {
        var start := |cb.list.value|;
        cb.list := Some(cb.list.value + NewUsers(first, count));
        if cb.firing {
          cb.firingLength := |cb.list.value|;
          assert Now().cbs == s.cbs[id := s.cbs[id].(list := cb.list, firingLength := cb.firingLength)];
        } else if cb.memory.Some? {
          cb.firingStart := start;
          assert Now().cbs == s.cbs[id := s.cbs[id].(list := cb.list, firingStart := start)];
          Fire(id, cb.memory.value);
        } else {
          assert Now().cbs == s.cbs[id := s.cbs[id].(list := cb.list)];
        }
      }
    }

    /** The callback that was called last returns. */
    method Returned()
      requires Distinct() && frames != [] && frames[|frames| - 1].id < 3
      modifies this, done, fail, progress
      ensures Now() == Step(old(Now()), Return)
    {
      ghost var s := Now();
      var id := frames[|frames| - 1].id;
      Advance(id);
      Continue(id);
    }

    /** One thing that user code does. */
    method Perform(call: Call)
      requires Distinct()
      modifies this, done, fail, progress
      ensures Now() == Step(old(Now()), call)
    {
      hide Loop, Started, Advanced;
      match call {
        case FireWith(id, data) => if id < 3 { FireWith(id, data); }
        case Add(id, count) => if id < 3 { Add(id, count); }
        case Return => if frames != [] && frames[|frames| - 1].id < 3 { Returned(); }
      }
    }
  }

  /** Any sequence of calls and returns on a new Deferred: it goes where the state machine goes, and its callbacks
      have been called as CallsOfAnyRun and ProgressCallsOfAnyRun say. */
  method RunAll(calls: seq<Call>) returns (d: DeferredObject)
    ensures fresh(d) && d.Distinct() && d.Now() == Run(INITIAL, calls)
    ensures forall side: nat | side < 2 ::
              && CallsOf(d.log, side) <= RegsOf(d.registered, side)
              && (d.settled == [] || d.settled[0].side != side ==> CallsOf(d.log, side) == [])
              && (d.settled != [] && d.settled[0].side == side && d.frames == [] ==>
                    CallsOf(d.log, side) == RegsOf(d.registered, side))
    ensures var t, regs := Notes.HeardAll(calls), RegsOf(d.registered, PROGRESS);
            && |regs| == |t.starts|
            && forall i: nat | i < |regs| ::
                 && t.starts[i] <= |t.notes| && Notes.DataOf(d.log, regs[i]) <= t.notes[t.starts[i]..]
                 && (d.frames == [] ==> Notes.DataOf(d.log, regs[i]) == t.notes[t.starts[i]..])
  {
    hide Step, CallsOf, RegsOf, Notes.HeardAll, Notes.DataOf;
    d := new DeferredObject();
    for i := 0 to |calls|
      invariant d.Distinct() && fresh(d) && fresh(d.done) && fresh(d.fail) && fresh(d.progress)
      invariant d.Now() == Run(INITIAL, calls[..i])
    {
      d.Perform(calls[i]);
      assert calls[..i + 1][..i] == calls[..i];
    }
    assert calls[..|calls|] == calls;
    CallsOfAnyRun(calls, DONE);
    CallsOfAnyRun(calls, FAIL);
    Notes.ProgressCallsOfAnyRun(calls);
  }

  /** A Deferred's own functions leave the position of every loop alone, and no list waits for more. */
  lemma KeepsIndex(s: State, item: Item, data: nat, id: nat)
    requires !item.User? && id < 3
    ensures var t := Effect(s, item, data);
            && t.frames == s.frames && t.log == s.log && t.registered == s.registered
            && t.cbs[id].firingIndex == s.cbs[id].firingIndex && t.cbs[id].firingLength == s.cbs[id].firingLength
            && Waiting(t, id) <= Waiting(s, id)
  {
  }
}
