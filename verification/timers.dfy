/** Timers of an event loop. The scheduler is a finite map from armed timers to deadlines with a choice of
    its least entry; module `TimerHeap` proves that the heap is this map. */
module Timers {
  import opened TimerBooks

  class Loop {
    var time: nat
    var timerCounter: nat
    var activeHandles: int
    var queue: Queue
    var handles: map<Timer, Handle>

    constructor (now: nat)
      requires now < U64
      ensures Valid() && handles == map[] && queue == map[] && time == now
    {
      time, timerCounter, activeHandles, queue, handles := now, 0, 0, map[], map[];
    }

    /** Milliseconds, of a counter of nanoseconds with 64 bits: this clock never reaches its last instant. */
    method UpdateTime(nanoseconds: nat)
      requires Valid() && nanoseconds < U64
      modifies this`time
      ensures Valid() && time == nanoseconds / 1_000_000 && time < U64 - 1
    {
      time := nanoseconds / 1_000_000;
    }

    /** A timer is active exactly when it is armed, and the loop counts the active, referenced ones. */
    ghost predicate Valid()
      reads this
    {
      && time < U64
      && Sane(handles, queue, timerCounter)
      && activeHandles == |Referenced(handles)|
    }

    /** The timers, what is armed, and the next start number. */
    ghost function Books(): Book
      reads this
    {
      Book(handles, queue, timerCounter)
    }

    ghost function Due(): set<Timer>
      reads this
    {
      DueIn(queue, time)
    }

    /** The heap's choice: the one least timer. */
    method HeapMin() returns (t: Timer)
      requires Valid() && queue != map[]
      ensures Least(queue, t) && forall u :: Least(queue, u) ==> u == t
    {
      ghost var w := LeastExists(queue);
      t :| t in queue && forall u :: u in queue ==> !LessThan(queue[u], queue[t]);
      forall u | Least(queue, u) ensures u == t {
        OnlyLeast(handles, queue, timerCounter, t, u);
      }
    }

    method Init(t: Timer)
      requires Valid() && t !in handles
      modifies this
      ensures Valid() && handles == old(handles)[t := Handle(false, 0, false, false, true)]
      ensures queue == old(queue) && time == old(time)
    {
      handles := handles[t := Handle(false, 0, false, false, true)];
      assert Referenced(handles) == Referenced(old(handles));
    }

    method HandleStart(t: Timer)
      requires t in handles
      modifies this`handles, this`activeHandles
      ensures handles == old(handles)[t := old(handles)[t].(active := true)]
      ensures old(activeHandles) == |Referenced(old(handles))| ==> activeHandles == |Referenced(handles)|
    {
      if !handles[t].active {
        handles := handles[t := handles[t].(active := true)];
        if handles[t].ref {
          activeHandles := activeHandles + 1;
        }
      }
      assert Referenced(handles) == Referenced(old(handles)) + if handles[t].ref then {t} else {};
    }

    method HandleStop(t: Timer)
      requires t in handles
      modifies this`handles, this`activeHandles
      ensures handles == old(handles)[t := old(handles)[t].(active := false)]
      ensures old(activeHandles) == |Referenced(old(handles))| ==> activeHandles == |Referenced(handles)|
    {
      if handles[t].active {
        handles := handles[t := handles[t].(active := false)];
        if handles[t].ref {
          activeHandles := activeHandles - 1;
        }
      }
      assert Referenced(handles) == Referenced(old(handles)) - {t};
    }

    method TimerStop(t: Timer)
      requires Valid() && t in handles
      modifies this
      ensures Valid() && time == old(time) && timerCounter == old(timerCounter)
      ensures Books() == Stopped(old(Books()), t)
      ensures handles.Keys == old(handles).Keys
    {
      if !handles[t].active {
        assert handles == handles[t := handles[t].(active := false)] && queue == queue - {t};
        return;
      }
      queue := queue - {t};
      HandleStop(t);
    }

    method TimerStart(t: Timer, hasCallback: bool, timeout: nat, repeatEvery: nat) returns (e: Error)
      requires Valid() && t in handles && timeout < U64 && repeatEvery < U64
      modifies this
      ensures Valid() && time == old(time)
      ensures e == EINVAL <==> old(handles)[t].closing || !hasCallback
      ensures Books() == Started(old(Books()), t, hasCallback, timeout, repeatEvery, time)
      ensures handles.Keys == old(handles).Keys
    {
      if handles[t].closing || !hasCallback {
        return EINVAL;
      }
      ghost var q, d := queue, Deadline(Clamp(time, timeout), timerCounter);
      assert !handles[t].active ==> q - {t} == q;
      assert (q - {t})[t := d] == q[t := d];
      Overwrite(handles, t, handles[t].(active := false), Handle(true, repeatEvery, true, false, handles[t].ref));
      if handles[t].active {
        TimerStop(t);
      }
      Arm(t, timeout, repeatEvery);
      e := Ok;
    }

    /** The sum of 64 bits, with the test for its wrap-around. */
    method Clamped(timeout: nat) returns (clamped: nat)
      requires time < U64 && timeout < U64
      ensures clamped == Clamp(time, timeout)
    {
      clamped := (time + timeout) % U64;
      if clamped < timeout {
        clamped := U64 - 1;
      }
      ClampWraps(time, timeout);
    }

    /** Arms an inactive timer. */
    method Arm(t: Timer, timeout: nat, repeatEvery: nat)
      requires Valid() && t in handles && timeout < U64 && repeatEvery < U64
      requires !handles[t].active && !handles[t].closing
      modifies this
      ensures Valid() && time == old(time)
      ensures Books() == Started(old(Books()), t, true, timeout, repeatEvery, time)
      ensures handles.Keys == old(handles).Keys
    {
      var clamped := Clamped(timeout);
      var d, next := Deadline(clamped, timerCounter), timerCounter + 1;
      var q := queue[t := d];
      ghost var after := handles[t := Handle(true, repeatEvery, true, false, handles[t].ref)];
      ArmedSane(handles, queue, timerCounter, next, t, d, after[t]);
      Overwrite(handles, t, handles[t].(hasCallback := true, repeatEvery := repeatEvery), after[t]);
      assert q == old(queue)[t := Deadline(Clamp(time, timeout), timerCounter)];
      SetHandle(t, repeatEvery);
      HandleStart(t);
      timerCounter, queue := next, q;
      assert handles == after;
    }

    /** Stores the callback and the repeat value of an inactive timer. */
    method SetHandle(t: Timer, repeatEvery: nat)
      requires t in handles && !handles[t].active
      modifies this`handles
      ensures handles == old(handles)[t := old(handles)[t].(hasCallback := true, repeatEvery := repeatEvery)]
      ensures Referenced(handles) == Referenced(old(handles))
    {
      handles := handles[t := handles[t].(hasCallback := true, repeatEvery := repeatEvery)];
    }

    method TimerAgain(t: Timer) returns (e: Error)
      requires Valid() && t in handles
      modifies this
      ensures Valid() && time == old(time) && handles.Keys == old(handles).Keys
      ensures e == EINVAL <==> !old(handles)[t].hasCallback
      ensures Books() == Repeated(old(Books()), t, time)
    {
      if !handles[t].hasCallback {
        return EINVAL;
      }
      if handles[t].repeatEvery != 0 {
        var every := handles[t].repeatEvery;
        TimerStop(t);
        var r := TimerStart(t, true, every, every);
      }
      e := Ok;
    }

    method SetRepeat(t: Timer, repeatEvery: nat)
      requires Valid() && t in handles && repeatEvery < U64
      modifies this
      ensures Valid() && time == old(time) && handles.Keys == old(handles).Keys
      ensures Books() == Changed(old(Books()), t, old(handles)[t].(repeatEvery := repeatEvery))
    {
      handles := handles[t := handles[t].(repeatEvery := repeatEvery)];
      assert Referenced(handles) == Referenced(old(handles));
    }

    /** Marks the handle as closing and stops it. */
    method CloseTimer(t: Timer)
      requires Valid() && t in handles
      modifies this
      ensures Valid() && time == old(time) && handles.Keys == old(handles).Keys
      ensures Books() == Changed(Stopped(old(Books()), t), t, old(handles)[t].(active := false, closing := true))
    {
      TimerStop(t);
      ghost var stopped := handles;
      handles := handles[t := handles[t].(closing := true)];
      assert Referenced(handles) == Referenced(stopped);
    }

    method SetRef(t: Timer, ref: bool)
      requires Valid() && t in handles
      modifies this
      ensures Valid() && time == old(time) && handles.Keys == old(handles).Keys
      ensures Books() == Changed(old(Books()), t, old(handles)[t].(ref := ref))
    {
      assert handles[t].closing ==> !handles[t].active;
      ReferencedAfter(handles, t, ref);
      if handles[t].ref != ref {
        handles := handles[t := handles[t].(ref := ref)];
        if !handles[t].closing && handles[t].active {
          activeHandles := activeHandles + if ref then 1 else -1;
        }
      } else {
        assert handles[t := handles[t].(ref := ref)] == handles;
      }
    }

    /** It is the last instant of the clock, and an armed timer repeats. */
    predicate Endless()
      reads this
    {
      EndlessBook(Book(handles, queue, timerCounter), time)
    }

    /** One action of a callback. */
    method Perform(op: Op)
      requires Valid() && Possible(op, handles.Keys)
      modifies this
      ensures Valid() && time == old(time) && handles.Keys == old(handles).Keys
      ensures Books() == Applied(old(Books()), op, time)
    {
      match op
      case Start(t, hasCallback, timeout, every) => var e := TimerStart(t, hasCallback, timeout, every);
      case Stop(t) => TimerStop(t);
      case Again(t) => var e := TimerAgain(t);
      case SetRepeat(t, every) => SetRepeat(t, every);
      case Close(t) => CloseTimer(t);
      case Ref(t) => SetRef(t, true);
      case Unref(t) => SetRef(t, false);
    }

    /** A callback: a sequence of actions. */
    method Callback(ops: seq<Op>)
      requires Valid() && AllPossible(ops, handles.Keys)
      modifies this
      ensures Valid() && time == old(time) && handles.Keys == old(handles).Keys
      ensures Books() == Called(old(Books()), ops, time)
    {
      for i := 0 to |ops|
        invariant Valid() && time == old(time) && handles.Keys == old(handles).Keys
        invariant Books() == Called(old(Books()), ops[..i], time)
      {
        assert ops[..i + 1][..i] == ops[..i];
        Perform(ops[i]);
      }
      assert ops[..|ops|] == ops;
    }

    /** Takes the least timer, re-arms it if it repeats, and runs its callback. */
    method Fire(t: Timer, ops: seq<Op>)
      requires Valid() && t in queue && AllPossible(ops, handles.Keys)
      modifies this
      ensures Valid() && time == old(time) && handles.Keys == old(handles).Keys
      ensures Books() == Fired(old(Books()), t, ops, time)
    {
      Rearm(t);
      Callback(ops);
    }

    /** Disarms a due timer, and arms it again if it repeats. */
    method Rearm(t: Timer)
      requires Valid() && t in queue
      modifies this
      ensures Valid() && time == old(time) && handles.Keys == old(handles).Keys
      ensures Books() == Rearmed(old(Books()), t, time)
    {
      TimerStop(t);
      var e := TimerAgain(t);
    }

    /** Runs every due timer. `script` lists what the callbacks do, one entry for each firing; callbacks beyond
        its end do nothing. What is armed in the end is what the firings and the callbacks of the script make of
        what was armed at first. When the script is used up and the state is `Endless`, nothing but the same
        rounds can follow, as `EndlessRounds` shows, and the result is that the loop does not end. */
    method RunTimers(script: seq<seq<Op>>) returns (fired: seq<Firing>, ended: bool)
      requires Valid() && forall ops :: ops in script ==> AllPossible(ops, handles.Keys)
      modifies this
      ensures Valid() && time == old(time) && handles.Keys == old(handles).Keys
      ensures Books() == Played(old(Books()), script, TimersOf(fired), time)
      ensures forall i :: 0 <= i < |fired| ==> Chosen(old(Books()), script, fired, time, i)
      ensures if ended then Due() == {} else Endless() && |fired| >= |script|
      ensures time < U64 - 1 ==> ended
      ensures Calm(script, time) && !old(Endless()) ==> ended && |fired| <= |old(Due())|
      ensures script == [] ==> (ended <==> !old(Endless()))
      ensures script == [] && ended ==> FiredTimers(fired) == old(Due()) && |fired| == |old(Due())|
    {
      fired := [];
      ghost var start := Books();
      ghost var calm, idle := Calm(script, time) && !Endless(), script == [] && !Endless();
      while true
        invariant Valid() && time == old(time) && handles.Keys == old(handles).Keys
        invariant Books() == Played(start, script, TimersOf(fired), time)
        invariant forall i :: 0 <= i < |fired| ==> Chosen(start, script, fired, time, i)
        invariant calm || idle ==> !Endless()
        invariant script == [] && old(Endless()) ==> Endless()
        invariant Progress(calm, idle, fired, Due(), old(Due()))
        decreases if |fired| < |script| then |script| - |fired| else 0, |Due()|
      {
        if queue == map[] {
          return fired, true;
        }
        var t := HeapMin();
        if queue[t].timeout > time {
          return fired, true;
        }
        if |fired| >= |script| && Endless() {
          return fired, false;
        }
        fired := Round(t, script, fired, start, calm, idle, old(Due()));
      }
    }

    /** One round: the timer is fired and noted. */
    method Round(t: Timer, script: seq<seq<Op>>, fired: seq<Firing>, ghost start: Book,
                 ghost calm: bool, ghost idle: bool, ghost first: set<Timer>)
      returns (more: seq<Firing>)
      requires Valid() && Least(queue, t) && queue[t].timeout <= time
      requires forall ops :: ops in script ==> AllPossible(ops, handles.Keys)
      requires Books() == Played(start, script, TimersOf(fired), time)
      requires forall i :: 0 <= i < |fired| ==> Chosen(start, script, fired, time, i)
      requires Progress(calm, idle, fired, Due(), first)
      requires (calm ==> Calm(script, time)) && (idle ==> script == []) && (calm || idle ==> !Endless())
      modifies this
      ensures Valid() && time == old(time) && handles.Keys == old(handles).Keys && |more| == |fired| + 1
      ensures Books() == Played(start, script, TimersOf(more), time)
      ensures forall i :: 0 <= i < |more| ==> Chosen(start, script, more, time, i)
      ensures Progress(calm, idle, more, Due(), first)
      ensures calm || idle ==> !Endless()
      ensures |fired| >= |script| ==> if old(Endless()) then Endless() else |Due()| < |old(Due())|
    {
      ghost var b, due, f := Books(), Due(), Firing(t, queue[t], queue);
      var ops := if |fired| < |script| then script[|fired|] else [];
      assert ops == Actions(script, |fired|) && AllPossible(ops, handles.Keys);
      FiredDue(b, t, ops, time);
      ChosenNext(start, script, fired, f, time, b);
      more := fired + [Firing(t, queue[t], queue)];
      Fire(t, ops);
      ghost var left := Due();
      Fewer(left, due, t);
      ProgressStep(calm, idle, fired, f, due, left, first);
    }

    /** Any number of rounds of that loop with callbacks that do nothing, from a state in which an armed timer
        repeats at the last instant of the clock: the state stays such, and a timer is due. */
    method EndlessRounds(rounds: nat) returns (fired: seq<Firing>)
      requires Valid() && Endless()
      modifies this
      ensures Valid() && Endless() && time == old(time) && Due() != {}
      ensures |fired| == rounds && forall f :: f in fired ==> Rightful(f, time)
    {
      fired := [];
      RepeatingDue();
      for i := 0 to rounds
        invariant Valid() && Endless() && time == old(time) && Due() != {}
        invariant |fired| == i && forall f :: f in fired ==> Rightful(f, time)
      {
        var t := HeapMin();
        FiredDue(Books(), t, [], time);
        fired := fired + [Firing(t, queue[t], queue)];
        Fire(t, []);
        RepeatingDue();
      }
    }

    lemma RepeatingDue()
      requires Valid() && Endless()
      ensures Due() != {} && queue != map[]
    {
      var t :| t in handles && t in queue && handles[t].repeatEvery != 0;
      assert t in Due();
    }

    /** How long the loop may sleep: -1 for ever, else at most the time to the first deadline. */
    method NextTimeout() returns (r: int)
      requires Valid()
      ensures r == -1 <==> queue == map[]
      ensures r != -1 ==> 0 <= r <= INT_MAX
      ensures r != -1 ==> forall t :: t in queue ==> r == 0 || time + r <= queue[t].timeout
      ensures r != -1 && r != INT_MAX ==> exists t :: t in queue && queue[t].timeout <= time + r
    {
      if queue == map[] {
        return -1;
      }
      var t := HeapMin();
      if queue[t].timeout <= time {
        return 0;
      }
      var diff := queue[t].timeout - time;
      r := if diff > INT_MAX then INT_MAX else diff;
    }
  }

  /** A loop without end: one repeating timer at the last instant of the clock. */
  method EndlessLoop() returns (loop: Loop)
    ensures fresh(loop) && loop.Valid() && loop.Endless()
  {
    loop := new Loop(U64 - 1);
    loop.Init(0);
    var _ := loop.TimerStart(0, true, 0, 1);
    assert loop.queue[0 as nat].timeout <= U64 - 1;
  }
}
