/** The thread pool as a protocol: what the threads may do, one critical section at a time, and
    what holds in every state that any interleaving can reach. */
module ThreadPool {
  import opened Lists
  import opened Runs
  import opened Wrappers

  type Id = nat

  datatype Kind = Cpu | FastIo | SlowIo

  /** An entry of the main queue: a work item, or the message to run slow work. */
  datatype Entry = Work(id: Id) | RunSlow

  /** What the `work` field of an item holds. */
  datatype WorkField = Function | Null | CancelledMark

  datatype Status = Success | ECANCELED

  /** Where an item is. */
  datatype Place = InMain | InSlow | Executing(worker: nat) | Completed | Taken | Cancelling | Finished

  /** An item, with the history of what was done to it. */
  datatype Item = Item(kind: Kind, loop: nat, work: WorkField, place: Place,
                       runs: nat, ranToEnd: bool, cancelled: bool, dones: nat, status: Option<Status>)

  /** Where a worker is: on its way to the mutex, holding it at the loop's head, asleep, running an
      item, done running it, or on its way back to the mutex. */
  datatype Pc = Starting | Check | Waiting | Woken | Running(id: Id, slow: bool) | Ran(id: Id, slow: bool) | Back(slow: bool)

  /** A loop's completion queue, the batch it has taken from it, and the item it is cancelling. */
  datatype Loop = Loop(completed: seq<Id>, taken: seq<Id>, cancelling: Option<Id>)

  datatype State = State(
    pcs: seq<Pc>, mutex: Option<nat>, wq: seq<Entry>, slowQ: seq<Id>, idle: nat, slowRunning: nat,
    items: map<Id, Item>, loops: seq<Loop>)

  /** A step of a worker `t`, of a submitting thread, or of the thread of the loop `l`. A signal wakes
      the worker `wake`; that it may wake others as well is a spurious wakeup. */
  datatype Action =
    | Submit(id: Id, kind: Kind, l: nat, wake: Option<nat>)
    | Lock(t: nat)
    | Wait(t: nat)
    | Spurious(t: nat)
    | Pop(t: nat, wake: Option<nat>)
    | Finish(t: nat)
    | Complete(t: nat)
    | CancelTake(l: nat, id: Id)
    | CancelPut(l: nat)
    | Take(l: nat)
    | Callback(l: nat)

  function Threshold(n: nat): nat {
    (n + 1) / 2
  }

  predicate AtThreshold(s: State) {
    s.slowRunning >= Threshold(|s.pcs|)
  }

  predicate ShouldWait(s: State) {
    s.wq == [] || (s.wq == [RunSlow] && AtThreshold(s))
  }

  // ---------- Signalling ----------

  /** `wake` is what a signal may do: wake one of the sleeping workers, if there is one. */
  predicate Signalled(pcs: seq<Pc>, wake: Option<nat>) {
    if wake.Some? then wake.value < |pcs| && pcs[wake.value] == Waiting else Waiting !in pcs
  }

  /** The code signals only if some worker is counted as idle. */
  predicate SignalIfIdle(s: State, pcs: seq<Pc>, wake: Option<nat>) {
    if s.idle > 0 then Signalled(pcs, wake) else wake == None
  }

  function Awaken(pcs: seq<Pc>, wake: Option<nat>): seq<Pc>
    requires wake.Some? ==> wake.value < |pcs|
  {
    if wake.Some? then pcs[wake.value := Woken] else pcs
  }

  // ---------- The steps ----------

  predicate AtWorker(s: State, t: nat) {
    t < |s.pcs|
  }

  /** Whether the main-queue entry at the head leads to a signal. */
  predicate PopSignals(s: State) {
    s.wq != [] && s.wq[0] == RunSlow && !AtThreshold(s) && |s.slowQ| > 1
  }

  predicate Enabled(s: State, a: Action) {
    match a
    case Submit(id, kind, l, wake) =>
      id !in s.items && l < |s.loops| && s.mutex == None
      && (if kind == SlowIo && RunSlow in s.wq then wake == None else SignalIfIdle(s, s.pcs, wake))
    case Lock(t) => AtWorker(s, t) && s.mutex == None && (s.pcs[t] == Starting || s.pcs[t] == Woken || s.pcs[t].Back?)
    case Wait(t) => AtWorker(s, t) && s.pcs[t] == Check && ShouldWait(s)
    case Spurious(t) => AtWorker(s, t) && s.pcs[t] == Waiting
    case Pop(t, wake) =>
      AtWorker(s, t) && s.pcs[t] == Check && !ShouldWait(s)
      && (if PopSignals(s) then SignalIfIdle(s, s.pcs, wake) else wake == None)
    case Finish(t) => AtWorker(s, t) && s.pcs[t].Running? && s.pcs[t].id in s.items
    case Complete(t) =>
      AtWorker(s, t) && s.pcs[t].Ran? && s.pcs[t].id in s.items && s.items[s.pcs[t].id].loop < |s.loops|
    case CancelTake(l, id) =>
      l < |s.loops| && s.loops[l].cancelling == None && s.mutex == None
      && id in s.items && s.items[id].loop == l && s.items[id].place != Finished
    case CancelPut(l) => l < |s.loops| && s.loops[l].cancelling.Some? && s.loops[l].cancelling.value in s.items
    case Take(l) => l < |s.loops| && s.loops[l].cancelling == None && s.loops[l].taken == []
    case Callback(l) =>
      l < |s.loops| && s.loops[l].cancelling == None && s.loops[l].taken != [] && s.loops[l].taken[0] in s.items
  }

  function SetItem(s: State, id: Id, item: Item): State {
    s.(items := s.items[id := item])
  }

  function SetPc(s: State, t: nat, pc: Pc): State
    requires AtWorker(s, t)
  {
    s.(pcs := s.pcs[t := pc])
  }

  function SetLoop(s: State, l: nat, loop: Loop): State
    requires l < |s.loops|
  {
    s.(loops := s.loops[l := loop])
  }

  function DoSubmit(s: State, id: Id, kind: Kind, l: nat, wake: Option<nat>): State
    requires Enabled(s, Submit(id, kind, l, wake))
  {
    var item := Item(kind, l, Function, if kind == SlowIo then InSlow else InMain, 0, false, false, 0, None);
    var s1 := SetItem(s, id, item);
    if kind == SlowIo then
      var s2 := s1.(slowQ := s.slowQ + [id]);
      if RunSlow in s.wq then s2
      else s2.(wq := s.wq + [RunSlow], pcs := Awaken(s.pcs, wake))
    else
      s1.(wq := s.wq + [Work(id)], pcs := Awaken(s.pcs, wake))
  }

  /** Taking the mutex: a woken worker stops counting as idle, one back from slow work frees its slot. */
  function DoLock(s: State, t: nat): State
    requires Enabled(s, Lock(t))
  {
    var s1 := SetPc(s, t, Check).(mutex := Some(t));
    if s.pcs[t] == Woken then s1.(idle := Dec(s.idle))
    else if s.pcs[t] == Back(true) then s1.(slowRunning := Dec(s.slowRunning))
    else s1
  }

  /** The counters are unsigned; `Inv` shows that they are never decremented at zero. */
  function Dec(n: nat): nat {
    if n == 0 then 0 else n - 1
  }

  function DoPop(s: State, t: nat, wake: Option<nat>): State
    requires Enabled(s, Pop(t, wake))
  {
    var rest := s.wq[1..];
    if s.wq[0] == RunSlow then
      if AtThreshold(s) then s.(wq := rest + [RunSlow])
      else if s.slowQ == [] then s.(wq := rest)
      else
        var id := s.slowQ[0];
        var wq := if |s.slowQ| > 1 then rest + [RunSlow] else rest;
        var s1 := s.(wq := wq, slowQ := s.slowQ[1..], slowRunning := s.slowRunning + 1, mutex := None,
                     pcs := Awaken(s.pcs, wake)[t := Running(id, true)]);
        StartItem(s1, id, t)
    else
      var id := s.wq[0].id;
      StartItem(SetPc(s, t, Running(id, false)).(wq := rest, mutex := None), id, t)
  }

  function StartItem(s: State, id: Id, t: nat): State {
    if id in s.items then SetItem(s, id, s.items[id].(place := Executing(t), runs := s.items[id].runs + 1)) else s
  }

  function DoComplete(s: State, t: nat): State
    requires Enabled(s, Complete(t))
  {
    var id := s.pcs[t].id;
    var l := s.items[id].loop;
    var s1 := SetItem(s, id, s.items[id].(work := Null, place := Completed));
    var s2 := SetLoop(s1, l, s.loops[l].(completed := s.loops[l].completed + [id]));
    SetPc(s2, t, Back(s.pcs[t].slow))
  }

  /** An item can be cancelled when it is linked into a queue and has not run. */
  predicate Cancellable(item: Item) {
    item.place in {InMain, InSlow, Completed, Taken} && item.work != Null
  }

  /** Unlinks the item from whichever queue it is in; a busy item stays as it is. */
  function DoCancelTake(s: State, l: nat, id: Id): State
    requires Enabled(s, CancelTake(l, id))
  {
    if !Cancellable(s.items[id]) then s
    else
      var loop := s.loops[l];
      var s1 := SetItem(s, id, s.items[id].(place := Cancelling));
      var s2 := match s.items[id].place
        case InMain => s1.(wq := Without(s.wq, Work(id)))
        case InSlow => s1.(slowQ := Without(s.slowQ, id))
        case _ => s1;
      var loop' := match s.items[id].place
        case Completed => loop.(completed := Without(loop.completed, id))
        case Taken => loop.(taken := Without(loop.taken, id))
        case _ => loop;
      SetLoop(s2, l, loop'.(cancelling := Some(id)))
  }

  function DoCancelPut(s: State, l: nat): State
    requires Enabled(s, CancelPut(l))
  {
    var id := s.loops[l].cancelling.value;
    var s1 := SetItem(s, id, s.items[id].(work := CancelledMark, place := Completed, cancelled := true));
    SetLoop(s1, l, s.loops[l].(completed := s.loops[l].completed + [id], cancelling := None))
  }

  /** The loop takes the whole completion queue; the items' places change with it. */
  function DoTake(s: State, l: nat): State
    requires Enabled(s, Take(l))
  {
    var q := s.loops[l].completed;
    SetLoop(s, l, Loop([], q, None))
      .(items := map id | id in s.items :: if id in q then s.items[id].(place := Taken) else s.items[id])
  }

  function DoCallback(s: State, l: nat): State
    requires Enabled(s, Callback(l))
  {
    var id := s.loops[l].taken[0];
    var item := s.items[id];
    var status := if item.work == CancelledMark then ECANCELED else Success;
    var s1 := SetItem(s, id, item.(place := Finished, dones := item.dones + 1, status := Some(status)));
    SetLoop(s1, l, s.loops[l].(taken := s.loops[l].taken[1..]))
  }

  function Do(s: State, a: Action): State
    requires Enabled(s, a)
  {
    match a
    case Submit(id, kind, l, wake) => DoSubmit(s, id, kind, l, wake)
    case Lock(t) => DoLock(s, t)
    case Wait(t) => SetPc(s, t, Waiting).(idle := s.idle + 1, mutex := None)
    case Spurious(t) => SetPc(s, t, Woken)
    case Pop(t, wake) => DoPop(s, t, wake)
    case Finish(t) =>
      var pc := s.pcs[t];
      SetPc(SetItem(s, pc.id, s.items[pc.id].(ranToEnd := true)), t, Ran(pc.id, pc.slow))
    case Complete(t) => DoComplete(s, t)
    case CancelTake(l, id) => DoCancelTake(s, l, id)
    case CancelPut(l) => DoCancelPut(s, l)
    case Take(l) => DoTake(s, l)
    case Callback(l) => DoCallback(s, l)
  }

  function Init(workers: nat, loops: nat): State {
    State(seq(workers, _ => Starting), None, [], [], 0, 0, map[], seq(loops, _ => Loop([], [], None)))
  }

  // ---------- Counting workers ----------

  predicate Idle(pc: Pc) {
    pc == Waiting || pc == Woken
  }

  predicate Slow(pc: Pc) {
    (pc.Running? && pc.slow) || (pc.Ran? && pc.slow) || (pc.Back? && pc.slow)
  }

  /** On the way to the queue: the worker will look at the main queue before it sleeps. */
  predicate Coming(pc: Pc) {
    pc == Starting || pc == Woken || pc == Check || pc == Back(false)
  }

  function Count(pcs: seq<Pc>, p: Pc -> bool): nat {
    if pcs == [] then 0 else Count(pcs[..|pcs| - 1], p) + (if p(pcs[|pcs| - 1]) then 1 else 0)
  }

  lemma {:induction false} CountSet(pcs: seq<Pc>, p: Pc -> bool, t: nat, pc: Pc)
    requires t < |pcs|
    ensures Count(pcs[t := pc], p) == Count(pcs, p) - (if p(pcs[t]) then 1 else 0) + (if p(pc) then 1 else 0)
    ensures p(pcs[t]) ==> Count(pcs, p) > 0
    decreases |pcs|
  {
    var n := |pcs| - 1;
    if t == n {
      assert pcs[t := pc][..n] == pcs[..n];
    } else {
      CountSet(pcs[..n], p, t, pc);
      assert pcs[t := pc][..n] == pcs[..n][t := pc];
    }
  }

  lemma {:induction false} CountBound(pcs: seq<Pc>, p: Pc -> bool, q: Pc -> bool)
    requires forall pc :: p(pc) ==> !q(pc)
    ensures Count(pcs, p) + Count(pcs, q) <= |pcs|
    decreases |pcs|
  {
    if pcs != [] {
      CountBound(pcs[..|pcs| - 1], p, q);
    }
  }

  lemma {:induction false} CountNone(pcs: seq<Pc>, p: Pc -> bool)
    ensures Count(pcs, p) == 0 <==> forall pc :: pc in pcs ==> !p(pc)
    decreases |pcs|
  {
    if pcs != [] {
      var n := |pcs| - 1;
      CountNone(pcs[..n], p);
      assert pcs == pcs[..n] + [pcs[n]];
    }
  }

  // ---------- The pool's own invariant ----------

  /** How many entries of the main queue some worker could act on now. */
  function Runnable(wq: seq<Entry>, atThreshold: bool): int {
    |wq| - if RunSlow in wq && atThreshold then 1 else 0
  }

  ghost predicate OneMessage(wq: seq<Entry>) {
    forall i, j :: 0 <= i < j < |wq| ==> !(wq[i] == RunSlow && wq[j] == RunSlow)
  }

  /** The counters count; slow work is throttled, and announced in the main queue; and while a worker
      sleeps, at least as many workers are coming as there are entries to act on. */
  ghost predicate PoolInv(s: State) {
    && |s.pcs| >= 1
    && s.idle == Count(s.pcs, Idle)
    && s.slowRunning == Count(s.pcs, Slow)
    && s.slowRunning <= Threshold(|s.pcs|)
    && (s.slowQ != [] ==> RunSlow in s.wq)
    && OneMessage(s.wq)
    && (Waiting in s.pcs ==> Count(s.pcs, Coming) >= Runnable(s.wq, AtThreshold(s)))
  }

  /** A worker is at the loop's head exactly when it holds the mutex. */
  ghost predicate MutexInv(s: State) {
    && (s.mutex.Some? ==> s.mutex.value < |s.pcs|)
    && forall t :: 0 <= t < |s.pcs| ==> (s.pcs[t] == Check <==> s.mutex == Some(t))
  }

  /** What changing one worker's place does to the three counts. */
  lemma Counts(pcs: seq<Pc>, t: nat, pc: Pc)
    requires t < |pcs|
    ensures Count(pcs[t := pc], Idle) == Count(pcs, Idle) - (if Idle(pcs[t]) then 1 else 0) + (if Idle(pc) then 1 else 0)
    ensures Count(pcs[t := pc], Slow) == Count(pcs, Slow) - (if Slow(pcs[t]) then 1 else 0) + (if Slow(pc) then 1 else 0)
    ensures Count(pcs[t := pc], Coming) == Count(pcs, Coming) - (if Coming(pcs[t]) then 1 else 0) + (if Coming(pc) then 1 else 0)
    ensures Idle(pcs[t]) ==> Count(pcs, Idle) > 0
    ensures Slow(pcs[t]) ==> Count(pcs, Slow) > 0
    ensures Coming(pcs[t]) ==> Count(pcs, Coming) > 0
    ensures pc != Waiting && Waiting in pcs[t := pc] ==> Waiting in pcs
  {
    CountSet(pcs, Idle, t, pc);
    CountSet(pcs, Slow, t, pc);
    CountSet(pcs, Coming, t, pc);
  }

  /** A signal brings one more worker, unless none sleeps. */
  lemma Signals(s: State, wake: Option<nat>)
    requires PoolInv(s) && SignalIfIdle(s, s.pcs, wake)
    ensures
      var pcs := Awaken(s.pcs, wake);
      && |pcs| == |s.pcs|
      && Count(pcs, Idle) == Count(s.pcs, Idle) && Count(pcs, Slow) == Count(s.pcs, Slow)
      && Count(pcs, Coming) >= Count(s.pcs, Coming)
      && (Waiting in pcs ==> Count(pcs, Coming) >= Count(s.pcs, Coming) + 1)
      && (forall t :: 0 <= t < |pcs| && pcs[t] == Check <==> 0 <= t < |pcs| && s.pcs[t] == Check)
  {
    if wake.Some? {
      Counts(s.pcs, wake.value, Woken);
    } else if Waiting in s.pcs {
      CountNone(s.pcs, Idle);
    }
  }

  lemma InitPool(workers: nat, loops: nat)
    requires workers >= 1
    ensures PoolInv(Init(workers, loops)) && MutexInv(Init(workers, loops))
  {
    var s := Init(workers, loops);
    CountNone(s.pcs, Idle);
    CountNone(s.pcs, Slow);
  }

  lemma SubmitPool(s: State, id: Id, kind: Kind, l: nat, wake: Option<nat>)
    requires PoolInv(s) && MutexInv(s) && Enabled(s, Submit(id, kind, l, wake))
    ensures PoolInv(Do(s, Submit(id, kind, l, wake))) && MutexInv(Do(s, Submit(id, kind, l, wake)))
  {
    if !(kind == SlowIo && RunSlow in s.wq) {
      Signals(s, wake);
    }
  }

  lemma LockPool(s: State, t: nat)
    requires PoolInv(s) && MutexInv(s) && Enabled(s, Lock(t))
    ensures PoolInv(Do(s, Lock(t))) && MutexInv(Do(s, Lock(t)))
  {
    Counts(s.pcs, t, Check);
  }

  lemma WaitPool(s: State, t: nat)
    requires PoolInv(s) && MutexInv(s) && Enabled(s, Wait(t))
    ensures PoolInv(Do(s, Wait(t))) && MutexInv(Do(s, Wait(t)))
  {
    Counts(s.pcs, t, Waiting);
  }

  /** Popping a work item. */
  lemma PopWork(s: State, t: nat)
    requires PoolInv(s) && MutexInv(s) && Enabled(s, Pop(t, None)) && s.wq[0] != RunSlow
    ensures PoolInv(DoPop(s, t, None)) && MutexInv(DoPop(s, t, None))
  {
    assert s.wq == [s.wq[0]] + s.wq[1..];
    Counts(s.pcs, t, Running(s.wq[0].id, false));
  }

  /** Popping the message when no slow work can be started: it goes to the tail, or is dropped. */
  lemma PopMessage(s: State, t: nat)
    requires PoolInv(s) && MutexInv(s) && Enabled(s, Pop(t, None)) && s.wq[0] == RunSlow
    requires AtThreshold(s) || s.slowQ == []
    ensures PoolInv(DoPop(s, t, None)) && MutexInv(DoPop(s, t, None))
  {
    var rest := s.wq[1..];
    assert s.wq == [RunSlow] + rest && RunSlow !in rest;
    assert OneMessage(rest) && OneMessage(rest + [RunSlow]);
  }

  /** Popping the message and starting the first slow item. */
  lemma PopSlow(s: State, t: nat, wake: Option<nat>)
    requires PoolInv(s) && MutexInv(s) && Enabled(s, Pop(t, wake)) && s.wq[0] == RunSlow
    requires !AtThreshold(s) && s.slowQ != []
    ensures PoolInv(DoPop(s, t, wake)) && MutexInv(DoPop(s, t, wake))
  {
    var rest := s.wq[1..];
    var pcs := Awaken(s.pcs, wake);
    assert s.wq == [RunSlow] + rest && RunSlow !in rest;
    assert OneMessage(rest) && OneMessage(rest + [RunSlow]);
    if PopSignals(s) {
      Signals(s, wake);
    }
    Counts(pcs, t, Running(s.slowQ[0], true));
    var s' := DoPop(s, t, wake);
    assert s'.pcs == pcs[t := Running(s.slowQ[0], true)];
    assert forall k :: 0 <= k < |pcs| ==> (pcs[k] == Check <==> k == t);
  }

  lemma PopPool(s: State, t: nat, wake: Option<nat>)
    requires PoolInv(s) && MutexInv(s) && Enabled(s, Pop(t, wake))
    ensures PoolInv(Do(s, Pop(t, wake))) && MutexInv(Do(s, Pop(t, wake)))
  {
    if s.wq[0] != RunSlow {
      PopWork(s, t);
    } else if AtThreshold(s) || s.slowQ == [] {
      PopMessage(s, t);
    } else {
      PopSlow(s, t, wake);
    }
  }

  /** The steps that move one worker and leave the queues and the counters alone. */
  lemma MovePool(s: State, t: nat, pc: Pc)
    requires PoolInv(s) && MutexInv(s) && AtWorker(s, t) && pc != Waiting && pc != Check && s.pcs[t] != Check
    requires Idle(pc) == Idle(s.pcs[t]) && Slow(pc) == Slow(s.pcs[t]) && (Coming(s.pcs[t]) ==> Coming(pc))
    ensures PoolInv(SetPc(s, t, pc)) && MutexInv(SetPc(s, t, pc))
  {
    Counts(s.pcs, t, pc);
  }

  lemma {:induction false} WithoutOne<T>(s: seq<T>, x: T, y: T)
    ensures y != x ==> (y in Without(s, x) <==> y in s)
    ensures x in s ==> |Without(s, x)| == |s| - 1
    ensures x !in s ==> Without(s, x) == s
    ensures y in Without(s, x) ==> y in s
  {
    if s != [] && s[0] != x {
      WithoutOne(s[1..], x, y);
      assert s == [s[0]] + s[1..];
    }
  }

  lemma {:induction false} WithoutMessage(wq: seq<Entry>, e: Entry)
    requires OneMessage(wq) && e != RunSlow
    ensures OneMessage(Without(wq, e))
  {
    if wq != [] && wq[0] != e {
      assert OneMessage(wq[1..]);
      WithoutMessage(wq[1..], e);
      WithoutOne(wq[1..], e, RunSlow);
    }
  }

  lemma CancelPool(s: State, l: nat, id: Id)
    requires PoolInv(s) && MutexInv(s) && Enabled(s, CancelTake(l, id))
    ensures PoolInv(Do(s, CancelTake(l, id))) && MutexInv(Do(s, CancelTake(l, id)))
  {
    WithoutOne(s.wq, Work(id), RunSlow);
    WithoutMessage(s.wq, Work(id));
  }

  lemma PoolStep(s: State, a: Action)
    requires PoolInv(s) && MutexInv(s) && Enabled(s, a)
    ensures PoolInv(Do(s, a)) && MutexInv(Do(s, a))
  {
    match a
    case Submit(id, kind, l, wake) => SubmitPool(s, id, kind, l, wake);
    case Lock(t) => LockPool(s, t);
    case Wait(t) => WaitPool(s, t);
    case Spurious(t) => MovePool(s, t, Woken);
    case Pop(t, wake) => PopPool(s, t, wake);
    case Finish(t) => MovePool(s, t, Ran(s.pcs[t].id, s.pcs[t].slow));
    case Complete(t) => MovePool(s, t, Back(s.pcs[t].slow));
    case CancelTake(l, id) => CancelPool(s, l, id);
    case CancelPut(l) =>
    case Take(l) =>
    case Callback(l) =>
  }

  // ---------- Where the items are ----------

  predicate Holds(pc: Pc, id: Id) {
    (pc.Running? || pc.Ran?) && pc.id == id
  }

  /** How an item came to an end: its work ran, once and to completion, or it was cancelled and never ran. */
  predicate Settled(it: Item) {
    || (it.work == Null && it.runs == 1 && it.ranToEnd && !it.cancelled)
    || (it.work == CancelledMark && it.runs == 0 && !it.ranToEnd && it.cancelled)
  }

  /** What an item's history may be, given where it is. */
  ghost predicate ItemOk(it: Item) {
    match it.place
    case InMain => Pending(it) && it.kind != SlowIo
    case InSlow => Pending(it) && it.kind == SlowIo
    case Executing(_) => it.runs == 1 && it.work == Function && !it.cancelled && it.dones == 0 && it.status == None
    case Cancelling =>
      it.dones == 0 && it.status == None && it.runs == 0 && !it.ranToEnd
      && (if it.cancelled then it.work == CancelledMark else it.work == Function)
    case Finished =>
      Settled(it) && it.dones == 1 && it.status == Some(if it.work == CancelledMark then ECANCELED else Success)
    case _ => Settled(it) && it.dones == 0 && it.status == None
  }

  predicate Pending(it: Item) {
    it.runs == 0 && !it.ranToEnd && it.work == Function && !it.cancelled && it.dones == 0 && it.status == None
  }

  type Items = map<Id, Item>

  predicate At(items: Items, id: Id, place: Place) {
    id in items && items[id].place == place
  }

  ghost predicate ItemsInv(items: Items) {
    forall id :: id in items ==> ItemOk(items[id])
  }

  /** The two pool queues hold exactly the pending items. */
  ghost predicate QueuesInv(wq: seq<Entry>, slowQ: seq<Id>, items: Items) {
    && NoDup(wq) && NoDup(slowQ)
    && (forall id :: Work(id) in wq <==> At(items, id, InMain))
    && (forall id :: id in slowQ <==> At(items, id, InSlow))
  }

  predicate Carries(pc: Pc) {
    pc.Running? || pc.Ran?
  }

  /** The workers hold exactly the executing items. */
  ghost predicate WorkersInv(pcs: seq<Pc>, items: Items) {
    && (forall t :: 0 <= t < |pcs| && Carries(pcs[t]) ==>
          At(items, pcs[t].id, Executing(t)) && (items[pcs[t].id].ranToEnd <==> pcs[t].Ran?)
          && (pcs[t].slow <==> items[pcs[t].id].kind == SlowIo))
    && (forall id :: id in items && items[id].place.Executing? ==>
          items[id].place.worker < |pcs| && Carries(pcs[items[id].place.worker]) && pcs[items[id].place.worker].id == id)
  }

  /** A loop holds exactly those of its items that wait for their callback, or are being cancelled. */
  ghost predicate LoopOk(loop: Loop, l: nat, items: Items) {
    && NoDup(loop.completed) && NoDup(loop.taken)
    && (forall id :: id in loop.completed <==> At(items, id, Completed) && items[id].loop == l)
    && (forall id :: id in loop.taken <==> At(items, id, Taken) && items[id].loop == l)
    && (forall id :: loop.cancelling == Some(id) <==> At(items, id, Cancelling) && items[id].loop == l)
  }

  ghost predicate LoopsInv(loops: seq<Loop>, items: Items) {
    && (forall id :: id in items ==> items[id].loop < |loops|)
    && (forall l :: 0 <= l < |loops| ==> LoopOk(loops[l], l, items))
  }

  ghost predicate PlaceInv(s: State) {
    ItemsInv(s.items) && QueuesInv(s.wq, s.slowQ, s.items) && WorkersInv(s.pcs, s.items) && LoopsInv(s.loops, s.items)
  }

  // What a change to one item, or to one structure that holds items, keeps.

  predicate InPool(items: Items, id: Id) {
    id in items && (items[id].place == InMain || items[id].place == InSlow)
  }

  predicate InLoop(items: Items, id: Id) {
    id in items && items[id].place in {Completed, Taken, Cancelling}
  }

  predicate OnWorker(items: Items, id: Id) {
    id in items && items[id].place.Executing?
  }

  lemma QueuesKept(wq: seq<Entry>, slowQ: seq<Id>, items: Items, id: Id, it: Item)
    requires QueuesInv(wq, slowQ, items) && !InPool(items, id) && it.place != InMain && it.place != InSlow
    ensures QueuesInv(wq, slowQ, items[id := it])
  {
  }

  lemma WorkersKept(pcs: seq<Pc>, items: Items, id: Id, it: Item)
    requires WorkersInv(pcs, items) && !OnWorker(items, id) && !it.place.Executing?
    ensures WorkersInv(pcs, items[id := it])
  {
  }

  lemma LoopsKept(loops: seq<Loop>, items: Items, id: Id, it: Item)
    requires LoopsInv(loops, items) && !InLoop(items, id) && it.place !in {Completed, Taken, Cancelling}
    requires it.loop < |loops|
    ensures LoopsInv(loops, items[id := it])
  {
    forall l | 0 <= l < |loops| ensures LoopOk(loops[l], l, items[id := it]) {
      assert LoopOk(loops[l], l, items);
    }
  }

  /** A change to an item of the loop `l` and to that loop leaves the other loops alone. */
  lemma LoopChanged(loops: seq<Loop>, items: Items, l: nat, loop: Loop, id: Id, it: Item)
    requires LoopsInv(loops, items) && l < |loops| && id in items && items[id].loop == l && it.loop == l
    requires LoopOk(loop, l, items[id := it])
    ensures LoopsInv(loops[l := loop], items[id := it])
  {
    var loops' := loops[l := loop];
    forall m | 0 <= m < |loops'| ensures LoopOk(loops'[m], m, items[id := it]) {
      assert LoopOk(loops[m], m, items);
    }
  }

  /** Moving a worker that carries nothing, before and after. */
  lemma WorkerMoved(pcs: seq<Pc>, items: Items, t: nat, pc: Pc)
    requires WorkersInv(pcs, items) && t < |pcs| && !Carries(pcs[t]) && !Carries(pc)
    ensures WorkersInv(pcs[t := pc], items)
  {
  }

  lemma AwakenPlaces(pcs: seq<Pc>, items: Items, wake: Option<nat>)
    requires WorkersInv(pcs, items) && (wake.Some? ==> wake.value < |pcs| && pcs[wake.value] == Waiting)
    ensures WorkersInv(Awaken(pcs, wake), items)
  {
    if wake.Some? {
      WorkerMoved(pcs, items, wake.value, Woken);
    }
  }

  lemma SubmitPlaces(s: State, id: Id, kind: Kind, l: nat, wake: Option<nat>)
    requires PlaceInv(s) && Enabled(s, Submit(id, kind, l, wake))
    ensures PlaceInv(DoSubmit(s, id, kind, l, wake))
  {
    var s' := DoSubmit(s, id, kind, l, wake);
    AwakenPlaces(s.pcs, s.items, wake);
    WorkersKept(s'.pcs, s.items, id, s'.items[id]);
    LoopsKept(s.loops, s.items, id, s'.items[id]);
    assert Work(id) !in s.wq && id !in s.slowQ;
    assert NoDup(s'.wq) && NoDup(s'.slowQ);
  }

  /** Starting a pending item that the worker took off a pool queue. */
  lemma StartPlaces(pcs: seq<Pc>, items: Items, t: nat, id: Id, slow: bool)
    requires WorkersInv(pcs, items) && ItemsInv(items) && t < |pcs| && !Carries(pcs[t])
    requires InPool(items, id) && (slow <==> items[id].kind == SlowIo)
    ensures
      var items' := items[id := items[id].(place := Executing(t), runs := items[id].runs + 1)];
      WorkersInv(pcs[t := Running(id, slow)], items') && ItemsInv(items')
  {
    assert ItemOk(items[id]);
  }

  /** An item leaves the head of its queue. */
  lemma QueuesPopped(wq: seq<Entry>, slowQ: seq<Id>, items: Items, id: Id, it: Item)
    requires QueuesInv(wq, slowQ, items) && it.place != InMain && it.place != InSlow
    ensures wq != [] && wq[0] == Work(id) ==> InPool(items, id) && QueuesInv(wq[1..], slowQ, items[id := it])
    ensures slowQ != [] && slowQ[0] == id ==> InPool(items, id) && QueuesInv(wq, slowQ[1..], items[id := it])
  {
    if wq != [] && wq[0] == Work(id) {
      assert wq == [Work(id)] + wq[1..] && Work(id) !in wq[1..] && NoDup(wq[1..]) && Work(id) in wq;
      assert forall k :: k in slowQ ==> k != id;
    }
    if slowQ != [] && slowQ[0] == id {
      assert slowQ == [id] + slowQ[1..] && id !in slowQ[1..] && NoDup(slowQ[1..]) && id in slowQ;
      assert Work(id) !in wq;
      assert forall k :: k in slowQ[1..] <==> k in slowQ && k != id;
      assert forall k :: Work(k) in wq ==> k != id;
    }
  }

  /** The message moves to the tail, or is dropped. */
  lemma QueuesTurned(wq: seq<Entry>, slowQ: seq<Id>, items: Items)
    requires QueuesInv(wq, slowQ, items) && wq != [] && wq[0] == RunSlow
    ensures QueuesInv(wq[1..], slowQ, items) && QueuesInv(wq[1..] + [RunSlow], slowQ, items)
  {
    var rest := wq[1..];
    assert wq == [RunSlow] + rest;
    assert NoDup(rest) && RunSlow !in rest && NoDup(rest + [RunSlow]);
  }

  lemma PopPlaces(s: State, t: nat, wake: Option<nat>)
    requires PlaceInv(s) && Enabled(s, Pop(t, wake))
    ensures PlaceInv(DoPop(s, t, wake))
  {
    if s.wq[0] == RunSlow {
      QueuesTurned(s.wq, s.slowQ, s.items);
      if !AtThreshold(s) && s.slowQ != [] {
        PopSlowPlaces(s, t, wake);
      }
    } else {
      PopWorkPlaces(s, t, wake);
    }
  }

  lemma PopWorkPlaces(s: State, t: nat, wake: Option<nat>)
    requires PlaceInv(s) && Enabled(s, Pop(t, wake)) && s.wq[0] != RunSlow
    ensures PlaceInv(DoPop(s, t, wake))
  {
    var id, s' := s.wq[0].id, DoPop(s, t, wake);
    assert At(s.items, id, InMain);
    var runs := s.items[id].runs + 1;
    var it := s.items[id].(place := Executing(t), runs := runs);
    assert s'.items == s.items[id := it] && s'.pcs == s.pcs[t := Running(id, false)];
    QueuesPopped(s.wq, s.slowQ, s.items, id, it);
    StartPlaces(s.pcs, s.items, t, id, false);
    LoopsKept(s.loops, s.items, id, it);
  }

  lemma PopSlowPlaces(s: State, t: nat, wake: Option<nat>)
    requires PlaceInv(s) && Enabled(s, Pop(t, wake)) && s.wq[0] == RunSlow && !AtThreshold(s) && s.slowQ != []
    ensures PlaceInv(DoPop(s, t, wake))
  {
    var id, s' := s.slowQ[0], DoPop(s, t, wake);
    var wq := if |s.slowQ| > 1 then s.wq[1..] + [RunSlow] else s.wq[1..];
    assert id in s.slowQ && At(s.items, id, InSlow);
    var runs := s.items[id].runs + 1;
    var it := s.items[id].(place := Executing(t), runs := runs);
    assert s'.items == s.items[id := it] && s'.pcs == Awaken(s.pcs, wake)[t := Running(id, true)] && s'.wq == wq;
    QueuesTurned(s.wq, s.slowQ, s.items);
    QueuesPopped(wq, s.slowQ, s.items, id, it);
    AwakenPlaces(s.pcs, s.items, wake);
    StartPlaces(Awaken(s.pcs, wake), s.items, t, id, true);
    LoopsKept(s.loops, s.items, id, it);
  }

  lemma FinishPlaces(s: State, t: nat)
    requires PlaceInv(s) && Enabled(s, Finish(t))
    ensures PlaceInv(Do(s, Finish(t)))
  {
    var id := s.pcs[t].id;
    var it := s.items[id].(ranToEnd := true);
    assert At(s.items, id, Executing(t)) && ItemOk(s.items[id]);
    QueuesKept(s.wq, s.slowQ, s.items, id, it);
    LoopsKept(s.loops, s.items, id, it);
  }

  lemma CompletePlaces(s: State, t: nat)
    requires PlaceInv(s) && Enabled(s, Complete(t))
    ensures PlaceInv(DoComplete(s, t))
  {
    var id := s.pcs[t].id;
    var l, s' := s.items[id].loop, DoComplete(s, t);
    assert At(s.items, id, Executing(t)) && ItemOk(s.items[id]) && LoopOk(s.loops[l], l, s.items);
    QueuesKept(s.wq, s.slowQ, s.items, id, s'.items[id]);
    WorkerDone(s.pcs, s.items, t, s'.items[id]);
    LoopAppended(s.loops[l], l, s.items, id, s'.items[id]);
    LoopChanged(s.loops, s.items, l, s'.loops[l], id, s'.items[id]);
  }

  lemma WorkerDone(pcs: seq<Pc>, items: Items, t: nat, it: Item)
    requires WorkersInv(pcs, items) && t < |pcs| && pcs[t].Ran? && it.place == Completed
    ensures WorkersInv(pcs[t := Back(pcs[t].slow)], items[pcs[t].id := it])
  {
  }

  /** An item from outside joins the completion queue. */
  lemma LoopAppended(loop: Loop, l: nat, items: Items, id: Id, it: Item)
    requires LoopOk(loop, l, items) && id in items && items[id].loop == l && it.loop == l && it.place == Completed
    requires !InLoop(items, id) || items[id].place == Cancelling
    ensures items[id].place != Cancelling ==> LoopOk(loop.(completed := loop.completed + [id]), l, items[id := it])
    ensures items[id].place == Cancelling ==>
              LoopOk(loop.(completed := loop.completed + [id], cancelling := None), l, items[id := it])
  {
    assert id !in loop.completed && id !in loop.taken;
    assert NoDup(loop.completed + [id]);
  }

  /** The first item of the batch leaves the loop. */
  lemma LoopShifted(loop: Loop, l: nat, items: Items, id: Id, it: Item)
    requires LoopOk(loop, l, items) && loop.taken != [] && loop.taken[0] == id && id in items
    requires it.loop == l && it.place == Finished
    ensures items[id].loop == l && items[id].place == Taken
    ensures LoopOk(loop.(taken := loop.taken[1..]), l, items[id := it])
  {
    assert loop.taken == [id] + loop.taken[1..] && id in loop.taken && id !in loop.taken[1..];
    assert NoDup(loop.taken[1..]);
  }

  lemma QueuesCut(wq: seq<Entry>, slowQ: seq<Id>, items: Items, id: Id, it: Item)
    requires QueuesInv(wq, slowQ, items) && it.place != InMain && it.place != InSlow && id in items
    ensures items[id].place == InMain ==> QueuesInv(Without(wq, Work(id)), slowQ, items[id := it])
    ensures items[id].place == InSlow ==> QueuesInv(wq, Without(slowQ, id), items[id := it])
    ensures !InPool(items, id) ==> QueuesInv(wq, slowQ, items[id := it])
  {
    WithoutNoDup(wq, Work(id));
    WithoutNoDup(slowQ, id);
  }

  /** The loop's own lists once the item `id` is taken out and being cancelled. */
  lemma LoopCut(loop: Loop, l: nat, items: Items, id: Id)
    requires LoopOk(loop, l, items) && id in items && items[id].loop == l && loop.cancelling == None
    requires items[id].place in {InMain, InSlow, Completed, Taken}
    ensures
      var loop' := match items[id].place
        case Completed => loop.(completed := Without(loop.completed, id))
        case Taken => loop.(taken := Without(loop.taken, id))
        case _ => loop;
      LoopOk(loop'.(cancelling := Some(id)), l, items[id := items[id].(place := Cancelling)])
  {
    WithoutNoDup(loop.completed, id);
    WithoutNoDup(loop.taken, id);
  }

  lemma CancelTakePlaces(s: State, l: nat, id: Id)
    requires PlaceInv(s) && Enabled(s, CancelTake(l, id)) && Cancellable(s.items[id])
    ensures PlaceInv(DoCancelTake(s, l, id))
  {
    var it, s' := s.items[id].(place := Cancelling), DoCancelTake(s, l, id);
    assert ItemOk(s.items[id]) && LoopOk(s.loops[l], l, s.items);
    QueuesCut(s.wq, s.slowQ, s.items, id, it);
    LoopCut(s.loops[l], l, s.items, id);
    WorkersKept(s.pcs, s.items, id, it);
    LoopChanged(s.loops, s.items, l, s'.loops[l], id, it);
  }

  lemma CancelPutPlaces(s: State, l: nat)
    requires PlaceInv(s) && Enabled(s, CancelPut(l))
    ensures PlaceInv(DoCancelPut(s, l))
  {
    var id, s' := s.loops[l].cancelling.value, DoCancelPut(s, l);
    assert LoopOk(s.loops[l], l, s.items) && ItemOk(s.items[id]);
    QueuesKept(s.wq, s.slowQ, s.items, id, s'.items[id]);
    WorkersKept(s.pcs, s.items, id, s'.items[id]);
    LoopAppended(s.loops[l], l, s.items, id, s'.items[id]);
    LoopChanged(s.loops, s.items, l, s'.loops[l], id, s'.items[id]);
  }

  lemma TakePlaces(s: State, l: nat)
    requires PlaceInv(s) && Enabled(s, Take(l))
    ensures PlaceInv(DoTake(s, l))
  {
    var s' := DoTake(s, l);
    assert LoopOk(s.loops[l], l, s.items);
    forall m | 0 <= m < |s'.loops| ensures LoopOk(s'.loops[m], m, s'.items) {
      assert LoopOk(s.loops[m], m, s.items);
    }
  }

  lemma CallbackPlaces(s: State, l: nat)
    requires PlaceInv(s) && Enabled(s, Callback(l))
    ensures PlaceInv(DoCallback(s, l))
  {
    var taken, s' := s.loops[l].taken, DoCallback(s, l);
    var id := taken[0];
    assert LoopOk(s.loops[l], l, s.items) && id in taken && ItemOk(s.items[id]);
    LoopShifted(s.loops[l], l, s.items, id, s'.items[id]);
    QueuesKept(s.wq, s.slowQ, s.items, id, s'.items[id]);
    WorkersKept(s.pcs, s.items, id, s'.items[id]);
    LoopChanged(s.loops, s.items, l, s'.loops[l], id, s'.items[id]);
  }

  lemma PlaceStep(s: State, a: Action)
    requires PlaceInv(s) && Enabled(s, a)
    ensures PlaceInv(Do(s, a))
  {
    match a
    case Submit(id, kind, l, wake) => SubmitPlaces(s, id, kind, l, wake);
    case Lock(t) => WorkerMoved(s.pcs, s.items, t, Check);
    case Wait(t) => WorkerMoved(s.pcs, s.items, t, Waiting);
    case Spurious(t) => WorkerMoved(s.pcs, s.items, t, Woken);
    case Pop(t, wake) => PopPlaces(s, t, wake);
    case Finish(t) => FinishPlaces(s, t);
    case Complete(t) => CompletePlaces(s, t);
    case CancelTake(l, id) => if Cancellable(s.items[id]) { CancelTakePlaces(s, l, id); }
    case CancelPut(l) => CancelPutPlaces(s, l);
    case Take(l) => TakePlaces(s, l);
    case Callback(l) => CallbackPlaces(s, l);
  }

  // ---------- Every run ----------

  ghost predicate Inv(s: State) {
    PoolInv(s) && MutexInv(s) && PlaceInv(s)
  }

  /** A run: the states that a sequence of actions leads through, in any interleaving. */
  ghost predicate Run(states: seq<State>, actions: seq<Action>, workers: nat, loops: nat) {
    && |states| == |actions| + 1
    && states[0] == Init(workers, loops)
    && (forall i :: 0 <= i < |actions| ==> Enabled(states[i], actions[i]) && states[i + 1] == Do(states[i], actions[i]))
  }

  lemma {:induction false} RunInv(states: seq<State>, actions: seq<Action>, workers: nat, loops: nat, k: nat)
    requires workers >= 1 && Run(states, actions, workers, loops) && k < |states|
    ensures Inv(states[k]) && |states[k].pcs| == workers
    decreases k
  {
    if k == 0 {
      InitPool(workers, loops);
    } else {
      RunInv(states, actions, workers, loops, k - 1);
      PoolStep(states[k - 1], actions[k - 1]);
      PlaceStep(states[k - 1], actions[k - 1]);
      WorkersFixed(states[k - 1], actions[k - 1]);
    }
  }

  lemma WorkersFixed(s: State, a: Action)
    requires Enabled(s, a)
    ensures |Do(s, a).pcs| == |s.pcs|
  {
  }

  predicate RunsSlow(pc: Pc) {
    pc.Running? && pc.slow
  }

  lemma {:induction false} CountLess(pcs: seq<Pc>, p: Pc -> bool, q: Pc -> bool)
    requires forall pc :: p(pc) ==> q(pc)
    ensures Count(pcs, p) <= Count(pcs, q)
    decreases |pcs|
  {
    if pcs != [] {
      CountLess(pcs[..|pcs| - 1], p, q);
    }
  }

  /** Slow work is throttled, and pending slow work is announced in the main queue. */
  lemma SlowWorkThrottled(states: seq<State>, actions: seq<Action>, workers: nat, loops: nat, k: nat)
    requires workers >= 1 && Run(states, actions, workers, loops) && k < |states|
    ensures Count(states[k].pcs, RunsSlow) <= (workers + 1) / 2
    ensures states[k].slowQ != [] ==> RunSlow in states[k].wq
    ensures forall pc :: pc in states[k].pcs && pc.Running? ==>
              pc.id in states[k].items && (pc.slow <==> states[k].items[pc.id].kind == SlowIo)
  {
    RunInv(states, actions, workers, loops, k);
    CountLess(states[k].pcs, RunsSlow, Slow);
  }

  /** The throttle is exact: a worker that finds the message and slow work starts it if and only if fewer than
      (n + 1) / 2 workers are on slow work. */
  lemma ThrottleExact(states: seq<State>, actions: seq<Action>, workers: nat, loops: nat, k: nat)
    requires workers >= 1 && Run(states, actions, workers, loops) && k < |actions| && actions[k].Pop?
    requires states[k].slowQ != [] && states[k].wq[0] == RunSlow
    ensures states[k + 1].slowQ == states[k].slowQ[1..] <==> Count(states[k].pcs, Slow) < (workers + 1) / 2
    ensures states[k + 1].slowQ == states[k].slowQ <==> Count(states[k].pcs, Slow) >= (workers + 1) / 2
  {
    RunInv(states, actions, workers, loops, k);
    var s := states[k];
    assert states[k + 1] == DoPop(s, actions[k].t, actions[k].wake);
    assert |s.slowQ[1..]| < |s.slowQ|;
  }

  /** While a worker sleeps, as many workers are coming as there are entries to act on; and if all
      sleep, both queues are empty. */
  lemma NoLostWakeup(states: seq<State>, actions: seq<Action>, workers: nat, loops: nat, k: nat)
    requires workers >= 1 && Run(states, actions, workers, loops) && k < |states|
    ensures
      var s := states[k];
      && (Waiting in s.pcs ==> Count(s.pcs, Coming) >= Runnable(s.wq, AtThreshold(s)))
      && ((forall pc :: pc in s.pcs ==> pc == Waiting) ==> s.wq == [] && s.slowQ == [])
  {
    RunInv(states, actions, workers, loops, k);
    AllAsleep(states[k]);
  }

  lemma AllAsleep(s: State)
    requires Inv(s)
    ensures (forall pc :: pc in s.pcs ==> pc == Waiting) ==> s.wq == [] && s.slowQ == []
  {
    CountNone(s.pcs, Coming);
    CountNone(s.pcs, Slow);
    if forall pc :: pc in s.pcs ==> pc == Waiting {
      assert s.pcs[0] in s.pcs;
      assert !AtThreshold(s);
    }
  }

  /** Pending work can always proceed: some worker has a step that is not a spurious wakeup. */
  lemma PendingWorkProceeds(s: State) returns (a: Action)
    requires Inv(s) && (s.wq != [] || s.slowQ != [])
    ensures Enabled(s, a) && (a.Lock? || a.Wait? || a.Pop? || a.Finish? || a.Complete?)
  {
    if s.mutex.Some? && s.mutex.value < |s.pcs| {
      var t := s.mutex.value;
      assert s.pcs[t] == Check;
      if ShouldWait(s) {
        a := Wait(t);
      } else if PopSignals(s) && s.idle > 0 && Waiting in s.pcs {
        var w :| 0 <= w < |s.pcs| && s.pcs[w] == Waiting;
        a := Pop(t, Some(w));
      } else {
        a := Pop(t, None);
      }
    } else {
      var t := AwakeWorker(s);
      a := if s.pcs[t].Running? then Finish(t) else if s.pcs[t].Ran? then Complete(t) else Lock(t);
    }
  }

  lemma AwakeWorker(s: State) returns (t: nat)
    requires Inv(s) && (s.wq != [] || s.slowQ != [])
    ensures t < |s.pcs| && s.pcs[t] != Waiting
  {
    AllAsleep(s);
    t :| t < |s.pcs| && s.pcs[t] != Waiting;
  }

  // ---------- How soon a queued item starts ----------

  /** How many entries of the main queue are before the item. */
  function Ahead(wq: seq<Entry>, id: Id): nat
    requires Work(id) in wq
  {
    Index(wq, Work(id))
  }

  /** How many steps a worker can take before it sleeps, when it finds nothing to do. */
  function Effort(pc: Pc): nat {
    match pc
    case Running(_, _) => 4
    case Ran(_, _) => 3
    case Back(_) => 2
    case Starting => 2
    case Woken => 2
    case Check => 1
    case Waiting => 0
  }

  function Efforts(pcs: seq<Pc>): nat {
    if pcs == [] then 0 else Efforts(pcs[..|pcs| - 1]) + Effort(pcs[|pcs| - 1])
  }

  lemma {:induction false} EffortsSet(pcs: seq<Pc>, t: nat, pc: Pc)
    requires t < |pcs|
    ensures Efforts(pcs[t := pc]) == Efforts(pcs) - Effort(pcs[t]) + Effort(pc)
    decreases |pcs|
  {
    var n := |pcs| - 1;
    if t == n {
      assert pcs[t := pc][..n] == pcs[..n];
    } else {
      EffortsSet(pcs[..n], t, pc);
      assert pcs[t := pc][..n] == pcs[..n][t := pc];
    }
  }

  lemma {:induction false} EffortsBound(pcs: seq<Pc>)
    ensures Efforts(pcs) <= 4 * |pcs|
    decreases |pcs|
  {
    if pcs != [] { EffortsBound(pcs[..|pcs| - 1]); }
  }

  lemma EffortsAwaken(pcs: seq<Pc>, wake: Option<nat>)
    requires wake.Some? ==> wake.value < |pcs| && pcs[wake.value] == Waiting
    ensures Efforts(Awaken(pcs, wake)) <= Efforts(pcs) + 2
  {
    if wake.Some? { EffortsSet(pcs, wake.value, Woken); }
  }

  /** A step of a worker that is not a spurious wakeup. */
  predicate OfWorker(a: Action) {
    a.Lock? || a.Wait? || a.Pop? || a.Finish? || a.Complete?
  }

  /** A step that may give the workers more to do before the item. */
  predicate Disturbs(a: Action) {
    a.Submit? || a.Spurious?
  }

  function Distance(s: State, id: Id): nat
    requires Work(id) in s.wq
  {
    6 * Ahead(s.wq, id) + Efforts(s.pcs)
  }

  /** Every step of a worker brings the queued item nearer, and only submissions and spurious wakeups take it
      further away, by no more than two steps. */
  lemma StepNearer(s: State, a: Action, id: Id)
    requires NoDup(s.wq) && Enabled(s, a) && Work(id) in s.wq && Work(id) in Do(s, a).wq
    ensures Distance(Do(s, a), id) + (if OfWorker(a) then 1 else 0) <= Distance(s, id) + if Disturbs(a) then 2 else 0
  {
    match a
    case Submit(_, _, _, wake) => SubmitNearer(s, a, id);
    case Lock(t) => EffortsSet(s.pcs, t, Check);
    case Wait(t) => EffortsSet(s.pcs, t, Waiting);
    case Spurious(t) => EffortsSet(s.pcs, t, Woken);
    case Pop(t, wake) => PopNearer(s, t, wake, id);
    case Finish(t) => EffortsSet(s.pcs, t, Ran(s.pcs[t].id, s.pcs[t].slow));
    case Complete(t) => EffortsSet(s.pcs, t, Back(s.pcs[t].slow));
    case CancelTake(l, other) => CancelNearer(s, l, other, id);
    case CancelPut(_) =>
    case Take(_) =>
    case Callback(_) =>
  }

  lemma SubmitNearer(s: State, a: Action, id: Id)
    requires a.Submit? && Enabled(s, a) && Work(id) in s.wq
    ensures Work(id) in Do(s, a).wq && Distance(Do(s, a), id) <= Distance(s, id) + 2
  {
    EffortsAwaken(s.pcs, a.wake);
    IndexAppend(s.wq, Work(id), [RunSlow]);
    IndexAppend(s.wq, Work(id), [Work(a.id)]);
  }

  lemma CancelNearer(s: State, l: nat, other: Id, id: Id)
    requires NoDup(s.wq) && Enabled(s, CancelTake(l, other)) && Work(id) in s.wq && Work(id) in DoCancelTake(s, l, other).wq
    ensures Distance(DoCancelTake(s, l, other), id) <= Distance(s, id)
  {
    if Cancellable(s.items[other]) && s.items[other].place == InMain {
      WithoutNoDup(s.wq, Work(other));
      IndexWithout(s.wq, Work(id), Work(other));
    }
  }

  lemma PopNearer(s: State, t: nat, wake: Option<nat>, id: Id)
    requires NoDup(s.wq) && Enabled(s, Pop(t, wake)) && Work(id) in s.wq && Work(id) in DoPop(s, t, wake).wq
    ensures Distance(DoPop(s, t, wake), id) + 1 <= Distance(s, id)
  {
    var rest, s' := s.wq[1..], DoPop(s, t, wake);
    assert s.wq == [s.wq[0]] + rest && s.wq[0] != Work(id);
    IndexAppend(rest, Work(id), [RunSlow]);
    assert Ahead(s'.wq, id) == Ahead(s.wq, id) - 1;
    PopEfforts(s, t, wake);
  }

  lemma PopEfforts(s: State, t: nat, wake: Option<nat>)
    requires Enabled(s, Pop(t, wake))
    ensures Efforts(DoPop(s, t, wake).pcs) <= Efforts(s.pcs) + 5
  {
    var pcs := DoPop(s, t, wake).pcs;
    if s.wq[0] == RunSlow && !AtThreshold(s) && s.slowQ != [] {
      var awake := Awaken(s.pcs, wake);
      EffortsAwaken(s.pcs, wake);
      EffortsSet(awake, t, Running(s.slowQ[0], true));
      assert pcs == awake[t := Running(s.slowQ[0], true)] && awake[t] == Check;
    } else if s.wq[0] != RunSlow {
      EffortsSet(s.pcs, t, Running(s.wq[0].id, false));
      assert pcs == s.pcs[t := Running(s.wq[0].id, false)];
    }
  }

  /** How many of the actions from `j` on and before `k` are steps of workers. */
  function WorkerSteps(actions: seq<Action>, j: nat, k: nat): nat
    requires k <= |actions|
  {
    if k <= j then 0 else WorkerSteps(actions, j, k - 1) + if OfWorker(actions[k - 1]) then 1 else 0
  }

  function Disturbances(actions: seq<Action>, j: nat, k: nat): nat
    requires k <= |actions|
  {
    if k <= j then 0 else Disturbances(actions, j, k - 1) + if Disturbs(actions[k - 1]) then 1 else 0
  }

  ghost predicate Nearer(s: State, a: Action, s': State, id: Id) {
    && Work(id) in s.wq && Work(id) in s'.wq
    && Distance(s', id) + (if OfWorker(a) then 1 else 0) <= Distance(s, id) + if Disturbs(a) then 2 else 0
  }

  lemma NearerNext(states: seq<State>, actions: seq<Action>, workers: nat, loops: nat, i: nat, id: Id)
    requires workers >= 1 && Run(states, actions, workers, loops) && i < |actions|
    requires Work(id) in states[i].wq && Work(id) in states[i + 1].wq
    ensures Nearer(states[i], actions[i], states[i + 1], id)
  {
    RunInv(states, actions, workers, loops, i);
    StepNearer(states[i], actions[i], id);
  }

  lemma {:induction false} NearerAlong(states: seq<State>, actions: seq<Action>, j: nat, k: nat, id: Id)
    requires j <= k <= |actions| < |states| && Work(id) in states[j].wq
    requires forall i :: j <= i < k ==> Nearer(states[i], actions[i], states[i + 1], id)
    ensures Work(id) in states[k].wq
    ensures Distance(states[k], id) + WorkerSteps(actions, j, k) <= Distance(states[j], id) + 2 * Disturbances(actions, j, k)
    decreases k
  {
    if j < k {
      NearerAlong(states, actions, j, k - 1, id);
      assert Nearer(states[k - 1], actions[k - 1], states[k], id);
    }
  }

  /** In every run, while an item waits in the main queue the workers take at most six steps for each entry
      before it, four for each worker, and two for each submission or spurious wakeup in that time. As there is
      always such a step by `PendingWorkProceeds`, the item is started after so many, or cancelled. */
  lemma QueuedItemStarts(states: seq<State>, actions: seq<Action>, workers: nat, loops: nat, j: nat, k: nat, id: Id)
    requires workers >= 1 && Run(states, actions, workers, loops) && j <= k < |states|
    requires forall i :: j <= i <= k ==> Work(id) in states[i].wq
    ensures WorkerSteps(actions, j, k) <= 6 * Ahead(states[j].wq, id) + 4 * workers + 2 * Disturbances(actions, j, k)
  {
    forall i | j <= i < k ensures Nearer(states[i], actions[i], states[i + 1], id) {
      NearerNext(states, actions, workers, loops, i, id);
    }
    NearerAlong(states, actions, j, k, id);
    RunInv(states, actions, workers, loops, j);
    EffortsBound(states[j].pcs);
  }

  // ---------- The order of work ----------

  /** A worker takes an item, or the message, from the main queue. */
  predicate Pops(s: State, a: Action) {
    a.Pop?
  }

  /** A worker starts a slow item. */
  predicate StartsSlow(s: State, a: Action) {
    a.Pop? && s.wq != [] && s.wq[0] == RunSlow && !AtThreshold(s) && s.slowQ != []
  }

  function SlowQueue(s: State): seq<Id> {
    s.slowQ
  }

  function MainQueue(s: State): seq<Entry> {
    s.wq
  }

  /** The items of a loop that wait for their callback: the batch in hand, then what came since. */
  function Awaiting(s: State, l: nat): seq<Id> {
    if l < |s.loops| then s.loops[l].taken + s.loops[l].completed else []
  }

  lemma SlowForward(s: State, a: Action, id: Id)
    requires NoDup(s.slowQ) && Enabled(s, a) && id in s.slowQ && id in Do(s, a).slowQ
    ensures Forward(s.slowQ, Do(s, a).slowQ, id, if StartsSlow(s, a) then 1 else 0)
  {
    if a.Submit? {
      IndexAppend(s.slowQ, id, [a.id]);
    } else if a.CancelTake? && Cancellable(s.items[a.id]) && s.items[a.id].place == InSlow {
      WithoutNoDup(s.slowQ, a.id);
      IndexWithout(s.slowQ, id, a.id);
    } else if StartsSlow(s, a) {
      assert s.slowQ == [s.slowQ[0]] + s.slowQ[1..] && s.slowQ[0] != id;
    }
  }

  lemma MainForward(s: State, a: Action, id: Id)
    requires NoDup(s.wq) && Enabled(s, a) && Work(id) in s.wq && Work(id) in Do(s, a).wq
    ensures Forward(s.wq, Do(s, a).wq, Work(id), if Pops(s, a) then 1 else 0)
  {
    if a.Submit? {
      IndexAppend(s.wq, Work(id), [RunSlow]);
      IndexAppend(s.wq, Work(id), [Work(a.id)]);
    } else if a.CancelTake? && Cancellable(s.items[a.id]) && s.items[a.id].place == InMain {
      WithoutNoDup(s.wq, Work(a.id));
      IndexWithout(s.wq, Work(id), Work(a.id));
    } else if a.Pop? {
      assert s.wq == [s.wq[0]] + s.wq[1..] && s.wq[0] != Work(id);
      IndexAppend(s.wq[1..], Work(id), [RunSlow]);
    }
  }

  /** Slow work starts in the order in which it was submitted: while an item waits, no more slow items start than
      were before it. */
  lemma SlowInOrder(states: seq<State>, actions: seq<Action>, workers: nat, loops: nat, j: nat, k: nat, id: Id)
    requires workers >= 1 && Run(states, actions, workers, loops) && j <= k < |states|
    requires forall i :: j <= i <= k ==> id in states[i].slowQ
    ensures Index(states[k].slowQ, id) + Times(states, actions, j, k, StartsSlow) <= Index(states[j].slowQ, id)
  {
    forall i | j <= i < k
      ensures Forward(SlowQueue(states[i]), SlowQueue(states[i + 1]), id, if StartsSlow(states[i], actions[i]) then 1 else 0)
    {
      SlowNext(states, actions, workers, loops, i, id);
    }
    InOrder(states, actions, SlowQueue, StartsSlow, id, j, k);
  }

  lemma SlowNext(states: seq<State>, actions: seq<Action>, workers: nat, loops: nat, i: nat, id: Id)
    requires workers >= 1 && Run(states, actions, workers, loops) && i < |actions|
    requires id in states[i].slowQ && id in states[i + 1].slowQ
    ensures Forward(states[i].slowQ, states[i + 1].slowQ, id, if StartsSlow(states[i], actions[i]) then 1 else 0)
  {
    RunInv(states, actions, workers, loops, i);
    SlowForward(states[i], actions[i], id);
  }

  /** Other work starts in the order in which it was submitted, too. */
  lemma MainInOrder(states: seq<State>, actions: seq<Action>, workers: nat, loops: nat, j: nat, k: nat, id: Id)
    requires workers >= 1 && Run(states, actions, workers, loops) && j <= k < |states|
    requires forall i :: j <= i <= k ==> Work(id) in states[i].wq
    ensures Index(states[k].wq, Work(id)) + Times(states, actions, j, k, Pops) <= Index(states[j].wq, Work(id))
  {
    forall i | j <= i < k
      ensures Forward(MainQueue(states[i]), MainQueue(states[i + 1]), Work(id), if Pops(states[i], actions[i]) then 1 else 0)
    {
      MainNext(states, actions, workers, loops, i, id);
    }
    InOrder(states, actions, MainQueue, Pops, Work(id), j, k);
  }

  lemma MainNext(states: seq<State>, actions: seq<Action>, workers: nat, loops: nat, i: nat, id: Id)
    requires workers >= 1 && Run(states, actions, workers, loops) && i < |actions|
    requires Work(id) in states[i].wq && Work(id) in states[i + 1].wq
    ensures Forward(states[i].wq, states[i + 1].wq, Work(id), if Pops(states[i], actions[i]) then 1 else 0)
  {
    RunInv(states, actions, workers, loops, i);
    MainForward(states[i], actions[i], id);
  }

  lemma AwaitingForward(s: State, a: Action, l: nat, id: Id)
    requires LoopsInv(s.loops, s.items) && Enabled(s, a) && id in Awaiting(s, l) && id in Awaiting(Do(s, a), l)
    ensures Forward(Awaiting(s, l), Awaiting(Do(s, a), l), id, if a == Callback(l) then 1 else 0)
  {
    match a
    case Complete(t) => CompleteForward(s, t, l, id);
    case CancelPut(m) => PutForward(s, m, l, id);
    case Take(m) => TakeForward(s, m, l, id);
    case Callback(m) => CallForward(s, m, l, id);
    case CancelTake(m, other) => CancelForward(s, m, l, other, id);
    case _ => LoopsStay(s, a);
  }

  lemma LoopsStay(s: State, a: Action)
    requires Enabled(s, a) && !a.Complete? && !a.CancelPut? && !a.Take? && !a.Callback? && !a.CancelTake?
    ensures Do(s, a).loops == s.loops
  {
  }

  lemma CompleteForward(s: State, t: nat, l: nat, id: Id)
    requires Enabled(s, Complete(t)) && id in Awaiting(s, l)
    ensures Forward(Awaiting(s, l), Awaiting(DoComplete(s, t), l), id, 0)
  {
    if s.items[s.pcs[t].id].loop == l {
      Appended(s.loops[l].taken, s.loops[l].completed, s.pcs[t].id, id);
    }
  }

  lemma PutForward(s: State, m: nat, l: nat, id: Id)
    requires Enabled(s, CancelPut(m)) && id in Awaiting(s, l)
    ensures Forward(Awaiting(s, l), Awaiting(DoCancelPut(s, m), l), id, 0)
  {
    if m == l {
      Appended(s.loops[l].taken, s.loops[l].completed, s.loops[l].cancelling.value, id);
    }
  }

  lemma TakeForward(s: State, m: nat, l: nat, id: Id)
    requires Enabled(s, Take(m)) && id in Awaiting(s, l)
    ensures Forward(Awaiting(s, l), Awaiting(DoTake(s, m), l), id, 0)
  {
    if m == l {
      var q := s.loops[l].completed;
      assert q + [] == q && [] + q == q;
    }
  }

  lemma CallForward(s: State, m: nat, l: nat, id: Id)
    requires LoopsInv(s.loops, s.items) && Enabled(s, Callback(m)) && id in Awaiting(s, l)
    requires id in Awaiting(DoCallback(s, m), l)
    ensures Forward(Awaiting(s, l), Awaiting(DoCallback(s, m), l), id, if m == l then 1 else 0)
  {
    if m == l {
      assert LoopOk(s.loops[l], l, s.items);
      CalledBack(s.loops[l].taken, s.loops[l].completed, id);
    }
  }

  lemma Appended(taken: seq<Id>, completed: seq<Id>, more: Id, id: Id)
    requires id in taken + completed
    ensures Forward(taken + completed, taken + (completed + [more]), id, 0)
  {
    assert taken + (completed + [more]) == taken + completed + [more];
    IndexAppend(taken + completed, id, [more]);
  }

  lemma CalledBack(taken: seq<Id>, completed: seq<Id>, id: Id)
    requires taken != [] && id in taken + completed && id in taken[1..] + completed
    requires taken[0] !in taken[1..] && taken[0] !in completed
    ensures Forward(taken + completed, taken[1..] + completed, id, 1)
  {
    assert (taken + completed)[1..] == taken[1..] + completed;
  }

  lemma CancelForward(s: State, m: nat, l: nat, other: Id, id: Id)
    requires LoopsInv(s.loops, s.items) && Enabled(s, CancelTake(m, other))
    requires id in Awaiting(s, l) && id in Awaiting(DoCancelTake(s, m, other), l)
    ensures Forward(Awaiting(s, l), Awaiting(DoCancelTake(s, m, other), l), id, 0)
  {
    var loop, it := s.loops[l], s.items[other];
    if m == l && Cancellable(it) && it.place in {Completed, Taken} {
      assert LoopOk(loop, l, s.items);
      WithoutNoDup(loop.taken, other);
      WithoutNoDup(loop.completed, other);
      WithoutJoin(loop.taken, loop.completed, other);
      IndexWithout(loop.taken + loop.completed, id, other);
    }
  }

  /** Callbacks are called in the order in which the work of a loop was completed or cancelled. */
  lemma CallbacksInOrder(states: seq<State>, actions: seq<Action>, workers: nat, loops: nat, j: nat, k: nat, l: nat, id: Id)
    requires workers >= 1 && Run(states, actions, workers, loops) && j <= k < |states|
    requires forall i :: j <= i <= k ==> id in Awaiting(states[i], l)
    ensures Index(Awaiting(states[k], l), id) + Times(states, actions, j, k, Calls(l)) <= Index(Awaiting(states[j], l), id)
  {
    forall i | j <= i < k
      ensures Forward(QueueOf(l)(states[i]), QueueOf(l)(states[i + 1]), id, if Calls(l)(states[i], actions[i]) then 1 else 0)
    {
      AwaitingNext(states, actions, workers, loops, i, l, id);
    }
    InOrder(states, actions, QueueOf(l), Calls(l), id, j, k);
  }

  function QueueOf(l: nat): State -> seq<Id> {
    s => Awaiting(s, l)
  }

  function Calls(l: nat): (State, Action) -> bool {
    (s, a) => a == Callback(l)
  }

  lemma AwaitingNext(states: seq<State>, actions: seq<Action>, workers: nat, loops: nat, i: nat, l: nat, id: Id)
    requires workers >= 1 && Run(states, actions, workers, loops) && i < |actions|
    requires id in Awaiting(states[i], l) && id in Awaiting(states[i + 1], l)
    ensures Forward(Awaiting(states[i], l), Awaiting(states[i + 1], l), id, if actions[i] == Callback(l) then 1 else 0)
  {
    RunInv(states, actions, workers, loops, i);
    AwaitingForward(states[i], actions[i], l, id);
  }

  /** The item is in the batch in hand, or its callback was called. */
  ghost predicate ServedOrTaken(s: State, l: nat, id: Id) {
    l < |s.loops| && id in s.items && (id in s.loops[l].taken || s.items[id].place == Finished)
  }

  lemma BatchStep(s: State, a: Action, l: nat, id: Id)
    requires PlaceInv(s) && Enabled(s, a)
    requires ServedOrTaken(s, l, id) && !(a.CancelTake? && a.id == id)
    ensures ServedOrTaken(Do(s, a), l, id)
  {
    assert LoopOk(s.loops[l], l, s.items);
    match a
    case CancelTake(m, other) =>
      if m == l { WithoutNoDup(s.loops[l].taken, other); }
    case CancelPut(m) => assert LoopOk(s.loops[m], m, s.items);
    case Callback(m) =>
      assert LoopOk(s.loops[m], m, s.items);
      var taken := s.loops[m].taken;
      assert taken == [taken[0]] + taken[1..];
    case Take(m) => assert LoopOk(s.loops[m], m, s.items);
    case Pop(t, wake) => BatchPop(s, t, wake, l, id);
    case _ =>
  }

  lemma BatchPop(s: State, t: nat, wake: Option<nat>, l: nat, id: Id)
    requires QueuesInv(s.wq, s.slowQ, s.items) && Enabled(s, Pop(t, wake)) && ServedOrTaken(s, l, id)
    requires LoopOk(s.loops[l], l, s.items)
    ensures ServedOrTaken(DoPop(s, t, wake), l, id)
  {
    assert s.wq[0] in s.wq;
    if s.slowQ != [] { assert s.slowQ[0] in s.slowQ; }
  }

  lemma BatchNext(states: seq<State>, actions: seq<Action>, workers: nat, loops: nat, i: nat, l: nat, id: Id)
    requires workers >= 1 && Run(states, actions, workers, loops) && i < |actions|
    requires ServedOrTaken(states[i], l, id) && !(actions[i].CancelTake? && actions[i].id == id)
    ensures ServedOrTaken(states[i + 1], l, id)
  {
    RunInv(states, actions, workers, loops, i);
    BatchStep(states[i], actions[i], l, id);
  }

  lemma {:induction false} BatchAlong(states: seq<State>, actions: seq<Action>, workers: nat, loops: nat, j: nat, k: nat, l: nat, id: Id)
    requires workers >= 1 && Run(states, actions, workers, loops) && j <= k < |states| && ServedOrTaken(states[j], l, id)
    requires forall i :: j <= i < k ==> !(actions[i].CancelTake? && actions[i].id == id)
    ensures ServedOrTaken(states[k], l, id)
    decreases k
  {
    if j < k {
      BatchAlong(states, actions, workers, loops, j, k - 1, l, id);
      BatchNext(states, actions, workers, loops, k - 1, l, id);
    }
  }

  /** A loop takes everything that is complete, and calls all its callbacks before it takes again. */
  lemma BatchServed(states: seq<State>, actions: seq<Action>, workers: nat, loops: nat, j: nat, k: nat, l: nat, id: Id)
    requires workers >= 1 && Run(states, actions, workers, loops) && j < k < |actions|
    requires actions[j] == Take(l) && actions[k] == Take(l) && id in states[j].loops[l].completed
    requires forall i :: j <= i < k ==> !(actions[i].CancelTake? && actions[i].id == id)
    ensures id in states[k].items && states[k].items[id].dones == 1
  {
    RunInv(states, actions, workers, loops, j);
    RunInv(states, actions, workers, loops, k);
    TakenAll(states[j], l, id);
    BatchAlong(states, actions, workers, loops, j + 1, k, l, id);
    assert ItemOk(states[k].items[id]);
  }

  lemma TakenAll(s: State, l: nat, id: Id)
    requires LoopsInv(s.loops, s.items) && Enabled(s, Take(l)) && id in s.loops[l].completed
    ensures ServedOrTaken(DoTake(s, l), l, id)
  {
    assert LoopOk(s.loops[l], l, s.items);
  }

  // ---------- The life of an item ----------

  function Bit(b: bool): nat {
    if b then 1 else 0
  }

  ghost predicate OnSomeWorker(s: State, id: Id) {
    exists t :: 0 <= t < |s.pcs| && Carries(s.pcs[t]) && s.pcs[t].id == id
  }

  ghost predicate InSomeLoop(s: State, id: Id) {
    exists l :: 0 <= l < |s.loops| && (id in s.loops[l].completed || id in s.loops[l].taken)
  }

  ghost predicate BeingCancelled(s: State, id: Id) {
    exists l :: 0 <= l < |s.loops| && s.loops[l].cancelling == Some(id)
  }

  /** Until its callback is called an item is in exactly one place; afterwards it is nowhere. */
  lemma ExactlyOnePlace(s: State, id: Id)
    requires Inv(s) && id in s.items
    ensures Bit(Work(id) in s.wq) + Bit(id in s.slowQ) + Bit(OnSomeWorker(s, id)) + Bit(InSomeLoop(s, id))
            + Bit(BeingCancelled(s, id)) == Bit(s.items[id].dones == 0)
  {
    var it := s.items[id];
    assert ItemOk(it) && LoopOk(s.loops[it.loop], it.loop, s.items);
    WhereAbouts(s, id);
  }

  lemma WhereAbouts(s: State, id: Id)
    requires Inv(s) && id in s.items
    ensures OnSomeWorker(s, id) <==> s.items[id].place.Executing?
    ensures InSomeLoop(s, id) <==> s.items[id].place in {Completed, Taken}
    ensures BeingCancelled(s, id) <==> s.items[id].place == Cancelling
  {
    var it := s.items[id];
    assert forall l :: 0 <= l < |s.loops| ==> LoopOk(s.loops[l], l, s.items);
    assert LoopOk(s.loops[it.loop], it.loop, s.items);
    if it.place == Cancelling {
      assert s.loops[it.loop].cancelling == Some(id);
    }
    if it.place == Completed || it.place == Taken {
      assert id in s.loops[it.loop].completed || id in s.loops[it.loop].taken;
    }
  }

  /** In every reachable state, an item has run at most once and its callback was called at most once;
      the callback got success only for work that ran to completion, and got the cancelled status
      only for work that never ran. */
  lemma ItemsServedOnce(states: seq<State>, actions: seq<Action>, workers: nat, loops: nat, k: nat, id: Id)
    requires workers >= 1 && Run(states, actions, workers, loops) && k < |states| && id in states[k].items
    ensures
      var it := states[k].items[id];
      && it.runs <= 1 && it.dones <= 1
      && (it.dones == 1 <==> it.status.Some?)
      && (it.status == Some(Success) ==> it.runs == 1 && it.ranToEnd && !it.cancelled)
      && (it.status == Some(ECANCELED) ==> it.runs == 0 && it.cancelled)
      && (it.cancelled ==> it.runs == 0)
  {
    RunInv(states, actions, workers, loops, k);
    assert ItemOk(states[k].items[id]);
  }

  lemma CancelledStays(s: State, a: Action, id: Id)
    requires Enabled(s, a) && id in s.items && s.items[id].cancelled
    ensures id in Do(s, a).items && Do(s, a).items[id].cancelled
  {
  }

  lemma {:induction false} CancelledForGood(states: seq<State>, actions: seq<Action>, workers: nat, loops: nat, j: nat, k: nat, id: Id)
    requires Run(states, actions, workers, loops) && j <= k < |states|
    requires id in states[j].items && states[j].items[id].cancelled
    ensures id in states[k].items && states[k].items[id].cancelled
    decreases k
  {
    if j < k {
      CancelledForGood(states, actions, workers, loops, j, k - 1, id);
      CancelledNext(states, actions, workers, loops, k - 1, id);
    }
  }

  lemma CancelledNext(states: seq<State>, actions: seq<Action>, workers: nat, loops: nat, i: nat, id: Id)
    requires Run(states, actions, workers, loops) && i < |actions|
    requires id in states[i].items && states[i].items[id].cancelled
    ensures id in states[i + 1].items && states[i + 1].items[id].cancelled
  {
    CancelledStays(states[i], actions[i], id);
  }

  /** Once a cancellation has gone through, the work never runs, and the callback can only get the
      cancelled status, however the run goes on. */
  lemma CancelIsFinal(states: seq<State>, actions: seq<Action>, workers: nat, loops: nat, j: nat, k: nat)
    requires workers >= 1 && Run(states, actions, workers, loops) && j < k < |states|
    requires actions[j].CancelPut?
    ensures
      var id := states[j].loops[actions[j].l].cancelling.value;
      && id in states[k].items && states[k].items[id].runs == 0
      && (states[k].items[id].dones == 1 ==> states[k].items[id].status == Some(ECANCELED))
  {
    var id := states[j].loops[actions[j].l].cancelling.value;
    assert states[j + 1] == DoCancelPut(states[j], actions[j].l);
    CancelledForGood(states, actions, workers, loops, j + 1, k, id);
    ItemsServedOnce(states, actions, workers, loops, k, id);
    RunInv(states, actions, workers, loops, k);
    assert ItemOk(states[k].items[id]);
  }

  /** A cancellation is accepted exactly for an item that was never started; a busy item stays untouched. */
  lemma CancelOnlyPending(s: State, l: nat, id: Id)
    requires Inv(s) && Enabled(s, CancelTake(l, id))
    ensures Cancellable(s.items[id]) <==> s.items[id].runs == 0
    ensures s.items[id].runs == 1 ==> Do(s, CancelTake(l, id)) == s
  {
    assert ItemOk(s.items[id]) && LoopOk(s.loops[l], l, s.items);
  }
}
