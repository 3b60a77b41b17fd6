/** Wakeup handles as a protocol: any number of threads send, the loop's thread reads the wakeup
    descriptor, visits the handles and closes them. Every step is one access to shared memory. */
module Async {
  import opened Lists
  import opened Runs

  type Handle = nat

  /** A handle is open, being closed while its closer spins, or closed once the spin is over. */
  datatype Phase = Open | Spinning | Closed

  /** The shared fields of a handle, with the history of its rises and its callbacks. */
  datatype Rec = Rec(pending: bool, busy: nat, phase: Phase, linked: bool, raised: nat, delivered: nat)

  /** Where a sender is: outside, after the cheap read, counted as busy, about to write, about to leave. */
  datatype Sender = Outside | Checked(h: Handle) | Entered(h: Handle) | Writing(h: Handle) | Leaving(h: Handle)

  /** Where the loop is: waiting for the descriptor, done reading it, walking its private queue, about to
      take a handle's flag, in that handle's callback. */
  datatype LoopPc = Polling | Drained | Walking | Visiting(h: Handle) | InCallback(h: Handle)

  datatype State = State(
    senders: seq<Sender>, recs: map<Handle, Rec>, readable: bool,
    handles: seq<Handle>, queue: seq<Handle>, loop: LoopPc)

  datatype Action =
    | Init(h: Handle)
    | Check(t: nat, h: Handle)
    | Enter(t: nat)
    | Exchange(t: nat)
    | Write(t: nat)
    | Leave(t: nat)
    | Read
    | Move
    | Next
    | Fetch
    | Return
    | StoreClose(h: Handle)
    | SpinOver(h: Handle)
    | Unlink(h: Handle)

  /** The loop's thread runs no other code while it closes a handle. */
  ghost predicate Closing(s: State) {
    exists h :: h in s.recs && CloseRuns(s.recs[h])
  }

  predicate CloseRuns(r: Rec) {
    r.phase == Spinning || (r.phase == Closed && r.linked)
  }

  /** The loop's thread may run user code: in a callback, or between two polls. */
  ghost predicate UserCode(s: State) {
    (s.loop == Polling || s.loop.InCallback?) && !Closing(s)
  }

  predicate AtSender(s: State, t: nat) {
    t < |s.senders|
  }

  ghost predicate Enabled(s: State, a: Action) {
    match a
    case Init(h) => h !in s.recs && UserCode(s)
    case Check(t, h) => AtSender(s, t) && s.senders[t] == Outside && h in s.recs
    case Enter(t) => AtSender(s, t) && s.senders[t].Checked? && s.senders[t].h in s.recs
    case Exchange(t) => AtSender(s, t) && s.senders[t].Entered? && s.senders[t].h in s.recs
    case Write(t) => AtSender(s, t) && s.senders[t].Writing?
    case Leave(t) => AtSender(s, t) && s.senders[t].Leaving? && s.senders[t].h in s.recs
    case Read => s.loop == Polling && s.readable && !Closing(s)
    case Move => s.loop == Drained
    case Next => s.loop == Walking
    case Fetch => s.loop.Visiting? && s.loop.h in s.recs
    case Return => s.loop.InCallback? && !Closing(s)
    case StoreClose(h) => UserCode(s) && h in s.recs && s.recs[h].phase == Open
    case SpinOver(h) => h in s.recs && s.recs[h].phase == Spinning && s.recs[h].busy == 0
    case Unlink(h) => h in s.recs && s.recs[h].phase == Closed && s.recs[h].linked
  }

  function SetSender(s: State, t: nat, pc: Sender): State
    requires AtSender(s, t)
  {
    s.(senders := s.senders[t := pc])
  }

  function SetRec(s: State, h: Handle, r: Rec): State {
    s.(recs := s.recs[h := r])
  }

  /** The flag is set, and its old value decides whether this sender writes. */
  function DoExchange(s: State, t: nat): State
    requires AtSender(s, t) && s.senders[t].Entered? && s.senders[t].h in s.recs
  {
    var h := s.senders[t].h;
    var r := s.recs[h];
    if r.pending then SetSender(s, t, Leaving(h))
    else SetSender(SetRec(s, h, r.(pending := true, raised := r.raised + 1)), t, Writing(h))
  }

  /** The flag is cleared, and its old value decides whether the callback runs. */
  function DoFetch(s: State): State
    requires s.loop.Visiting? && s.loop.h in s.recs
  {
    var h := s.loop.h;
    var r := s.recs[h];
    if !r.pending then s.(loop := Walking)
    else SetRec(s, h, r.(pending := false, delivered := r.delivered + 1)).(loop := InCallback(h))
  }

  function Do(s: State, a: Action): State
    requires Enabled(s, a)
  {
    match a
    case Init(h) => SetRec(s, h, Rec(false, 0, Open, true, 0, 0)).(handles := s.handles + [h])
    case Check(t, h) => if s.recs[h].pending then s else SetSender(s, t, Checked(h))
    case Enter(t) =>
      var h := s.senders[t].h;
      SetSender(SetRec(s, h, s.recs[h].(busy := s.recs[h].busy + 1)), t, Entered(h))
    case Exchange(t) => DoExchange(s, t)
    case Write(t) => SetSender(s, t, Leaving(s.senders[t].h)).(readable := true)
    case Leave(t) =>
      var h := s.senders[t].h;
      SetSender(SetRec(s, h, s.recs[h].(busy := if s.recs[h].busy > 0 then s.recs[h].busy - 1 else 0)), t, Outside)
    case Read => s.(readable := false, loop := Drained)
    case Move => s.(queue := s.handles, handles := [], loop := Walking)
    case Next =>
      if s.queue == [] then s.(loop := Polling)
      else s.(queue := s.queue[1..], handles := s.handles + [s.queue[0]], loop := Visiting(s.queue[0]))
    case Fetch => DoFetch(s)
    case Return => s.(loop := Walking)
    case StoreClose(h) => SetRec(s, h, s.recs[h].(pending := true, phase := Spinning))
    case SpinOver(h) => SetRec(s, h, s.recs[h].(phase := Closed))
    case Unlink(h) =>
      SetRec(s, h, s.recs[h].(linked := false)).(handles := Without(s.handles, h), queue := Without(s.queue, h))
  }

  function Start(threads: nat): State {
    State(seq(threads, _ => Outside), map[], false, [], [], Polling)
  }

  // ---------- Counting senders ----------

  /** The sender is between its two changes of the busy count of `h`. */
  predicate Inside(pc: Sender, h: Handle) {
    (pc.Entered? || pc.Writing? || pc.Leaving?) && pc.h == h
  }

  function Busy(senders: seq<Sender>, h: Handle): nat {
    if senders == [] then 0
    else Busy(senders[..|senders| - 1], h) + if Inside(senders[|senders| - 1], h) then 1 else 0
  }

  lemma {:induction false} BusySet(senders: seq<Sender>, h: Handle, t: nat, pc: Sender)
    requires t < |senders|
    ensures Busy(senders[t := pc], h)
            == Busy(senders, h) - (if Inside(senders[t], h) then 1 else 0) + (if Inside(pc, h) then 1 else 0)
    ensures Inside(senders[t], h) ==> Busy(senders, h) > 0
    decreases |senders|
  {
    var n := |senders| - 1;
    if t == n {
      assert senders[t := pc][..n] == senders[..n];
    } else {
      BusySet(senders[..n], h, t, pc);
      assert senders[t := pc][..n] == senders[..n][t := pc];
    }
  }

  lemma {:induction false} BusyNone(senders: seq<Sender>, h: Handle)
    requires forall t :: 0 <= t < |senders| ==> !Inside(senders[t], h)
    ensures Busy(senders, h) == 0
    decreases |senders|
  {
    if senders != [] {
      BusyNone(senders[..|senders| - 1], h);
    }
  }

  // ---------- The invariant ----------

  ghost predicate WriterOf(senders: seq<Sender>, h: Handle) {
    exists t :: 0 <= t < |senders| && senders[t] == Writing(h)
  }

  /** The loop will take the flag of `h` before it polls again. */
  predicate Due(s: State, h: Handle) {
    s.loop == Drained || h in s.queue || s.loop == Visiting(h)
  }

  /** A set flag is on its way to the loop. */
  ghost predicate OnItsWay(s: State, h: Handle) {
    s.readable || WriterOf(s.senders, h) || Due(s, h)
  }

  /** What holds of each handle. */
  ghost predicate RecOk(s: State, h: Handle)
    requires h in s.recs
  {
    var r := s.recs[h];
    && r.busy == Busy(s.senders, h)
    && (r.phase != Open ==> r.pending)
    && (r.phase == Closed ==> !WriterOf(s.senders, h))
    && (r.phase != Closed ==> r.linked)
    && (r.phase == Open ==> r.raised == r.delivered + if r.pending then 1 else 0)
    && (r.phase == Open && r.pending ==> OnItsWay(s, h))
  }

  /** The handles are linked into the loop's list or into the queue it walks, and into one of them only. */
  ghost predicate Links(s: State) {
    && NoDup(s.handles) && NoDup(s.queue)
    && (forall h :: h in s.handles ==> h !in s.queue)
    && (forall h :: h in s.handles || h in s.queue <==> h in s.recs && s.recs[h].linked)
    && (s.loop == Polling || s.loop == Drained ==> s.queue == [])
  }

  /** At most one handle is being closed, and only from user code. */
  ghost predicate OneCloser(s: State) {
    && (forall h, k :: h in s.recs && k in s.recs && CloseRuns(s.recs[h]) && CloseRuns(s.recs[k]) ==> h == k)
    && (Closing(s) ==> s.loop == Polling || s.loop.InCallback?)
    && (s.loop.Visiting? ==> s.loop.h in s.recs && s.recs[s.loop.h].phase == Open)
  }

  ghost predicate SendersOk(s: State) {
    forall t :: 0 <= t < |s.senders| && s.senders[t] != Outside ==> s.senders[t].h in s.recs
  }

  ghost predicate Inv(s: State) {
    SendersOk(s) && Links(s) && OneCloser(s) && forall h :: h in s.recs ==> RecOk(s, h)
  }

  lemma StartInv(threads: nat)
    ensures Inv(Start(threads))
  {
  }

  /** A step of one sender that changes the record of its own handle at most. */
  lemma SenderMoved(s: State, s': State, t: nat, h: Handle, pc: Sender, r: Rec)
    requires Inv(s) && AtSender(s, t) && h in s.recs && (s.senders[t] == Outside || s.senders[t].h == h)
    requires pc == Outside || pc.h == h
    requires s' == SetSender(SetRec(s, h, r), t, pc)
             || s' == SetSender(SetRec(s, h, r), t, pc).(readable := true)
    requires r.phase == s.recs[h].phase && r.linked == s.recs[h].linked
    requires RecOk(s', h)
    ensures Inv(s')
  {
    OthersKept(s, s', t, h, pc);
    assert forall k :: k in s.recs ==> CloseRuns(s'.recs[k]) == CloseRuns(s.recs[k]);
  }

  /** Handles other than the sender's keep what holds of them. */
  lemma OthersKept(s: State, s': State, t: nat, h: Handle, pc: Sender)
    requires Inv(s) && AtSender(s, t) && (s.senders[t] == Outside || s.senders[t].h == h) && (pc == Outside || pc.h == h)
    requires s'.senders == s.senders[t := pc] && s'.loop == s.loop && s'.queue == s.queue && (s.readable ==> s'.readable)
    ensures forall k :: k in s.recs && k != h && k in s'.recs && s'.recs[k] == s.recs[k] ==> RecOk(s', k)
  {
    forall k | k in s.recs && k != h && k in s'.recs && s'.recs[k] == s.recs[k] ensures RecOk(s', k) {
      assert RecOk(s, k);
      BusySet(s.senders, k, t, pc);
      WriterKept(s.senders, t, pc, k);
    }
  }

  lemma WriterKept(senders: seq<Sender>, t: nat, pc: Sender, k: Handle)
    requires t < |senders| && senders[t] != Writing(k) && pc != Writing(k)
    ensures WriterOf(senders[t := pc], k) <==> WriterOf(senders, k)
  {
    var senders' := senders[t := pc];
    if WriterOf(senders, k) {
      var u :| 0 <= u < |senders| && senders[u] == Writing(k);
      assert senders'[u] == Writing(k);
    }
    if WriterOf(senders', k) {
      var u :| 0 <= u < |senders'| && senders'[u] == Writing(k);
      assert senders[u] == Writing(k);
    }
  }

  lemma WriterLess(senders: seq<Sender>, t: nat, pc: Sender, k: Handle)
    requires t < |senders| && pc != Writing(k)
    ensures WriterOf(senders[t := pc], k) ==> WriterOf(senders, k)
  {
    var senders' := senders[t := pc];
    if WriterOf(senders', k) {
      var u :| 0 <= u < |senders'| && senders'[u] == Writing(k);
      assert senders[u] == Writing(k);
    }
  }

  lemma CheckStep(s: State, t: nat, h: Handle)
    requires Inv(s) && Enabled(s, Check(t, h))
    ensures Inv(Do(s, Check(t, h)))
  {
    var r := s.recs[h];
    if !r.pending {
      var s' := SetSender(s, t, Checked(h));
      assert s.recs[h := r] == s.recs && RecOk(s, h);
      BusySet(s.senders, h, t, Checked(h));
      WriterKept(s.senders, t, Checked(h), h);
      SenderMoved(s, s', t, h, Checked(h), r);
    }
  }

  lemma EnterStep(s: State, t: nat)
    requires Inv(s) && Enabled(s, Enter(t))
    ensures Inv(Do(s, Enter(t)))
  {
    var h := s.senders[t].h;
    var r := s.recs[h];
    var s' := Do(s, Enter(t));
    assert RecOk(s, h);
    BusySet(s.senders, h, t, Entered(h));
    WriterKept(s.senders, t, Entered(h), h);
    SenderMoved(s, s', t, h, Entered(h), r.(busy := r.busy + 1));
  }

  /** The sender that raises the flag of an open handle is the one that will write. */
  lemma ExchangeStep(s: State, t: nat)
    requires Inv(s) && Enabled(s, Exchange(t))
    ensures Inv(Do(s, Exchange(t)))
  {
    var h := s.senders[t].h;
    var r := s.recs[h];
    var s' := Do(s, Exchange(t));
    assert RecOk(s, h);
    if r.pending {
      assert s.recs[h := r] == s.recs;
      BusySet(s.senders, h, t, Leaving(h));
      WriterKept(s.senders, t, Leaving(h), h);
      SenderMoved(s, s', t, h, Leaving(h), r);
    } else {
      BusySet(s.senders, h, t, Writing(h));
      assert s'.senders[t] == Writing(h);
      SenderMoved(s, s', t, h, Writing(h), r.(pending := true, raised := r.raised + 1));
    }
  }

  lemma WriteStep(s: State, t: nat)
    requires Inv(s) && Enabled(s, Write(t))
    ensures Inv(Do(s, Write(t)))
  {
    var h := s.senders[t].h;
    var r := s.recs[h];
    assert s.recs[h := r] == s.recs && RecOk(s, h);
    BusySet(s.senders, h, t, Leaving(h));
    WriterLess(s.senders, t, Leaving(h), h);
    SenderMoved(s, Do(s, Write(t)), t, h, Leaving(h), r);
  }

  lemma LeaveStep(s: State, t: nat)
    requires Inv(s) && Enabled(s, Leave(t))
    ensures Inv(Do(s, Leave(t)))
  {
    var h := s.senders[t].h;
    var r := s.recs[h];
    assert RecOk(s, h);
    BusySet(s.senders, h, t, Outside);
    WriterKept(s.senders, t, Outside, h);
    SenderMoved(s, Do(s, Leave(t)), t, h, Outside, r.(busy := r.busy - 1));
  }

  // ---------- The loop's steps ----------

  lemma InitStep(s: State, h: Handle)
    requires Inv(s) && Enabled(s, Init(h))
    ensures Inv(Do(s, Init(h)))
  {
    var s' := Do(s, Init(h));
    BusyNone(s.senders, h);
    assert h !in s.handles && h !in s.queue;
    forall k | k in s'.recs ensures RecOk(s', k) {
      if k != h { assert RecOk(s, k); }
    }
    assert forall k :: k in s.recs ==> s'.recs[k] == s.recs[k];
    assert forall k :: k in s.recs ==> !CloseRuns(s.recs[k]);
    assert !Closing(s');
  }

  /** A step that only moves the loop and its queue. */
  lemma LoopMoved(s: State, s': State)
    requires Inv(s) && s' == s.(readable := s'.readable, handles := s'.handles, queue := s'.queue, loop := s'.loop)
    requires Links(s') && (s'.loop.Visiting? ==> s'.loop.h in s.recs && s.recs[s'.loop.h].phase == Open)
    requires Closing(s) ==> s'.loop == Polling || s'.loop.InCallback?
    requires forall h :: h in s.recs && s.recs[h].phase == Open && s.recs[h].pending ==> OnItsWay(s', h)
    ensures Inv(s')
  {
    forall k | k in s'.recs ensures RecOk(s', k) {
      assert RecOk(s, k);
    }
    assert Closing(s') ==> Closing(s);
  }

  lemma OpenDue(s: State)
    requires Inv(s)
    ensures forall h :: h in s.recs && s.recs[h].phase == Open && s.recs[h].pending ==> OnItsWay(s, h)
  {
    forall h | h in s.recs && s.recs[h].phase == Open && s.recs[h].pending ensures OnItsWay(s, h) {
      assert RecOk(s, h);
    }
  }

  lemma MoveStep(s: State)
    requires Inv(s) && Enabled(s, Move)
    ensures Inv(Do(s, Move))
  {
    assert forall h :: h in s.recs ==> RecOk(s, h);
    LoopMoved(s, Do(s, Move));
  }

  lemma NextStep(s: State)
    requires Inv(s) && Enabled(s, Next)
    ensures Inv(Do(s, Next))
  {
    OpenDue(s);
    var s' := Do(s, Next);
    if s.queue != [] {
      var h := s.queue[0];
      assert s.queue == [h] + s.queue[1..];
      assert h in s.queue && h in s.recs && RecOk(s, h) && !CloseRuns(s.recs[h]);
    }
    LoopMoved(s, s');
  }

  /** A step that changes one record and perhaps the loop's place, and nothing else. */
  lemma RecChanged(s: State, s': State, h: Handle)
    requires Inv(s) && h in s.recs && s'.recs.Keys == s.recs.Keys && s'.senders == s.senders && s'.readable == s.readable
    requires forall k :: k in s.recs && k != h ==> s'.recs[k] == s.recs[k] && (OnItsWay(s, k) ==> OnItsWay(s', k))
    requires RecOk(s', h)
    ensures forall k :: k in s'.recs ==> RecOk(s', k)
  {
    forall k | k in s'.recs ensures RecOk(s', k) {
      assert RecOk(s, k);
    }
  }

  lemma FetchStep(s: State)
    requires Inv(s) && Enabled(s, Fetch)
    ensures Inv(Do(s, Fetch))
  {
    var h := s.loop.h;
    var s' := Do(s, Fetch);
    assert RecOk(s, h);
    RecChanged(s, s', h);
    assert forall k :: k in s.recs ==> CloseRuns(s'.recs[k]) == CloseRuns(s.recs[k]);
    assert Closing(s') ==> Closing(s);
  }

  lemma StoreCloseStep(s: State, h: Handle)
    requires Inv(s) && Enabled(s, StoreClose(h))
    ensures Inv(Do(s, StoreClose(h)))
  {
    var s' := Do(s, StoreClose(h));
    assert RecOk(s, h);
    RecChanged(s, s', h);
    assert forall k :: k in s.recs && k != h ==> s'.recs[k] == s.recs[k];
  }

  lemma {:induction false} BusyZero(senders: seq<Sender>, h: Handle, t: nat)
    requires Busy(senders, h) == 0 && t < |senders|
    ensures !Inside(senders[t], h)
    decreases |senders|
  {
    if t < |senders| - 1 {
      BusyZero(senders[..|senders| - 1], h, t);
    }
  }

  /** When the count is zero nobody is left who would write. */
  lemma SpinOverStep(s: State, h: Handle)
    requires Inv(s) && Enabled(s, SpinOver(h))
    ensures Inv(Do(s, SpinOver(h)))
  {
    var s' := Do(s, SpinOver(h));
    assert RecOk(s, h);
    forall t | 0 <= t < |s.senders| ensures s.senders[t] != Writing(h) {
      BusyZero(s.senders, h, t);
    }
    RecChanged(s, s', h);
    assert forall k :: k in s.recs && k != h ==> s'.recs[k] == s.recs[k];
    assert CloseRuns(s.recs[h]);
  }

  lemma UnlinkStep(s: State, h: Handle)
    requires Inv(s) && Enabled(s, Unlink(h))
    ensures Inv(Do(s, Unlink(h)))
  {
    var s' := Do(s, Unlink(h));
    assert RecOk(s, h) && CloseRuns(s.recs[h]);
    WithoutNoDup(s.handles, h);
    WithoutNoDup(s.queue, h);
    RecChanged(s, s', h);
    assert forall k :: k in s.recs && k != h ==> s'.recs[k] == s.recs[k];
  }

  lemma Step(s: State, a: Action)
    requires Inv(s) && Enabled(s, a)
    ensures Inv(Do(s, a))
  {
    match a
    case Init(h) => InitStep(s, h);
    case Check(t, h) => CheckStep(s, t, h);
    case Enter(t) => EnterStep(s, t);
    case Exchange(t) => ExchangeStep(s, t);
    case Write(t) => WriteStep(s, t);
    case Leave(t) => LeaveStep(s, t);
    case Read => LoopMoved(s, Do(s, Read));
    case Move => MoveStep(s);
    case Next => NextStep(s);
    case Fetch => FetchStep(s);
    case Return => OpenDue(s); LoopMoved(s, Do(s, Return));
    case StoreClose(h) => StoreCloseStep(s, h);
    case SpinOver(h) => SpinOverStep(s, h);
    case Unlink(h) => UnlinkStep(s, h);
  }

  // ---------- Every run ----------

  /** The states that a sequence of actions leads through, in any interleaving. */
  ghost predicate Run(states: seq<State>, actions: seq<Action>, threads: nat) {
    && |states| == |actions| + 1
    && states[0] == Start(threads)
    && (forall i :: 0 <= i < |actions| ==> Enabled(states[i], actions[i]) && states[i + 1] == Do(states[i], actions[i]))
  }

  lemma {:induction false} RunInv(states: seq<State>, actions: seq<Action>, threads: nat, k: nat)
    requires Run(states, actions, threads) && k < |states|
    ensures Inv(states[k])
    decreases k
  {
    if k == 0 {
      StartInv(threads);
    } else {
      RunInv(states, actions, threads, k - 1);
      Step(states[k - 1], actions[k - 1]);
    }
  }

  ghost predicate OpenAt(s: State, h: Handle) {
    h in s.recs && s.recs[h].phase == Open
  }

  /** A set flag of an open handle always has the descriptor readable, a sender about to make it so, or
      the loop about to take the flag. */
  lemma PendingOnItsWay(states: seq<State>, actions: seq<Action>, threads: nat, k: nat, h: Handle)
    requires Run(states, actions, threads) && k < |states| && OpenAt(states[k], h) && states[k].recs[h].pending
    ensures states[k].readable || WriterOf(states[k].senders, h) || Due(states[k], h)
  {
    RunInv(states, actions, threads, k);
    assert RecOk(states[k], h);
  }

  /** When the loop sleeps and no sender is under way, no open handle has an undelivered send: each rise of
      its flag was followed by one callback. */
  lemma NothingLostAtRest(states: seq<State>, actions: seq<Action>, threads: nat, k: nat, h: Handle)
    requires Run(states, actions, threads) && k < |states| && OpenAt(states[k], h)
    requires var s := states[k];
             s.loop == Polling && !s.readable && forall t :: 0 <= t < |s.senders| ==> !s.senders[t].Writing?
    ensures !states[k].recs[h].pending && states[k].recs[h].raised == states[k].recs[h].delivered
  {
    RunInv(states, actions, threads, k);
    assert RecOk(states[k], h);
  }

  /** What one step does to a set flag: it stays, or the callback takes it, or the handle is closed. */
  lemma FlagStep(s: State, a: Action, h: Handle)
    requires Inv(s) && Enabled(s, a) && h in s.recs
    ensures var s' := Do(s, a);
            && h in s'.recs && s'.recs[h].delivered >= s.recs[h].delivered
            && (OpenAt(s, h) && s.recs[h].pending && OpenAt(s', h) ==>
                  s'.recs[h].pending || s'.recs[h].delivered == s.recs[h].delivered + 1)
            && (OpenAt(s', h) ==> OpenAt(s, h))
  {
  }

  /** The action completes a send on `h`: it finds the flag set, or sets it. */
  predicate Sends(s: State, a: Action, h: Handle) {
    (a.Check? && a.h == h && h in s.recs && s.recs[h].pending)
    || (a.Exchange? && AtSender(s, a.t) && s.senders[a.t] == Entered(h))
  }

  /** There was a callback since the `sent`-th, or one is due, unless the handle is closed. */
  ghost predicate Answered(s: State, h: Handle, sent: nat) {
    && h in s.recs && s.recs[h].delivered >= sent
    && (OpenAt(s, h) ==> s.recs[h].pending || s.recs[h].delivered > sent)
  }

  lemma AnsweredStart(s: State, a: Action, h: Handle)
    requires Inv(s) && Enabled(s, a) && Sends(s, a, h)
    ensures h in s.recs && Answered(Do(s, a), h, s.recs[h].delivered)
  {
  }

  lemma AnsweredStep(s: State, a: Action, h: Handle, sent: nat)
    requires Inv(s) && Enabled(s, a) && Answered(s, h, sent)
    ensures Answered(Do(s, a), h, sent)
  {
    FlagStep(s, a, h);
  }

  /** A send is answered: as long as the handle stays open, its callback has started since, or the flag is
      still set (and then on its way, by `PendingOnItsWay`). */
  lemma {:induction false} SendAnswered(states: seq<State>, actions: seq<Action>, threads: nat, j: nat, k: nat, h: Handle)
    requires Run(states, actions, threads) && j < k < |states| && Sends(states[j], actions[j], h)
    ensures h in states[j].recs && h in states[k].recs
    ensures states[k].recs[h].delivered >= states[j].recs[h].delivered
    ensures OpenAt(states[k], h) ==> states[k].recs[h].pending || states[k].recs[h].delivered > states[j].recs[h].delivered
    decreases k
  {
    if j + 1 == k {
      AnsweredFirst(states, actions, threads, j, h);
    } else {
      SendAnswered(states, actions, threads, j, k - 1, h);
      AnsweredNext(states, actions, threads, k - 1, h, states[j].recs[h].delivered);
    }
  }

  lemma AnsweredFirst(states: seq<State>, actions: seq<Action>, threads: nat, j: nat, h: Handle)
    requires Run(states, actions, threads) && j < |actions| && Sends(states[j], actions[j], h)
    ensures h in states[j].recs && Answered(states[j + 1], h, states[j].recs[h].delivered)
  {
    RunInv(states, actions, threads, j);
    AnsweredStart(states[j], actions[j], h);
  }

  lemma AnsweredNext(states: seq<State>, actions: seq<Action>, threads: nat, i: nat, h: Handle, sent: nat)
    requires Run(states, actions, threads) && i < |actions| && Answered(states[i], h, sent)
    ensures Answered(states[i + 1], h, sent)
  {
    RunInv(states, actions, threads, i);
    AnsweredStep(states[i], actions[i], h, sent);
  }

  // ---------- The descriptor, and the loop's way to rest ----------

  /** The descriptor was written at step `i`, and not read since. */
  ghost predicate Unread(actions: seq<Action>, i: nat, k: nat) {
    i < k <= |actions| && actions[i].Write? && forall m :: i < m < k ==> !actions[m].Read?
  }

  ghost predicate SomeUnread(actions: seq<Action>, k: nat) {
    exists i: nat :: Unread(actions, i, k)
  }

  /** The descriptor is readable exactly when it was written after it was last read. */
  lemma {:induction false} ReadableExactly(states: seq<State>, actions: seq<Action>, threads: nat, k: nat)
    requires Run(states, actions, threads) && k < |states|
    ensures states[k].readable <==> SomeUnread(actions, k)
    decreases k
  {
    if k > 0 {
      ReadableExactly(states, actions, threads, k - 1);
      UnreadNext(actions, k - 1, k);
      assert Enabled(states[k - 1], actions[k - 1]) && states[k - 1 + 1] == Do(states[k - 1], actions[k - 1]);
    }
  }

  lemma UnreadNext(actions: seq<Action>, k: nat, n: nat)
    requires n == k + 1 <= |actions|
    ensures SomeUnread(actions, n) == (actions[k].Write? || (!actions[k].Read? && SomeUnread(actions, k)))
  {
    if SomeUnread(actions, n) {
      var i: nat :| Unread(actions, i, n);
      if i < k { assert Unread(actions, i, k); }
    }
    if actions[k].Write? {
      assert Unread(actions, k, n);
    } else if !actions[k].Read? && SomeUnread(actions, k) {
      var i: nat :| Unread(actions, i, k);
      assert Unread(actions, i, n);
    }
  }

  /** Between two reads there is a write: the loop is not woken again for what it has read. */
  lemma ReadsNeedWrites(states: seq<State>, actions: seq<Action>, threads: nat, j: nat, k: nat)
    requires Run(states, actions, threads) && j < k < |actions| && actions[j].Read? && actions[k].Read?
    ensures exists i :: j < i < k && actions[i].Write?
  {
    ReadableExactly(states, actions, threads, k);
    assert Enabled(states[k], actions[k]);
    var i: nat :| Unread(actions, i, k);
  }

  /** The sender raises the flag, so that it is the one to write. */
  predicate Raises(s: State, a: Action) {
    a.Exchange? && AtSender(s, a.t) && s.senders[a.t].Entered?
    && s.senders[a.t].h in s.recs && !s.recs[s.senders[a.t].h].pending
  }

  predicate Writes(s: State, a: Action) {
    a.Write?
  }

  function Writers(senders: seq<Sender>): nat {
    if senders == [] then 0 else Writers(senders[..|senders| - 1]) + if senders[|senders| - 1].Writing? then 1 else 0
  }

  lemma {:induction false} WritersSet(senders: seq<Sender>, t: nat, pc: Sender)
    requires t < |senders|
    ensures Writers(senders[t := pc])
            == Writers(senders) - (if senders[t].Writing? then 1 else 0) + (if pc.Writing? then 1 else 0)
    decreases |senders|
  {
    var n := |senders| - 1;
    if t == n {
      assert senders[t := pc][..n] == senders[..n];
    } else {
      WritersSet(senders[..n], t, pc);
      assert senders[t := pc][..n] == senders[..n][t := pc];
    }
  }

  lemma {:induction false} NoWriters(senders: seq<Sender>)
    requires forall t :: 0 <= t < |senders| ==> senders[t] == Outside
    ensures Writers(senders) == 0
    decreases |senders|
  {
    if senders != [] { NoWriters(senders[..|senders| - 1]); }
  }

  lemma WritersStep(s: State, a: Action)
    requires Enabled(s, a)
    ensures Writers(Do(s, a).senders) + (if Writes(s, a) then 1 else 0) == Writers(s.senders) + if Raises(s, a) then 1 else 0
  {
    match a
    case Check(t, h) => WritersSet(s.senders, t, Checked(h));
    case Enter(t) => WritersSet(s.senders, t, Entered(s.senders[t].h));
    case Exchange(t) =>
      WritersSet(s.senders, t, Leaving(s.senders[t].h));
      WritersSet(s.senders, t, Writing(s.senders[t].h));
    case Write(t) => WritersSet(s.senders, t, Leaving(s.senders[t].h));
    case Leave(t) => WritersSet(s.senders, t, Outside);
    case _ =>
  }

  /** Each rise of a flag leads to one write, and nothing else does: of all sends that find the flag down at the
      same time only one wakes the loop. */
  lemma {:induction false} OneWriteEach(states: seq<State>, actions: seq<Action>, threads: nat, k: nat)
    requires Run(states, actions, threads) && k < |states|
    ensures Times(states, actions, 0, k, Writes) + Writers(states[k].senders) == Times(states, actions, 0, k, Raises)
    decreases k
  {
    if k == 0 {
      NoWriters(states[0].senders);
    } else {
      OneWriteEach(states, actions, threads, k - 1);
      WritersStep(states[k - 1], actions[k - 1]);
    }
  }

  /** A step of the loop that is no user code. */
  predicate OfLoop(s: State, a: Action) {
    a.Read? || a.Move? || a.Next? || a.Fetch? || a.Return?
  }

  /** How many steps the loop has to go until it sleeps. */
  function ToRest(s: State): nat {
    (match s.loop
     case Polling => 0
     case Drained => 3 * |s.handles| + 2
     case Walking => 3 * |s.queue| + 1
     case Visiting(_) => 3 * |s.queue| + 3
     case InCallback(_) => 3 * |s.queue| + 2)
    + if s.readable then 3 * (|s.handles| + |s.queue|) + 3 else 0
  }

  lemma {:induction false} WithoutLength(s: seq<Handle>, h: Handle)
    ensures |Without(s, h)| <= |s|
  {
    if s != [] && s[0] != h { WithoutLength(s[1..], h); }
  }

  lemma RestStep(s: State, a: Action)
    requires Links(s) && Enabled(s, a) && !a.Write? && !a.Init?
    ensures ToRest(Do(s, a)) + (if OfLoop(s, a) then 1 else 0) <= ToRest(s)
  {
    match a
    case Unlink(h) =>
      WithoutLength(s.handles, h);
      WithoutLength(s.queue, h);
    case _ =>
  }

  lemma RestNext(states: seq<State>, actions: seq<Action>, threads: nat, i: nat)
    requires Run(states, actions, threads) && i < |actions| && !actions[i].Write? && !actions[i].Init?
    ensures ToRest(states[i + 1]) + (if OfLoop(states[i], actions[i]) then 1 else 0) <= ToRest(states[i])
  {
    RunInv(states, actions, threads, i);
    RestStep(states[i], actions[i]);
  }

  /** While nothing is written the loop takes no more steps than one more reading and walking needs; then it sleeps,
      as the descriptor is not readable. */
  lemma LoopRests(states: seq<State>, actions: seq<Action>, threads: nat, j: nat, k: nat)
    requires Run(states, actions, threads) && j <= k < |states|
    requires forall i :: j <= i < k ==> !actions[i].Write? && !actions[i].Init?
    ensures ToRest(states[k]) + Times(states, actions, j, k, OfLoop) <= ToRest(states[j])
    ensures ToRest(states[k]) == 0 <==> states[k].loop == Polling && !states[k].readable
  {
    forall i | j <= i < k
      ensures ToRest(states[i + 1]) + (if OfLoop(states[i], actions[i]) then 1 else 0) <= ToRest(states[i])
    {
      RestNext(states, actions, threads, i);
    }
    Falling(states, actions, ToRest, OfLoop, j, k);
  }

  /** Until it sleeps the loop always has a step, unless a handle is being closed. */
  lemma LoopGoesOn(s: State) returns (a: Action)
    requires Inv(s) && !Closing(s) && ToRest(s) > 0
    ensures Enabled(s, a) && OfLoop(s, a)
  {
    a := match s.loop
      case Polling => Read
      case Drained => Move
      case Walking => Next
      case Visiting(_) => Fetch
      case InCallback(_) => Return;
  }

  // ---------- The order of visits ----------

  predicate Visits(s: State, a: Action) {
    a.Next?
  }

  function Walk(s: State): seq<Handle> {
    s.queue
  }

  lemma WalkForward(s: State, a: Action, h: Handle)
    requires Links(s) && Enabled(s, a)
    ensures h in s.queue && h in Do(s, a).queue ==> Forward(s.queue, Do(s, a).queue, h, if a.Next? then 1 else 0)
    ensures h in s.handles && h in Do(s, a).handles ==> Forward(s.handles, Do(s, a).handles, h, 0)
  {
    match a
    case Init(g) =>
      if h in s.handles { IndexAppend(s.handles, h, [g]); }
    case Next =>
      if s.queue != [] {
        assert s.queue == [s.queue[0]] + s.queue[1..];
        if h in s.handles { IndexAppend(s.handles, h, [s.queue[0]]); }
      }
    case Unlink(g) =>
      WithoutNoDup(s.queue, g);
      WithoutNoDup(s.handles, g);
      if h in s.queue && h != g { IndexWithout(s.queue, h, g); }
      if h in s.handles && h != g { IndexWithout(s.handles, h, g); }
    case _ =>
  }

  lemma WalkNext(states: seq<State>, actions: seq<Action>, threads: nat, i: nat, h: Handle)
    requires Run(states, actions, threads) && i < |actions| && h in states[i].queue && h in states[i + 1].queue
    ensures Forward(Walk(states[i]), Walk(states[i + 1]), h, if Visits(states[i], actions[i]) then 1 else 0)
  {
    RunInv(states, actions, threads, i);
    WalkForward(states[i], actions[i], h);
  }

  /** A walk visits the handles in their order: each has its turn after as many visits as there are handles before
      it, whatever is opened or closed meanwhile. */
  lemma VisitsInOrder(states: seq<State>, actions: seq<Action>, threads: nat, j: nat, k: nat, h: Handle)
    requires Run(states, actions, threads) && j <= k < |states| && forall i :: j <= i <= k ==> h in states[i].queue
    ensures Index(states[k].queue, h) + Times(states, actions, j, k, Visits) <= Index(states[j].queue, h)
  {
    forall i | j <= i < k
      ensures Forward(Walk(states[i]), Walk(states[i + 1]), h, if Visits(states[i], actions[i]) then 1 else 0)
    {
      WalkNext(states, actions, threads, i, h);
    }
    InOrder(states, actions, Walk, Visits, h, j, k);
  }

  // ---------- Closing ----------

  ghost predicate ClosedAt(s: State, h: Handle) {
    h in s.recs && s.recs[h].phase == Closed
  }

  lemma {:induction false} StaysClosed(states: seq<State>, actions: seq<Action>, threads: nat, j: nat, k: nat, h: Handle)
    requires Run(states, actions, threads) && j <= k < |states| && ClosedAt(states[j], h)
    ensures ClosedAt(states[k], h)
    decreases k
  {
    if j < k {
      StaysClosed(states, actions, threads, j, k - 1, h);
    }
  }

  /** Once the spin for a handle is over, no sender ever writes for it again and its callback never runs
      again, although senders may still be at any other point of a send. */
  lemma QuietAfterSpin(states: seq<State>, actions: seq<Action>, threads: nat, j: nat, k: nat, h: Handle)
    requires Run(states, actions, threads) && j < k < |actions| && actions[j] == SpinOver(h)
    ensures !(actions[k].Write? && states[k].senders[actions[k].t].h == h)
    ensures states[k].loop != Visiting(h) && ClosedAt(states[k], h) && states[k].recs[h].pending
  {
    StaysClosed(states, actions, threads, j + 1, k, h);
    RunInv(states, actions, threads, k);
    assert RecOk(states[k], h);
  }

  /** The closer waits for senders only, and each of them can always go on. */
  lemma SpinEnds(s: State, h: Handle) returns (a: Action)
    requires Inv(s) && h in s.recs && s.recs[h].phase == Spinning
    ensures Enabled(s, a) && (a == SpinOver(h) || a.Exchange? || a.Write? || a.Leave?)
  {
    assert RecOk(s, h);
    if s.recs[h].busy == 0 {
      a := SpinOver(h);
    } else {
      var t := SomeoneInside(s.senders, h);
      a := if s.senders[t].Entered? then Exchange(t) else if s.senders[t].Writing? then Write(t) else Leave(t);
    }
  }

  lemma SomeoneInside(senders: seq<Sender>, h: Handle) returns (t: nat)
    requires Busy(senders, h) > 0
    ensures t < |senders| && Inside(senders[t], h)
  {
    if forall u :: 0 <= u < |senders| ==> !Inside(senders[u], h) {
      BusyNone(senders, h);
    }
    t :| t < |senders| && Inside(senders[t], h);
  }
}
