/** The fallback barrier as a protocol: any number of threads that pass through it again and again.
    A step is what a thread does while it holds the mutex, or a wakeup. */
module Barrier {
  import opened Runs

  /** Where a thread is: outside; asleep or awake before it is counted, because the previous cycle is still
      being left; asleep or awake after it was counted in a cycle. An awake thread wants the mutex. */
  datatype Pc = Outside | GateWait | GateAwake | Asleep(cycle: nat) | Awake(cycle: nat)

  /** A return from the wait: of which cycle, and whether it returned 1. */
  datatype Return = Return(cycle: nat, last: bool)

  /** The barrier's fields, the threads, the number of cycles filled so far and all returns so far. */
  datatype State = State(pcs: seq<Pc>, inn: nat, out: nat, threshold: nat, cycle: nat, log: seq<Return>)

  datatype Action = Arrive(t: nat) | PassGate(t: nat) | Resume(t: nat) | Spurious(t: nat)

  predicate Enabled(s: State, a: Action) {
    a.t < |s.pcs| &&
    match a
    case Arrive(t) => s.pcs[t] == Outside
    case PassGate(t) => s.pcs[t] == GateAwake
    case Resume(t) => s.pcs[t].Awake?
    case Spurious(t) => s.pcs[t] == GateWait || s.pcs[t].Asleep?
  }

  function Wake(pc: Pc): Pc {
    match pc
    case GateWait => GateAwake
    case Asleep(c) => Awake(c)
    case _ => pc
  }

  /** A broadcast wakes every sleeper. */
  function WakeAll(pcs: seq<Pc>): seq<Pc> {
    seq(|pcs|, t requires 0 <= t < |pcs| => Wake(pcs[t]))
  }

  /** The end of a wait: the last one out wakes those at the gate. (`out` is unsigned; `ResumeReady` shows
      that it is never decremented at zero.) */
  function Leave(s: State, t: nat, c: nat): State
    requires t < |s.pcs|
  {
    var out := if s.out > 0 then s.out - 1 else 0;
    var pcs := s.pcs[t := Outside];
    s.(out := out, pcs := if out == 0 then WakeAll(pcs) else pcs, log := s.log + [Return(c, out == 0)])
  }

  /** From the gate on: sleep while the previous cycle is being left; otherwise be counted, and either fill
      the cycle and leave or sleep. */
  function Gate(s: State, t: nat): State
    requires t < |s.pcs|
  {
    if s.out != 0 then s.(pcs := s.pcs[t := GateWait])
    else if s.inn + 1 == s.threshold then
      Leave(s.(inn := 0, out := s.threshold, cycle := s.cycle + 1, pcs := WakeAll(s.pcs)), t, s.cycle)
    else s.(inn := s.inn + 1, pcs := s.pcs[t := Asleep(s.cycle)])
  }

  function Do(s: State, a: Action): State
    requires Enabled(s, a)
  {
    match a
    case Arrive(t) => Gate(s, t)
    case PassGate(t) => Gate(s, t)
    case Resume(t) => if s.inn != 0 then s.(pcs := s.pcs[t := Asleep(s.pcs[t].cycle)]) else Leave(s, t, s.pcs[t].cycle)
    case Spurious(t) => s.(pcs := s.pcs[t := Wake(s.pcs[t])])
  }

  function Init(threads: nat, threshold: nat): State {
    State(seq(threads, _ => Outside), 0, 0, threshold, 0, [])
  }

  // ---------- Counting ----------

  /** The thread was counted in the cycle `c` and has not left it. */
  predicate Within(pc: Pc, c: nat) {
    pc == Asleep(c) || pc == Awake(c)
  }

  function Count(pcs: seq<Pc>, c: nat): nat {
    if pcs == [] then 0 else Count(pcs[..|pcs| - 1], c) + if Within(pcs[|pcs| - 1], c) then 1 else 0
  }

  lemma {:induction false} CountSet(pcs: seq<Pc>, c: nat, t: nat, pc: Pc)
    requires t < |pcs|
    ensures Count(pcs[t := pc], c) == Count(pcs, c) - (if Within(pcs[t], c) then 1 else 0) + (if Within(pc, c) then 1 else 0)
    ensures Within(pcs[t], c) ==> Count(pcs, c) > 0
    decreases |pcs|
  {
    var n := |pcs| - 1;
    if t == n {
      assert pcs[t := pc][..n] == pcs[..n];
    } else {
      CountSet(pcs[..n], c, t, pc);
      assert pcs[t := pc][..n] == pcs[..n][t := pc];
    }
  }

  lemma {:induction false} CountWake(pcs: seq<Pc>, c: nat)
    ensures Count(WakeAll(pcs), c) == Count(pcs, c)
    decreases |pcs|
  {
    if pcs != [] {
      CountWake(pcs[..|pcs| - 1], c);
      assert WakeAll(pcs)[..|pcs| - 1] == WakeAll(pcs[..|pcs| - 1]);
    }
  }

  lemma {:induction false} CountNone(pcs: seq<Pc>, c: nat)
    ensures Count(pcs, c) == 0 <==> forall t :: 0 <= t < |pcs| ==> !Within(pcs[t], c)
    decreases |pcs|
  {
    if pcs != [] {
      CountNone(pcs[..|pcs| - 1], c);
    }
  }

  /** The returns from the cycle `c`, and those among them that returned 1. */
  function Returns(log: seq<Return>, c: nat): nat {
    if log == [] then 0 else Returns(log[..|log| - 1], c) + if log[|log| - 1].cycle == c then 1 else 0
  }

  function Ones(log: seq<Return>, c: nat): nat {
    if log == [] then 0 else Ones(log[..|log| - 1], c) + if log[|log| - 1] == Return(c, true) then 1 else 0
  }

  lemma LogPush(log: seq<Return>, r: Return, c: nat)
    ensures Returns(log + [r], c) == Returns(log, c) + if r.cycle == c then 1 else 0
    ensures Ones(log + [r], c) == Ones(log, c) + if r == Return(c, true) then 1 else 0
  {
    assert (log + [r])[..|log|] == log;
  }

  // ---------- The invariant ----------

  /** `in` counts the threads of the cycle being filled, `out` those still to leave the cycle before it, and
      there are no others inside. */
  ghost predicate Counters(s: State) {
    && 0 <= s.inn < s.threshold
    && s.inn == Count(s.pcs, s.cycle)
    && (s.cycle > 0 ==> s.out == Count(s.pcs, s.cycle - 1))
    && (s.cycle == 0 ==> s.out == 0)
    && (forall t :: 0 <= t < |s.pcs| && (s.pcs[t].Asleep? || s.pcs[t].Awake?) ==>
          s.pcs[t].cycle == s.cycle || s.pcs[t].cycle + 1 == s.cycle)
    && (s.inn > 0 ==> s.out == 0)
  }

  /** Nobody sleeps whom the barrier should have woken. */
  ghost predicate Wakeups(s: State) {
    && (forall t :: 0 <= t < |s.pcs| && s.pcs[t] == GateWait ==> s.out > 0)
    && (forall t :: 0 <= t < |s.pcs| && s.pcs[t].Asleep? ==> s.pcs[t].cycle == s.cycle)
  }

  /** Every filled cycle is left by as many threads as filled it, and the last of them alone returns 1. */
  ghost predicate LogOk(s: State) {
    && (forall c: nat :: c >= s.cycle ==> Returns(s.log, c) == 0 && Ones(s.log, c) == 0)
    && (forall c: nat :: c + 1 < s.cycle ==> Returns(s.log, c) == s.threshold && Ones(s.log, c) == 1)
    && (s.cycle > 0 ==>
          Returns(s.log, s.cycle - 1) == s.threshold - s.out && Ones(s.log, s.cycle - 1) == if s.out == 0 then 1 else 0)
  }

  ghost predicate Inv(s: State) {
    s.threshold > 0 && Counters(s) && Wakeups(s) && LogOk(s)
  }

  lemma InitInv(threads: nat, threshold: nat)
    requires threshold > 0
    ensures Inv(Init(threads, threshold))
  {
    CountNone(Init(threads, threshold).pcs, 0);
  }

  /** A thread that finds `in` at zero belongs to the cycle that is being left. */
  lemma ResumeReady(s: State, t: nat)
    requires Inv(s) && t < |s.pcs| && s.pcs[t].Awake?
    ensures s.inn == 0 <==> s.pcs[t].cycle + 1 == s.cycle
    ensures s.inn == 0 ==> s.out > 0
  {
    CountSet(s.pcs, s.pcs[t].cycle, t, Outside);
  }

  /** Leaving the cycle before the current one. */
  lemma LeaveInv(s: State, t: nat)
    requires s.threshold > 0 && Counters(s) && Wakeups(s) && LogOk(s) && s.inn == 0
    requires t < |s.pcs| && s.cycle > 0 && s.pcs[t] == Awake(s.cycle - 1)
    ensures s.out > 0 && Inv(Leave(s, t, s.cycle - 1))
  {
    var c := s.cycle - 1;
    CountSet(s.pcs, c, t, Outside);
    CountSet(s.pcs, s.cycle, t, Outside);
    var s' := Leave(s, t, c);
    var pcs := s.pcs[t := Outside];
    CountWake(pcs, c);
    CountWake(pcs, s.cycle);
    forall d: nat ensures Returns(s'.log, d) == Returns(s.log, d) + if d == c then 1 else 0 {
      LogPush(s.log, Return(c, s'.out == 0), d);
    }
    forall d: nat ensures Ones(s'.log, d) == Ones(s.log, d) + if d == c && s'.out == 0 then 1 else 0 {
      LogPush(s.log, Return(c, s'.out == 0), d);
    }
  }

  /** The moment a cycle is filled, with the filling thread counted like the others. */
  function Filled(s: State, t: nat): State
    requires t < |s.pcs|
  {
    s.(inn := 0, out := s.threshold, cycle := s.cycle + 1, pcs := WakeAll(s.pcs)[t := Awake(s.cycle)])
  }

  lemma FilledOk(s: State, t: nat)
    requires Inv(s) && t < |s.pcs| && (s.pcs[t] == Outside || s.pcs[t] == GateAwake)
    requires s.out == 0 && s.inn + 1 == s.threshold
    ensures Counters(Filled(s, t)) && Wakeups(Filled(s, t)) && LogOk(Filled(s, t))
  {
    var pcs := WakeAll(s.pcs);
    CountWake(s.pcs, s.cycle);
    CountWake(s.pcs, s.cycle + 1);
    CountNone(s.pcs, s.cycle + 1);
    CountSet(pcs, s.cycle, t, Awake(s.cycle));
    CountSet(pcs, s.cycle + 1, t, Awake(s.cycle));
    if s.cycle > 0 {
      CountNone(s.pcs, s.cycle - 1);
    }
  }

  /** The thread that fills a cycle is, like the others, one of those that leave it. */
  lemma FillInv(s: State, t: nat)
    requires Inv(s) && t < |s.pcs| && (s.pcs[t] == Outside || s.pcs[t] == GateAwake)
    requires s.out == 0 && s.inn + 1 == s.threshold
    ensures Inv(Gate(s, t))
  {
    FilledOk(s, t);
    LeaveInv(Filled(s, t), t);
    FillIsLeave(s, t);
  }

  lemma FillIsLeave(s: State, t: nat)
    requires t < |s.pcs| && s.out == 0 && s.inn + 1 == s.threshold
    ensures Gate(s, t) == Leave(Filled(s, t), t, s.cycle)
  {
    assert Filled(s, t).pcs[t := Outside] == WakeAll(s.pcs)[t := Outside];
  }

  lemma GateInv(s: State, t: nat)
    requires Inv(s) && t < |s.pcs| && (s.pcs[t] == Outside || s.pcs[t] == GateAwake)
    ensures Inv(Gate(s, t))
  {
    if s.out == 0 && s.inn + 1 == s.threshold {
      FillInv(s, t);
    } else {
      var pc := if s.out != 0 then GateWait else Asleep(s.cycle);
      CountSet(s.pcs, s.cycle, t, pc);
      if s.cycle > 0 {
        CountSet(s.pcs, s.cycle - 1, t, pc);
      }
    }
  }

  lemma Step(s: State, a: Action)
    requires Inv(s) && Enabled(s, a)
    ensures a.Resume? && s.inn == 0 ==> s.out > 0
    ensures Inv(Do(s, a)) && |Do(s, a).pcs| == |s.pcs| && Do(s, a).threshold == s.threshold
  {
    match a
    case Arrive(t) => GateInv(s, t);
    case PassGate(t) => GateInv(s, t);
    case Resume(t) =>
      ResumeReady(s, t);
      if s.inn == 0 {
        LeaveInv(s, t);
      } else {
        Slept(s, t, Asleep(s.cycle));
      }
    case Spurious(t) => Slept(s, t, Wake(s.pcs[t]));
  }

  /** Falling asleep again in the same cycle, or waking without reason, changes no count. */
  lemma Slept(s: State, t: nat, pc: Pc)
    requires Inv(s) && t < |s.pcs|
    requires pc == Wake(s.pcs[t]) || (s.pcs[t] == Awake(s.cycle) && pc == Asleep(s.cycle))
    ensures Inv(s.(pcs := s.pcs[t := pc]))
  {
    CountSet(s.pcs, s.cycle, t, pc);
    if s.cycle > 0 {
      CountSet(s.pcs, s.cycle - 1, t, pc);
    }
  }

  // ---------- Every run ----------

  /** The states that a sequence of actions leads through, in any interleaving. */
  ghost predicate Run(states: seq<State>, actions: seq<Action>, threads: nat, threshold: nat) {
    && |states| == |actions| + 1 && threshold > 0
    && states[0] == Init(threads, threshold)
    && (forall i :: 0 <= i < |actions| ==> Enabled(states[i], actions[i]) && states[i + 1] == Do(states[i], actions[i]))
  }

  lemma {:induction false} RunInv(states: seq<State>, actions: seq<Action>, threads: nat, threshold: nat, k: nat)
    requires Run(states, actions, threads, threshold) && k < |states|
    ensures Inv(states[k]) && |states[k].pcs| == threads && states[k].threshold == threshold
    decreases k
  {
    if k == 0 {
      InitInv(threads, threshold);
    } else {
      RunInv(states, actions, threads, threshold, k - 1);
      Step(states[k - 1], actions[k - 1]);
    }
  }

  /** A thread leaves only a cycle that `threshold` threads have entered, and is counted in a new one, or fills
      it, only when all of them have left the previous one. */
  lemma PhasesSeparate(states: seq<State>, actions: seq<Action>, threads: nat, threshold: nat, k: nat, t: nat)
    requires Run(states, actions, threads, threshold) && k < |actions| && t < threads
    ensures Inv(states[k])
    ensures var s, s' := states[k], states[k + 1];
            && |s.pcs| == |s'.pcs| == threads
            && ((s.pcs[t].Asleep? || s.pcs[t].Awake?) && s'.pcs[t] == Outside ==>
                  s.pcs[t].cycle < s.cycle && s'.log == s.log + [Return(s.pcs[t].cycle, s'.out == 0)])
            && (s'.pcs[t].Asleep? && !s.pcs[t].Asleep? && !s.pcs[t].Awake? ==>
                  s'.pcs[t].cycle == s.cycle && (s.cycle > 0 ==> Returns(s.log, s.cycle - 1) == threshold))
            && (s'.cycle > s.cycle ==> s.inn + 1 == threshold && (s.cycle > 0 ==> Returns(s.log, s.cycle - 1) == threshold))
  {
    RunInv(states, actions, threads, threshold, k);
    RunInv(states, actions, threads, threshold, k + 1);
    if actions[k].Resume? {
      ResumeReady(states[k], actions[k].t);
    }
  }

  /** In every reachable state, of each cycle that all its threads have left exactly one returned 1, and of
      the cycle being left none has yet. */
  lemma OneSerialThread(states: seq<State>, actions: seq<Action>, threads: nat, threshold: nat, k: nat, c: nat)
    requires Run(states, actions, threads, threshold) && k < |states|
    ensures Returns(states[k].log, c) <= threshold
    ensures Ones(states[k].log, c) == if Returns(states[k].log, c) == threshold then 1 else 0
    ensures Returns(states[k].log, c) > 0 ==> c < states[k].cycle
  {
    RunInv(states, actions, threads, threshold, k);
    var s := states[k];
    if c + 1 == s.cycle {
      assert Returns(s.log, s.cycle - 1) == threshold - s.out;
    }
  }

  /** No wakeup is lost: with `threshold` threads inside the wait there is always one that can go on without
      a spurious wakeup, and it is not put back to sleep. */
  lemma SomeoneGoesOn(s: State) returns (a: Action)
    requires Inv(s) && Inside(s.pcs) >= s.threshold
    ensures Enabled(s, a) && (a.PassGate? || (a.Resume? && (s.inn == 0 || s.pcs[a.t].cycle == s.cycle)))
    ensures a.Resume? ==> s.inn == 0
    ensures a.PassGate? ==> s.out == 0
  {
    if s.out > 0 {
      CountNone(s.pcs, s.cycle - 1);
      var t :| 0 <= t < |s.pcs| && Within(s.pcs[t], s.cycle - 1);
      a := Resume(t);
    } else {
      if s.cycle > 0 { CountNone(s.pcs, s.cycle - 1); }
      if forall t :: 0 <= t < |s.pcs| ==> s.pcs[t] != GateAwake {
        InsideCounted(s.pcs, s.cycle);
      }
      var t :| 0 <= t < |s.pcs| && s.pcs[t] == GateAwake;
      a := PassGate(t);
    }
  }

  /** How many threads are inside the wait. */
  function Inside(pcs: seq<Pc>): nat {
    if pcs == [] then 0 else Inside(pcs[..|pcs| - 1]) + if pcs[|pcs| - 1] == Outside then 0 else 1
  }

  lemma {:induction false} InsideCounted(pcs: seq<Pc>, c: nat)
    requires forall t :: 0 <= t < |pcs| ==> pcs[t] == Outside || Within(pcs[t], c)
    ensures Inside(pcs) == Count(pcs, c)
    decreases |pcs|
  {
    if pcs != [] {
      InsideCounted(pcs[..|pcs| - 1], c);
    }
  }

  // ---------- Nobody gets lost ----------

  lemma {:induction false} InsideSet(pcs: seq<Pc>, t: nat, pc: Pc)
    requires t < |pcs|
    ensures Inside(pcs[t := pc]) == Inside(pcs) - (if pcs[t] == Outside then 0 else 1) + (if pc == Outside then 0 else 1)
    decreases |pcs|
  {
    var n := |pcs| - 1;
    if t == n {
      assert pcs[t := pc][..n] == pcs[..n];
    } else {
      InsideSet(pcs[..n], t, pc);
      assert pcs[t := pc][..n] == pcs[..n][t := pc];
    }
  }

  lemma {:induction false} InsideWake(pcs: seq<Pc>)
    ensures Inside(WakeAll(pcs)) == Inside(pcs)
    decreases |pcs|
  {
    if pcs != [] {
      InsideWake(pcs[..|pcs| - 1]);
      assert WakeAll(pcs)[..|pcs| - 1] == WakeAll(pcs[..|pcs| - 1]);
    }
  }

  lemma LeaveInside(s: State, t: nat, c: nat)
    requires t < |s.pcs|
    ensures var l := Leave(s, t, c);
            |l.log| == |s.log| + 1 && Inside(l.pcs) == Inside(s.pcs) - if s.pcs[t] == Outside then 0 else 1
  {
    InsideSet(s.pcs, t, Outside);
    InsideWake(s.pcs[t := Outside]);
  }

  lemma GateInside(s: State, t: nat)
    requires t < |s.pcs|
    ensures var g := Gate(s, t); |g.log| + Inside(g.pcs) == |s.log| + Inside(s.pcs) + if s.pcs[t] == Outside then 1 else 0
  {
    InsideSet(s.pcs, t, GateWait);
    InsideSet(s.pcs, t, Asleep(s.cycle));
    if s.out == 0 && s.inn + 1 == s.threshold {
      InsideWake(s.pcs);
      LeaveInside(s.(inn := 0, out := s.threshold, cycle := s.cycle + 1, pcs := WakeAll(s.pcs)), t, s.cycle);
    }
  }

  predicate Arrives(s: State, a: Action) {
    a.Arrive?
  }

  lemma StepInside(s: State, a: Action)
    requires Enabled(s, a)
    ensures var s' := Do(s, a); |s'.log| + Inside(s'.pcs) == |s.log| + Inside(s.pcs) + if Arrives(s, a) then 1 else 0
  {
    match a
    case Arrive(t) => GateInside(s, t);
    case PassGate(t) => GateInside(s, t);
    case Resume(t) =>
      InsideSet(s.pcs, t, Asleep(s.pcs[t].cycle));
      LeaveInside(s, t, s.pcs[t].cycle);
    case Spurious(t) => InsideSet(s.pcs, t, Wake(s.pcs[t]));
  }

  lemma {:induction false} NoneInside(pcs: seq<Pc>)
    requires forall t :: 0 <= t < |pcs| ==> pcs[t] == Outside
    ensures Inside(pcs) == 0
    decreases |pcs|
  {
    if pcs != [] { NoneInside(pcs[..|pcs| - 1]); }
  }

  /** In every run each arrival is still inside or has led to one return. */
  lemma {:induction false} ArrivalsReturn(states: seq<State>, actions: seq<Action>, threads: nat, threshold: nat, k: nat)
    requires Run(states, actions, threads, threshold) && k < |states|
    ensures Times(states, actions, 0, k, Arrives) == |states[k].log| + Inside(states[k].pcs)
    decreases k
  {
    if k == 0 {
      NoneInside(states[0].pcs);
    } else {
      ArrivalsReturn(states, actions, threads, threshold, k - 1);
      StepInside(states[k - 1], actions[k - 1]);
    }
  }
}
