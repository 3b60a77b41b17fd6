/** Timers as values: what is armed and for when, and what each operation and each callback makes of it. */
module TimerBooks {
  import opened Heaps

  const U64: nat := 0x1_0000_0000_0000_0000
  const INT_MAX: nat := 0x7fff_ffff

  /** When a timer fires; timers with the same timeout fire in the order they were started. */
  datatype Deadline = Deadline(timeout: nat, startId: nat)

  predicate LessThan(a: Deadline, b: Deadline) {
    if a.timeout < b.timeout then true
    else if b.timeout < a.timeout then false
    else a.startId < b.startId
  }

  lemma LessThanIsWeak()
    ensures WeakOrder(LessThan)
  {
  }

  /** The heap may be used with this comparison, and it tells apart any two different deadlines. */
  lemma LessThanIsStrictTotal()
    ensures WeakOrder(LessThan)
    ensures forall a, b :: a == b || LessThan(a, b) || LessThan(b, a)
  {
    forall a: Deadline, b: Deadline ensures a == b || LessThan(a, b) || LessThan(b, a) {
      assert a.timeout == b.timeout && a.startId == b.startId ==> a == b;
    }
  }

  type Timer = nat

  datatype Handle = Handle(hasCallback: bool, repeatEvery: nat, active: bool, closing: bool, ref: bool)

  datatype Error = Ok | EINVAL

  type Queue = map<Timer, Deadline>

  /** What a timer callback may do to the timers of its loop. */
  datatype Op =
    | Start(t: Timer, hasCallback: bool, timeout: nat, repeatEvery: nat)
    | Stop(t: Timer)
    | Again(t: Timer)
    | SetRepeat(t: Timer, repeatEvery: nat)
    | Close(t: Timer)
    | Ref(t: Timer)
    | Unref(t: Timer)

  /** The action is on an initialized timer, with arguments of 64 bits. */
  predicate Possible(op: Op, timers: set<Timer>) {
    op.t in timers
    && (op.Start? ==> op.timeout < U64 && op.repeatEvery < U64)
    && (op.SetRepeat? ==> op.repeatEvery < U64)
  }

  /** The action arms no timer that is already due. */
  predicate Quiet(op: Op) {
    op.Start? ==> op.timeout > 0
  }

  /** The action arms nothing and makes no timer repeat. */
  predicate Inert(op: Op) {
    op.Stop? || op.Close? || op.Ref? || op.Unref? || (op.SetRepeat? && op.repeatEvery == 0)
  }

  /** The action arms no timer that is already due: at the last instant of the clock every armed timer is. */
  predicate Harmless(op: Op, time: nat) {
    if time < U64 - 1 then Quiet(op) else Inert(op)
  }

  predicate AllHarmless(ops: seq<Op>, time: nat) {
    forall op :: op in ops ==> Harmless(op, time)
  }

  predicate AllPossible(ops: seq<Op>, timers: set<Timer>) {
    forall op :: op in ops ==> Possible(op, timers)
  }

  predicate Calm(script: seq<seq<Op>>, time: nat) {
    forall ops :: ops in script ==> AllHarmless(ops, time)
  }

  /** One firing: the timer, its deadline, and all that was armed when it was chosen. */
  datatype Firing = Firing(t: Timer, deadline: Deadline, queue: Queue)

  /** The chosen timer was due, and none that was armed came before it. */
  ghost predicate Rightful(f: Firing, time: nat) {
    && f.t in f.queue && f.queue[f.t] == f.deadline
    && f.deadline.timeout <= time
    && forall u :: u in f.queue ==> !LessThan(f.queue[u], f.deadline)
  }

  ghost function FiredTimers(fired: seq<Firing>): set<Timer> {
    set f | f in fired :: f.t
  }

  lemma FiredMore(fired: seq<Firing>)
    requires fired != []
    ensures var n := |fired| - 1; FiredTimers(fired) == FiredTimers(fired[..n]) + {fired[n].t}
  {
    var n := |fired| - 1;
    assert fired == fired[..n] + [fired[n]];
  }

  ghost function Referenced(handles: map<Timer, Handle>): set<Timer> {
    set t | t in handles && handles[t].active && handles[t].ref
  }

  /** Referencing or unreferencing a handle counts when it is active and the flag changes. */
  lemma ReferencedAfter(handles: map<Timer, Handle>, t: Timer, ref: bool)
    requires t in handles
    ensures var h, after := handles[t], Referenced(handles[t := handles[t].(ref := ref)]);
            |after| == |Referenced(handles)| + if !h.active || h.ref == ref then 0 else if ref then 1 else -1
  {
    var r, after := Referenced(handles), Referenced(handles[t := handles[t].(ref := ref)]);
    assert after == if ref && handles[t].active then r + {t} else r - {t};
    assert t in r <==> handles[t].active && handles[t].ref;
  }

  ghost function DueIn(q: Queue, time: nat): set<Timer> {
    set t | t in q && q[t].timeout <= time
  }

  /** How many of the timers that were due at first have been fired: at most all when callbacks arm nothing due,
      and just those that are not due now when the callbacks do nothing. */
  ghost predicate Progress(calm: bool, idle: bool, fired: seq<Firing>, due: set<Timer>, first: set<Timer>) {
    && (calm ==> |fired| + |due| <= |first|)
    && (idle ==> FiredTimers(fired) + due == first && |fired| + |due| == |first|)
  }

  lemma ProgressStep(calm: bool, idle: bool, fired: seq<Firing>, f: Firing, due: set<Timer>, left: set<Timer>, first: set<Timer>)
    requires Progress(calm, idle, fired, due, first) && f.t in due
    requires calm ==> left <= due - {f.t}
    requires idle ==> left == due - {f.t}
    ensures Progress(calm, idle, fired + [f], left, first)
  {
    Fewer(left, due, f.t);
    assert (fired + [f])[..|fired|] == fired;
    FiredMore(fired + [f]);
  }

  /** No armed timer repeats. */
  predicate NoneOf(handles: map<Timer, Handle>, q: Queue) {
    forall t :: t in handles && t in q ==> handles[t].repeatEvery == 0
  }

  /** A fired timer is armed again exactly when it repeats, so that what is armed and repeats is the same. */
  lemma FiredRepeats(handles: map<Timer, Handle>, q: Queue, after: map<Timer, Handle>, q': Queue, t: Timer)
    requires handles.Keys == after.Keys && q - {t} == q' - {t} && t in q && t in handles
    requires forall u :: u in handles ==> after[u].repeatEvery == handles[u].repeatEvery
    requires t in q' <==> handles[t].repeatEvery != 0
    ensures NoneOf(handles, q) <==> NoneOf(after, q')
  {
    forall u | u != t ensures u in q <==> u in q' {
      assert u in q - {t} <==> u in q' - {t};
    }
  }

  /** Taking a timer out, or arming it for later, takes just that timer off the due ones. */
  lemma RearmedDue(q: Queue, t: Timer, d: Deadline, time: nat)
    ensures DueIn(q - {t}, time) == DueIn(q, time) - {t}
    ensures d.timeout > time ==> DueIn((q - {t})[t := d], time) == DueIn(q, time) - {t}
    ensures d.timeout <= time ==> DueIn((q - {t})[t := d], time) == DueIn(q, time) + {t}
    ensures (q - {t})[t := d] - {t} == q - {t} && q - {t} - {t} == q - {t}
  {
  }

  /** Changing one timer makes no other due, and not this one unless it is armed for now. */
  lemma ChangedDue(q: Queue, after: Queue, t: Timer, time: nat)
    requires after - {t} == q - {t}
    requires t in after && after[t].timeout <= time ==> t in q && q[t].timeout <= time
    ensures DueIn(after, time) <= DueIn(q, time)
  {
    forall u | u in DueIn(after, time) ensures u in DueIn(q, time) {
      if u != t { assert u in after - {t} && (after - {t})[u] == (q - {t})[u]; }
    }
  }

  ghost predicate Sane(handles: map<Timer, Handle>, q: Queue, counter: nat) {
    && q.Keys <= handles.Keys
    && (forall t :: t in handles ==> handles[t].repeatEvery < U64 && (handles[t].active <==> t in q))
    && (forall t :: t in q ==> handles[t].hasCallback && !handles[t].closing)
    && (forall t :: t in q ==> q[t].timeout < U64 && q[t].startId < counter)
    && (forall t, u :: t in q && u in q && t != u ==> q[t].startId != q[u].startId)
  }

  ghost predicate Least(q: Queue, t: Timer) {
    t in q && forall u :: u in q ==> !LessThan(q[u], q[t])
  }

  /** A nonempty queue has a least entry. */
  lemma {:induction false} LeastExists(q: Queue) returns (t: Timer)
    requires q != map[]
    ensures Least(q, t)
    decreases |q|
  {
    var s :| s in q;
    var rest := q - {s};
    if rest == map[] {
      t := s;
      forall u | u in q ensures u == s {
        assert u != s ==> u in rest;
      }
    } else {
      t := LeastExists(rest);
      forall u | u in q ensures u == s || !LessThan(q[u], rest[t]) {
        if u != s {
          assert u in rest;
        }
      }
      if LessThan(q[s], q[t]) {
        t := s;
      }
    }
  }

  /** Timers with start numbers of their own have only one least among them. */
  lemma OnlyLeast(handles: map<Timer, Handle>, q: Queue, counter: nat, t: Timer, u: Timer)
    requires Sane(handles, q, counter) && Least(q, t) && Least(q, u)
    ensures t == u
  {
    LessThanIsStrictTotal();
  }

  function Clamp(time: nat, timeout: nat): nat {
    if time + timeout < U64 then time + timeout else U64 - 1
  }

  /** A timer armed with no delay, or at the last instant of the clock, is due at once. */
  lemma ArmedDue(time: nat, timeout: nat)
    requires time < U64
    ensures Clamp(time, timeout) <= time <==> timeout == 0 || time == U64 - 1
  {
  }

  lemma Fewer(a: set<Timer>, b: set<Timer>, t: Timer)
    requires t in b
    ensures a <= b - {t} ==> a <= b && |a| < |b|
    ensures a == b - {t} ==> |a| == |b| - 1
  {
    if a <= b - {t} {
      Subsets(a, b - {t});
      assert |b - {t}| == |b| - 1;
    }
  }

  lemma {:induction false} Subsets(a: set<Timer>, b: set<Timer>)
    requires a <= b
    ensures |a| <= |b|
    decreases |a|
  {
    if a != {} {
      var x :| x in a;
      Subsets(a - {x}, b - {x});
    }
  }

  lemma Rewritten(q: Queue, t: Timer, d: Deadline)
    ensures (q - {t})[t := d] == q[t := d] && (t !in q ==> q - {t} == q)
  {
  }

  lemma Overwrite<K, V>(m: map<K, V>, k: K, a: V, b: V)
    requires k in m
    ensures m[k := a][k := b] == m[k := b] && m[k := b].Keys == m.Keys
  {
  }

  lemma ArmedSane(handles: map<Timer, Handle>, q: Queue, counter: nat, next: nat, t: Timer, d: Deadline, h: Handle)
    requires Sane(handles, q, counter) && t in handles && t !in q
    requires d.timeout < U64 && d.startId == counter && next == counter + 1
    requires h.active && h.hasCallback && !h.closing && h.repeatEvery < U64
    ensures Sane(handles[t := h], q[t := d], next)
  {
  }

  /** The 64-bit sum with its wrap-around test is the sum, capped. */
  lemma ClampWraps(time: nat, timeout: nat)
    requires time < U64 && timeout < U64
    ensures Clamp(time, timeout) == if (time + timeout) % U64 < timeout then U64 - 1 else (time + timeout) % U64
  {
    if time + timeout >= U64 {
      assert (time + timeout) % U64 == time + timeout - U64;
    }
  }

  // ---------- What the operations do ----------

  /** The timers, what is armed, and the next start number. */
  datatype Book = Book(handles: map<Timer, Handle>, queue: Queue, counter: nat)

  ghost predicate SaneBook(b: Book) {
    Sane(b.handles, b.queue, b.counter)
  }

  function Stopped(b: Book, t: Timer): Book
    requires t in b.handles
  {
    Book(b.handles[t := b.handles[t].(active := false)], b.queue - {t}, b.counter)
  }

  /** Refused for a closing timer, and without a callback. */
  function Started(b: Book, t: Timer, hasCallback: bool, timeout: nat, every: nat, time: nat): Book
    requires t in b.handles
  {
    if b.handles[t].closing || !hasCallback then b
    else
      var d := Deadline(Clamp(time, timeout), b.counter);
      var next := b.counter + 1;
      Book(b.handles[t := Handle(true, every, true, false, b.handles[t].ref)], b.queue[t := d], next)
  }

  /** Starts a repeating timer again. */
  function Repeated(b: Book, t: Timer, time: nat): Book
    requires t in b.handles
  {
    var h := b.handles[t];
    if !h.hasCallback || h.repeatEvery == 0 then b
    else Started(Stopped(b, t), t, true, h.repeatEvery, h.repeatEvery, time)
  }

  function Changed(b: Book, t: Timer, h: Handle): Book {
    Book(b.handles[t := h], b.queue, b.counter)
  }

  function Applied(b: Book, op: Op, time: nat): Book {
    if op.t !in b.handles then b
    else
      var h := b.handles[op.t];
      match op
      case Start(t, hasCallback, timeout, every) => Started(b, t, hasCallback, timeout, every, time)
      case Stop(t) => Stopped(b, t)
      case Again(t) => Repeated(b, t, time)
      case SetRepeat(t, every) => Changed(b, t, h.(repeatEvery := every))
      case Close(t) => Changed(Stopped(b, t), t, h.(active := false, closing := true))
      case Ref(t) => Changed(b, t, h.(ref := true))
      case Unref(t) => Changed(b, t, h.(ref := false))
  }

  /** A callback does its actions one after the other. */
  function Called(b: Book, ops: seq<Op>, time: nat): Book {
    if ops == [] then b else Applied(Called(b, ops[..|ops| - 1], time), ops[|ops| - 1], time)
  }

  /** A due timer is stopped, started again if it repeats, and then its callback is called. */
  function Rearmed(b: Book, t: Timer, time: nat): Book
    requires t in b.handles
  {
    Repeated(Stopped(b, t), t, time)
  }

  function Fired(b: Book, t: Timer, ops: seq<Op>, time: nat): Book {
    if t in b.handles then Called(Rearmed(b, t, time), ops, time) else b
  }

  function Actions(script: seq<seq<Op>>, i: nat): seq<Op> {
    if i < |script| then script[i] else []
  }

  /** After some timers were fired in turn. */
  function Played(b: Book, script: seq<seq<Op>>, ts: seq<Timer>, time: nat): Book {
    if ts == [] then b
    else
      var n := |ts| - 1;
      Fired(Played(b, script, ts[..n], time), ts[n], Actions(script, n), time)
  }

  lemma AppliedKeys(b: Book, op: Op, time: nat)
    ensures Applied(b, op, time).handles.Keys == b.handles.Keys
  {
  }

  lemma {:induction false} CalledKeys(b: Book, ops: seq<Op>, time: nat)
    ensures Called(b, ops, time).handles.Keys == b.handles.Keys
    decreases |ops|
  {
    if ops != [] {
      CalledKeys(b, ops[..|ops| - 1], time);
      AppliedKeys(Called(b, ops[..|ops| - 1], time), ops[|ops| - 1], time);
    }
  }

  // ---------- What becomes due, and what repeats ----------

  predicate NoneRepeat(b: Book) {
    NoneOf(b.handles, b.queue)
  }

  /** An action arms at most its own timer; a harmless one arms nothing due. */
  lemma AppliedDue(b: Book, op: Op, time: nat)
    requires time < U64 && Harmless(op, time)
    ensures DueIn(Applied(b, op, time).queue, time) <= DueIn(b.queue, time)
  {
    if op.t in b.handles {
      var after := Applied(b, op, time).queue;
      assert after - {op.t} == b.queue - {op.t};
      ArmedDue(time, if op.Start? then op.timeout else b.handles[op.t].repeatEvery);
      ChangedDue(b.queue, after, op.t, time);
    }
  }

  lemma AppliedRepeats(b: Book, op: Op, time: nat)
    requires Inert(op) && NoneRepeat(b)
    ensures NoneRepeat(Applied(b, op, time))
  {
  }

  lemma {:induction false} CalledDue(b: Book, ops: seq<Op>, time: nat)
    requires time < U64 && AllHarmless(ops, time)
    ensures DueIn(Called(b, ops, time).queue, time) <= DueIn(b.queue, time)
    ensures time == U64 - 1 && NoneRepeat(b) ==> NoneRepeat(Called(b, ops, time))
    decreases |ops|
  {
    if ops != [] {
      var before, op := ops[..|ops| - 1], ops[|ops| - 1];
      assert Harmless(op, time) && AllHarmless(before, time);
      CalledDue(b, before, time);
      AppliedDue(Called(b, before, time), op, time);
      if time == U64 - 1 && NoneRepeat(b) {
        AppliedRepeats(Called(b, before, time), op, time);
      }
    }
  }

  /** A fired timer is due no longer, except that at the last instant of the clock a repeating timer is due again
      at once. What is armed and repeats is the same as before. */
  lemma RearmedBook(b: Book, t: Timer, time: nat)
    requires SaneBook(b) && t in b.queue && b.queue[t].timeout <= time < U64
    ensures var r, every := Rearmed(b, t, time), b.handles[t].repeatEvery;
            && r.queue - {t} == b.queue - {t}
            && (every == 0 ==> t !in r.queue)
            && (every != 0 ==> t in r.queue && r.queue[t].timeout == Clamp(time, every))
            && DueIn(r.queue, time) == (if every != 0 && time == U64 - 1 then DueIn(b.queue, time) else DueIn(b.queue, time) - {t})
            && (NoneRepeat(r) <==> NoneRepeat(b))
  {
    var every := b.handles[t].repeatEvery;
    var d := Deadline(Clamp(time, every), b.counter);
    var r := Rearmed(b, t, time);
    assert b.queue - {t} - {t} == b.queue - {t};
    assert r.queue == if every == 0 then b.queue - {t} else (b.queue - {t})[t := d];
    RearmedDue(b.queue, t, d, time);
    ArmedDue(time, every);
    assert t in DueIn(b.queue, time) && DueIn(b.queue, time) + {t} == DueIn(b.queue, time);
    FiredRepeats(b.handles, b.queue, r.handles, r.queue, t);
  }

  /** Firing a timer takes it off the due ones. */
  predicate Settles(b: Book, t: Timer, time: nat) {
    time < U64 - 1 || (t in b.handles && b.handles[t].repeatEvery == 0)
  }

  predicate EndlessBook(b: Book, time: nat) {
    time == U64 - 1 && !NoneRepeat(b)
  }

  lemma FiredDue(b: Book, t: Timer, ops: seq<Op>, time: nat)
    requires SaneBook(b) && t in b.queue && b.queue[t].timeout <= time < U64
    ensures var f := Fired(b, t, ops, time);
            && (AllHarmless(ops, time) && Settles(b, t, time) ==> DueIn(f.queue, time) <= DueIn(b.queue, time) - {t})
            && (AllHarmless(ops, time) && !EndlessBook(b, time) ==> !EndlessBook(f, time))
            && (ops == [] && Settles(b, t, time) ==> DueIn(f.queue, time) == DueIn(b.queue, time) - {t})
            && (ops == [] && EndlessBook(b, time) ==> EndlessBook(f, time))
  {
    RearmedBook(b, t, time);
    if AllHarmless(ops, time) {
      CalledDue(Rearmed(b, t, time), ops, time);
    }
  }

  // ---------- What a run notes ----------

  function TimersOf(fired: seq<Firing>): seq<Timer> {
    seq(|fired|, i requires 0 <= i < |fired| => fired[i].t)
  }

  /** At its firing the timer was the least of what the run had left armed, and due. */
  ghost predicate Chosen(b: Book, script: seq<seq<Op>>, fired: seq<Firing>, time: nat, i: nat)
    requires i < |fired|
  {
    && fired[i].queue == Played(b, script, TimersOf(fired)[..i], time).queue
    && Least(fired[i].queue, fired[i].t) && Rightful(fired[i], time)
  }

  lemma ChosenNext(b: Book, script: seq<seq<Op>>, fired: seq<Firing>, f: Firing, time: nat, c: Book)
    requires c == Played(b, script, TimersOf(fired), time) && f.queue == c.queue
    requires Least(f.queue, f.t) && f.queue[f.t] == f.deadline && f.deadline.timeout <= time
    requires forall i :: 0 <= i < |fired| ==> Chosen(b, script, fired, time, i)
    ensures var more := fired + [f];
            && (forall i :: 0 <= i < |more| ==> Chosen(b, script, more, time, i))
            && Played(b, script, TimersOf(more), time) == Fired(c, f.t, Actions(script, |fired|), time)
  {
    var more := fired + [f];
    var ts, all := TimersOf(fired), TimersOf(more);
    assert all == ts + [f.t] && all[..|fired|] == ts;
    forall i | 0 <= i < |more| ensures Chosen(b, script, more, time, i) {
      if i < |fired| {
        assert Chosen(b, script, fired, time, i) && more[i] == fired[i] && all[..i] == ts[..i];
      }
    }
  }

  /** The least timer is the earliest, and of several with the same deadline the one that was started first. */
  lemma EarliestFirst(q: Queue, t: Timer)
    ensures Least(q, t) <==>
            t in q && forall u :: u in q ==>
              q[t].timeout < q[u].timeout || (q[t].timeout == q[u].timeout && q[t].startId <= q[u].startId)
  {
  }

  /** A timer that is started gets a greater number than all that were started before. */
  lemma StartedLater(b: Book, t: Timer, timeout: nat, every: nat, time: nat, u: Timer)
    requires SaneBook(b) && t in b.handles && !b.handles[t].closing && u in b.queue && u != t
    ensures var c := Started(b, t, true, timeout, every, time);
            t in c.queue && u in c.queue && c.queue[u] == b.queue[u] && c.queue[u].startId < c.queue[t].startId < c.counter
  {
  }

  /** So the laws below hold of every run of the loop. */
  lemma ChosenArmed(b: Book, script: seq<seq<Op>>, fired: seq<Firing>, time: nat)
    requires forall i :: 0 <= i < |fired| ==> Chosen(b, script, fired, time, i)
    ensures Armed(b, script, TimersOf(fired), time)
  {
    forall i | 0 <= i < |fired| ensures TimersOf(fired)[i] in Played(b, script, TimersOf(fired)[..i], time).queue {
      assert Chosen(b, script, fired, time, i);
    }
  }

  // ---------- What one timer sees of a run ----------

  /** The timer is as it was. */
  ghost predicate Same(b: Book, c: Book, t: Timer) {
    && b.handles.Keys == c.handles.Keys && (t in b.handles ==> b.handles[t] == c.handles[t])
    && (t in b.queue <==> t in c.queue) && (t in b.queue ==> b.queue[t] == c.queue[t])
  }

  lemma AppliedElse(b: Book, op: Op, t: Timer, time: nat)
    requires op.t != t
    ensures Same(b, Applied(b, op, time), t)
  {
  }

  /** No action from `p` on is on the timer. */
  predicate Untouched(ops: seq<Op>, p: nat, t: Timer) {
    forall j :: p <= j < |ops| ==> ops[j].t != t
  }

  /** No action from `p` on starts the timer. */
  predicate Unstarted(ops: seq<Op>, p: nat, t: Timer) {
    forall j :: p <= j < |ops| && ops[j].t == t ==> !ops[j].Start? && !ops[j].Again?
  }

  lemma {:induction false} CalledElse(b: Book, ops: seq<Op>, p: nat, t: Timer, time: nat)
    requires p <= |ops| && Untouched(ops, p, t)
    ensures Same(Called(b, ops[..p], time), Called(b, ops, time), t)
    decreases |ops|
  {
    if p < |ops| {
      var before, op := ops[..|ops| - 1], ops[|ops| - 1];
      CalledElse(b, before, p, t, time);
      assert before[..p] == ops[..p];
      AppliedElse(Called(b, before, time), op, t, time);
    } else {
      assert ops[..p] == ops;
    }
  }

  lemma {:induction false} CalledUnarmed(b: Book, ops: seq<Op>, p: nat, t: Timer, time: nat)
    requires p <= |ops| && Unstarted(ops, p, t) && t !in Called(b, ops[..p], time).queue
    ensures t !in Called(b, ops, time).queue
    decreases |ops|
  {
    if p < |ops| {
      var before := ops[..|ops| - 1];
      assert before[..p] == ops[..p];
      CalledUnarmed(b, before, p, t, time);
    } else {
      assert ops[..p] == ops;
    }
  }

  lemma RearmedElse(b: Book, u: Timer, t: Timer, time: nat)
    requires u in b.handles && u != t
    ensures Same(b, Rearmed(b, u, time), t)
  {
  }

  /** The firings were of timers that were armed. */
  predicate Armed(b: Book, script: seq<seq<Op>>, ts: seq<Timer>, time: nat) {
    forall i :: 0 <= i < |ts| ==> ts[i] in Played(b, script, ts[..i], time).queue
  }

  lemma PlayedNext(b: Book, script: seq<seq<Op>>, ts: seq<Timer>, time: nat, i: nat)
    requires i < |ts|
    ensures Played(b, script, ts[..i + 1], time) == Fired(Played(b, script, ts[..i], time), ts[i], Actions(script, i), time)
  {
    assert ts[..i + 1][..i] == ts[..i];
  }

  lemma {:induction false} PlayedKeys(b: Book, script: seq<seq<Op>>, ts: seq<Timer>, time: nat)
    ensures Played(b, script, ts, time).handles.Keys == b.handles.Keys
    decreases |ts|
  {
    if ts != [] {
      var n := |ts| - 1;
      PlayedKeys(b, script, ts[..n], time);
      var c := Played(b, script, ts[..n], time);
      if ts[n] in c.handles {
        CalledKeys(Rearmed(c, ts[n], time), Actions(script, n), time);
      }
    }
  }

  /** No callback from the firing `j` on and before `k` starts the timer. */
  ghost predicate NoStart(script: seq<seq<Op>>, j: nat, k: nat, t: Timer) {
    forall i :: j <= i < k ==> Unstarted(Actions(script, i), 0, t)
  }

  /** The firing `i` does not arm the timer. */
  ghost predicate KeepsOut(b: Book, script: seq<seq<Op>>, ts: seq<Timer>, time: nat, i: nat, t: Timer) {
    i < |ts| && (t !in Played(b, script, ts[..i], time).queue ==> t !in Played(b, script, ts[..i + 1], time).queue)
  }

  lemma {:induction false} KeptOut(b: Book, script: seq<seq<Op>>, ts: seq<Timer>, time: nat, j: nat, k: nat, t: Timer)
    requires j <= k <= |ts| && t !in Played(b, script, ts[..j], time).queue
    requires forall i :: j <= i < k ==> KeepsOut(b, script, ts, time, i, t)
    ensures t !in Played(b, script, ts[..k], time).queue
    decreases k
  {
    if j < k {
      KeptOut(b, script, ts, time, j, k - 1, t);
      assert KeepsOut(b, script, ts, time, k - 1, t);
    }
  }

  /** A timer that is not armed stays so, as long as no callback starts it, and so it is not fired. */
  lemma StaysUnarmed(b: Book, script: seq<seq<Op>>, ts: seq<Timer>, time: nat, j: nat, k: nat, t: Timer)
    requires j <= k <= |ts| && Armed(b, script, ts, time) && t !in Played(b, script, ts[..j], time).queue
    requires NoStart(script, j, k, t)
    ensures t !in Played(b, script, ts[..k], time).queue
  {
    forall i | j <= i < k ensures KeepsOut(b, script, ts, time, i, t) {
      assert Unstarted(Actions(script, i), 0, t);
      if t !in Played(b, script, ts[..i], time).queue {
        UnarmedNext(b, script, ts, time, i, t);
      }
    }
    KeptOut(b, script, ts, time, j, k, t);
  }

  lemma Unfired(b: Book, script: seq<seq<Op>>, ts: seq<Timer>, time: nat, j: nat, k: nat, t: Timer)
    requires j <= k <= |ts| && Armed(b, script, ts, time) && t !in Played(b, script, ts[..j], time).queue
    requires NoStart(script, j, k, t)
    ensures forall i :: j <= i < k ==> ts[i] != t
  {
    forall i | j <= i < k ensures ts[i] != t {
      assert NoStart(script, j, i, t);
      StaysUnarmed(b, script, ts, time, j, i, t);
    }
  }

  lemma UnarmedNext(b: Book, script: seq<seq<Op>>, ts: seq<Timer>, time: nat, i: nat, t: Timer)
    requires i < |ts| && Armed(b, script, ts, time) && t !in Played(b, script, ts[..i], time).queue
    requires Unstarted(Actions(script, i), 0, t)
    ensures t !in Played(b, script, ts[..i + 1], time).queue && ts[i] != t
  {
    var c, ops := Played(b, script, ts[..i], time), Actions(script, i);
    PlayedNext(b, script, ts, time, i);
    assert ts[i] != t;
    if ts[i] in c.handles {
      RearmedElse(c, ts[i], t, time);
      assert ops[..0] == [];
      CalledUnarmed(Rearmed(c, ts[i], time), ops, 0, t, time);
    }
  }

  /** After the callback `i` a timer that the callback stopped or closed is not armed, unless it was started again. */
  lemma StoppedIn(b: Book, script: seq<seq<Op>>, ts: seq<Timer>, time: nat, i: nat, p: nat, t: Timer)
    requires i < |ts| && ts[i] in Played(b, script, ts[..i], time).handles && t in b.handles
    requires var ops := Actions(script, i); p < |ops| && (ops[p] == Stop(t) || ops[p] == Close(t)) && Unstarted(ops, p + 1, t)
    ensures t !in Played(b, script, ts[..i + 1], time).queue
  {
    var ops := Actions(script, i);
    var c := Rearmed(Played(b, script, ts[..i], time), ts[i], time);
    PlayedNext(b, script, ts, time, i);
    PlayedKeys(b, script, ts[..i], time);
    CalledKeys(c, ops[..p], time);
    assert ops[..p + 1][..p] == ops[..p];
    assert t !in Called(c, ops[..p + 1], time).queue;
    CalledUnarmed(c, ops, p + 1, t, time);
  }

  /** A timer that a callback stops or closes does not fire again unless a callback starts it. */
  lemma StopIsFinal(b: Book, script: seq<seq<Op>>, ts: seq<Timer>, time: nat, i: nat, p: nat, k: nat, t: Timer)
    requires i < k <= |ts| && Armed(b, script, ts, time) && ts[i] in Played(b, script, ts[..i], time).handles && t in b.handles
    requires var ops := Actions(script, i); p < |ops| && (ops[p] == Stop(t) || ops[p] == Close(t)) && Unstarted(ops, p + 1, t)
    requires NoStart(script, i + 1, k, t)
    ensures t !in Played(b, script, ts[..k], time).queue && forall m :: i < m < k ==> ts[m] != t
  {
    StoppedIn(b, script, ts, time, i, p, t);
    StaysUnarmed(b, script, ts, time, i + 1, k, t);
    Unfired(b, script, ts, time, i + 1, k, t);
  }

  // ---------- Closing is for good ----------

  ghost predicate Shut(b: Book, t: Timer) {
    t in b.handles && b.handles[t].closing && t !in b.queue
  }

  lemma AppliedShut(b: Book, op: Op, t: Timer, time: nat)
    requires Shut(b, t)
    ensures Shut(Applied(b, op, time), t)
  {
  }

  lemma {:induction false} CalledShut(b: Book, ops: seq<Op>, p: nat, t: Timer, time: nat)
    requires p <= |ops| && Shut(Called(b, ops[..p], time), t)
    ensures Shut(Called(b, ops, time), t)
    decreases |ops|
  {
    if p < |ops| {
      var before := ops[..|ops| - 1];
      assert before[..p] == ops[..p];
      CalledShut(b, before, p, t, time);
      AppliedShut(Called(b, before, time), ops[|ops| - 1], t, time);
    } else {
      assert ops[..p] == ops;
    }
  }

  lemma ShutNext(b: Book, script: seq<seq<Op>>, ts: seq<Timer>, time: nat, i: nat, t: Timer)
    requires i < |ts| && Armed(b, script, ts, time) && Shut(Played(b, script, ts[..i], time), t)
    ensures Shut(Played(b, script, ts[..i + 1], time), t) && ts[i] != t
  {
    var c, ops := Played(b, script, ts[..i], time), Actions(script, i);
    PlayedNext(b, script, ts, time, i);
    assert ts[i] != t;
    if ts[i] in c.handles {
      RearmedElse(c, ts[i], t, time);
      assert ops[..0] == [];
      CalledShut(Rearmed(c, ts[i], time), ops, 0, t, time);
    }
  }

  ghost predicate KeepsShut(b: Book, script: seq<seq<Op>>, ts: seq<Timer>, time: nat, i: nat, t: Timer) {
    i < |ts| && (Shut(Played(b, script, ts[..i], time), t) ==> Shut(Played(b, script, ts[..i + 1], time), t) && ts[i] != t)
  }

  lemma {:induction false} StaysShut(b: Book, script: seq<seq<Op>>, ts: seq<Timer>, time: nat, j: nat, k: nat, t: Timer)
    requires j <= k <= |ts| && Shut(Played(b, script, ts[..j], time), t)
    requires forall i :: j <= i < k ==> KeepsShut(b, script, ts, time, i, t)
    ensures Shut(Played(b, script, ts[..k], time), t) && forall i :: j <= i < k ==> ts[i] != t
    decreases k
  {
    if j < k {
      StaysShut(b, script, ts, time, j, k - 1, t);
      assert KeepsShut(b, script, ts, time, k - 1, t);
    }
  }

  /** A timer that a callback closes never fires again, whatever the callbacks do. */
  lemma CloseIsFinal(b: Book, script: seq<seq<Op>>, ts: seq<Timer>, time: nat, i: nat, p: nat, k: nat, t: Timer)
    requires i < k <= |ts| && Armed(b, script, ts, time) && ts[i] in Played(b, script, ts[..i], time).handles && t in b.handles
    requires p < |Actions(script, i)| && Actions(script, i)[p] == Close(t)
    ensures Shut(Played(b, script, ts[..k], time), t) && forall m :: i < m < k ==> ts[m] != t
  {
    var ops := Actions(script, i);
    var c := Rearmed(Played(b, script, ts[..i], time), ts[i], time);
    PlayedNext(b, script, ts, time, i);
    PlayedKeys(b, script, ts[..i], time);
    CalledKeys(c, ops[..p], time);
    assert ops[..p + 1][..p] == ops[..p];
    assert Shut(Called(c, ops[..p + 1], time), t);
    CalledShut(c, ops, p + 1, t, time);
    forall m | i < m < k ensures KeepsShut(b, script, ts, time, m, t) {
      if Shut(Played(b, script, ts[..m], time), t) {
        ShutNext(b, script, ts, time, m, t);
      }
    }
    StaysShut(b, script, ts, time, i + 1, k, t);
  }

  // ---------- What was armed last holds ----------

  lemma SameThen(b: Book, c: Book, d: Book, t: Timer)
    requires Same(b, c, t) && Same(c, d, t)
    ensures Same(b, d, t)
  {
  }

  lemma ElseNext(b: Book, script: seq<seq<Op>>, ts: seq<Timer>, time: nat, i: nat, t: Timer)
    requires i < |ts| && ts[i] != t && Untouched(Actions(script, i), 0, t)
    ensures Same(Played(b, script, ts[..i], time), Played(b, script, ts[..i + 1], time), t)
  {
    var c, ops := Played(b, script, ts[..i], time), Actions(script, i);
    PlayedNext(b, script, ts, time, i);
    if ts[i] in c.handles {
      var r := Rearmed(c, ts[i], time);
      RearmedElse(c, ts[i], t, time);
      assert ops[..0] == [];
      CalledElse(r, ops, 0, t, time);
      SameThen(c, r, Called(r, ops, time), t);
    }
  }

  /** A timer that is not fired and that no callback touches stays as it is. */
  lemma {:induction false} StaysSame(b: Book, script: seq<seq<Op>>, ts: seq<Timer>, time: nat, j: nat, k: nat, t: Timer)
    requires j <= k <= |ts|
    requires forall i :: j <= i < k ==> ts[i] != t && Untouched(Actions(script, i), 0, t)
    ensures Same(Played(b, script, ts[..j], time), Played(b, script, ts[..k], time), t)
    decreases k
  {
    if j < k {
      StaysSame(b, script, ts, time, j, k - 1, t);
      ElseNext(b, script, ts, time, k - 1, t);
      SameThen(Played(b, script, ts[..j], time), Played(b, script, ts[..k - 1], time), Played(b, script, ts[..k], time), t);
    }
  }

  /** The last action on a timer decides what is armed for it, for as long as it is not fired. */
  lemma LastActionHolds(b: Book, script: seq<seq<Op>>, ts: seq<Timer>, time: nat, i: nat, p: nat, k: nat, t: Timer)
    requires i < k <= |ts| && ts[i] in Played(b, script, ts[..i], time).handles && t in b.handles
    requires var ops := Actions(script, i); p < |ops| && ops[p].t == t && Untouched(ops, p + 1, t)
    requires forall m :: i < m < k ==> ts[m] != t && Untouched(Actions(script, m), 0, t)
    ensures var ops, c := Actions(script, i), Played(b, script, ts[..k], time);
            var before := Called(Rearmed(Played(b, script, ts[..i], time), ts[i], time), ops[..p], time);
            && t in before.handles && t in c.handles
            && (ops[p].Stop? || ops[p].Close? ==> t !in c.queue)
            && (ops[p].Start? && ops[p].hasCallback && !before.handles[t].closing ==>
                  t in c.queue && c.queue[t].timeout == Clamp(time, ops[p].timeout) && c.handles[t].repeatEvery == ops[p].repeatEvery)
            && (ops[p].Again? && before.handles[t].hasCallback && before.handles[t].repeatEvery != 0 && !before.handles[t].closing ==>
                  t in c.queue && c.queue[t].timeout == Clamp(time, before.handles[t].repeatEvery))
            && (ops[p].SetRepeat? ==> c.handles[t].repeatEvery == ops[p].repeatEvery && (t in c.queue <==> t in before.queue))
            && (ops[p].Ref? || ops[p].Unref? ==> c.handles[t].ref == ops[p].Ref? && (t in c.queue <==> t in before.queue))
            && (ops[p].Close? ==> c.handles[t].closing)
  {
    var ops := Actions(script, i);
    var r := Rearmed(Played(b, script, ts[..i], time), ts[i], time);
    var before := Called(r, ops[..p], time);
    PlayedNext(b, script, ts, time, i);
    PlayedKeys(b, script, ts[..i], time);
    CalledKeys(r, ops[..p], time);
    assert ops[..p + 1][..p] == ops[..p];
    var after := Applied(before, ops[p], time);
    assert Called(r, ops[..p + 1], time) == after;
    CalledElse(r, ops, p + 1, t, time);
    StaysSame(b, script, ts, time, i + 1, k, t);
    SameThen(after, Played(b, script, ts[..i + 1], time), Played(b, script, ts[..k], time), t);
  }
}
