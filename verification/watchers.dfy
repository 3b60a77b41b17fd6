/** The smallest power of two that is at least a given number, by smearing bits. */
module PowerOfTwo {
  import opened Powers

  const U32: nat := 0x1_0000_0000

  function Or(a: nat, b: nat): nat {
    if a == 0 && b == 0 then 0
    else 2 * Or(a / 2, b / 2) + if a % 2 == 1 || b % 2 == 1 then 1 else 0
  }

  function ShiftRight(a: nat, k: nat): nat {
    if k == 0 then a else ShiftRight(a / 2, k - 1)
  }

  /** `val |= val >> k`. */
  function Smear(a: nat, k: nat): nat {
    Or(a, ShiftRight(a, k))
  }

  /** The 32-bit function, for a nonzero argument. */
  function NextPowerOfTwo(val: nat): nat
    requires 0 < val < U32
  {
    (Smear(Smear(Smear(Smear(Smear(val - 1, 1), 2), 4), 8), 16) + 1) % U32
  }

  predicate Bit(a: nat, i: nat) {
    ShiftRight(a, i) % 2 == 1
  }

  lemma {:induction false} ShiftShift(a: nat, j: nat, k: nat)
    ensures ShiftRight(ShiftRight(a, j), k) == ShiftRight(a, j + k)
  {
    if j > 0 { ShiftShift(a / 2, j - 1, k); }
  }

  lemma {:induction false} BitOr(a: nat, b: nat, i: nat)
    ensures Bit(Or(a, b), i) <==> Bit(a, i) || Bit(b, i)
    decreases i
  {
    var r := Or(a, b);
    assert r / 2 == Or(a / 2, b / 2) && (r % 2 == 1 <==> a % 2 == 1 || b % 2 == 1);
    if i > 0 { BitOr(a / 2, b / 2, i - 1); }
  }

  /** Some bit from `i` on, among the next `n`. */
  ghost predicate BitFrom(a: nat, i: nat, n: nat) {
    exists j :: i <= j < i + n && Bit(a, j)
  }

  ghost predicate Smeared(a: nat, r: nat, n: nat) {
    forall i: nat :: Bit(r, i) <==> BitFrom(a, i, n)
  }

  /** Smearing by the width that is already smeared doubles the width. */
  lemma SmearDoubles(a: nat, r: nat, n: nat)
    requires Smeared(a, r, n)
    ensures Smeared(a, Smear(r, n), 2 * n)
  {
    forall i: nat ensures Bit(Smear(r, n), i) <==> BitFrom(a, i, 2 * n) {
      BitOr(r, ShiftRight(r, n), i);
      ShiftShift(r, n, i);
      assert Bit(r, i) <==> BitFrom(a, i, n);
      assert Bit(r, i + n) <==> BitFrom(a, i + n, n);
      assert n + i == i + n;
    }
  }

  lemma {:induction false} BitsBelow(a: nat, i: nat, n: nat)
    requires a < Pow2(n) && i >= n
    ensures !Bit(a, i) && ShiftRight(a, i) == 0
    decreases n
  {
    if n == 0 {
      ShiftZero(i);
    } else {
      BitsBelow(a / 2, i - 1, n - 1);
    }
  }

  lemma {:induction false} ShiftZero(i: nat)
    ensures ShiftRight(0, i) == 0
  {
    if i > 0 { ShiftZero(i - 1); }
  }

  /** All bits up to the highest of `a`. */
  function Filled(a: nat): nat {
    if a == 0 then 0 else 2 * Filled(a / 2) + 1
  }

  /** A number whose bits are those at or below some bit of `a`. */
  lemma {:induction false} FilledBits(a: nat, r: nat, n: nat)
    requires a < Pow2(n) && forall i: nat :: Bit(r, i) <==> exists j :: i <= j && Bit(a, j)
    ensures r == Filled(a)
    decreases n
  {
    if a == 0 {
      forall i: nat ensures !Bit(r, i) {
        assert forall j: nat :: !Bit(a, j) by { forall j: nat ensures !Bit(a, j) { ShiftZero(j); } }
      }
      NoBits(r);
    } else {
      var hb := HighBit(a);
      assert Bit(r, 0);
      forall i: nat ensures Bit(r / 2, i) <==> exists j :: i <= j && Bit(a / 2, j) {
        assert Bit(r / 2, i) <==> Bit(r, i + 1);
        if exists j :: i + 1 <= j && Bit(a, j) {
          var j :| i + 1 <= j && Bit(a, j);
          assert Bit(a / 2, j - 1);
        }
        if exists j :: i <= j && Bit(a / 2, j) {
          var j :| i <= j && Bit(a / 2, j);
          assert Bit(a, j + 1);
        }
      }
      assert n > 0;
      FilledBits(a / 2, r / 2, n - 1);
    }
  }

  lemma {:induction false} HighBit(a: nat) returns (i: nat)
    requires a > 0
    ensures Bit(a, i)
  {
    if a == 1 {
      i := 0;
    } else {
      i := HighBit(a / 2);
      i := i + 1;
    }
  }

  lemma {:induction false} NoBits(r: nat)
    requires forall i: nat :: !Bit(r, i)
    ensures r == 0
  {
    if r > 0 {
      var i := HighBit(r);
      assert false;
    }
  }

  predicate IsPowerOfTwo(p: nat) {
    p == 1 || (p > 1 && p % 2 == 0 && IsPowerOfTwo(p / 2))
  }

  lemma {:induction false} FilledPower(a: nat)
    ensures IsPowerOfTwo(Filled(a) + 1) && Filled(a) >= a && (a > 0 ==> Filled(a) + 1 <= 2 * a)
  {
    if a > 0 { FilledPower(a / 2); }
  }

  lemma {:induction false} FilledBound(a: nat, n: nat)
    requires a < Pow2(n)
    ensures Filled(a) < Pow2(n)
  {
    if a > 0 { FilledBound(a / 2, n - 1); }
  }

  lemma SmearAll(a: nat)
    requires a < U32
    ensures Smear(Smear(Smear(Smear(Smear(a, 1), 2), 4), 8), 16) == Filled(a)
  {
    var r1 := Smear(a, 1);
    var r2 := Smear(r1, 2);
    var r3 := Smear(r2, 4);
    var r4 := Smear(r3, 8);
    var r5 := Smear(r4, 16);
    assert Smeared(a, a, 1) by {
      forall i: nat ensures Bit(a, i) <==> BitFrom(a, i, 1) { assert i <= i < i + 1; }
    }
    SmearDoubles(a, a, 1);
    SmearDoubles(a, r1, 2);
    SmearDoubles(a, r2, 4);
    SmearDoubles(a, r3, 8);
    SmearDoubles(a, r4, 16);
    Pow32();
    forall i: nat ensures Bit(r5, i) <==> exists j :: i <= j && Bit(a, j) {
      assert Bit(r5, i) <==> BitFrom(a, i, 32);
      if exists j :: i <= j && Bit(a, j) {
        var j :| i <= j && Bit(a, j);
        if j >= 32 { BitsBelow(a, j, 32); }
        assert i <= j < i + 32;
      }
    }
    FilledBits(a, r5, 32);
  }

  lemma Pow32()
    ensures Pow2(32) == U32
  {
    assert Pow2(8) == 256;
    assert Pow2(16) == 65536;
    assert Pow2(24) == 16777216;
  }

  /** `r` is the least power of two that is large enough for `val`; beyond the largest power of 32 bits the
      sum wraps around to zero. */
  ghost predicate LeastPower(val: nat, r: nat) {
    if val <= 0x8000_0000 then
      val <= r <= 0x8000_0000 && IsPowerOfTwo(r) && forall p: nat :: IsPowerOfTwo(p) && p >= val ==> p >= r
    else r == 0
  }

  lemma NextPowerOfTwoLeast(val: nat)
    requires 0 < val < U32
    ensures LeastPower(val, NextPowerOfTwo(val))
  {
    NextFilled(val);
    FilledLeastPower(val - 1, val, NextPowerOfTwo(val));
  }

  /** The table asked for by the largest descriptor that the asserts allow. */
  lemma LargestDescriptor(fd: nat)
    requires fd == 0x7fff_ffff - 1
    ensures NextPowerOfTwo(fd + 1 + 2) == 0
  {
    var val := fd + 3;
    assert val == 0x8000_0001;
    NextPowerOfTwoLeast(val);
  }

  lemma FilledLeastPower(a: nat, val: nat, r: nat)
    requires val == a + 1 <= U32 - 1 && r == (Filled(a) + 1) % U32
    ensures LeastPower(val, r)
  {
    var x := Filled(a) + 1;
    if val <= 0x8000_0000 {
      FilledWithin(a, val, x);
      Wrapped(x, r);
    } else {
      FilledTop(a);
      Wrapped(x, r);
    }
  }

  lemma Wrapped(x: nat, r: nat)
    requires x <= U32 && r == x % U32
    ensures r == if x == U32 then 0 else x
  {
  }

  lemma FilledWithin(a: nat, val: nat, x: nat)
    requires val == a + 1 <= 0x8000_0000 && x == Filled(a) + 1
    ensures LeastPower(val, x) && x < U32
  {
    FilledPower(a);
    Pow31(a);
    forall p: nat | IsPowerOfTwo(p) && p >= val ensures p >= Filled(a) + 1 {
      FilledLeast(a, p);
    }
  }

  lemma NextFilled(val: nat)
    requires 0 < val < U32
    ensures NextPowerOfTwo(val) == (Filled(val - 1) + 1) % U32
  {
    SmearAll(val - 1);
  }

  lemma Pow31(a: nat)
    requires a < 0x8000_0000
    ensures Filled(a) < 0x8000_0000
  {
    Pow32();
    assert Pow2(32) == 2 * Pow2(31);
    FilledBound(a, 31);
  }

  lemma {:induction false} FilledLeast(a: nat, p: nat)
    requires IsPowerOfTwo(p) && p > a
    ensures p >= Filled(a) + 1
    decreases a
  {
    if a > 0 { FilledLeast(a / 2, p / 2); }
  }

  lemma FilledTop(a: nat)
    requires 0x8000_0000 <= a < U32
    ensures Filled(a) == U32 - 1
  {
    FilledPower(a);
    Pow32();
    FilledBound(a, 32);
    PowersApart(Filled(a) + 1, 32);
  }

  /** No power of two lies strictly between two consecutive ones. */
  lemma {:induction false} PowersApart(p: nat, n: nat)
    requires n > 0 && IsPowerOfTwo(p) && p > Pow2(n - 1)
    ensures p >= Pow2(n)
    decreases n
  {
    if n > 1 {
      PowPositive(n - 1);
      PowersApart(p / 2, n - 1);
    }
  }

  lemma {:induction false} PowPositive(n: nat)
    ensures Pow2(n) >= 1
  {
    if n > 0 { PowPositive(n - 1); }
  }
}

/** The table of descriptor watchers and the queue of those whose registration must be changed. */
module Watchers {
  import opened Lists
  import opened PowerOfTwo

  datatype PollEvent = PollIn | PollOut | PollRdHup | PollPri

  class Watcher {
    const fd: int
    var events: set<PollEvent>
    var pevents: set<PollEvent>

    constructor (fd: int)
      requires fd >= -1
      ensures this.fd == fd && events == {} && pevents == {}
    {
      this.fd := fd;
      events, pevents := {}, {};
    }
  }

  /** A table slot: free, a watcher, or one of the two values kept behind the watchers while events are
      dispatched. */
  datatype Slot = Free | Of(w: Watcher) | Fake(value: int)

  /** How many watchers the first `n` slots hold. */
  function Used(s: seq<Slot>): nat {
    if s == [] then 0 else Used(s[..|s| - 1]) + if s[|s| - 1].Of? then 1 else 0
  }

  lemma {:induction false} UsedSet(s: seq<Slot>, i: nat, x: Slot)
    requires i < |s|
    ensures Used(s[i := x]) == Used(s) - (if s[i].Of? then 1 else 0) + (if x.Of? then 1 else 0)
    ensures s[i].Of? ==> Used(s) > 0
    decreases |s|
  {
    var n := |s| - 1;
    if i == n {
      assert s[i := x][..n] == s[..n];
    } else {
      UsedSet(s[..n], i, x);
      assert s[i := x][..n] == s[..n][i := x];
    }
  }

  lemma {:induction false} UsedMore(s: seq<Slot>, more: seq<Slot>)
    requires forall i :: 0 <= i < |more| ==> !more[i].Of?
    ensures Used(s + more) == Used(s)
    decreases |more|
  {
    if more == [] {
      assert s + more == s;
    } else {
      assert (s + more)[..|s + more| - 1] == s + more[..|more| - 1];
      UsedMore(s, more[..|more| - 1]);
    }
  }

  /** What a watcher has registered and what it asks for. */
  datatype Interest = Interest(events: set<PollEvent>, pevents: set<PollEvent>)

  type View = map<Watcher, Interest>

  /** A watcher is in the table exactly when it asks for events; it is queued when what it asks for is not
      what is registered. */
  ghost predicate WatcherOk(slots: seq<Slot>, queue: seq<Watcher>, w: Watcher, it: Interest) {
    && (it.pevents != {} <==> 0 <= w.fd < |slots| && slots[w.fd] == Of(w))
    && (it.pevents == {} ==> it.events == {} && w !in queue)
    && (it.events != it.pevents ==> w in queue)
  }

  ghost predicate TableInv(slots: seq<Slot>, queue: seq<Watcher>, view: View) {
    && (forall i :: 0 <= i < |slots| && slots[i].Of? ==> slots[i].w in view && slots[i].w.fd == i)
    && (forall i :: 0 <= i < |slots| ==> !slots[i].Fake?)
    && (forall w :: w in view ==> WatcherOk(slots, queue, w, view[w]))
    && (forall w :: w in queue ==> w in view) && NoDup(queue)
  }

  lemma GrowOk(slots: seq<Slot>, queue: seq<Watcher>, view: View, more: nat)
    requires TableInv(slots, queue, view)
    ensures TableInv(slots + seq(more, _ => Free), queue, view)
    ensures Used(slots + seq(more, _ => Free)) == Used(slots)
  {
    var slots' := slots + seq(more, _ => Free);
    UsedMore(slots, seq(more, _ => Free));
    forall w | w in view ensures WatcherOk(slots', queue, w, view[w]) {
      assert WatcherOk(slots, queue, w, view[w]);
    }
  }

  /** No other watcher asks for events on the descriptor of `w`. */
  ghost predicate Alone(view: View, w: Watcher) {
    forall v :: v in view && v != w && v.fd == w.fd ==> view[v].pevents == {}
  }

  /** The slot of a watcher that has its descriptor for itself. */
  lemma OwnSlot(slots: seq<Slot>, queue: seq<Watcher>, view: View, w: Watcher)
    requires TableInv(slots, queue, view) && Alone(view, w) && 0 <= w.fd < |slots|
    ensures slots[w.fd] == if w in view && view[w].pevents != {} then Of(w) else Free
  {
    if slots[w.fd].Of? {
      var v := slots[w.fd].w;
      assert WatcherOk(slots, queue, v, view[v]);
    }
    if w in view {
      assert WatcherOk(slots, queue, w, view[w]);
    }
  }

  /** Asking for more keeps the table in order. */
  lemma StartOk(slots: seq<Slot>, queue: seq<Watcher>, view: View, w: Watcher, it: Interest, events: set<PollEvent>)
    requires TableInv(slots, queue, view) && Alone(view, w) && 0 <= w.fd < |slots| && events != {}
    requires it == if w in view then view[w] else Interest({}, {})
    ensures var it' := it.(pevents := it.pevents + events);
            var queue' := if w in queue then queue else queue + [w];
            if it'.events == it'.pevents then slots[w.fd] == Of(w) && TableInv(slots, queue, view[w := it'])
            else TableInv(slots[w.fd := Of(w)], queue', view[w := it'])
  {
    OwnSlot(slots, queue, view, w);
    var it' := it.(pevents := it.pevents + events);
    if w in view { assert WatcherOk(slots, queue, w, view[w]); }
    var slots' := slots[w.fd := Of(w)];
    var queue' := if w in queue then queue else queue + [w];
    assert it'.pevents != {} by { var e :| e in events; assert e in it'.pevents; }
    forall v | v in view && v != w
      ensures WatcherOk(slots, queue, v, view[v]) && WatcherOk(slots', queue', v, view[v])
    {
      assert WatcherOk(slots, queue, v, view[v]);
    }
  }

  /** Giving up some events. */
  lemma StopSomeOk(slots: seq<Slot>, queue: seq<Watcher>, view: View, w: Watcher, it: Interest)
    requires TableInv(slots, queue, view) && w in view && view[w].pevents != {} && it.pevents != {}
    ensures TableInv(slots, if w in queue then queue else queue + [w], view[w := it])
  {
    assert WatcherOk(slots, queue, w, view[w]);
    var queue' := if w in queue then queue else queue + [w];
    forall v | v in view && v != w ensures WatcherOk(slots, queue', v, view[v]) {
      assert WatcherOk(slots, queue, v, view[v]);
    }
  }

  /** Giving up all events: the watcher leaves the queue and the table. */
  lemma StopAllOk(slots: seq<Slot>, queue: seq<Watcher>, view: View, w: Watcher)
    requires TableInv(slots, queue, view) && w in view && 0 <= w.fd < |slots|
    ensures var slots' := if slots[w.fd] == Of(w) then slots[w.fd := Free] else slots;
            TableInv(slots', Without(queue, w), view[w := Interest({}, {})])
    ensures slots[w.fd] == Of(w) <==> view[w].pevents != {}
  {
    assert WatcherOk(slots, queue, w, view[w]);
    WithoutNoDup(queue, w);
    var slots' := if slots[w.fd] == Of(w) then slots[w.fd := Free] else slots;
    var queue' := Without(queue, w);
    forall v | v in view && v != w ensures WatcherOk(slots', queue', v, view[v]) {
      assert WatcherOk(slots, queue, v, view[v]);
    }
    assert WatcherOk(slots', queue', w, Interest({}, {}));
    assert forall i :: 0 <= i < |slots'| && slots'[i].Of? ==> slots[i].Of? && slots'[i] == slots[i];
    forall v | v in queue' ensures v in view {
      assert v != w;
    }
  }

  /** Registering what the first queued watcher asks for takes it off the queue. */
  lemma DrainOk(slots: seq<Slot>, queue: seq<Watcher>, view: View)
    requires TableInv(slots, queue, view) && queue != []
    ensures var w := queue[0];
            w in view && view[w].pevents != {} && 0 <= w.fd < |slots|
            && TableInv(slots, queue[1..], view[w := Interest(view[w].pevents, view[w].pevents)])
  {
    var w := queue[0];
    assert w in queue && WatcherOk(slots, queue, w, view[w]);
    assert queue == [w] + queue[1..] && w !in queue[1..];
    assert NoDup(queue[1..]);
    forall v | v in view && v != w ensures WatcherOk(slots, queue[1..], v, view[v]) {
      assert WatcherOk(slots, queue, v, view[v]);
    }
  }

  /** A queued watcher is in the table, so that an empty table means an empty queue. */
  lemma QueuedUsed(slots: seq<Slot>, queue: seq<Watcher>, view: View)
    requires TableInv(slots, queue, view) && queue != []
    ensures Used(slots) > 0
  {
    var w := queue[0];
    DrainOk(slots, queue, view);
    assert WatcherOk(slots, queue, w, view[w]);
    UsedSet(slots, w.fd, Free);
  }

  /** A registration that a drain hands to the kernel. */
  datatype Change = Change(fd: int, event: PollEvent)

  const INT_MAX: int := 0x7fff_ffff

  class Loop {
    /** The slots: `nwatchers` of them and two behind; none at all before the first watcher. */
    var watchers: array<Slot>
    var nwatchers: nat
    var nfds: nat
    var queue: seq<Watcher>
    ghost var known: set<Watcher>

    ghost predicate TableOk()
      reads this, watchers
    {
      && watchers.Length == (if nwatchers == 0 then 0 else nwatchers + 2)
      && nwatchers + 2 <= 0x8000_0000
      && (nwatchers > 0 ==> IsPowerOfTwo(nwatchers + 2))
    }

    ghost function Slots(): (s: seq<Slot>)
      requires TableOk()
      reads this, watchers
      ensures |s| == nwatchers
    {
      watchers[..nwatchers]
    }

    ghost function Asked(): View
      reads this, known
    {
      map w | w in known :: Interest(w.events, w.pevents)
    }

    ghost predicate Valid()
      reads this, watchers, known
    {
      TableOk() && nfds == Used(Slots()) && TableInv(Slots(), queue, Asked())
    }

    constructor ()
      ensures Valid() && known == {} && queue == [] && nfds == 0
    {
      watchers := new Slot[0];
      nwatchers, nfds, queue, known := 0, 0, [], {};
    }

    /** Makes room for `len` watchers: all entries stay, and so do the two values behind them. Exactly beyond
        two to the 31st the new size wraps around to zero; then there is no new table, and the program aborts. */
    method MaybeResize(len: nat) returns (ok: bool)
      requires Valid() && len <= INT_MAX
      modifies this`watchers, this`nwatchers
      ensures Valid() && nwatchers >= old(nwatchers)
      ensures ok <==> len <= old(nwatchers) || len + 2 <= INT_MAX + 1
      ensures ok ==> nwatchers >= len
      ensures Slots() == old(Slots()) + seq(nwatchers - old(nwatchers), _ => Free)
      ensures len <= old(nwatchers) || !ok ==> watchers == old(watchers)
      ensures ok && len > old(nwatchers) ==> fresh(watchers) && LeastPower(len + 2, nwatchers + 2)
      ensures ok && len > old(nwatchers) ==>
                watchers[nwatchers..] == if old(nwatchers) == 0 then [Free, Free] else old(watchers[nwatchers..])
    {
      if len <= nwatchers {
        return true;
      }
      var size := NewSize(len);
      if size == 0 {
        return false;
      }
      Grow(size - 2);
      ok := true;
    }

    method NewSize(len: nat) returns (size: nat)
      requires len <= INT_MAX
      ensures LeastPower(len + 2, size)
      ensures size != 0 <==> len + 2 <= INT_MAX + 1
      ensures size != 0 ==> len + 2 <= size <= INT_MAX + 1 && IsPowerOfTwo(size)
    {
      NextPowerOfTwoLeast(len + 2);
      size := NextPowerOfTwo(len + 2);
    }

    /** Replaces the table by one of `n` slots. */
    method Grow(n: nat)
      requires Valid() && nwatchers < n && n + 2 <= 0x8000_0000 && IsPowerOfTwo(n + 2)
      modifies this`watchers, this`nwatchers
      ensures Valid() && nwatchers == n && fresh(watchers)
      ensures Slots() == old(Slots()) + seq(n - old(nwatchers), _ => Free)
      ensures watchers[n..] == if old(nwatchers) == 0 then [Free, Free] else old(watchers[nwatchers..])
    {
      var fakeList, fakeCount := Free, Free;
      if nwatchers > 0 {
        fakeList, fakeCount := watchers[nwatchers], watchers[nwatchers + 1];
      }
      assert nwatchers > 0 ==> watchers[nwatchers..] == [fakeList, fakeCount];
      ghost var slots, more := Slots(), n - nwatchers;
      GrowOk(slots, queue, Asked(), more);
      var grown := Realloc(watchers, nwatchers, n, fakeList, fakeCount);
      watchers, nwatchers := grown, n;
      assert Slots() == slots + seq(more, _ => Free);
    }

    /** A larger copy of the slots, with free ones after them and the two values at the new end. */
    method Realloc(was: array<Slot>, count: nat, n: nat, fakeList: Slot, fakeCount: Slot) returns (grown: array<Slot>)
      requires count <= was.Length && count < n
      ensures fresh(grown) && grown.Length == n + 2
      ensures grown[..n] == was[..count] + seq(n - count, _ => Free) && grown[n..] == [fakeList, fakeCount]
    {
      grown := new Slot[n + 2](i requires 0 <= i < n + 2 reads was => if i < was.Length then was[i] else Free);
      for i := count to n
        modifies grown
        invariant forall j :: 0 <= j < count ==> grown[j] == was[j]
        invariant forall j :: count <= j < i ==> grown[j] == Free
      {
        grown[i] := Free;
      }
      grown[n] := fakeList;
      grown[n + 1] := fakeCount;
    }

    /** A watcher that was never started, or is known already. */
    ghost predicate Startable(w: Watcher)
      reads this, w
    {
      w in known || (w.pevents == {} && w.events == {})
    }

    /** Asks for more events. Each descriptor has at most one active watcher, as the table demands. The program
        aborts exactly for the largest descriptor that the asserts allow. */
    method IoStart(w: Watcher, events: set<PollEvent>) returns (ok: bool)
      requires Valid() && Startable(w) && events != {} && 0 <= w.fd < INT_MAX
      requires Alone(Asked(), w)
      modifies this, watchers, w`pevents
      ensures ok <==> w.fd != INT_MAX - 1
      ensures ok ==> Valid() && known == old(known) + {w} && nwatchers >= old(nwatchers)
      ensures ok ==> w.pevents == old(w.pevents) + events
      ensures ok ==> queue == if old(w.events) == w.pevents || w in old(queue) then old(queue) else old(queue) + [w]
      ensures ok ==> nfds == old(nfds) + if old(w.pevents) == {} then 1 else 0
      ensures ok ==> forall i :: 0 <= i < old(nwatchers) && i != w.fd ==> Slots()[i] == old(Slots())[i]
    {
      ok := MaybeResize(w.fd + 1);
      if ok {
        Enlist(w, events);
      }
    }

    /** The same, with room in the table. */
    method Enlist(w: Watcher, events: set<PollEvent>)
      requires Valid() && Startable(w) && events != {} && 0 <= w.fd < nwatchers && Alone(Asked(), w)
      modifies this`queue, this`nfds, this`known, watchers, w`pevents
      ensures Valid() && known == old(known) + {w}
      ensures w.pevents == old(w.pevents) + events
      ensures queue == if old(w.events) == w.pevents || w in old(queue) then old(queue) else old(queue) + [w]
      ensures nfds == old(nfds) + if old(w.pevents) == {} then 1 else 0
      ensures forall i :: 0 <= i < nwatchers && i != w.fd ==> Slots()[i] == old(Slots())[i]
    {
      ghost var slots, view, it := Slots(), Asked(), Interest(w.events, w.pevents);
      ghost var it' := it.(pevents := it.pevents + events);
      ghost var slots', view' := slots[w.fd := Of(w)], view[w := it'];
      OwnSlot(slots, queue, view, w);
      StartOk(slots, queue, view, w, it, events);
      UsedSet(slots, w.fd, Of(w));
      ghost var queue' := if w in queue then queue else queue + [w];
      assert if it'.events == it'.pevents then slots' == slots && TableInv(slots, queue, view') else TableInv(slots', queue', view');
      Ask(w, w.pevents + events);
      if w.events == w.pevents {
        assert w in view;
        return;
      }
      TakePlace(w);
      assert Slots() == slots' && queue == queue' && Asked() == view';
    }

    /** Queues the watcher and puts it into its slot. */
    method TakePlace(w: Watcher)
      requires TableOk() && 0 <= w.fd < nwatchers && (Slots()[w.fd] == Free || Slots()[w.fd] == Of(w))
      modifies this`queue, this`nfds, watchers
      ensures TableOk() && Slots() == old(Slots())[w.fd := Of(w)]
      ensures nfds == old(nfds) + if old(Slots())[w.fd] == Free then 1 else 0
      ensures queue == if w in old(queue) then old(queue) else old(queue) + [w]
    {
      if w !in queue {
        queue := queue + [w];
      }
      Occupy(w);
    }

    method Ask(w: Watcher, pevents: set<PollEvent>)
      modifies this`known, w`pevents
      ensures w.pevents == pevents && known == old(known) + {w}
      ensures Asked() == old(Asked())[w := Interest(old(w.events), pevents)]
    {
      w.pevents := pevents;
      known := known + {w};
    }

    /** Puts the watcher into its free slot. */
    method Occupy(w: Watcher)
      requires TableOk() && 0 <= w.fd < nwatchers && (Slots()[w.fd] == Free || Slots()[w.fd] == Of(w))
      modifies this`nfds, watchers
      ensures TableOk() && Slots() == old(Slots())[w.fd := Of(w)]
      ensures nfds == old(nfds) + if old(Slots())[w.fd] == Free then 1 else 0
    {
      ghost var slots := Slots();
      if watchers[w.fd] == Free {
        watchers[w.fd] := Of(w);
        nfds := nfds + 1;
      }
      assert Slots() == slots[w.fd := Of(w)];
    }

    /** Frees the slot of the watcher, if it is in it. */
    method Vacate(w: Watcher)
      requires TableOk() && 0 <= w.fd < nwatchers && (Slots()[w.fd] == Of(w) ==> nfds > 0)
      modifies this`nfds, watchers
      ensures TableOk()
      ensures Slots() == if old(Slots())[w.fd] == Of(w) then old(Slots())[w.fd := Free] else old(Slots())
      ensures nfds == old(nfds) - if old(Slots())[w.fd] == Of(w) then 1 else 0
    {
      ghost var slots := Slots();
      if watchers[w.fd] == Of(w) {
        watchers[w.fd] := Free;
        nfds := nfds - 1;
      }
      assert Slots() == if slots[w.fd] == Of(w) then slots[w.fd := Free] else slots;
    }

    /** Gives events up. */
    method IoStop(w: Watcher, events: set<PollEvent>)
      requires Valid() && Startable(w) && events != {} && w.fd >= -1
      modifies this`queue, this`nfds, this`known, watchers, w`pevents, w`events
      ensures Valid() && known >= old(known)
      ensures w.pevents == old(w.pevents) - events
      ensures w.pevents == {} ==> w.events == {} && w !in queue && nfds == old(nfds) - if old(w.pevents) == {} then 0 else 1
      ensures w.pevents != {} ==> w.events == old(w.events) && nfds == old(nfds)
      ensures w.pevents != {} ==> queue == if w in old(queue) then old(queue) else old(queue) + [w]
      ensures forall v :: v != w ==> (v in old(queue) <==> v in queue)
      ensures forall i :: 0 <= i < nwatchers && i != w.fd ==> Slots()[i] == old(Slots())[i]
    {
      if w in known { assert WatcherOk(Slots(), queue, w, Asked()[w]); }
      if w.fd == -1 {
        assert w !in queue;
        return;
      }
      if w.fd >= nwatchers {
        return;
      }
      Know(w);
      ghost var slots, view := Slots(), Asked();
      assert WatcherOk(slots, queue, w, view[w]);
      if w.pevents - events == {} {
        Retire(w);
      } else {
        GiveUp(w, w.pevents - events);
      }
    }

    /** Goes on with fewer events. */
    method GiveUp(w: Watcher, pevents: set<PollEvent>)
      requires Valid() && w in known && w.pevents != {} && pevents != {}
      modifies this`queue, this`known, w`pevents
      ensures Valid() && known == old(known) && w.pevents == pevents
      ensures queue == if w in old(queue) then old(queue) else old(queue) + [w]
    {
      ghost var slots, view := Slots(), Asked();
      StopSomeOk(slots, queue, view, w, Interest(w.events, pevents));
      ghost var queue' := if w in queue then queue else queue + [w];
      Ask(w, pevents);
      if w !in queue {
        queue := queue + [w];
      }
      assert queue == queue' && known == old(known);
    }

    /** Counts a watcher that was never started as one that asks for nothing. */
    ghost method Know(w: Watcher)
      requires Valid() && Startable(w)
      modifies this`known
      ensures Valid() && known == old(known) + {w} && Slots() == old(Slots())
    {
      if w !in known {
        NeverStarted(Slots(), queue, Asked(), w);
        ghost var view := Asked();
        known := known + {w};
        assert Asked() == view[w := Interest({}, {})];
      }
    }

    /** Takes the watcher out of the queue and the table. */
    method Retire(w: Watcher)
      requires Valid() && w in known && 0 <= w.fd < nwatchers
      modifies this`queue, this`nfds, watchers, w`pevents, w`events
      ensures Valid() && w.pevents == {} && w.events == {} && queue == Without(old(queue), w)
      ensures nfds == old(nfds) - if old(w.pevents) == {} then 0 else 1
      ensures forall i :: 0 <= i < nwatchers && i != w.fd ==> Slots()[i] == old(Slots())[i]
      ensures w !in queue && forall v :: v != w ==> (v in old(queue) <==> v in queue)
    {
      ghost var slots, view := Slots(), Asked();
      ghost var slots' := if slots[w.fd] == Of(w) then slots[w.fd := Free] else slots;
      ghost var view' := view[w := Interest({}, {})];
      StopAllOk(slots, queue, view, w);
      UsedSet(slots, w.fd, Free);
      WithoutNoDup(queue, w);
      ghost var queue' := Without(queue, w);
      assert TableInv(slots', queue', view');
      queue := Without(queue, w);
      w.pevents, w.events := {}, {};
      Vacate(w);
      assert Asked() == view' && Slots() == slots' && queue == queue';
    }

    /** Stops the watcher for good. */
    method IoClose(w: Watcher)
      requires Valid() && Startable(w) && w.fd >= -1
      modifies this`queue, this`nfds, this`known, watchers, w`pevents, w`events
      ensures Valid() && w.pevents == {} && w.events == {} && w !in queue
      ensures forall i :: 0 <= i < nwatchers ==> Slots()[i] != Of(w)
      ensures forall v :: v != w ==> (v in old(queue) <==> v in queue)
    {
      IoStop(w, {PollIn, PollOut, PollRdHup, PollPri});
      assert w.pevents == {} by {
        forall e ensures e !in w.pevents {
          match e case PollIn => case PollOut => case PollRdHup => case PollPri =>
        }
      }
      if w in known { assert WatcherOk(Slots(), queue, w, Asked()[w]); }
    }

    /** Registers what the queued watchers ask for. Nothing that the loop asserts can fail, and every event
        that was asked for and not registered is handed over, for readability, writability and priority. */
    method Drain() returns (changes: seq<Change>)
      requires Valid()
      modifies this`queue, known
      ensures Valid() && queue == [] && known == old(known) && nfds == old(nfds) && Slots() == old(Slots())
      ensures forall w :: w in known ==> w.events == w.pevents == old(w.pevents)
      ensures forall c :: c in changes <==>
                c.event != PollRdHup
                && exists w :: w in known && w.fd == c.fd && c.event in old(w.pevents) && c.event !in old(w.events)
    {
      if nfds == 0 {
        NothingHanded(Slots(), queue, Asked());
        if queue != [] { QueuedUsed(Slots(), queue, Asked()); }
        assert queue == [];
        Settled(Asked());
        return [];
      }
      changes := DrainQueue();
    }

    method DrainQueue() returns (changes: seq<Change>)
      requires Valid()
      modifies this`queue, known
      ensures Valid() && queue == [] && known == old(known) && nfds == old(nfds) && Slots() == old(Slots())
      ensures forall w :: w in known ==> w.events == w.pevents == old(w.pevents)
      ensures forall c :: c in changes <==>
                c.event != PollRdHup
                && exists w :: w in known && w.fd == c.fd && c.event in old(w.pevents) && c.event !in old(w.events)
    {
      changes := [];
      ghost var start, slots := Asked(), Slots();
      NothingHanded(slots, queue, start);
      while queue != []
        modifies this`queue, known
        invariant Valid() && Slots() == slots && known == start.Keys
        invariant Drained(start, queue, Asked())
        invariant forall c :: c in changes <==> Handed(start, queue, c)
        decreases |queue|
      {
        ghost var view, before := Asked(), queue;
        HandedNext(start, before);
        var added := Register();
        assert view[before[0]] == start[before[0]];
        changes := changes + added;
      }
      Settled(start);
    }

    /** Takes the first watcher off the queue and registers what it asks for. */
    method Register() returns (added: seq<Change>)
      requires Valid() && queue != []
      modifies this`queue, known
      ensures Valid() && queue == old(queue)[1..] && old(queue[0]) in known
      ensures Asked() == old(Asked())[old(queue[0]) := Interest(old(queue[0].pevents), old(queue[0].pevents))]
      ensures added == Additions(old(queue[0].fd), old(queue[0].events), old(queue[0].pevents))
    {
      ghost var view := Asked();
      DrainOk(Slots(), queue, view);
      var w := queue[0];
      queue := queue[1..];
      assert w.pevents != {} && 0 <= w.fd < nwatchers;
      added := Additions(w.fd, w.events, w.pevents);
      w.events := w.pevents;
      assert Asked() == view[w := Interest(w.pevents, w.pevents)];
    }

    /** With an empty queue everything asked for is registered. */
    lemma Settled(start: View)
      requires Valid() && queue == [] && Drained(start, queue, Asked())
      ensures forall w :: w in known ==> w.events == w.pevents == start[w].pevents
    {
      forall w | w in known ensures w.events == w.pevents == start[w].pevents {
        assert w in Asked();
      }
    }
  }

  /** The registrations for the events that are asked for and not registered. */
  function Additions(fd: int, events: set<PollEvent>, pevents: set<PollEvent>): seq<Change> {
    (if PollIn !in events && PollIn in pevents then [Change(fd, PollIn)] else [])
    + (if PollOut !in events && PollOut in pevents then [Change(fd, PollOut)] else [])
    + (if PollPri !in events && PollPri in pevents then [Change(fd, PollPri)] else [])
  }

  lemma AdditionsHave(fd: int, events: set<PollEvent>, pevents: set<PollEvent>, c: Change)
    ensures c in Additions(fd, events, pevents) <==> c.fd == fd && c.event in pevents - events && c.event != PollRdHup
  {
    match c.event
    case PollIn =>
    case PollOut =>
    case PollRdHup =>
    case PollPri =>
  }

  /** The change belongs to a watcher that is not in the queue, or no longer. */
  ghost predicate Handed(start: View, queue: seq<Watcher>, c: Change) {
    c.event != PollRdHup
    && exists w :: w in start && w !in queue && w.fd == c.fd && c.event in start[w].pevents - start[w].events
  }

  /** Halfway through a drain: what is asked for stays, and is registered for all that left the queue. */
  ghost predicate Drained(start: View, queue: seq<Watcher>, view: View) {
    && view.Keys == start.Keys
    && (forall w :: w in view ==> view[w].pevents == start[w].pevents)
    && (forall w :: w in view ==> view[w].events == if w in queue then start[w].events else start[w].pevents)
  }

  lemma NothingHanded(slots: seq<Slot>, queue: seq<Watcher>, start: View)
    requires TableInv(slots, queue, start)
    ensures Drained(start, queue, start) && forall c :: !Handed(start, queue, c)
  {
    assert forall w :: w in start ==> WatcherOk(slots, queue, w, start[w]);
  }

  lemma HandedNext(start: View, queue: seq<Watcher>)
    requires queue != [] && NoDup(queue) && queue[0] in start
    ensures var w := queue[0];
            forall c :: Handed(start, queue[1..], c) <==>
                          Handed(start, queue, c) || c in Additions(w.fd, start[w].events, start[w].pevents)
  {
    var w := queue[0];
    assert queue == [w] + queue[1..] && w !in queue[1..];
    forall c ensures Handed(start, queue[1..], c) <==>
                       Handed(start, queue, c) || c in Additions(w.fd, start[w].events, start[w].pevents)
    {
      AdditionsHave(w.fd, start[w].events, start[w].pevents, c);
      if Handed(start, queue[1..], c) && !Handed(start, queue, c) {
        var v :| v in start && v !in queue[1..] && v.fd == c.fd && c.event in start[v].pevents - start[v].events;
        assert v == w;
      }
      if Handed(start, queue, c) {
        var v :| v in start && v !in queue && v.fd == c.fd && c.event in start[v].pevents - start[v].events;
        assert v !in queue[1..];
      }
    }
  }

  /** A watcher that was never started may be counted as one that asks for nothing. */
  lemma NeverStarted(slots: seq<Slot>, queue: seq<Watcher>, view: View, w: Watcher)
    requires TableInv(slots, queue, view) && w !in view
    ensures TableInv(slots, queue, view[w := Interest({}, {})])
  {
    forall v | v in view ensures WatcherOk(slots, queue, v, view[v]) {
    }
  }
}
