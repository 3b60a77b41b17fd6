/** Small types and list operations that several modules use. */
module Wrappers {

  datatype Option<T> = None | Some(value: T)
}

/** Lists as the queues of the program hold them: taking out one element, and no element twice. */
module Lists {

  ghost predicate NoDup<T>(s: seq<T>) {
    forall i, j :: 0 <= i < j < |s| ==> s[i] != s[j]
  }

  /** The list without the first `x`. */
  function Without<T(==)>(s: seq<T>, x: T): seq<T> {
    if s == [] then [] else if s[0] == x then s[1..] else [s[0]] + Without(s[1..], x)
  }

  /** How many elements are before the first `x`. */
  function Index<T(==)>(s: seq<T>, x: T): nat
    requires x in s
  {
    if s[0] == x then 0 else 1 + Index(s[1..], x)
  }

  lemma {:induction false} IndexAppend<T>(s: seq<T>, x: T, t: seq<T>)
    requires x in s
    ensures Index(s + t, x) == Index(s, x)
    decreases |s|
  {
    if s[0] != x {
      assert (s + t)[1..] == s[1..] + t;
      IndexAppend(s[1..], x, t);
    }
  }

  lemma {:induction false} IndexWithout<T>(s: seq<T>, x: T, y: T)
    requires x in s && x != y
    ensures x in Without(s, y) && Index(Without(s, y), x) <= Index(s, x)
    decreases |s|
  {
    if s[0] != x && s[0] != y {
      IndexWithout(s[1..], x, y);
      assert ([s[0]] + Without(s[1..], y))[1..] == Without(s[1..], y);
    }
  }

  lemma {:induction false} WithoutJoin<T>(s: seq<T>, t: seq<T>, x: T)
    ensures Without(s + t, x) == if x in s then Without(s, x) + t else s + Without(t, x)
    decreases |s|
  {
    if s == [] {
      assert s + t == t && s + Without(t, x) == Without(t, x);
    } else {
      var first, rest := s[0], s[1..];
      assert (s + t)[0] == first && (s + t)[1..] == rest + t && s == [first] + rest;
      if first != x {
        WithoutJoin(rest, t, x);
        assert x in s <==> x in rest;
        Joined(first, Without(rest, x), t);
        Joined(first, rest, Without(t, x));
      }
    }
  }

  lemma Joined<T>(x: T, s: seq<T>, t: seq<T>)
    ensures [x] + (s + t) == [x] + s + t
  {
  }

  /** The element `x` stays, at least `steps` places nearer to the head. */
  ghost predicate Forward<T>(s: seq<T>, t: seq<T>, x: T, steps: nat) {
    x in s && x in t && Index(t, x) + steps <= Index(s, x)
  }

  lemma {:induction false} WithoutNoDup<T>(s: seq<T>, x: T)
    requires NoDup(s)
    ensures NoDup(Without(s, x)) && x !in Without(s, x)
    ensures forall y :: y != x ==> (y in Without(s, x) <==> y in s)
  {
    if s != [] && s[0] != x {
      var rest := Without(s[1..], x);
      WithoutNoDup(s[1..], x);
      assert s == [s[0]] + s[1..];
      assert s[0] !in rest && NoDup([s[0]] + rest);
    } else if s != [] {
      assert s == [x] + s[1..];
    }
  }
}

module Powers {

  function Pow2(n: nat): nat {
    if n == 0 then 1 else 2 * Pow2(n - 1)
  }
}

/** What happens along a run: `states[i]` and `actions[i]` lead to `states[i + 1]`. */
module Runs {
  import opened Lists

  /** How many steps from `j` on and before `k` are of a kind. */
  function Times<S, A>(states: seq<S>, actions: seq<A>, j: nat, k: nat, kind: (S, A) -> bool): nat
    requires k <= |actions| < |states|
  {
    if k <= j then 0
    else Times(states, actions, j, k - 1, kind) + if kind(states[k - 1], actions[k - 1]) then 1 else 0
  }

  /** A measure that never rises and that some steps lower bounds the number of these steps. */
  lemma {:induction false} Falling<S, A>(states: seq<S>, actions: seq<A>, measure: S -> nat, kind: (S, A) -> bool, j: nat, k: nat)
    requires j <= k <= |actions| < |states|
    requires forall i :: j <= i < k ==>
               measure(states[i + 1]) + (if kind(states[i], actions[i]) then 1 else 0) <= measure(states[i])
    ensures measure(states[k]) + Times(states, actions, j, k, kind) <= measure(states[j])
    decreases k
  {
    if j < k {
      Falling(states, actions, measure, kind, j, k - 1);
      assert measure(states[k - 1 + 1]) + (if kind(states[k - 1], actions[k - 1]) then 1 else 0) <= measure(states[k - 1]);
    }
  }

  /** If nothing takes an element away from the head of a queue, and something takes it nearer, then it is nearer
      by as many places as this happens. */
  lemma {:induction false} InOrder<S, A, T>(states: seq<S>, actions: seq<A>, queue: S -> seq<T>, leaves: (S, A) -> bool,
                                            x: T, j: nat, k: nat)
    requires j <= k <= |actions| < |states| && x in queue(states[j])
    requires forall i :: j <= i < k ==>
               Forward(queue(states[i]), queue(states[i + 1]), x, if leaves(states[i], actions[i]) then 1 else 0)
    ensures x in queue(states[k])
    ensures Index(queue(states[k]), x) + Times(states, actions, j, k, leaves) <= Index(queue(states[j]), x)
    decreases k
  {
    if j < k {
      InOrder(states, actions, queue, leaves, x, j, k - 1);
      assert Forward(queue(states[k - 1]), queue(states[k - 1 + 1]), x, if leaves(states[k - 1], actions[k - 1]) then 1 else 0);
    }
  }
}
