/** Red-black trees as shapes: balance, the two fix-ups' invariants, and the height bound. */
module RedBlackShape {
  import opened Powers
  import opened Trees

  datatype Color = Red | Black

  predicate IsBlack<N>(t: Tree<N, Color>) {
    t.Leaf? || t.tag == Black
  }

  /** The black height, counted along the left spine. */
  function BlackHeight<N>(t: Tree<N, Color>): nat {
    if t.Leaf? then 0 else BlackHeight(t.left) + (if t.tag == Black then 1 else 0)
  }

  /** Equal black heights everywhere, and no red node with a red child. */
  ghost predicate Balanced<N>(t: Tree<N, Color>) {
    t.Fork? ==>
      && Balanced(t.left) && Balanced(t.right)
      && BlackHeight(t.left) == BlackHeight(t.right)
      && (t.tag == Red ==> IsBlack(t.left) && IsBlack(t.right))
  }

  /** Like `Balanced`, but a red root may have red children. */
  ghost predicate NearlyBalanced<N>(t: Tree<N, Color>) {
    t.Fork? ==> Balanced(t.left) && Balanced(t.right) && BlackHeight(t.left) == BlackHeight(t.right)
  }

  /** The context stays balanced around any tree of black height `h` with a black root. */
  ghost predicate BalancedAround<N>(x: Ctx<N, Color>, h: nat) {
    x != Top ==>
      && Balanced(x.other) && BlackHeight(x.other) == h
      && (x.tag == Red ==> IsBlack(x.other) && x.up != Top && x.up.tag == Black && BalancedAround(x.up, h))
      && (x.tag == Black ==> BalancedAround(x.up, h + 1))
  }

  /** A tree is red-black exactly when a zipper into it is. */
  lemma {:induction false} PlugBalanced<N>(x: Ctx<N, Color>, t: Tree<N, Color>)
    ensures Balanced(Plug(x, t)) && IsBlack(Plug(x, t)) <==>
            Balanced(t) && BalancedAround(x, BlackHeight(t)) && (IsBlack(t) || (x != Top && x.tag == Black))
    decreases x
  {
    if x != Top {
      PlugBalanced(x.up, Fill(x, t));
    }
  }

  lemma {:induction false} BalancedHeight<N>(t: Tree<N, Color>)
    requires Balanced(t)
    ensures Pow2(BlackHeight(t)) <= Size(t) + 1
    ensures Height(t) <= 2 * BlackHeight(t) + (if IsBlack(t) then 0 else 1)
  {
    if t.Fork? {
      BalancedHeight(t.left);
      BalancedHeight(t.right);
    }
  }

  lemma {:induction false} Pow2Double(n: nat)
    ensures Pow2(2 * n) == Pow2(n) * Pow2(n)
  {
    if n > 0 {
      Pow2Double(n - 1);
      assert Pow2(2 * n) == 4 * Pow2(2 * (n - 1));
      assert Pow2(n) * Pow2(n) == 4 * (Pow2(n - 1) * Pow2(n - 1));
    }
  }

  lemma {:induction false} Pow2Monotone(m: nat, n: nat)
    requires m <= n
    ensures Pow2(m) <= Pow2(n)
    decreases n
  {
    if m < n {
      Pow2Monotone(m, n - 1);
    }
  }

  /** The height of a red-black tree of n nodes is at most 2 log2(n + 1). */
  lemma HeightBound<N>(t: Tree<N, Color>)
    requires Balanced(t) && IsBlack(t)
    ensures Pow2(Height(t)) <= (Size(t) + 1) * (Size(t) + 1)
  {
    var b := BlackHeight(t);
    BalancedHeight(t);
    Pow2Monotone(Height(t), 2 * b);
    Pow2Double(b);
    MulMonotone(Pow2(b), Size(t) + 1);
  }

  lemma MulMonotone(a: nat, b: nat)
    requires a <= b
    ensures a * a <= b * b
  {
    assert a * a <= a * b <= b * b;
  }
}
