/** The binary min-heap of linked nodes. A node's tag is its priority. */
module Heaps {
  import opened Trees
  import opened Links

  // ---------- Complete trees ----------

  /** What hangs at the end of a path from the root; `true` steps to the right. */
  function At<N, C>(t: Tree<N, C>, p: seq<bool>): Tree<N, C> {
    if p == [] || t.Leaf? then t
    else At(if p[0] then t.right else t.left, p[1..])
  }

  predicate Has<N, C>(t: Tree<N, C>, p: seq<bool>) {
    At(t, p).Fork?
  }

  /** The number of a position, counted by rows from the root, which is number 1. */
  function Num(p: seq<bool>): (n: nat)
    ensures n >= 1
  {
    if p == [] then 1 else 2 * Num(p[..|p| - 1]) + if p[|p| - 1] then 1 else 0
  }

  /** The nodes fill the first `n` positions. */
  ghost predicate Complete<N, C>(t: Tree<N, C>, n: nat) {
    forall p: seq<bool> :: Has(t, p) <==> Num(p) <= n
  }

  function Path<N, C>(x: Ctx<N, C>): seq<bool> {
    if x == Top then [] else Path(x.up) + [x.InRight?]
  }

  lemma {:induction false} AtAppend<N, C>(t: Tree<N, C>, p: seq<bool>, b: bool)
    ensures At(t, p + [b]) == At(At(t, p), [b])
  {
    if p == [] || t.Leaf? {
      assert p == [] ==> p + [b] == [b];
    } else {
      assert (p + [b])[1..] == p[1..] + [b];
      AtAppend(if p[0] then t.right else t.left, p[1..], b);
    }
  }

  lemma {:induction false} AtPath<N, C>(x: Ctx<N, C>, t: Tree<N, C>)
    ensures At(Plug(x, t), Path(x)) == t
    decreases x
  {
    if x != Top {
      AtPath(x.up, Fill(x, t));
      AtAppend(Plug(x, t), Path(x.up), x.InRight?);
      assert At(Fill(x, t), [x.InRight?]) == t;
    }
  }

  lemma {:induction false} AtConcat<N, C>(t: Tree<N, C>, p: seq<bool>, q: seq<bool>)
    ensures At(t, p + q) == At(At(t, p), q)
  {
    if p == [] || t.Leaf? {
      assert p == [] ==> p + q == q;
    } else {
      assert (p + q)[1..] == p[1..] + q;
      AtConcat(if p[0] then t.right else t.left, p[1..], q);
    }
  }

  /** What hangs in the hole shows only at the positions below the hole. */
  lemma {:induction false} PlugHas<N, C>(x: Ctx<N, C>, t: Tree<N, C>, u: Tree<N, C>, p: seq<bool>)
    requires !(Path(x) <= p)
    ensures Has(Plug(x, t), p) == Has(Plug(x, u), p)
    decreases x
  {
    var w := Path(x.up);
    if w <= p {
      var q := p[|w|..];
      assert p == w + q;
      AtPath(x.up, Fill(x, t));
      AtPath(x.up, Fill(x, u));
      AtConcat(Plug(x, t), w, q);
      AtConcat(Plug(x, u), w, q);
    } else {
      PlugHas(x.up, Fill(x, t), Fill(x, u), p);
    }
  }

  lemma {:induction false} NumInjective(p: seq<bool>, q: seq<bool>)
    requires Num(p) == Num(q)
    ensures p == q
    decreases |p|
  {
    if p != [] && q != [] {
      NumInjective(p[..|p| - 1], q[..|q| - 1]);
      assert p == p[..|p| - 1] + [p[|p| - 1]] && q == q[..|q| - 1] + [q[|q| - 1]];
    }
  }

  lemma {:induction false} NumGrows(p: seq<bool>, q: seq<bool>)
    ensures Num(p) <= Num(p + q) && (q != [] ==> Num(p) < Num(p + q))
    decreases |q|
  {
    if q == [] {
      assert p + q == p;
    } else {
      assert (p + q)[..|p + q| - 1] == p + q[..|q| - 1];
      NumGrows(p, q[..|q| - 1]);
    }
  }

  /** Filling the first free position keeps the tree complete. */
  lemma AppendComplete<N, C>(x: Ctx<N, C>, n: nat, e: N, c: C)
    requires Complete(Plug(x, Leaf), n) && Num(Path(x)) == n + 1
    ensures Complete(Plug(x, Fork(Leaf, e, c, Leaf)), n + 1)
  {
    var w, f := Path(x), Fork(Leaf, e, c, Leaf);
    forall p: seq<bool> ensures Has(Plug(x, f), p) <==> Num(p) <= n + 1 {
      if w <= p {
        var q := p[|w|..];
        assert p == w + q;
        AtPath(x, f);
        AtConcat(Plug(x, f), w, q);
        NumGrows(w, q);
        assert q != [] ==> At(f, q) == At(Leaf, q[1..]);
        assert q == [] ==> p == w;
      } else {
        PlugHas(x, Leaf, f, p);
        assert Has(Plug(x, Leaf), p) <==> Num(p) <= n;
        if Num(p) == n + 1 {
          NumInjective(p, w);
        }
      }
    }
  }

  /** The last position holds a leaf node, and emptying it keeps the tree complete. */
  lemma DropComplete<N, C>(x: Ctx<N, C>, t: Tree<N, C>, n: nat)
    requires Complete(Plug(x, t), n) && Num(Path(x)) == n
    ensures t.Fork? && t.left == Leaf && t.right == Leaf
    ensures Complete(Plug(x, Leaf), n - 1)
  {
    var w := Path(x);
    AtPath(x, t);
    assert Has(Plug(x, t), w);
    forall b: bool ensures At(t, [b]).Leaf? {
      AtAppend(Plug(x, t), w, b);
      NumGrows(w, [b]);
      assert !Has(Plug(x, t), w + [b]);
    }
    assert At(t, [false]) == t.left && At(t, [true]) == t.right;
    forall p: seq<bool> ensures Has(Plug(x, Leaf), p) <==> Num(p) <= n - 1 {
      if w <= p {
        var q := p[|w|..];
        assert p == w + q;
        AtPath(x, Leaf);
        AtConcat(Plug(x, Leaf), w, q);
        NumGrows(w, q);
      } else {
        PlugHas(x, t, Leaf, p);
        assert Has(Plug(x, t), p) <==> Num(p) <= n;
        if Num(p) == n {
          NumInjective(p, w);
        }
      }
    }
  }

  /** Trees with nodes in the same positions. */
  ghost predicate SameShape<N, C>(t: Tree<N, C>, u: Tree<N, C>) {
    if t.Leaf? then u.Leaf? else u.Fork? && SameShape(t.left, u.left) && SameShape(t.right, u.right)
  }

  lemma {:induction false} SameShapeHas<N, C>(t: Tree<N, C>, u: Tree<N, C>, p: seq<bool>)
    requires SameShape(t, u)
    ensures Has(t, p) == Has(u, p)
  {
    if p != [] && t.Fork? {
      SameShapeHas(if p[0] then t.right else t.left, if p[0] then u.right else u.left, p[1..]);
    }
  }

  lemma {:induction false} SameShapeRefl<N, C>(t: Tree<N, C>)
    ensures SameShape(t, t)
  {
    if t.Fork? {
      SameShapeRefl(t.left);
      SameShapeRefl(t.right);
    }
  }

  lemma {:induction false} SameShapePlug<N, C>(x: Ctx<N, C>, t: Tree<N, C>, u: Tree<N, C>)
    requires SameShape(t, u)
    ensures SameShape(Plug(x, t), Plug(x, u))
    decreases x
  {
    if x != Top {
      SameShapeRefl(x.other);
      SameShapePlug(x.up, Fill(x, t), Fill(x, u));
    }
  }

  lemma SameShapeComplete<N, C>(x: Ctx<N, C>, t: Tree<N, C>, u: Tree<N, C>, n: nat)
    requires SameShape(t, u) && Complete(Plug(x, t), n)
    ensures Complete(Plug(x, u), n)
  {
    SameShapePlug(x, t, u);
    forall p: seq<bool> ensures Has(Plug(x, u), p) <==> Num(p) <= n {
      SameShapeHas(Plug(x, t), Plug(x, u), p);
      assert Has(Plug(x, t), p) <==> Num(p) <= n;
    }
  }

  // ---------- Heap order ----------

  /** `less` is a strict weak order: asymmetric, and "not less" is transitive. */
  ghost predicate WeakOrder<K(!new)>(less: (K, K) -> bool) {
    && (forall a, b :: less(a, b) ==> !less(b, a))
    && (forall a, b, c :: !less(b, a) && !less(c, b) ==> !less(c, a))
  }

  /** No tag in the tree is less than that of a node above it, nor than `k`. */
  ghost predicate Above<N, K>(less: (K, K) -> bool, k: K, t: Tree<N, K>) {
    t.Fork? ==> !less(t.tag, k)
  }

  ghost predicate Ordered<N, K>(less: (K, K) -> bool, t: Tree<N, K>) {
    t.Fork? ==> Above(less, t.tag, t.left) && Above(less, t.tag, t.right) && Ordered(less, t.left) && Ordered(less, t.right)
  }

  ghost predicate OrderedAround<N, K>(less: (K, K) -> bool, x: Ctx<N, K>) {
    x != Top ==>
      && Above(less, x.tag, x.other) && Ordered(less, x.other)
      && OrderedAround(less, x.up) && (x.up != Top ==> !less(x.tag, x.up.tag))
  }

  lemma {:induction false} PlugOrdered<N, K>(less: (K, K) -> bool, x: Ctx<N, K>, t: Tree<N, K>)
    ensures Ordered(less, Plug(x, t)) ==> Ordered(less, t) && OrderedAround(less, x) && (x != Top ==> Above(less, x.tag, t))
    ensures Ordered(less, t) && OrderedAround(less, x) && (x != Top ==> Above(less, x.tag, t)) ==> Ordered(less, Plug(x, t))
    decreases x
  {
    if x != Top {
      PlugOrdered(less, x.up, Fill(x, t));
    }
  }

  /** The root of an ordered tree is least. */
  lemma {:induction false} RootLeast<D, K(!new)>(less: (K, K) -> bool, t: Shape<D, K>, p: Node?<D, K>, n: Node<D, K>)
    requires WeakOrder(less) && Ordered(less, t) && n in Nodes(t)
    ensures !less(CellOf(t, p, n).tag, t.tag)
  {
    if n == t.node {
    } else if n in Nodes(t.left) {
      RootLeast(less, t.left, t.node, n);
    } else {
      RootLeast(less, t.right, t.node, n);
    }
  }

  // ---------- Swapping a parent with its child ----------

  /** The pointers that swapping `p` with its child `c` reads are there and differ. */
  ghost predicate CanSwap<D, K>(m: Mem<D, K>, p: Node<D, K>, c: Node<D, K>) {
    && p in m && c in m && p != c && (m[p].left == c || m[p].right == c) && m[p].left != m[p].right
    && var s, h, a, b := Sibling(m, p, c), m[p].parent, m[c].left, m[c].right;
    && (s != null ==> s in m && s != p && s != c && s != h && s != a && s != b)
    && (h != null ==> h in m && h != p && h != c && h != a && h != b)
    && (a != null ==> a in m && a != p && a != c && a != b)
    && (b != null ==> b in m && b != p && b != c)
  }

  ghost function Sibling<D, K>(m: Mem<D, K>, p: Node<D, K>, c: Node<D, K>): Node?<D, K>
    requires p in m
  {
    if m[p].left == c then m[p].right else m[p].left
  }

  /** First the two nodes trade their links, and the former child adopts the former parent. */
  ghost function TradeMem<D, K>(m: Mem<D, K>, p: Node<D, K>, c: Node<D, K>): Mem<D, K>
    requires CanSwap(m, p, c)
  {
    m[p := Cell(m[c].left, m[c].right, c, m[p].tag)]
     [c := if m[p].left == c then Cell(p, m[p].right, m[p].parent, m[c].tag) else Cell(m[p].left, p, m[p].parent, m[c].tag)]
  }

  /** Then their new neighbours learn of it: `s` is the sibling that `c` now has as a child. */
  ghost function GreetMem<D, K>(m: Mem<D, K>, p: Node<D, K>, c: Node<D, K>, s: Node?<D, K>): Mem<D, K>
    requires p in m && c in m
  {
    map n | n in m ::
      if n == s then m[n].(parent := c)
      else if n == m[p].left || n == m[p].right then m[n].(parent := p)
      else if n == m[c].parent then Redirected(m[n], p, c)
      else m[n]
  }

  ghost predicate CanGreet<D, K>(m: Mem<D, K>, p: Node<D, K>, c: Node<D, K>, s: Node?<D, K>) {
    && p in m && c in m && p != c
    && var h, a, b := m[c].parent, m[p].left, m[p].right;
    && (s != null ==> s in m && s != p && s != c && s != h && s != a && s != b)
    && (h != null ==> h in m && h != p && h != c && h != a && h != b)
    && (a != null ==> a in m && a != p && a != c && a != b)
    && (b != null ==> b in m && b != p && b != c)
  }

  ghost function SwapMem<D, K>(m: Mem<D, K>, p: Node<D, K>, c: Node<D, K>): Mem<D, K>
    requires CanSwap(m, p, c)
  {
    GreetMem(TradeMem(m, p, c), p, c, Sibling(m, p, c))
  }

  /** A node that took over its parent's links points to itself once; that pointer is meant for
      its former parent. */
  method Reseat<D, K>(child: Node<D, K>, parent: Node<D, K>) returns (sibling: Node?<D, K>)
    modifies child`left, child`right
    ensures old(child.left) == child ==> child.left == parent && child.right == old(child.right) == sibling
    ensures old(child.left) != child ==> child.right == parent && child.left == old(child.left) == sibling
  {
    if child.left == child {
      child.left := parent;
      sibling := child.right;
    } else {
      child.right := parent;
      sibling := child.left;
    }
  }

  method TradeLinks<D, K>(head: Head<D, K>, parent: Node<D, K>, child: Node<D, K>) returns (sibling: Node?<D, K>)
    requires head.Mirrors() && CanSwap(head.mem, parent, child)
    modifies head`mem, {parent, child}`left, {parent, child}`right, {parent, child}`parent
    ensures head.Mirrors() && head.mem == TradeMem(old(head.mem), parent, child)
    ensures sibling == Sibling(old(head.mem), parent, child)
  {
    parent.left, parent.right, parent.parent, child.left, child.right, child.parent :=
      child.left, child.right, child.parent, parent.left, parent.right, parent.parent;
    parent.parent := child;
    sibling := Reseat(child, parent);
    head.mem := TradeMem(head.mem, parent, child);
    forall n | n in head.mem.Keys ensures head.mem[n] == Cell(n.left, n.right, n.parent, n.tag) {
      if n == parent {} else if n == child {} else {}
    }
  }

  method Greet<D, K>(head: Head<D, K>, parent: Node<D, K>, child: Node<D, K>, sibling: Node?<D, K>)
    requires head.Mirrors() && CanGreet(head.mem, parent, child, sibling)
    modifies head, head.mem.Keys`left, head.mem.Keys`right, head.mem.Keys`parent
    ensures head.Mirrors() && head.mem == GreetMem(old(head.mem), parent, child, sibling)
    ensures head.root == if old(head.mem)[child].parent == null then child else old(head.root)
  {
    head.Adopt(sibling, child);
    head.Adopt(parent.left, parent);
    head.Adopt(parent.right, parent);
    head.Redirect(child.parent, parent, child);
    head.mem := GreetMem(head.mem, parent, child, sibling);
    forall n | n in head.mem.Keys ensures head.mem[n] == Cell(n.left, n.right, n.parent, n.tag) {
      if n == sibling {} else if n == parent.left {} else if n == parent.right {} else if n == child.parent {} else {}
    }
  }

  /** Swaps the node `parent` with its child; the child moves closer to the root. */
  method NodeSwapAt<D, K>(head: Head<D, K>, parent: Node<D, K>, child: Node<D, K>)
    requires head.Mirrors() && CanSwap(head.mem, parent, child)
    modifies head, head.mem.Keys`left, head.mem.Keys`right, head.mem.Keys`parent
    ensures head.Mirrors() && head.mem == SwapMem(old(head.mem), parent, child)
    ensures head.root == if old(head.mem)[parent].parent == null then child else old(head.root)
  {
    var sibling := TradeLinks(head, parent, child);
    Greet(head, parent, child, sibling);
  }

  /** The tree after a swap: the two nodes have changed places, all else is as it was. */
  ghost function Swapped<D, K>(t: Shape<D, K>, left: bool): Shape<D, K>
    requires t.Fork? && (if left then t.left.Fork? else t.right.Fork?)
  {
    if left then Fork(Fork(t.left.left, t.node, t.tag, t.left.right), t.left.node, t.left.tag, t.right)
    else Fork(t.left, t.right.node, t.right.tag, Fork(t.right.left, t.node, t.tag, t.right.right))
  }

  /** What a swap changes in the cells of the swapped tree. */
  lemma SwappedCells<D, K>(t: Shape<D, K>, left: bool, h: Node?<D, K>, n: Node<D, K>)
    requires Distinct(t) && t.Fork? && (if left then t.left.Fork? else t.right.Fork?) && n in Nodes(t)
    ensures n in Nodes(Swapped(t, left))
    ensures
      var s, c := Swapped(t, left), if left then t.left else t.right;
      var sibling := if left then t.right else t.left;
      CellOf(s, h, n) ==
        if n == t.node then Cell(Root(c.left), Root(c.right), c.node, t.tag)
        else if n == c.node then
          if left then Cell(t.node, Root(sibling), h, c.tag) else Cell(Root(sibling), t.node, h, c.tag)
        else if n == Root(sibling) then CellOf(t, h, n).(parent := c.node)
        else if n == Root(c.left) || n == Root(c.right) then CellOf(t, h, n).(parent := t.node)
        else CellOf(t, h, n)
  {
    var c, o := if left then t.left else t.right, if left then t.right else t.left;
    var s, d := Swapped(t, left), Fork(c.left, t.node, t.tag, c.right);
    assert c.node in Nodes(c) && Nodes(c.left) <= Nodes(c) && Nodes(c.right) <= Nodes(c) && Distinct(c);
    assert o.Fork? ==> o.node in Nodes(o);
    assert c.left.Fork? ==> c.left.node in Nodes(c.left);
    assert c.right.Fork? ==> c.right.node in Nodes(c.right);
    if n in Nodes(o) {
      assert CellOf(t, h, n) == CellOf(o, t.node, n);
      assert CellOf(s, h, n) == CellOf(o, c.node, n);
    } else if n != t.node && n != c.node {
      assert n in Nodes(d);
      assert CellOf(t, h, n) == CellOf(c, t.node, n);
      assert CellOf(s, h, n) == CellOf(d, c.node, n);
      var q := if n in Nodes(c.left) then c.left else c.right;
      assert CellOf(c, t.node, n) == CellOf(q, c.node, n) && CellOf(d, c.node, n) == CellOf(q, t.node, n);
    }
  }

  lemma SwappedShape<D, K>(t: Shape<D, K>, left: bool)
    requires t.Fork? && (if left then t.left.Fork? else t.right.Fork?)
    ensures SameShape(t, Swapped(t, left))
  {
    var c, o := if left then t.left else t.right, if left then t.right else t.left;
    SameShapeRefl(c.left);
    SameShapeRefl(c.right);
    SameShapeRefl(o);
  }

  lemma SwappedDistinct<D, K>(t: Shape<D, K>, left: bool)
    requires t.Fork? && (if left then t.left.Fork? else t.right.Fork?) && Distinct(t)
    ensures Nodes(Swapped(t, left)) == Nodes(t) && Distinct(Swapped(t, left))
  {
    var c, o := if left then t.left else t.right, if left then t.right else t.left;
    TradedDistinct(c, o, t.node, t.tag);
  }

  lemma TradedDistinct<D, K>(c: Shape<D, K>, o: Shape<D, K>, p: Node<D, K>, k: K)
    requires c.Fork? && Distinct(c) && Distinct(o) && Nodes(c) !! Nodes(o) && p !in Nodes(c) && p !in Nodes(o)
    ensures
      var d := Fork(c.left, p, k, c.right);
      && Distinct(d) && Nodes(d) !! Nodes(o) && c.node !in Nodes(d) && c.node !in Nodes(o)
      && Nodes(d) + {c.node} == Nodes(c) + {p}
  {
    assert c.node in Nodes(c) && Nodes(c.left) <= Nodes(c) && Nodes(c.right) <= Nodes(c);
  }

  lemma SwapHolds<D, K>(m: Mem<D, K>, root: Node?<D, K>, x: Zip<D, K>, t: Shape<D, K>, left: bool)
    requires Holds(m, root, x, t) && t.Fork? && (if left then t.left.Fork? else t.right.Fork?)
    ensures
      var p, c := t.node, if left then t.left.node else t.right.node;
      && CanSwap(m, p, c) && m[p].parent == Hole(x)
      && Holds(SwapMem(m, p, c), if x == Top then c else root, x, Swapped(t, left))
  {
    var p, c := t.node, if left then t.left.node else t.right.node;
    SwapPossible(m, root, x, t, left);
    SwappedDistinct(t, left);
    SwapMemAt(m, p, c, p);
    forall n | n in Nodes(t) ensures SwapMem(m, p, c)[n] == CellOf(Swapped(t, left), Hole(x), n) {
      SwapHoldsBelow(m, root, x, t, left, n);
    }
    forall n | n in CtxNodes(x) ensures SwapMem(m, p, c)[n] == CtxCellOf(x, c, n) {
      SwapHoldsAbove(m, root, x, t, left, n);
    }
  }

  lemma SwapHoldsBelow<D, K>(m: Mem<D, K>, root: Node?<D, K>, x: Zip<D, K>, t: Shape<D, K>, left: bool, n: Node<D, K>)
    requires Holds(m, root, x, t) && t.Fork? && (if left then t.left.Fork? else t.right.Fork?) && n in Nodes(t)
    ensures
      var p, c := t.node, if left then t.left.node else t.right.node;
      CanSwap(m, p, c) && n in Nodes(Swapped(t, left)) && SwapMem(m, p, c)[n] == CellOf(Swapped(t, left), Hole(x), n)
  {
    SwapPossible(m, root, x, t, left);
    SwappedCells(t, left, Hole(x), n);
    SwapMemAt(m, t.node, if left then t.left.node else t.right.node, n);
    assert n !in CtxNodes(x) && (x != Top ==> x.node in CtxNodes(x));
  }

  lemma SwapHoldsAbove<D, K>(m: Mem<D, K>, root: Node?<D, K>, x: Zip<D, K>, t: Shape<D, K>, left: bool, n: Node<D, K>)
    requires Holds(m, root, x, t) && t.Fork? && (if left then t.left.Fork? else t.right.Fork?) && n in CtxNodes(x)
    ensures
      var p, c := t.node, if left then t.left.node else t.right.node;
      CanSwap(m, p, c) && SwapMem(m, p, c)[n] == CtxCellOf(x, c, n)
  {
    var p, c := t.node, if left then t.left.node else t.right.node;
    SwapPossible(m, root, x, t, left);
    CtxRefilled(x, p, c, n);
    SwapMemAt(m, p, c, n);
    var o, d := if left then t.right else t.left, if left then t.left else t.right;
    assert n !in Nodes(t) && d.node in Nodes(d) && Nodes(d) <= Nodes(t) && Nodes(o) <= Nodes(t);
    assert d.left.Fork? ==> d.left.node in Nodes(d);
    assert d.right.Fork? ==> d.right.node in Nodes(d);
    assert o.Fork? ==> o.node in Nodes(o);
  }

  lemma SwapMemAt<D, K>(m: Mem<D, K>, p: Node<D, K>, c: Node<D, K>, n: Node<D, K>)
    requires CanSwap(m, p, c) && n in m
    ensures SwapMem(m, p, c).Keys == m.Keys
    ensures SwapMem(m, p, c)[n] ==
            if n == p then Cell(m[c].left, m[c].right, c, m[p].tag)
            else if n == c then
              if m[p].left == c then Cell(p, m[p].right, m[p].parent, m[c].tag) else Cell(m[p].left, p, m[p].parent, m[c].tag)
            else if n == Sibling(m, p, c) then m[n].(parent := c)
            else if n == m[c].left || n == m[c].right then m[n].(parent := p)
            else if n == m[p].parent then Redirected(m[n], p, c)
            else m[n]
  {
  }

  lemma SwapPossible<D, K>(m: Mem<D, K>, root: Node?<D, K>, x: Zip<D, K>, t: Shape<D, K>, left: bool)
    requires Holds(m, root, x, t) && t.Fork? && (if left then t.left.Fork? else t.right.Fork?)
    ensures
      var p, c := t.node, if left then t.left.node else t.right.node;
      && CanSwap(m, p, c) && m[p].parent == Hole(x)
      && m[p] == Cell(Root(t.left), Root(t.right), Hole(x), t.tag)
      && m[c] == (if left then Cell(Root(t.left.left), Root(t.left.right), p, t.left.tag)
                  else Cell(Root(t.right.left), Root(t.right.right), p, t.right.tag))
      && (m[p].left == c <==> left)
  {
    var c, o := if left then t.left else t.right, if left then t.right else t.left;
    HoldsAt(m, root, x, t);
    assert Distinct(t) && Distinct(c);
    assert c.node in Nodes(c) && Nodes(c.left) <= Nodes(c) && Nodes(c.right) <= Nodes(c);
    assert o.Fork? ==> o.node in Nodes(o);
    assert c.left.Fork? ==> c.left.node in Nodes(c.left);
    assert c.right.Fork? ==> c.right.node in Nodes(c.right);
    assert x != Top ==> x.node in CtxNodes(x);
  }

  method NodeSwap<D, K>(head: Head<D, K>, parent: Node<D, K>, child: Node<D, K>, ghost x: Zip<D, K>, ghost t: Shape<D, K>, ghost left: bool)
    requires head.Represents(x, t) && t.Fork? && t.node == parent
    requires if left then Root(t.left) == child else Root(t.right) == child
    modifies head, head.mem.Keys`left, head.mem.Keys`right, head.mem.Keys`parent
    ensures head.mem.Keys == old(head.mem.Keys)
    ensures head.Represents(x, Swapped(t, left))
  {
    SwapHolds(head.mem, head.root, x, t, left);
    HoldsAt(head.mem, head.root, x, t);
    NodeSwapAt(head, parent, child);
  }

  // ---------- Sifting ----------

  /** Where the node at the focus may still be less than its parent, but nothing else is amiss. */
  ghost predicate Rising<D, K>(less: (K, K) -> bool, x: Zip<D, K>, t: Shape<D, K>) {
    && t.Fork? && Ordered(less, t) && OrderedAround(less, x)
    && (x != Top ==> Above(less, x.tag, t.left) && Above(less, x.tag, t.right))
  }

  /** Where the node at the focus may be out of order with its parent and its children. */
  ghost predicate Loose<D, K>(less: (K, K) -> bool, x: Zip<D, K>, t: Shape<D, K>) {
    && t.Fork? && Ordered(less, t.left) && Ordered(less, t.right) && OrderedAround(less, x)
    && (x != Top ==> Above(less, x.tag, t.left) && Above(less, x.tag, t.right))
  }

  lemma Risen<D, K(!new)>(less: (K, K) -> bool, x: Zip<D, K>, t: Shape<D, K>)
    requires WeakOrder(less) && Rising(less, x, t) && x != Top && less(t.tag, x.tag)
    ensures Rising(less, x.up, Swapped(Fill(x, t), x.InLeft?))
  {
  }

  lemma Sunk<D, K(!new)>(less: (K, K) -> bool, x: Zip<D, K>, t: Shape<D, K>, left: bool)
    requires WeakOrder(less) && Loose(less, x, t)
    requires if left then t.left.Fork? else t.right.Fork?
    requires var c, o := if left then t.left else t.right, if left then t.right else t.left;
             less(c.tag, t.tag) && (o.Fork? ==> !less(o.tag, c.tag))
    ensures
      var s := Swapped(t, left);
      if left then Loose(less, InLeft(x, s.node, s.tag, s.right), s.left) else Loose(less, InRight(x, s.node, s.tag, s.left), s.right)
  {
  }

  lemma {:induction false} SameShapeTrans<N, C>(t: Tree<N, C>, u: Tree<N, C>, v: Tree<N, C>)
    requires SameShape(t, u) && SameShape(u, v)
    ensures SameShape(t, v)
  {
    if t.Fork? {
      SameShapeTrans(t.left, u.left, v.left);
      SameShapeTrans(t.right, u.right, v.right);
    }
  }

  /** Swaps the node at the focus with its parent. */
  method SwapUp<D, K>(head: Head<D, K>, node: Node<D, K>, ghost x: Zip<D, K>, ghost t: Shape<D, K>) returns (ghost s: Shape<D, K>)
    requires head.Represents(x, t) && t.Fork? && t.node == node && x != Top && node.parent == x.node
    modifies head, head.mem.Keys`left, head.mem.Keys`right, head.mem.Keys`parent
    ensures head.mem.Keys == old(head.mem.Keys)
    ensures s == Swapped(Fill(x, t), x.InLeft?) && head.Represents(x.up, s)
    ensures SameShape(Plug(x, t), Plug(x.up, s))
  {
    ZipUp(head.mem, head.root, x, t);
    s := Swapped(Fill(x, t), x.InLeft?);
    SwappedShape(Fill(x, t), x.InLeft?);
    SameShapePlug(x.up, Fill(x, t), s);
    NodeSwap(head, node.parent, node, x.up, Fill(x, t), x.InLeft?);
  }

  method SiftUp<D, K(!new)>(head: Head<D, K>, node: Node<D, K>, less: (K, K) -> bool, ghost x: Zip<D, K>, ghost t: Shape<D, K>)
    returns (ghost s: Shape<D, K>)
    requires WeakOrder(less) && head.Represents(x, t) && Rising(less, x, t) && t.node == node
    modifies head, head.mem.Keys`left, head.mem.Keys`right, head.mem.Keys`parent
    ensures head.mem.Keys == old(head.mem.Keys)
    ensures head.Represents(Top, s) && Ordered(less, s) && SameShape(Plug(x, t), s)
  {
    ghost var y, u := x, t;
    SameShapeRefl(Plug(x, t));
    HoldsAt(head.mem, head.root, y, u);
    while node.parent != null && less(node.tag, node.parent.tag)
      invariant head.mem.Keys == old(head.mem.Keys)
      invariant head.Represents(y, u) && Rising(less, y, u) && u.node == node && node.tag == u.tag
      invariant node.parent == Hole(y) && (y != Top ==> y.node.tag == y.tag)
      invariant SameShape(Plug(x, t), Plug(y, u))
      decreases Depth(y)
    {
      Risen(less, y, u);
      ghost var v := SwapUp(head, node, y, u);
      SameShapeTrans(Plug(x, t), Plug(y, u), Plug(y.up, v));
      u := v;
      y := y.up;
      HoldsAt(head.mem, head.root, y, u);
    }
    s := Plug(y, u);
    PlugOrdered(less, y, u);
    Unzip(head.mem, head.root, y, u);
  }

  /** What memory says of the children of the focus. */
  lemma ChildrenOf<D, K>(head: Head<D, K>, x: Zip<D, K>, t: Shape<D, K>)
    requires head.Represents(x, t) && t.Fork?
    ensures t.node.left == Root(t.left) && t.node.right == Root(t.right) && t.node.parent == Hole(x) && t.node.tag == t.tag
    ensures t.left.Fork? ==> t.left.node.tag == t.left.tag
    ensures t.right.Fork? ==> t.right.node.tag == t.right.tag
    ensures t.left.Fork? ==> t.left.node != t.node
    ensures t.right.Fork? ==> t.right.node != t.node && t.right.node != Root(t.left)
  {
    HoldsAt(head.mem, head.root, x, t);
    assert t.left.Fork? ==> t.left.node in Nodes(t.left);
    assert t.right.Fork? ==> t.right.node in Nodes(t.right);
  }

  /** The least of a node and its children. */
  method Smallest<D, K(!new)>(head: Head<D, K>, child: Node<D, K>, less: (K, K) -> bool, ghost x: Zip<D, K>, ghost t: Shape<D, K>)
    returns (smallest: Node<D, K>)
    requires WeakOrder(less) && head.Represents(x, t) && t.Fork? && t.node == child
    ensures smallest == child ==> Above(less, t.tag, t.left) && Above(less, t.tag, t.right)
    ensures smallest != child && Root(t.left) == smallest ==> less(t.left.tag, t.tag) && Above(less, t.left.tag, t.right)
    ensures smallest != child && Root(t.left) != smallest ==>
              Root(t.right) == smallest && less(t.right.tag, t.tag) && Above(less, t.right.tag, t.left)
  {
    ChildrenOf(head, x, t);
    smallest := child;
    if child.left != null && less(child.left.tag, smallest.tag) {
      smallest := child.left;
    }
    if child.right != null && less(child.right.tag, smallest.tag) {
      smallest := child.right;
    }
  }

  method SiftDown<D, K(!new)>(head: Head<D, K>, child: Node<D, K>, less: (K, K) -> bool, ghost x: Zip<D, K>, ghost t: Shape<D, K>)
    returns (ghost y: Zip<D, K>, ghost u: Shape<D, K>)
    requires WeakOrder(less) && head.Represents(x, t) && Loose(less, x, t) && t.node == child
    modifies head, head.mem.Keys`left, head.mem.Keys`right, head.mem.Keys`parent
    ensures head.mem.Keys == old(head.mem.Keys)
    ensures head.Represents(y, u) && Rising(less, y, u) && u.node == child && SameShape(Plug(x, t), Plug(y, u))
  {
    y, u := x, t;
    SameShapeRefl(Plug(x, t));
    while true
      invariant head.mem.Keys == old(head.mem.Keys)
      invariant head.Represents(y, u) && Loose(less, y, u) && u.node == child
      invariant SameShape(Plug(x, t), Plug(y, u))
      decreases Size(u)
    {
      var smallest := Smallest(head, child, less, y, u);
      if smallest == child {
        break;
      }
      ghost var z, v := y, u;
      y, u := SwapDown(head, child, smallest, less, z, v);
      SameShapeTrans(Plug(x, t), Plug(z, v), Plug(y, u));
    }
  }

  /** Swaps the node at the focus with one of its children, and follows it down. */
  method SwapDown<D, K(!new)>(head: Head<D, K>, parent: Node<D, K>, child: Node<D, K>, less: (K, K) -> bool,
                              ghost x: Zip<D, K>, ghost t: Shape<D, K>)
    returns (ghost y: Zip<D, K>, ghost u: Shape<D, K>)
    requires WeakOrder(less) && head.Represents(x, t) && Loose(less, x, t) && t.node == parent && child != parent
    requires Root(t.left) == child ==> less(t.left.tag, t.tag) && Above(less, t.left.tag, t.right)
    requires Root(t.left) != child ==> Root(t.right) == child && less(t.right.tag, t.tag) && Above(less, t.right.tag, t.left)
    modifies head, head.mem.Keys`left, head.mem.Keys`right, head.mem.Keys`parent
    ensures head.mem.Keys == old(head.mem.Keys)
    ensures head.Represents(y, u) && Loose(less, y, u) && u.node == parent
    ensures SameShape(Plug(x, t), Plug(y, u)) && Size(u) < Size(t)
  {
    ghost var left := Root(t.left) == child;
    ghost var s := Swapped(t, left);
    Sunk(less, x, t, left);
    SwappedShape(t, left);
    SameShapePlug(x, t, s);
    NodeSwap(head, parent, child, x, t, left);
    y, u := if left then InLeft(x, s.node, s.tag, s.right) else InRight(x, s.node, s.tag, s.left),
            if left then s.left else s.right;
    ZipUp(head.mem, head.root, y, u);
  }

  // ---------- The path to the last position ----------

  /** `n` halved `k` times. */
  function Half(n: nat, k: nat): nat {
    if k == 0 then n else Half(n, k - 1) / 2
  }

  /** The `k` low bits of `n`, in reverse. */
  function LowBits(n: nat, k: nat): nat {
    if k == 0 then 0 else 2 * LowBits(n, k - 1) + Half(n, k - 1) % 2
  }

  /** The steps from the root to position `pos`, lowest bit first. */
  method PathOf(pos: nat) returns (path: nat, k: nat)
    requires pos >= 1
    ensures Half(pos, k) == 1 && path == LowBits(pos, k)
  {
    path, k := 0, 0;
    var n := pos;
    while n >= 2
      invariant n == Half(pos, k) && path == LowBits(pos, k) && n >= 1
    {
      path, k, n := 2 * path + n % 2, k + 1, n / 2;
    }
  }

  lemma {:induction false} HalfSmaller(n: nat, k: nat)
    ensures Half(n, k) <= n && (k > 0 && n > 0 ==> Half(n, k) < n)
  {
    if k > 0 {
      HalfSmaller(n, k - 1);
    }
  }

  /** The walk stands at the pointer `cur`, which the hole of `x` holds, with `k` steps to go. */
  ghost predicate Walking<D, K>(head: Head<D, K>, shape: Shape<D, K>, pos: nat, k: nat, path: nat,
                                parent: Node?<D, K>, onLeft: bool, cur: Node?<D, K>, x: Zip<D, K>, t: Shape<D, K>)
    reads head, head.mem.Keys
  {
    && head.Represents(x, t) && Plug(x, t) == shape && Midway(pos, k, path, Num(Path(x)))
    && cur == Root(t) && parent == Hole(x) && onLeft == x.InLeft?
  }

  lemma LastBit(n: nat, k: nat)
    requires k > 0
    ensures Half(n, k - 1) == 2 * Half(n, k) + LowBits(n, k) % 2
    ensures LowBits(n, k) / 2 == LowBits(n, k - 1)
  {
    var h, b := Half(n, k - 1), LowBits(n, k - 1);
    assert Half(n, k) == h / 2 && LowBits(n, k) == 2 * b + h % 2;
  }

  /** Follows the path to position `pos`, of which all positions above are taken. */
  method Follow<D, K>(head: Head<D, K>, pos: nat, ghost shape: Shape<D, K>, ghost n: nat)
    returns (parent: Node?<D, K>, onLeft: bool, cur: Node?<D, K>, ghost x: Zip<D, K>, ghost t: Shape<D, K>)
    requires head.Represents(Top, shape) && Complete(shape, n) && 1 <= pos <= n + 1
    ensures head.Represents(x, t) && Plug(x, t) == shape && Num(Path(x)) == pos
    ensures cur == Root(t) && parent == Hole(x) && onLeft == x.InLeft?
  {
    var path, k := PathOf(pos);
    parent, onLeft, cur := null, false, head.root;
    x, t := Top, shape;
    while k > 0
      invariant Walking(head, shape, pos, k, path, parent, onLeft, cur, x, t)
    {
      parent, onLeft, cur, path, x, t := FollowStep(head, shape, n, pos, k, path, parent, onLeft, cur, x, t);
      k := k - 1;
    }
  }

  /** One step down the path: the next bit says to which side. */
  method FollowStep<D, K>(head: Head<D, K>, ghost shape: Shape<D, K>, ghost n: nat, ghost pos: nat, ghost k: nat, path: nat,
                          parent: Node?<D, K>, onLeft: bool, cur: Node?<D, K>, ghost x: Zip<D, K>, ghost t: Shape<D, K>)
    returns (parent': Node?<D, K>, onLeft': bool, cur': Node?<D, K>, path': nat, ghost y: Zip<D, K>, ghost u: Shape<D, K>)
    requires k > 0 && Walking(head, shape, pos, k, path, parent, onLeft, cur, x, t)
    requires Complete(shape, n) && 1 <= pos <= n + 1
    ensures Walking(head, shape, pos, k - 1, path', parent', onLeft', cur', y, u)
  {
    Reached(x, t, shape, n, pos, k);
    BothBelow(head, x, t);
    var c: Node<D, K> := cur;
    parent', onLeft', path' := c, path % 2 == 0, path / 2;
    if onLeft' {
      cur' := c.left;
      y, u := InLeft(x, t.node, t.tag, t.right), t.left;
    } else {
      cur' := c.right;
      y, u := InRight(x, t.node, t.tag, t.left), t.right;
    }
  }

  /** With `k` steps to go to position `pos`, the walk is at position `p`. */
  ghost predicate Midway(pos: nat, k: nat, path: nat, p: nat) {
    path == LowBits(pos, k) && p == Half(pos, k)
  }

  lemma BothBelow<D, K>(head: Head<D, K>, x: Zip<D, K>, t: Shape<D, K>)
    requires head.Represents(x, t) && t.Fork?
    ensures t.node.left == Root(t.left) && t.node.right == Root(t.right)
    ensures head.Represents(InLeft(x, t.node, t.tag, t.right), t.left)
    ensures head.Represents(InRight(x, t.node, t.tag, t.left), t.right)
  {
    HoldsAt(head.mem, head.root, x, t);
    ZipUp(head.mem, head.root, InLeft(x, t.node, t.tag, t.right), t.left);
    ZipUp(head.mem, head.root, InRight(x, t.node, t.tag, t.left), t.right);
  }

  /** Above the wanted position there is a node. */
  lemma Reached<N, C>(x: Ctx<N, C>, t: Tree<N, C>, shape: Tree<N, C>, n: nat, pos: nat, k: nat)
    requires Plug(x, t) == shape && Complete(shape, n) && 1 <= pos <= n + 1 && k > 0 && Num(Path(x)) == Half(pos, k)
    ensures t.Fork?
    ensures Num(Path(InLeft(x, t.node, t.tag, t.right))) == 2 * Num(Path(x))
    ensures Num(Path(InRight(x, t.node, t.tag, t.left))) == 2 * Num(Path(x)) + 1
    ensures Half(pos, k - 1) == 2 * Half(pos, k) + LowBits(pos, k) % 2
    ensures LowBits(pos, k) / 2 == LowBits(pos, k - 1)
  {
    HalfSmaller(pos, k);
    LastBit(pos, k);
    AtPath(x, t);
    assert Has(shape, Path(x)) <==> Num(Path(x)) <= n;
  }

  // ---------- The heap ----------

  /** A node put into the place of another is loose there, and nothing else is. */
  lemma ReplacedLoose<D, K(!new)>(less: (K, K) -> bool, x: Zip<D, K>, t: Shape<D, K>, e: Node<D, K>, k: K)
    requires WeakOrder(less) && t.Fork? && Ordered(less, Plug(x, t))
    ensures Loose(less, x, Fork(t.left, e, k, t.right)) && SameShape(t, Fork(t.left, e, k, t.right))
  {
    PlugOrdered(less, x, t);
    SameShapeRefl(t.left);
    SameShapeRefl(t.right);
  }

  /** Unlinks the node at the last position. */
  method DropLast<D, K>(head: Head<D, K>, less: (K, K) -> bool, n: nat, ghost shape: Shape<D, K>)
    returns (last: Node<D, K>, ghost s: Shape<D, K>)
    requires head.Represents(Top, shape) && Complete(shape, n + 1) && Ordered(less, shape)
    modifies head, head.mem.Keys`left, head.mem.Keys`right, head.mem.Keys`parent
    ensures last in old(head.mem) && head.mem.Keys == old(head.mem.Keys) - {last}
    ensures head.Represents(Top, s) && Complete(s, n) && Ordered(less, s)
  {
    var parent, onLeft, max;
    ghost var x, t;
    parent, onLeft, max, x, t := Follow(head, n + 1, shape, n + 1);
    DropComplete(x, t, n + 1);
    PlugOrdered(less, x, t);
    PlugOrdered(less, x, Leaf);
    last := max;
    head.Splice(last, null, x, t, Leaf);
    Unzip(head.mem, head.root, x, Leaf);
    s := Plug(x, Leaf);
  }

  /** Puts `child` in the place of `node` and moves it to where it belongs. */
  method Supplant<D, K(!new)>(head: Head<D, K>, node: Node<D, K>, child: Node<D, K>, less: (K, K) -> bool, ghost shape: Shape<D, K>, ghost n: nat)
    returns (ghost s: Shape<D, K>)
    requires WeakOrder(less) && head.Represents(Top, shape) && Complete(shape, n) && Ordered(less, shape)
    requires node in head.mem && child !in head.mem
    modifies head, head.mem.Keys`left, head.mem.Keys`right, head.mem.Keys`parent, child`left, child`right, child`parent
    ensures head.mem.Keys == old(head.mem.Keys) - {node} + {child}
    ensures head.Represents(Top, s) && Complete(s, n) && Ordered(less, s)
  {
    ghost var x, t := PathTo(shape, node), SubtreeAt(shape, node);
    PathLeads(shape, node);
    Unzip(head.mem, head.root, x, t);
    ghost var u := Fork(t.left, child, child.tag, t.right);
    ReplacedLoose(less, x, t, child, child.tag);
    SameShapePlug(x, t, u);
    head.TakePlace(node, child, x, t);
    ghost var y, v := SiftDown(head, child, less, x, u);
    s := SiftUp(head, child, less, y, v);
    SameShapeTrans(shape, Plug(x, u), Plug(y, v));
    SameShapeTrans(shape, Plug(y, v), s);
    SameShapeComplete(Top, shape, s, n);
  }

  /** Hangs a new node at position `n`, the first free one, and moves it up to where it belongs. */
  method Place<D, K(!new)>(head: Head<D, K>, newnode: Node<D, K>, less: (K, K) -> bool, n: nat, ghost shape: Shape<D, K>)
    returns (ghost s: Shape<D, K>)
    requires WeakOrder(less) && head.Represents(Top, shape) && n > 0 && Complete(shape, n - 1) && Ordered(less, shape)
    requires newnode !in head.mem
    modifies head, head.mem.Keys`left, head.mem.Keys`right, head.mem.Keys`parent
    modifies newnode`left, newnode`right, newnode`parent
    ensures head.mem.Keys == old(head.mem.Keys) + {newnode}
    ensures head.Represents(Top, s) && Complete(s, n) && Ordered(less, s)
  {
    var parent, onLeft, cur;
    ghost var x, t;
    parent, onLeft, cur, x, t := Follow(head, n, shape, n - 1);
    ghost var u := Fork(Leaf, newnode, newnode.tag, Leaf);
    AppendedRising(less, x, t, n, newnode, newnode.tag);
    head.Attach(newnode, parent, onLeft, x);
    s := SiftUp(head, newnode, less, x, u);
    SameShapeComplete(Top, Plug(x, u), s, n);
  }

  lemma AppendedRising<D, K>(less: (K, K) -> bool, x: Zip<D, K>, t: Shape<D, K>, n: nat, e: Node<D, K>, k: K)
    requires n > 0 && Complete(Plug(x, t), n - 1) && Num(Path(x)) == n && Ordered(less, Plug(x, t))
    ensures t == Leaf && Rising(less, x, Fork(Leaf, e, k, Leaf)) && Complete(Plug(x, Fork(Leaf, e, k, Leaf)), n)
  {
    FreePosition(x, t, n - 1);
    PlugOrdered(less, x, Leaf);
    AppendComplete(x, n - 1, e, k);
  }

  /** Takes `node` out of a heap of `n` + 1 nodes; the last node fills its place. */
  method Displace<D, K(!new)>(head: Head<D, K>, node: Node<D, K>, less: (K, K) -> bool, n: nat, ghost shape: Shape<D, K>)
    returns (ghost s: Shape<D, K>)
    requires WeakOrder(less) && head.Represents(Top, shape) && Complete(shape, n + 1) && Ordered(less, shape)
    requires node in head.mem
    modifies head, head.mem.Keys`left, head.mem.Keys`right, head.mem.Keys`parent
    ensures head.mem.Keys == old(head.mem.Keys) - {node}
    ensures head.Represents(Top, s) && Complete(s, n) && Ordered(less, s)
  {
    ghost var keys := head.mem.Keys;
    var child;
    child, s := DropLast(head, less, n, shape);
    if child != node {
      assert node in head.mem && keys - {child} - {node} + {child} == keys - {node};
      s := Supplant(head, node, child, less, s, n);
    }
  }

  class Heap<D, K(!new)> {
    const head: Head<D, K>
    var nelts: nat
    ghost var shape: Shape<D, K>

    constructor (ghost less: (K, K) -> bool)
      ensures Valid(less) && fresh(head) && head.mem == map[]
    {
      head := new Head();
      nelts, shape := 0, Leaf;
      new;
      LeafComplete<Node<D, K>, K>();
    }

    /** The memory holds a complete tree of `nelts` nodes, in heap order. */
    ghost predicate Valid(less: (K, K) -> bool)
      reads this, head, head.mem.Keys
    {
      && head.Represents(Top, shape)
      && Complete(shape, nelts) && |head.mem.Keys| == nelts
      && Ordered(less, shape)
    }

    /** A least node, if there is one. */
    method Min(less: (K, K) -> bool) returns (r: Node?<D, K>)
      requires WeakOrder(less) && Valid(less)
      ensures r == null <==> head.mem.Keys == {}
      ensures r != null ==> r in head.mem && forall n :: n in head.mem.Keys ==> !less(n.tag, r.tag)
    {
      r := head.root;
      HoldsAt(head.mem, head.root, Top, shape);
      if r != null {
        forall n | n in head.mem.Keys ensures !less(n.tag, r.tag) {
          RootLeast(less, shape, null, n);
          assert head.mem[n].tag == n.tag;
        }
      }
    }

    method Insert(newnode: Node<D, K>, less: (K, K) -> bool)
      requires WeakOrder(less) && Valid(less) && newnode !in head.mem
      modifies this, head, head.mem.Keys`left, head.mem.Keys`right, head.mem.Keys`parent
      modifies newnode`left, newnode`right, newnode`parent
      ensures Valid(less) && head.mem.Keys == old(head.mem.Keys) + {newnode}
    {
      var n := 1 + nelts;
      ghost var s := Place(head, newnode, less, n, shape);
      assert |head.mem.Keys| == n;
      SetShape(n, s);
    }

    /** Notes the new size and shape, which the links represent already. */
    method SetShape(n: nat, ghost s: Shape<D, K>)
      requires head.Represents(Top, s)
      modifies this
      ensures nelts == n && shape == s && head.Represents(Top, s)
    {
      ghost var m := head.mem;
      nelts, shape := n, s;
      forall k | k in head.mem.Keys ensures m[k] == Cell(k.left, k.right, k.parent, k.tag) {
        assert k as object != this;
      }
      assert head.Represents(Top, s);
    }

    method Remove(node: Node<D, K>, less: (K, K) -> bool)
      requires WeakOrder(less) && Valid(less) && (nelts == 0 || node in head.mem)
      modifies this, head, head.mem.Keys`left, head.mem.Keys`right, head.mem.Keys`parent
      ensures Valid(less) && head.mem.Keys == old(head.mem.Keys) - {node}
    {
      if nelts == 0 {
        return;
      }
      var n := nelts - 1;
      ghost var s := Displace(head, node, less, n, shape);
      ghost var m := head.mem;
      assert |m.Keys| == n;
      nelts, shape := n, s;
      forall k | k in head.mem.Keys ensures m[k] == Cell(k.left, k.right, k.parent, k.tag) {
        assert k as object != this;
      }
      assert head.Represents(Top, s);
    }

    /** Removes a least node, if there is one. */
    method Dequeue(less: (K, K) -> bool)
      requires WeakOrder(less) && Valid(less)
      modifies this, head, head.mem.Keys`left, head.mem.Keys`right, head.mem.Keys`parent
      ensures Valid(less)
      ensures old(head.mem.Keys) == {} ==> head.mem.Keys == {}
      ensures old(head.mem.Keys) != {} ==>
                (exists n :: n in old(head.mem.Keys) && head.mem.Keys == old(head.mem.Keys) - {n}
                       && forall m :: m in old(head.mem.Keys) ==> !less(m.tag, n.tag))
    {
      var min := Min(less);
      if min != null {
        Remove(min, less);
        assert min in old(head.mem.Keys);
      }
    }
  }

  lemma LeafComplete<N, C>()
    ensures Complete<N, C>(Leaf, 0)
  {
    forall p: seq<bool> ensures Has<N, C>(Leaf, p) <==> Num(p) <= 0 {
    }
  }

  lemma FreePosition<N, C>(x: Ctx<N, C>, t: Tree<N, C>, n: nat)
    requires Complete(Plug(x, t), n) && Num(Path(x)) == n + 1
    ensures t == Leaf
  {
    AtPath(x, t);
    assert Has(Plug(x, t), Path(x)) <==> Num(Path(x)) <= n;
  }
}
