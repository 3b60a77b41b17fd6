/** Trees of linked nodes in memory: what the links must hold to represent a tree, and the
    pointer updates that the red-black tree and the binary heap share. */
module Links {
  import opened Trees

  /** A node with child and parent links. `data` never changes; `tag` may. */
  class Node<D, C> {
    const data: D
    var left: Node?<D, C>
    var right: Node?<D, C>
    var parent: Node?<D, C>
    var tag: C

    constructor (d: D, c: C)
      ensures data == d && tag == c
    {
      data, tag := d, c;
      left, right, parent := null, null, null;
    }
  }

  /** What the fields of a node hold. */
  datatype Cell<D, C> = Cell(left: Node?<D, C>, right: Node?<D, C>, parent: Node?<D, C>, tag: C)

  type Mem<D, C> = map<Node<D, C>, Cell<D, C>>
  type Shape<D, C> = Tree<Node<D, C>, C>
  type Zip<D, C> = Ctx<Node<D, C>, C>

  ghost function Root<D, C>(t: Shape<D, C>): Node?<D, C> {
    if t.Leaf? then null else t.node
  }

  ghost function Hole<D, C>(x: Zip<D, C>): Node?<D, C> {
    if x == Top then null else x.node
  }

  /** What the root pointer is when the hole of `x` holds the pointer `p`. */
  ghost function RootOf<D, C>(x: Zip<D, C>, p: Node?<D, C>): Node?<D, C> {
    if x == Top then p else RootOf(x.up, x.node)
  }

  /** What the tree `t` below the node `p` asks of its member `n`. */
  ghost function CellOf<D, C>(t: Shape<D, C>, p: Node?<D, C>, n: Node<D, C>): Cell<D, C>
    requires n in Nodes(t)
  {
    if n == t.node then Cell(Root(t.left), Root(t.right), p, t.tag)
    else if n in Nodes(t.left) then CellOf(t.left, t.node, n)
    else CellOf(t.right, t.node, n)
  }

  /** What the context `x`, its hole holding `p`, asks of its member `n`. */
  ghost function CtxCellOf<D, C>(x: Zip<D, C>, p: Node?<D, C>, n: Node<D, C>): Cell<D, C>
    requires n in CtxNodes(x)
  {
    if n == x.node then
      if x.InLeft? then Cell(p, Root(x.other), Hole(x.up), x.tag) else Cell(Root(x.other), p, Hole(x.up), x.tag)
    else if n in Nodes(x.other) then CellOf(x.other, x.node, n)
    else CtxCellOf(x.up, x.node, n)
  }

  /** The memory `m`, with root pointer `root`, holds the tree `t` in the hole of `x`. */
  ghost predicate Holds<D, C>(m: Mem<D, C>, root: Node?<D, C>, x: Zip<D, C>, t: Shape<D, C>) {
    && m.Keys == CtxNodes(x) + Nodes(t)
    && Apart(x, t)
    && root == RootOf(x, Root(t))
    && (forall n :: n in Nodes(t) ==> m[n] == CellOf(t, Hole(x), n))
    && (forall n :: n in CtxNodes(x) ==> m[n] == CtxCellOf(x, Root(t), n))
  }

  lemma HoldsAt<D, C>(m: Mem<D, C>, root: Node?<D, C>, x: Zip<D, C>, t: Shape<D, C>)
    requires Holds(m, root, x, t)
    ensures t.Fork? ==> t.node in m && m[t.node] == Cell(Root(t.left), Root(t.right), Hole(x), t.tag)
    ensures t.Fork? && t.left.Fork? ==>
              t.left.node in m && m[t.left.node] == Cell(Root(t.left.left), Root(t.left.right), t.node, t.left.tag)
    ensures t.Fork? && t.right.Fork? ==>
              t.right.node in m && m[t.right.node] == Cell(Root(t.right.left), Root(t.right.right), t.node, t.right.tag)
    ensures x != Top ==>
              x.node in m && (x.other.Fork? ==> x.other.node in m)
    ensures x.InLeft? ==> m[x.node] == Cell(Root(t), Root(x.other), Hole(x.up), x.tag)
    ensures x.InRight? ==> m[x.node] == Cell(Root(x.other), Root(t), Hole(x.up), x.tag)
    ensures x == Top <==> (t.Fork? && root == t.node) || (t.Leaf? && root == null)
  {
    if x != Top {
      assert x.node in CtxNodes(x);
      assert x.other.Fork? ==> x.other.node in CtxNodes(x);
    }
    if t.Fork? {
      assert t.left.Fork? ==> t.left.node in Nodes(t.left) && CellOf(t, Hole(x), t.left.node) == CellOf(t.left, t.node, t.left.node);
      assert t.right.Fork? ==> t.right.node in Nodes(t.right) && CellOf(t, Hole(x), t.right.node) == CellOf(t.right, t.node, t.right.node);
    }
    RootIn(x, Root(t));
  }

  lemma {:induction false} RootIn<D, C>(x: Zip<D, C>, p: Node?<D, C>)
    ensures x != Top ==> RootOf(x, p) != null && RootOf(x, p) in CtxNodes(x)
  {
    if x != Top && x.up != Top {
      RootIn(x.up, x.node);
    }
  }

  /** Moving the zipper's focus to the parent does not change what is represented. */
  lemma ZipUp<D, C>(m: Mem<D, C>, root: Node?<D, C>, x: Zip<D, C>, t: Shape<D, C>)
    requires x != Top
    ensures Holds(m, root, x, t) <==> Holds(m, root, x.up, Fill(x, t))
  {
    var u, n := Fill(x, t), x.node;
    FilledApart(x, t);
    if Apart(x, t) {
      forall k | k in Nodes(u)
        ensures CellOf(u, Hole(x.up), k) == if k in Nodes(t) then CellOf(t, n, k) else CtxCellOf(x, Root(t), k)
      {
      }
      forall k | k in CtxNodes(x.up) ensures CtxCellOf(x, Root(t), k) == CtxCellOf(x.up, n, k) {
      }
    }
  }

  /** Nor does moving it all the way up. */
  lemma {:induction false} Unzip<D, C>(m: Mem<D, C>, root: Node?<D, C>, x: Zip<D, C>, t: Shape<D, C>)
    ensures Holds(m, root, x, t) <==> Holds(m, root, Top, Plug(x, t))
    decreases x
  {
    if x != Top {
      ZipUp(m, root, x, t);
      Unzip(m, root, x.up, Fill(x, t));
    }
  }

  // ---------- Tags ----------

  /** `t` with the tag of its node `n` replaced. */
  ghost function Retag<D, C>(t: Shape<D, C>, n: Node<D, C>, c: C): Shape<D, C> {
    if t.Leaf? then t
    else if n == t.node then Fork(t.left, n, c, t.right)
    else if n in Nodes(t.left) then Fork(Retag(t.left, n, c), t.node, t.tag, t.right)
    else Fork(t.left, t.node, t.tag, Retag(t.right, n, c))
  }

  lemma {:induction false} RetagNodes<D, C>(t: Shape<D, C>, n: Node<D, C>, c: C)
    ensures Nodes(Retag(t, n, c)) == Nodes(t) && Root(Retag(t, n, c)) == Root(t)
    ensures Inorder(Retag(t, n, c)) == Inorder(t)
    ensures Distinct(t) ==> Distinct(Retag(t, n, c))
  {
    if t.Fork? {
      RetagNodes(t.left, n, c);
      RetagNodes(t.right, n, c);
    }
  }

  lemma {:induction false} RetagCell<D, C>(t: Shape<D, C>, p: Node?<D, C>, n: Node<D, C>, c: C, k: Node<D, C>)
    requires Distinct(t) && n in Nodes(t) && k in Nodes(t)
    ensures k in Nodes(Retag(t, n, c))
    ensures CellOf(Retag(t, n, c), p, k) == if k == n then CellOf(t, p, k).(tag := c) else CellOf(t, p, k)
  {
    RetagNodes(t.left, n, c);
    RetagNodes(t.right, n, c);
    if k in Nodes(t.left) && n in Nodes(t.left) {
      RetagCell(t.left, t.node, n, c, k);
    } else if k in Nodes(t.right) && n in Nodes(t.right) {
      RetagCell(t.right, t.node, n, c, k);
    }
  }

  /** Storing a tag in one node replaces that node's tag in the represented tree. */
  lemma RetagHolds<D, C>(m: Mem<D, C>, root: Node?<D, C>, x: Zip<D, C>, t: Shape<D, C>, n: Node<D, C>, c: C)
    requires Holds(m, root, x, t) && n in Nodes(t)
    ensures Holds(m[n := m[n].(tag := c)], root, x, Retag(t, n, c))
    ensures Inorder(Retag(t, n, c)) == Inorder(t)
  {
    RetagNodes(t, n, c);
    forall k | k in Nodes(t) ensures m[n := m[n].(tag := c)][k] == CellOf(Retag(t, n, c), Hole(x), k) {
      RetagCell(t, Hole(x), n, c, k);
    }
  }

  // ---------- Rotations ----------

  /** The pointers that lifting the right child of `e` over `e` reads are there and differ. */
  ghost predicate CanLiftRight<D, C>(m: Mem<D, C>, e: Node<D, C>) {
    && e in m && m[e].right in m
    && var t: Node<D, C> := m[e].right; var b, h := m[t].left, m[e].parent;
    && t != e && t != h && b != e && b != t && h != e && (h != null ==> h in m && h != b) && (b != null ==> b in m)
  }

  ghost function LiftRight<D, C>(m: Mem<D, C>, e: Node<D, C>): Mem<D, C>
    requires CanLiftRight(m, e)
  {
    var t: Node<D, C> := m[e].right;
    var b, h := m[t].left, m[e].parent;
    map n | n in m ::
      if n == e then m[n].(right := b, parent := t)
      else if n == t then m[n].(left := e, parent := h)
      else if n == b then m[n].(parent := e)
      else if n == h then (if m[n].left == e then m[n].(left := t) else m[n].(right := t))
      else m[n]
  }

  ghost predicate CanLiftLeft<D, C>(m: Mem<D, C>, e: Node<D, C>) {
    && e in m && m[e].left in m
    && var t: Node<D, C> := m[e].left; var b, h := m[t].right, m[e].parent;
    && t != e && t != h && b != e && b != t && h != e && (h != null ==> h in m && h != b) && (b != null ==> b in m)
  }

  ghost function LiftLeft<D, C>(m: Mem<D, C>, e: Node<D, C>): Mem<D, C>
    requires CanLiftLeft(m, e)
  {
    var t: Node<D, C> := m[e].left;
    var b, h := m[t].right, m[e].parent;
    map n | n in m ::
      if n == e then m[n].(left := b, parent := t)
      else if n == t then m[n].(right := e, parent := h)
      else if n == b then m[n].(parent := e)
      else if n == h then (if m[n].left == e then m[n].(left := t) else m[n].(right := t))
      else m[n]
  }

  /** What a rotation changes in the cells of the rotated tree. */
  lemma RotationCells<D, C>(a: Shape<D, C>, e: Node<D, C>, ce: C, b: Shape<D, C>, t: Node<D, C>, ct: C, c: Shape<D, C>,
                            p: Node?<D, C>, n: Node<D, C>)
    requires Distinct(RightHigh(a, e, ce, b, t, ct, c))
    requires n in Nodes(RightHigh(a, e, ce, b, t, ct, c))
    ensures n in Nodes(LeftHigh(a, e, ce, b, t, ct, c))
    ensures
      var low := CellOf(LeftHigh(a, e, ce, b, t, ct, c), p, n);
      var high := CellOf(RightHigh(a, e, ce, b, t, ct, c), p, n);
      if n == e then high == Cell(Root(a), t, p, ce) && low == Cell(Root(a), Root(b), t, ce)
      else if n == t then high == Cell(Root(b), Root(c), e, ct) && low == Cell(e, Root(c), p, ct)
      else if b.Fork? && n == b.node then high.parent == t && low == high.(parent := e)
      else low == high && n in Nodes(a) + Nodes(b) + Nodes(c)
  {
    RotationDistinct(a, e, ce, b, t, ct, c);
    var l, r := Fork(a, e, ce, b), Fork(b, t, ct, c);
    assert t in Nodes(r) && e in Nodes(l) && Distinct(l) && Distinct(r);
    if n in Nodes(b) {
      assert n in Nodes(r) && n in Nodes(l) && n !in Nodes(a);
      assert CellOf(RightHigh(a, e, ce, b, t, ct, c), p, n) == CellOf(r, e, n) == CellOf(b, t, n);
      assert CellOf(LeftHigh(a, e, ce, b, t, ct, c), p, n) == CellOf(l, t, n) == CellOf(b, e, n);
    } else if n in Nodes(a) {
      assert n in Nodes(l) && n !in Nodes(r);
    }
  }

  /** Changing what hangs in the hole changes one child pointer, of the node above it. */
  lemma CtxRefilled<D, C>(x: Zip<D, C>, p: Node?<D, C>, q: Node?<D, C>, n: Node<D, C>)
    requires CtxDistinct(x) && n in CtxNodes(x)
    ensures CtxCellOf(x, q, n) ==
            if n != x.node then CtxCellOf(x, p, n)
            else if x.InLeft? then CtxCellOf(x, p, n).(left := q) else CtxCellOf(x, p, n).(right := q)
    ensures x.node in CtxNodes(x) && (x.other.Fork? ==> x.other.node in CtxNodes(x))
  {
  }

  lemma LiftRightHolds<D, C>(m: Mem<D, C>, root: Node?<D, C>, x: Zip<D, C>,
                             a: Shape<D, C>, e: Node<D, C>, ce: C, b: Shape<D, C>, t: Node<D, C>, ct: C, c: Shape<D, C>)
    requires Holds(m, root, x, RightHigh(a, e, ce, b, t, ct, c))
    ensures CanLiftRight(m, e) && m[e].right == t
    ensures Holds(LiftRight(m, e), if m[e].parent == null then t else root, x, LeftHigh(a, e, ce, b, t, ct, c))
    ensures Inorder(LeftHigh(a, e, ce, b, t, ct, c)) == Inorder(RightHigh(a, e, ce, b, t, ct, c))
  {
    var before, after := RightHigh(a, e, ce, b, t, ct, c), LeftHigh(a, e, ce, b, t, ct, c);
    RotationDistinct(a, e, ce, b, t, ct, c);
    RotationInorder(a, e, ce, b, t, ct, c);
    RotationCells(a, e, ce, b, t, ct, c, Hole(x), e);
    RotationCells(a, e, ce, b, t, ct, c, Hole(x), t);
    assert b.Fork? ==> b.node in Nodes(b);
    if x != Top {
      CtxRefilled(x, e, t, x.node);
    }
    var m' := LiftRight(m, e);
    forall n | n in Nodes(after) ensures m'[n] == CellOf(after, Hole(x), n) {
      RotationCells(a, e, ce, b, t, ct, c, Hole(x), n);
    }
    forall n | n in CtxNodes(x) ensures m'[n] == CtxCellOf(x, t, n) {
      CtxRefilled(x, e, t, n);
    }
  }

  lemma LiftLeftHolds<D, C>(m: Mem<D, C>, root: Node?<D, C>, x: Zip<D, C>,
                            a: Shape<D, C>, t: Node<D, C>, ct: C, b: Shape<D, C>, e: Node<D, C>, ce: C, c: Shape<D, C>)
    requires Holds(m, root, x, LeftHigh(a, t, ct, b, e, ce, c))
    ensures CanLiftLeft(m, e) && m[e].left == t
    ensures Holds(LiftLeft(m, e), if m[e].parent == null then t else root, x, RightHigh(a, t, ct, b, e, ce, c))
    ensures Inorder(LeftHigh(a, t, ct, b, e, ce, c)) == Inorder(RightHigh(a, t, ct, b, e, ce, c))
  {
    var before, after := LeftHigh(a, t, ct, b, e, ce, c), RightHigh(a, t, ct, b, e, ce, c);
    RotationDistinct(a, t, ct, b, e, ce, c);
    RotationInorder(a, t, ct, b, e, ce, c);
    RotationCells(a, t, ct, b, e, ce, c, Hole(x), e);
    RotationCells(a, t, ct, b, e, ce, c, Hole(x), t);
    assert b.Fork? ==> b.node in Nodes(b);
    if x != Top {
      CtxRefilled(x, e, t, x.node);
    }
    var m' := LiftLeft(m, e);
    forall n | n in Nodes(after) ensures m'[n] == CellOf(after, Hole(x), n) {
      RotationCells(a, t, ct, b, e, ce, c, Hole(x), n);
    }
    forall n | n in CtxNodes(x) ensures m'[n] == CtxCellOf(x, t, n) {
      CtxRefilled(x, e, t, n);
    }
  }

  // ---------- Attaching, splicing out and replacing a node ----------

  /** What the node `h` above a hole holds once its pointer to `was` leads to `p`. */
  ghost function Redirected<D, C>(c: Cell<D, C>, was: Node?<D, C>, p: Node?<D, C>): Cell<D, C> {
    if c.left == was then c.(left := p) else c.(right := p)
  }

  ghost function AttachMem<D, C>(m: Mem<D, C>, e: Node<D, C>, c: C, h: Node?<D, C>, onLeft: bool): Mem<D, C> {
    map n | n in m.Keys + {e} ::
      if n == e then Cell(null, null, h, c)
      else if n == h then (if onLeft then m[n].(left := e) else m[n].(right := e))
      else m[n]
  }

  lemma AttachHolds<D, C>(m: Mem<D, C>, root: Node?<D, C>, x: Zip<D, C>, e: Node<D, C>, c: C)
    requires Holds(m, root, x, Leaf) && e !in m
    ensures Holds(AttachMem(m, e, c, Hole(x), x.InLeft?), if x == Top then e else root, x, Fork(Leaf, e, c, Leaf))
  {
    var t := Fork(Leaf, e, c, Leaf);
    var m' := AttachMem(m, e, c, Hole(x), x.InLeft?);
    assert Nodes(t) == {e};
    forall n | n in CtxNodes(x) ensures m'[n] == CtxCellOf(x, e, n) {
      CtxRefilled(x, null, e, n);
    }
  }

  /** The pointers that taking out `e`, which has at most the child `s`, reads are there and differ. */
  ghost predicate CanSplice<D, C>(m: Mem<D, C>, e: Node<D, C>, s: Node?<D, C>) {
    && e in m && s != e && m[e].parent != e
    && (s != null ==> s in m)
    && var h := m[e].parent; h != null ==> h in m && h != s
  }

  ghost function SpliceMem<D, C>(m: Mem<D, C>, e: Node<D, C>, s: Node?<D, C>): Mem<D, C>
    requires e in m
  {
    map n | n in m.Keys - {e} ::
      if n == s then m[n].(parent := m[e].parent)
      else if n == m[e].parent then Redirected(m[n], e, s)
      else m[n]
  }

  lemma SplicedCells<D, C>(t: Shape<D, C>, s: Shape<D, C>, p: Node?<D, C>)
    requires t.Fork? && Distinct(t)
    requires (t.left.Leaf? && s == t.right) || (t.right.Leaf? && s == t.left)
    ensures Nodes(t) == Nodes(s) + {t.node} && t.node !in Nodes(s) && Distinct(s)
    ensures s.Fork? ==> s.node in Nodes(s)
    ensures forall n :: n in Nodes(s) ==>
              CellOf(t, p, n) == if n == s.node then CellOf(s, p, n).(parent := t.node) else CellOf(s, p, n)
    ensures s.Fork? ==> CellOf(s, p, s.node).parent == p
  {
    assert Nodes(t) == Nodes(s) + {t.node} && Distinct(s);
    forall n | n in Nodes(s)
      ensures CellOf(t, p, n) == if n == s.node then CellOf(s, p, n).(parent := t.node) else CellOf(s, p, n)
    {
      assert CellOf(t, p, n) == CellOf(s, t.node, n);
    }
  }

  lemma SpliceHolds<D, C>(m: Mem<D, C>, root: Node?<D, C>, x: Zip<D, C>, t: Shape<D, C>, s: Shape<D, C>)
    requires t.Fork? && Holds(m, root, x, t)
    requires (t.left.Leaf? && s == t.right) || (t.right.Leaf? && s == t.left)
    ensures CanSplice(m, t.node, Root(s)) && m[t.node].parent == Hole(x)
    ensures Holds(SpliceMem(m, t.node, Root(s)), if x == Top then Root(s) else root, x, s)
    ensures Nodes(s) == Nodes(t) - {t.node}
  {
    HoldsAt(m, root, x, t);
    SplicedCells(t, s, Hole(x));
    assert t.node !in CtxNodes(x) && Apart(x, s);
    assert m.Keys - {t.node} == CtxNodes(x) + Nodes(s);
    var m' := SpliceMem(m, t.node, Root(s));
    assert m'.Keys == m.Keys - {t.node};
    forall n | n in Nodes(s) ensures m'[n] == CellOf(s, Hole(x), n) {
    }
    forall n | n in CtxNodes(x) ensures m'[n] == CtxCellOf(x, Root(s), n) {
      CtxRefilled(x, t.node, Root(s), n);
    }
  }

  /** The pointers that putting `e` in the place of `o` reads are there and differ. */
  ghost predicate CanReplace<D, C>(m: Mem<D, C>, o: Node<D, C>, e: Node<D, C>) {
    && o in m && e !in m
    && var h, l, r := m[o].parent, m[o].left, m[o].right;
    && (l != null ==> l in m && l != o && l != r && l != h)
    && (r != null ==> r in m && r != o && r != h)
    && (h != null ==> h in m && h != o)
  }

  ghost function ReplaceMem<D, C>(m: Mem<D, C>, o: Node<D, C>, e: Node<D, C>, c: C): Mem<D, C>
    requires CanReplace(m, o, e)
  {
    map n | n in m.Keys - {o} + {e} ::
      if n == e then m[o].(tag := c)
      else if n == m[o].left || n == m[o].right then m[n].(parent := e)
      else if n == m[o].parent then Redirected(m[n], o, e)
      else m[n]
  }

  lemma ReplaceHolds<D, C>(m: Mem<D, C>, root: Node?<D, C>, x: Zip<D, C>, t: Shape<D, C>, e: Node<D, C>, c: C)
    requires t.Fork? && Holds(m, root, x, t) && e !in m
    ensures CanReplace(m, t.node, e) && m[t.node].parent == Hole(x)
    ensures Holds(ReplaceMem(m, t.node, e, c), if x == Top then e else root, x, Fork(t.left, e, c, t.right))
  {
    var m' := ReplaceMem(m, t.node, e, c);
    var s := Fork(t.left, e, c, t.right);
    HoldsAt(m, root, x, t);
    assert t.left.Fork? ==> t.left.node in Nodes(t.left);
    assert t.right.Fork? ==> t.right.node in Nodes(t.right);
    assert Nodes(s) == Nodes(t) - {t.node} + {e};
    forall n | n in Nodes(s) ensures m'[n] == CellOf(s, Hole(x), n) {
      if n == e {
      } else if n in Nodes(t.left) {
        assert CellOf(t, Hole(x), n) == CellOf(t.left, t.node, n);
        assert CellOf(s, Hole(x), n) == CellOf(t.left, e, n);
      } else {
        assert CellOf(t, Hole(x), n) == CellOf(t.right, t.node, n);
        assert CellOf(s, Hole(x), n) == CellOf(t.right, e, n);
      }
    }
    forall n | n in CtxNodes(x) ensures m'[n] == CtxCellOf(x, e, n) {
      CtxRefilled(x, t.node, e, n);
    }
  }

  /** Focusing through an inner context does not change what is represented. */
  lemma {:induction false} ZipInto<D, C>(m: Mem<D, C>, root: Node?<D, C>, inner: Zip<D, C>, outer: Zip<D, C>, t: Shape<D, C>)
    ensures Holds(m, root, Compose(inner, outer), t) <==> Holds(m, root, outer, Plug(inner, t))
    decreases inner
  {
    if inner != Top {
      ZipUp(m, root, Compose(inner, outer), t);
      ZipInto(m, root, inner.up, outer, Fill(inner, t));
    }
  }

  // ---------- The memory itself ----------

  /** A root pointer, with a ghost mirror of the fields of the nodes below it. */
  class Head<D, C> {
    var root: Node?<D, C>
    ghost var mem: Mem<D, C>

    constructor ()
      ensures root == null && mem == map[] && Mirrors()
    {
      root, mem := null, map[];
    }

    ghost predicate Mirrors()
      reads this, mem.Keys
    {
      forall n :: n in mem.Keys ==> mem[n] == Cell(n.left, n.right, n.parent, n.tag)
    }

    ghost predicate Represents(x: Zip<D, C>, t: Shape<D, C>)
      reads this, mem.Keys
    {
      Mirrors() && Holds(mem, root, x, t)
    }

    /** Makes the pointer that leads to `was`, in its parent or in the root, lead to `p`. */
    method Redirect(up: Node?<D, C>, was: Node?<D, C>, p: Node?<D, C>)
      modifies `root, {up}`left, {up}`right
      ensures up == null ==> root == p
      ensures up != null ==> root == old(root)
      ensures up != null && old(up.left) == was ==> up.left == p && up.right == old(up.right)
      ensures up != null && old(up.left) != was ==> up.right == p && up.left == old(up.left)
    {
      if up != null {
        if up.left == was {
          up.left := p;
        } else {
          up.right := p;
        }
      } else {
        root := p;
      }
    }

    /** Gives a child, if there is one, a parent. */
    method Adopt(child: Node?<D, C>, up: Node?<D, C>)
      modifies {child}`parent
      ensures child != null ==> child.parent == up
    {
      if child != null {
        child.parent := up;
      }
    }

    method SetTag(n: Node<D, C>, c: C, ghost x: Zip<D, C>, ghost t: Shape<D, C>)
      requires Represents(x, t) && n in Nodes(t)
      modifies `mem, n`tag
      ensures mem.Keys == old(mem.Keys)
      ensures Represents(x, Retag(t, n, c)) && Inorder(Retag(t, n, c)) == Inorder(t)
    {
      RetagHolds(mem, root, x, t, n, c);
      n.tag := c;
      mem := mem[n := mem[n].(tag := c)];
      forall k | k in mem.Keys ensures mem[k] == Cell(k.left, k.right, k.parent, k.tag) {
        if k == n {} else {}
      }
    }

    method RotateLeft(elm: Node<D, C>, ghost x: Zip<D, C>, ghost a: Shape<D, C>, ghost ce: C, ghost b: Shape<D, C>,
                      ghost t: Node<D, C>, ghost ct: C, ghost c: Shape<D, C>)
      requires Represents(x, RightHigh(a, elm, ce, b, t, ct, c))
      modifies this, mem.Keys
      ensures mem.Keys == old(mem.Keys)
      ensures Represents(x, LeftHigh(a, elm, ce, b, t, ct, c))
      ensures Inorder(LeftHigh(a, elm, ce, b, t, ct, c)) == Inorder(RightHigh(a, elm, ce, b, t, ct, c))
    {
      LiftRightHolds(mem, root, x, a, elm, ce, b, t, ct, c);
      LiftRightAt(elm);
    }

    method RotateRight(elm: Node<D, C>, ghost x: Zip<D, C>, ghost a: Shape<D, C>, ghost t: Node<D, C>, ghost ct: C,
                       ghost b: Shape<D, C>, ghost ce: C, ghost c: Shape<D, C>)
      requires Represents(x, LeftHigh(a, t, ct, b, elm, ce, c))
      modifies this, mem.Keys
      ensures mem.Keys == old(mem.Keys)
      ensures Represents(x, RightHigh(a, t, ct, b, elm, ce, c))
      ensures Inorder(LeftHigh(a, t, ct, b, elm, ce, c)) == Inorder(RightHigh(a, t, ct, b, elm, ce, c))
    {
      LiftLeftHolds(mem, root, x, a, t, ct, b, elm, ce, c);
      LiftLeftAt(elm);
    }

    method LiftRightAt(elm: Node<D, C>)
      requires Mirrors() && CanLiftRight(mem, elm)
      modifies this, mem.Keys
      ensures Mirrors() && mem == LiftRight(old(mem), elm)
      ensures root == if old(mem)[elm].parent == null then old(mem)[elm].right else old(root)
    {
      var tmp: Node<D, C> := elm.right;
      elm.right := tmp.left;
      Adopt(elm.right, elm);
      tmp.parent := elm.parent;
      Redirect(tmp.parent, elm, tmp);
      tmp.left := elm;
      elm.parent := tmp;
      mem := LiftRight(mem, elm);
      forall n | n in mem.Keys ensures mem[n] == Cell(n.left, n.right, n.parent, n.tag) {
        if n == elm {} else if n == tmp {} else if n == tmp.parent {} else if n == elm.right {} else {}
      }
    }

    method LiftLeftAt(elm: Node<D, C>)
      requires Mirrors() && CanLiftLeft(mem, elm)
      modifies this, mem.Keys
      ensures Mirrors() && mem == LiftLeft(old(mem), elm)
      ensures root == if old(mem)[elm].parent == null then old(mem)[elm].left else old(root)
    {
      var tmp: Node<D, C> := elm.left;
      elm.left := tmp.right;
      Adopt(elm.left, elm);
      tmp.parent := elm.parent;
      Redirect(tmp.parent, elm, tmp);
      tmp.right := elm;
      elm.parent := tmp;
      mem := LiftLeft(mem, elm);
      forall n | n in mem.Keys ensures mem[n] == Cell(n.left, n.right, n.parent, n.tag) {
        if n == elm {} else if n == tmp {} else if n == tmp.parent {} else if n == elm.left {} else {}
      }
    }

    /** Hangs a new leaf below `up`. */
    method Attach(elm: Node<D, C>, up: Node?<D, C>, onLeft: bool, ghost x: Zip<D, C>)
      requires Represents(x, Leaf) && elm !in mem && up == Hole(x) && onLeft == x.InLeft?
      modifies this, mem.Keys`left, mem.Keys`right, elm`left, elm`right, elm`parent
      ensures mem.Keys == old(mem.Keys) + {elm}
      ensures Represents(x, Fork(Leaf, elm, elm.tag, Leaf))
    {
      AttachHolds(mem, root, x, elm, elm.tag);
      HoldsAt(mem, root, x, Leaf);
      AttachAt(elm, up, onLeft);
    }

    method AttachAt(elm: Node<D, C>, up: Node?<D, C>, onLeft: bool)
      requires Mirrors() && elm !in mem && (up != null ==> up in mem)
      modifies this, mem.Keys`left, mem.Keys`right, elm`left, elm`right, elm`parent
      ensures Mirrors() && mem == AttachMem(old(mem), elm, elm.tag, up, onLeft)
      ensures root == if up == null then elm else old(root)
    {
      elm.left, elm.right, elm.parent := null, null, up;
      if up == null {
        root := elm;
      } else if onLeft {
        up.left := elm;
      } else {
        up.right := elm;
      }
      mem := AttachMem(mem, elm, elm.tag, up, onLeft);
      forall n | n in mem.Keys ensures mem[n] == Cell(n.left, n.right, n.parent, n.tag) {
        if n == elm {} else if n == up {} else {}
      }
    }

    /** Takes out the node `elm`, putting its only child, if any, in its place. */
    method Splice(elm: Node<D, C>, child: Node?<D, C>, ghost x: Zip<D, C>, ghost t: Shape<D, C>, ghost s: Shape<D, C>)
      requires Represents(x, t) && t.Fork? && t.node == elm && child == Root(s)
      requires (t.left.Leaf? && s == t.right) || (t.right.Leaf? && s == t.left)
      modifies this, (mem.Keys - {elm})`left, (mem.Keys - {elm})`right, (mem.Keys - {elm})`parent
      ensures mem.Keys == old(mem.Keys) - {elm}
      ensures Represents(x, s)
    {
      SpliceHolds(mem, root, x, t, s);
      SpliceAt(elm, child);
    }

    method SpliceAt(elm: Node<D, C>, child: Node?<D, C>)
      requires Mirrors() && CanSplice(mem, elm, child)
      modifies this, (mem.Keys - {elm})`left, (mem.Keys - {elm})`right, (mem.Keys - {elm})`parent
      ensures Mirrors() && mem == SpliceMem(old(mem), elm, child)
      ensures root == if elm.parent == null then child else old(root)
    {
      var up := elm.parent;
      Adopt(child, up);
      Redirect(up, elm, child);
      mem := SpliceMem(mem, elm, child);
      forall n | n in mem.Keys ensures mem[n] == Cell(n.left, n.right, n.parent, n.tag) {
        if n == child {} else if n == up {} else {}
      }
    }

    /** Puts the unlinked node `elm` in the place of `was`. */
    method TakePlace(was: Node<D, C>, elm: Node<D, C>, ghost x: Zip<D, C>, ghost t: Shape<D, C>)
      requires Represents(x, t) && t.Fork? && t.node == was && elm !in mem
      modifies this, (mem.Keys - {was})`left, (mem.Keys - {was})`right, (mem.Keys - {was})`parent
      modifies elm`left, elm`right, elm`parent
      ensures mem.Keys == old(mem.Keys) - {was} + {elm}
      ensures Represents(x, Fork(t.left, elm, elm.tag, t.right))
    {
      ReplaceHolds(mem, root, x, t, elm, elm.tag);
      TakePlaceAt(was, elm);
    }

    method TakePlaceAt(was: Node<D, C>, elm: Node<D, C>)
      requires Mirrors() && CanReplace(mem, was, elm)
      modifies this, (mem.Keys - {was})`left, (mem.Keys - {was})`right, (mem.Keys - {was})`parent
      modifies elm`left, elm`right, elm`parent
      ensures Mirrors() && mem == ReplaceMem(old(mem), was, elm, elm.tag)
      ensures root == if was.parent == null then elm else old(root)
    {
      elm.left, elm.right, elm.parent := was.left, was.right, was.parent;
      Adopt(elm.left, elm);
      Adopt(elm.right, elm);
      Redirect(elm.parent, was, elm);
      mem := ReplaceMem(mem, was, elm, elm.tag);
      forall n | n in mem.Keys ensures mem[n] == Cell(n.left, n.right, n.parent, n.tag) {
        if n == elm {} else if n == elm.left {} else if n == elm.right {} else if n == elm.parent {} else {}
      }
    }
  }
}
