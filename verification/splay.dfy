/** Splay trees: top-down splaying that relinks nodes in place. */
module SplayShape {
  import opened Trees

  class SplayNode {
    const key: int
    var left: SplayNode?
    var right: SplayNode?

    constructor (k: int)
      ensures key == k && left == null && right == null
    {
      key := k;
      left, right := null, null;
    }
  }

  datatype Cell = Cell(left: SplayNode?, right: SplayNode?)

  type Mem = map<SplayNode, Cell>
  type Shape = Tree<SplayNode, ()>
  type Spine = Ctx<SplayNode, ()>

  ghost function Root(t: Shape): SplayNode? {
    if t.Leaf? then null else t.node
  }

  /** The topmost pointer of a spine whose hole holds `p`. */
  ghost function RootOf(x: Spine, p: SplayNode?): SplayNode? {
    if x == Top then p else RootOf(x.up, x.node)
  }

  /** The node whose link is the hole; the spine hangs from the auxiliary node `aux`. */
  ghost function HoleAt(x: Spine, aux: SplayNode): SplayNode {
    if x == Top then aux else x.node
  }

  // ---------- What memory holds ----------

  ghost predicate Held(m: Mem, t: Shape) {
    t.Fork? ==> t.node in m && m[t.node] == Cell(Root(t.left), Root(t.right)) && Held(m, t.left) && Held(m, t.right)
  }

  ghost predicate SpineHeld(m: Mem, x: Spine, p: SplayNode?)
    decreases x
  {
    x != Top ==>
      && x.node in m && m[x.node] == (if x.InLeft? then Cell(p, Root(x.other)) else Cell(Root(x.other), p))
      && Held(m, x.other) && SpineHeld(m, x.up, x.node)
  }

  ghost predicate Agree(m: Mem, m': Mem, s: set<SplayNode>) {
    forall n :: n in s && n in m ==> n in m' && m'[n] == m[n]
  }

  lemma {:induction false} HeldFrame(m: Mem, m': Mem, t: Shape)
    requires Held(m, t) && Agree(m, m', Nodes(t))
    ensures Held(m', t)
  {
    if t.Fork? {
      assert t.node in Nodes(t) && Nodes(t.left) <= Nodes(t) && Nodes(t.right) <= Nodes(t);
      HeldFrame(m, m', t.left);
      HeldFrame(m, m', t.right);
    }
  }

  lemma {:induction false} SpineFrame(m: Mem, m': Mem, x: Spine, p: SplayNode?)
    requires SpineHeld(m, x, p) && Agree(m, m', CtxNodes(x))
    ensures SpineHeld(m', x, p)
    decreases x
  {
    if x != Top {
      assert x.node in CtxNodes(x) && CtxNodes(x.up) <= CtxNodes(x) && Nodes(x.other) <= CtxNodes(x);
      SpineFrame(m, m', x.up, x.node);
      HeldFrame(m, m', x.other);
    }
  }

  /** Closing a spine over what its hole points to. */
  lemma {:induction false} PlugHeld(m: Mem, x: Spine, t: Shape)
    requires SpineHeld(m, x, Root(t)) && Held(m, t)
    ensures Held(m, Plug(x, t)) && Root(Plug(x, t)) == RootOf(x, Root(t))
    decreases x
  {
    if x != Top {
      PlugHeld(m, x.up, Fill(x, t));
    }
  }

  /** A node occurs once in the two spines, the tree and the auxiliary node. */
  ghost predicate Separate(aux: SplayNode, lx: Spine, rx: Spine, t: Shape) {
    && Apart(lx, t) && Apart(rx, t) && CtxNodes(lx) !! CtxNodes(rx)
    && aux !in CtxNodes(lx) && aux !in CtxNodes(rx) && aux !in Nodes(t)
  }

  ghost predicate OnlyRight(x: Spine) {
    x != Top ==> x.InRight? && OnlyRight(x.up)
  }

  ghost predicate OnlyLeft(x: Spine) {
    x != Top ==> x.InLeft? && OnlyLeft(x.up)
  }

  /** The state of the splaying loop: a tree of smaller nodes with a hole at its right end, a tree of
      larger nodes with a hole at its left end, and what remains between them. */
  ghost predicate Parts(m: Mem, aux: SplayNode, lx: Spine, pl: SplayNode?, rx: Spine, pr: SplayNode?, t: Shape) {
    && Separate(aux, lx, rx, t) && OnlyRight(lx) && OnlyLeft(rx)
    && SpineHeld(m, lx, pl) && SpineHeld(m, rx, pr) && Held(m, t)
    && aux in m && m[aux] == Cell(RootOf(rx, pr), RootOf(lx, pl))
  }

  lemma SetLeftHole(m: Mem, aux: SplayNode, lx: Spine, pl: SplayNode?, rx: Spine, pr: SplayNode?, t: Shape,
                    p: SplayNode?)
    requires Parts(m, aux, lx, pl, rx, pr, t)
    ensures var h := HoleAt(lx, aux);
            h in m && Parts(m[h := Cell(m[h].left, p)], aux, lx, p, rx, pr, t)
  {
    var h := HoleAt(lx, aux);
    var m' := m[h := Cell(m[h].left, p)];
    if lx != Top {
      assert h in CtxNodes(lx);
      SpineFrame(m, m', lx.up, lx.node);
      HeldFrame(m, m', lx.other);
    }
    SpineFrame(m, m', rx, pr);
    HeldFrame(m, m', t);
  }

  lemma SetRightHole(m: Mem, aux: SplayNode, lx: Spine, pl: SplayNode?, rx: Spine, pr: SplayNode?, t: Shape,
                     p: SplayNode?)
    requires Parts(m, aux, lx, pl, rx, pr, t)
    ensures var h := HoleAt(rx, aux);
            h in m && Parts(m[h := Cell(p, m[h].right)], aux, lx, pl, rx, p, t)
  {
    var h := HoleAt(rx, aux);
    var m' := m[h := Cell(p, m[h].right)];
    if rx != Top {
      assert h in CtxNodes(rx);
      SpineFrame(m, m', rx.up, rx.node);
      HeldFrame(m, m', rx.other);
    }
    SpineFrame(m, m', lx, pl);
    HeldFrame(m, m', t);
  }

  /** The root and its left subtree move to the smaller side. */
  lemma ShiftLeft(m: Mem, aux: SplayNode, lx: Spine, rx: Spine, pr: SplayNode?, t: Shape)
    requires t.Fork? && Parts(m, aux, lx, t.node, rx, pr, t)
    ensures Parts(m, aux, InRight(lx, t.node, t.tag, t.left), Root(t.right), rx, pr, t.right)
  {
    var x := InRight(lx, t.node, t.tag, t.left);
    FilledApart(x, t.right);
    assert t.node in Nodes(t) && Nodes(t.left) <= Nodes(t) && Nodes(t.right) <= Nodes(t);
  }

  /** The root and its right subtree move to the larger side. */
  lemma ShiftRight(m: Mem, aux: SplayNode, lx: Spine, pl: SplayNode?, rx: Spine, t: Shape)
    requires t.Fork? && Parts(m, aux, lx, pl, rx, t.node, t)
    ensures Parts(m, aux, lx, pl, InLeft(rx, t.node, t.tag, t.right), Root(t.left), t.left)
  {
    var x := InLeft(rx, t.node, t.tag, t.right);
    FilledApart(x, t.left);
    assert t.node in Nodes(t) && Nodes(t.left) <= Nodes(t) && Nodes(t.right) <= Nodes(t);
  }

  ghost function RotatedRight(t: Shape): Shape
    requires t.Fork? && t.left.Fork?
  {
    RightHigh(t.left.left, t.left.node, t.left.tag, t.left.right, t.node, t.tag, t.right)
  }

  ghost function RotatedLeft(t: Shape): Shape
    requires t.Fork? && t.right.Fork?
  {
    LeftHigh(t.left, t.node, t.tag, t.right.left, t.right.node, t.right.tag, t.right.right)
  }

  lemma RotateRightParts(m: Mem, m': Mem, aux: SplayNode, lx: Spine, pl: SplayNode?, rx: Spine, pr: SplayNode?, t: Shape)
    requires t.Fork? && t.left.Fork? && Parts(m, aux, lx, pl, rx, pr, t)
    requires m' == m[t.node := Cell(Root(t.left.right), Root(t.right))][t.left.node := Cell(Root(t.left.left), t.node)]
    ensures Parts(m', aux, lx, pl, rx, pr, RotatedRight(t))
  {
    var n, e := t.node, t.left.node;
    assert Held(m, t.left);
    RotationDistinct(t.left.left, e, t.left.tag, t.left.right, n, t.tag, t.right);
    assert n in Nodes(t) && e in Nodes(t.left) && Nodes(t) == Nodes(RotatedRight(t));
    HeldFrame(m, m', t.left.left);
    HeldFrame(m, m', t.left.right);
    HeldFrame(m, m', t.right);
    SpineFrame(m, m', lx, pl);
    SpineFrame(m, m', rx, pr);
    assert Held(m', RotatedRight(t).right);
  }

  lemma RotateLeftParts(m: Mem, m': Mem, aux: SplayNode, lx: Spine, pl: SplayNode?, rx: Spine, pr: SplayNode?, t: Shape)
    requires t.Fork? && t.right.Fork? && Parts(m, aux, lx, pl, rx, pr, t)
    requires m' == m[t.node := Cell(Root(t.left), Root(t.right.left))][t.right.node := Cell(t.node, Root(t.right.right))]
    ensures Parts(m', aux, lx, pl, rx, pr, RotatedLeft(t))
  {
    var n, e := t.node, t.right.node;
    assert Held(m, t.right);
    RotationDistinct(t.left, n, t.tag, t.right.left, e, t.right.tag, t.right.right);
    assert n in Nodes(t) && e in Nodes(t.right) && Nodes(t) == Nodes(RotatedLeft(t));
    HeldFrame(m, m', t.left);
    HeldFrame(m, m', t.right.left);
    HeldFrame(m, m', t.right.right);
    SpineFrame(m, m', lx, pl);
    SpineFrame(m, m', rx, pr);
    assert Held(m', RotatedLeft(t).left);
  }

  /** The tree put together from the three parts. */
  ghost function Assembled(lx: Spine, rx: Spine, t: Shape): Shape
    requires t.Fork?
  {
    Fork(Plug(lx, t.left), t.node, t.tag, Plug(rx, t.right))
  }

  lemma AssembledNodes(aux: SplayNode, lx: Spine, rx: Spine, t: Shape)
    requires t.Fork? && Separate(aux, lx, rx, t)
    ensures Distinct(Assembled(lx, rx, t)) && aux !in Nodes(Assembled(lx, rx, t))
    ensures Nodes(Assembled(lx, rx, t)) == {aux} + CtxNodes(lx) + CtxNodes(rx) + Nodes(t) - {aux}
    ensures t.node !in Nodes(Plug(lx, t.left)) && t.node !in Nodes(Plug(rx, t.right))
  {
    var l, r := Plug(lx, t.left), Plug(rx, t.right);
    assert t.node in Nodes(t) && Nodes(t.left) <= Nodes(t) && Nodes(t.right) <= Nodes(t);
    PlugNodes(lx, t.left);
    PlugNodes(rx, t.right);
    assert Nodes(l) == CtxNodes(lx) + Nodes(t.left) && Nodes(r) == CtxNodes(rx) + Nodes(t.right);
  }

  lemma AssembleParts(m: Mem, m': Mem, aux: SplayNode, lx: Spine, rx: Spine, t: Shape)
    requires t.Fork? && Parts(m, aux, lx, Root(t.left), rx, Root(t.right), t)
    requires m.Keys == {aux} + CtxNodes(lx) + CtxNodes(rx) + Nodes(t)
    requires m' == m[t.node := Cell(m[aux].right, m[aux].left)] - {aux}
    ensures Held(m', Assembled(lx, rx, t)) && Distinct(Assembled(lx, rx, t)) && m'.Keys == Nodes(Assembled(lx, rx, t))
  {
    var l, r := Plug(lx, t.left), Plug(rx, t.right);
    AssembledNodes(aux, lx, rx, t);
    PlugHeld(m, lx, t.left);
    PlugHeld(m, rx, t.right);
    assert aux !in Nodes(l) && aux !in Nodes(r);
    assert t.node in Nodes(t);
    HeldFrame(m, m', l);
    HeldFrame(m, m', r);
    assert m'.Keys == m.Keys - {aux};
  }
}

module Splay {
  import opened Trees
  import opened SplayShape

  /** What a splay looks for: the node with a key, or one end of the order. */
  datatype Target = Lowest | At(key: int) | Highest

  /** How the target compares with a node: -1, 0 or 1. */
  function Compare(target: Target, n: SplayNode): int {
    match target
    case Lowest => -1
    case Highest => 1
    case At(k) => if k < n.key then -1 else if k > n.key then 1 else 0
  }

  // ---------- Order ----------

  ghost predicate Ascending(s: seq<SplayNode>) {
    forall i, j :: 0 <= i < j < |s| ==> s[i].key < s[j].key
  }

  ghost predicate AllBelow(s: seq<SplayNode>, target: Target) {
    forall n :: n in s ==> Compare(target, n) > 0
  }

  ghost predicate AllAbove(s: seq<SplayNode>, target: Target) {
    forall n :: n in s ==> Compare(target, n) < 0
  }

  lemma AscendingAround(a: seq<SplayNode>, n: SplayNode, b: seq<SplayNode>)
    requires Ascending(a + [n] + b)
    ensures Ascending(a) && Ascending(b)
    ensures (forall e :: e in a ==> e.key < n.key) && (forall e :: e in b ==> n.key < e.key)
  {
    var s := a + [n] + b;
    var k := |a|;
    assert s[k] == n;
    forall i | 0 <= i < |a| ensures a[i] == s[i] {}
    forall i | 0 <= i < |b| ensures b[i] == s[k + 1 + i] {}
  }

  lemma AscendingMiddle(a: seq<SplayNode>, s: seq<SplayNode>, b: seq<SplayNode>)
    requires Ascending(a + s + b)
    ensures Ascending(s)
  {
    forall i | 0 <= i < |s| ensures s[i] == (a + s + b)[|a| + i] {}
  }

  lemma AscendingWith(a: seq<SplayNode>, e: SplayNode, b: seq<SplayNode>)
    requires Ascending(a + b) && AllBelow(a, At(e.key)) && AllAbove(b, At(e.key))
    ensures Ascending(a + [e] + b)
  {
    var s, r := a + b, a + [e] + b;
    var k := |a|;
    forall i, j | 0 <= i < j < |r| ensures r[i].key < r[j].key {
      if i == k {
        assert r[j] in b;
      } else if j == k {
        assert r[i] in a;
      } else {
        assert r[i] == s[if i < k then i else i - 1] && r[j] == s[if j < k then j else j - 1];
      }
    }
  }

  lemma AscendingWithout(a: seq<SplayNode>, e: SplayNode, b: seq<SplayNode>)
    requires Ascending(a + [e] + b)
    ensures Ascending(a + b)
  {
    var s, r := a + b, a + [e] + b;
    forall i, j | 0 <= i < j < |s| ensures s[i].key < s[j].key {
      assert s[i] == r[if i < |a| then i else i + 1] && s[j] == r[if j < |a| then j else j + 1];
    }
  }

  /** After a splay for a key, the root has the key or no node has it. */
  lemma FoundAtRoot(t: Shape, key: int)
    requires t.Fork? && AllBelow(Inorder(t.left), At(key)) && AllAbove(Inorder(t.right), At(key))
    ensures (exists n :: n in Inorder(t) && n.key == key) <==> t.node.key == key
    ensures forall n :: n in Inorder(t) && n.key == key ==> n == t.node
    ensures Inorder(t)[|Inorder(t.left)|] == t.node
  {
    assert t.node in Inorder(t);
  }

  /** Nothing is beyond an end of the order. */
  lemma NoneBeyond(s: seq<SplayNode>, target: Target)
    ensures target == Lowest && AllBelow(s, target) ==> s == []
    ensures target == Highest && AllAbove(s, target) ==> s == []
  {
    if s != [] {
      var n := s[0];
      assert n in s && Compare(Lowest, n) < 0 && Compare(Highest, n) > 0;
    }
  }

  /** The largest node has nothing on its right. */
  lemma NoneRight(t: Shape, target: Target)
    requires t.Fork?
    ensures AllBelow(Inorder(t), target) && AllAbove(Inorder(t.right), target) ==> t.right == Leaf
  {
    if t.right.Fork? {
      var n := t.right.node;
      assert n in Inorder(t.right) && n in Inorder(t);
    }
  }

  /** The two spines hold nodes on the right sides of the target, and all parts make up `whole`. */
  ghost predicate Divided(lx: Spine, rx: Spine, t: Shape, whole: seq<SplayNode>, target: Target) {
    && AllBelow(Before(lx), target) && AllAbove(After(rx), target)
    && whole == Before(lx) + Inorder(t) + After(rx) && Ascending(whole)
  }

  lemma DividedRoot(lx: Spine, rx: Spine, t: Shape, whole: seq<SplayNode>, target: Target)
    requires t.Fork? && Divided(lx, rx, t, whole, target)
    ensures Ascending(Inorder(t.left)) && Ascending(Inorder(t.right))
    ensures Compare(target, t.node) <= 0 ==> AllAbove(Inorder(t.right), target)
    ensures Compare(target, t.node) >= 0 ==> AllBelow(Inorder(t.left), target)
  {
    AscendingMiddle(Before(lx), Inorder(t), After(rx));
    AscendingAround(Inorder(t.left), t.node, Inorder(t.right));
  }

  lemma DividedShiftRight(lx: Spine, rx: Spine, t: Shape, whole: seq<SplayNode>, target: Target)
    requires t.Fork? && Divided(lx, rx, t, whole, target) && Compare(target, t.node) < 0
    ensures Divided(lx, InLeft(rx, t.node, t.tag, t.right), t.left, whole, target)
  {
    DividedRoot(lx, rx, t, whole, target);
    Join3(Before(lx), Inorder(t.left), [t.node], Inorder(t.right), After(rx));
  }

  lemma DividedShiftLeft(lx: Spine, rx: Spine, t: Shape, whole: seq<SplayNode>, target: Target)
    requires t.Fork? && Divided(lx, rx, t, whole, target) && Compare(target, t.node) > 0
    ensures Divided(InRight(lx, t.node, t.tag, t.left), rx, t.right, whole, target)
  {
    DividedRoot(lx, rx, t, whole, target);
    Join3(Before(lx), Inorder(t.left), [t.node], Inorder(t.right), After(rx));
  }

  lemma Join3<T>(a: seq<T>, l: seq<T>, n: seq<T>, r: seq<T>, b: seq<T>)
    ensures a + (l + n + r) + b == a + l + (n + r + b)
    ensures a + (l + n + r) + b == (a + (l + n)) + r + b
  {
  }

  lemma {:induction false} SpineSides(x: Spine)
    ensures OnlyRight(x) ==> After(x) == []
    ensures OnlyLeft(x) ==> Before(x) == []
    decreases x
  {
    if x != Top { SpineSides(x.up); }
  }

  /** What a finished splay leaves. */
  lemma DividedAssembled(lx: Spine, rx: Spine, t: Shape, whole: seq<SplayNode>, target: Target)
    requires t.Fork? && Divided(lx, rx, t, whole, target) && OnlyRight(lx) && OnlyLeft(rx)
    requires Compare(target, t.node) < 0 ==> t.left == Leaf
    requires Compare(target, t.node) > 0 ==> t.right == Leaf
    ensures var u := Assembled(lx, rx, t);
            Inorder(u) == whole && AllBelow(Inorder(u.left), target) && AllAbove(Inorder(u.right), target)
  {
    DividedRoot(lx, rx, t, whole, target);
    SpineSides(lx);
    SpineSides(rx);
    PlugInorder(lx, t.left);
    PlugInorder(rx, t.right);
    var u := Assembled(lx, rx, t);
    assert Inorder(u.left) == Before(lx) + Inorder(t.left);
    assert Inorder(u.right) == Inorder(t.right) + After(rx);
    JoinEnds(Before(lx), Inorder(t.left), [t.node], Inorder(t.right), After(rx));
  }

  lemma JoinEnds<T>(a: seq<T>, l: seq<T>, n: seq<T>, r: seq<T>, b: seq<T>)
    ensures a + (l + n + r) + b == (a + l) + n + (r + b)
  {
  }

  lemma RotatedInorder(t: Shape)
    requires t.Fork?
    ensures t.left.Fork? ==> Inorder(RotatedRight(t)) == Inorder(t) && Size(RotatedRight(t)) == Size(t)
    ensures t.right.Fork? ==> Inorder(RotatedLeft(t)) == Inorder(t) && Size(RotatedLeft(t)) == Size(t)
  {
    if t.left.Fork? {
      RotationInorder(t.left.left, t.left.node, t.left.tag, t.left.right, t.node, t.tag, t.right);
    }
    if t.right.Fork? {
      RotationInorder(t.left, t.node, t.tag, t.right.left, t.right.node, t.right.tag, t.right.right);
    }
  }

  lemma {:induction false} InorderHas(t: Shape, n: SplayNode)
    ensures n in Inorder(t) <==> n in Nodes(t)
  {
    InorderNodes(t, n);
  }

  // ---------- The tree ----------

  class SplayTree {
    var root: SplayNode?
    ghost var shape: Shape
    ghost var mem: Mem

    /** The ghost memory is what the nodes hold. */
    ghost predicate Mirrors()
      reads this, mem.Keys
    {
      forall n :: n in mem.Keys ==> mem[n] == Cell(n.left, n.right)
    }

    ghost predicate Valid()
      reads this, mem.Keys
    {
      && Mirrors() && mem.Keys == Nodes(shape) && Held(mem, shape) && Distinct(shape)
      && root == Root(shape) && Ascending(Inorder(shape))
    }

    ghost function Elements(): seq<SplayNode>
      reads this
    {
      Inorder(shape)
    }

    constructor ()
      ensures Valid() && Elements() == []
    {
      root, shape, mem := null, Leaf, map[];
    }

    method SetLeft(n: SplayNode, p: SplayNode?)
      requires Mirrors() && n in mem
      modifies this`mem, n`left
      ensures Mirrors() && mem == old(mem)[n := Cell(p, old(mem)[n].right)]
    {
      n.left := p;
      mem := mem[n := Cell(p, mem[n].right)];
    }

    method SetRight(n: SplayNode, p: SplayNode?)
      requires Mirrors() && n in mem
      modifies this`mem, n`right
      ensures Mirrors() && mem == old(mem)[n := Cell(old(mem)[n].left, p)]
    {
      n.right := p;
      mem := mem[n := Cell(mem[n].left, p)];
    }

    /** The splaying loop's state: `root` is the root of what remains. */
    ghost predicate Splaying(aux: SplayNode, lx: Spine, pl: SplayNode?, rx: Spine, pr: SplayNode?, t: Shape)
      reads this, mem.Keys
    {
      && Mirrors() && Parts(mem, aux, lx, pl, rx, pr, t) && t.Fork? && root == t.node
      && mem.Keys == {aux} + CtxNodes(lx) + CtxNodes(rx) + Nodes(t)
    }

    method RotateRight(tmp: SplayNode, ghost aux: SplayNode, ghost lx: Spine, ghost pl: SplayNode?,
                       ghost rx: Spine, ghost pr: SplayNode?, ghost t: Shape)
      requires Splaying(aux, lx, pl, rx, pr, t) && t.left.Fork? && tmp == t.left.node
      modifies this, mem.Keys
      ensures Splaying(aux, lx, pl, rx, pr, RotatedRight(t)) && mem.Keys == old(mem.Keys)
    {
      ghost var m: Mem := mem;
      assert Held(m, t.left);
      assert tmp in Nodes(t.left) && t.node in Nodes(t);
      SetLeft(root, tmp.right);
      SetRight(tmp, root);
      root := tmp;
      assert mem == m[t.node := Cell(Root(t.left.right), Root(t.right))][tmp := Cell(Root(t.left.left), t.node)];
      RotateRightParts(m, mem, aux, lx, pl, rx, pr, t);
      RotationDistinct(t.left.left, t.left.node, t.left.tag, t.left.right, t.node, t.tag, t.right);
    }

    method RotateLeft(tmp: SplayNode, ghost aux: SplayNode, ghost lx: Spine, ghost pl: SplayNode?,
                      ghost rx: Spine, ghost pr: SplayNode?, ghost t: Shape)
      requires Splaying(aux, lx, pl, rx, pr, t) && t.right.Fork? && tmp == t.right.node
      modifies this, mem.Keys
      ensures Splaying(aux, lx, pl, rx, pr, RotatedLeft(t)) && mem.Keys == old(mem.Keys)
    {
      ghost var m: Mem := mem;
      assert Held(m, t.right);
      assert tmp in Nodes(t.right) && t.node in Nodes(t);
      SetRight(root, tmp.left);
      SetLeft(tmp, root);
      root := tmp;
      assert mem == m[t.node := Cell(Root(t.left), Root(t.right.left))][tmp := Cell(t.node, Root(t.right.right))];
      RotateLeftParts(m, mem, aux, lx, pl, rx, pr, t);
      RotationDistinct(t.left, t.node, t.tag, t.right.left, t.right.node, t.right.tag, t.right.right);
    }

    /** Hangs the root, with its right subtree, on the larger side. */
    method LinkLeft(right: SplayNode, ghost aux: SplayNode, ghost lx: Spine, ghost pl: SplayNode?,
                    ghost rx: Spine, ghost pr: SplayNode?, ghost t: Shape) returns (newRight: SplayNode)
      requires Splaying(aux, lx, pl, rx, pr, t) && right == HoleAt(rx, aux) && t.left.Fork?
      modifies this, mem.Keys
      ensures newRight == t.node && mem.Keys == old(mem.Keys)
      ensures Splaying(aux, lx, pl, InLeft(rx, t.node, t.tag, t.right), Root(t.left), t.left)
    {
      SetRightHole(mem, aux, lx, pl, rx, pr, t, root);
      SetLeft(right, root);
      newRight := root;
      ShiftRight(mem, aux, lx, pl, rx, t);
      assert t.node in Nodes(t);
      root := root.left;
    }

    /** Hangs the root, with its left subtree, on the smaller side. */
    method LinkRight(left: SplayNode, ghost aux: SplayNode, ghost lx: Spine, ghost pl: SplayNode?,
                     ghost rx: Spine, ghost pr: SplayNode?, ghost t: Shape) returns (newLeft: SplayNode)
      requires Splaying(aux, lx, pl, rx, pr, t) && left == HoleAt(lx, aux) && t.right.Fork?
      modifies this, mem.Keys
      ensures newLeft == t.node && mem.Keys == old(mem.Keys)
      ensures Splaying(aux, InRight(lx, t.node, t.tag, t.left), Root(t.right), rx, pr, t.right)
    {
      SetLeftHole(mem, aux, lx, pl, rx, pr, t, root);
      SetRight(left, root);
      newLeft := root;
      ShiftLeft(mem, aux, lx, rx, pr, t);
      assert t.node in Nodes(t);
      root := root.right;
    }

    /** Fills both holes with the subtrees of the root; the parts then make up one tree, but for the root. */
    method CloseHoles(left: SplayNode, right: SplayNode, ghost aux: SplayNode, ghost lx: Spine, ghost pl: SplayNode?,
                      ghost rx: Spine, ghost pr: SplayNode?, ghost t: Shape)
      requires Splaying(aux, lx, pl, rx, pr, t) && left == HoleAt(lx, aux) && right == HoleAt(rx, aux)
      modifies this`mem, mem.Keys
      ensures Mirrors() && root in mem && aux in mem && root != aux && mem.Keys == old(mem.Keys)
      ensures var m', u := mem[root := Cell(mem[aux].right, mem[aux].left)] - {aux}, Assembled(lx, rx, t);
              Held(m', u) && Distinct(u) && m'.Keys == Nodes(u)
    {
      assert t.node in Nodes(t);
      SetLeftHole(mem, aux, lx, pl, rx, pr, t, Root(t.left));
      SetRight(left, root.left);
      SetRightHole(mem, aux, lx, Root(t.left), rx, pr, t, Root(t.right));
      SetLeft(right, root.right);
      AssembleParts(mem, mem[root := Cell(mem[aux].right, mem[aux].left)] - {aux}, aux, lx, rx, t);
    }

    method Assemble(node: SplayNode, left: SplayNode, right: SplayNode, ghost lx: Spine, ghost pl: SplayNode?,
                    ghost rx: Spine, ghost pr: SplayNode?, ghost t: Shape)
      requires Splaying(node, lx, pl, rx, pr, t) && left == HoleAt(lx, node) && right == HoleAt(rx, node)
      modifies this, mem.Keys
      ensures shape == Assembled(lx, rx, t) && root == t.node
      ensures Mirrors() && mem.Keys == Nodes(shape) == old(mem.Keys) - {node}
      ensures Held(mem, shape) && Distinct(shape)
    {
      CloseHoles(left, right, node, lx, pl, rx, pr, t);
      SetBoth(root, node);
      shape := Assembled(lx, rx, t);
    }

    /** Gives the root the two trees that hang from the auxiliary node, which is then done with. */
    method SetBoth(n: SplayNode, node: SplayNode)
      requires Mirrors() && n in mem && node in mem && n != node
      modifies this`mem, n`left, n`right
      ensures Mirrors() && mem == old(mem)[n := Cell(old(mem)[node].right, old(mem)[node].left)] - {node}
    {
      ghost var m: Mem := mem[n := Cell(mem[node].right, mem[node].left)] - {node};
      n.left, n.right := node.right, node.left;
      forall k | k in m ensures m[k] == Cell(k.left, k.right) {
      }
      mem := m;
    }

    /** One round when the target is before the root; `stop` when there is no way on. */
    method GoLeft(target: Target, right: SplayNode, ghost aux: SplayNode, ghost lx: Spine, ghost pl: SplayNode?,
                  ghost rx: Spine, ghost pr: SplayNode?, ghost t: Shape, ghost whole: seq<SplayNode>)
      returns (stop: bool, newRight: SplayNode, ghost rx': Spine, ghost pr': SplayNode?, ghost t': Shape)
      requires Splaying(aux, lx, pl, rx, pr, t) && right == HoleAt(rx, aux) && Divided(lx, rx, t, whole, target)
      requires Compare(target, root) < 0
      modifies this, mem.Keys
      ensures Splaying(aux, lx, pl, rx', pr', t') && newRight == HoleAt(rx', aux) && mem.Keys == old(mem.Keys)
      ensures Divided(lx, rx', t', whole, target)
      ensures if stop then Compare(target, t'.node) < 0 && t'.left == Leaf else Size(t') < Size(t)
    {
      stop, newRight, rx', pr', t' := true, right, rx, pr, t;
      var tmp := root.left;
      assert t.node in Nodes(t);
      if tmp == null {
        return;
      }
      var turned;
      turned, t' := TurnRight(target, tmp, aux, lx, pl, rx, pr, t, whole);
      if turned && root.left == null {
        return;
      }
      DividedShiftRight(lx, rx, t', whole, target);
      newRight := LinkLeft(right, aux, lx, pl, rx, pr, t');
      stop, rx', pr', t' := false, InLeft(rx, t'.node, t'.tag, t'.right), Root(t'.left), t'.left;
    }

    /** Rotates right when the target is before the root's left child too. */
    method TurnRight(target: Target, tmp: SplayNode, ghost aux: SplayNode, ghost lx: Spine, ghost pl: SplayNode?,
                     ghost rx: Spine, ghost pr: SplayNode?, ghost t: Shape, ghost whole: seq<SplayNode>)
      returns (turned: bool, ghost t': Shape)
      requires Splaying(aux, lx, pl, rx, pr, t) && Divided(lx, rx, t, whole, target)
      requires Compare(target, root) < 0 && t.left.Fork? && tmp == t.left.node
      modifies this, mem.Keys
      ensures Splaying(aux, lx, pl, rx, pr, t') && Divided(lx, rx, t', whole, target) && mem.Keys == old(mem.Keys)
      ensures turned == (Compare(target, tmp) < 0) && t' == (if turned then RotatedRight(t) else t)
      ensures Size(t') == Size(t) && root in mem
    {
      turned, t' := Compare(target, tmp) < 0, t;
      if turned {
        RotatedInorder(t);
        RotateRight(tmp, aux, lx, pl, rx, pr, t);
        t' := RotatedRight(t);
      }
      assert t'.node in Nodes(t');
    }

    /** One round when the target is after the root. */
    method GoRight(target: Target, left: SplayNode, ghost aux: SplayNode, ghost lx: Spine, ghost pl: SplayNode?,
                   ghost rx: Spine, ghost pr: SplayNode?, ghost t: Shape, ghost whole: seq<SplayNode>)
      returns (stop: bool, newLeft: SplayNode, ghost lx': Spine, ghost pl': SplayNode?, ghost t': Shape)
      requires Splaying(aux, lx, pl, rx, pr, t) && left == HoleAt(lx, aux) && Divided(lx, rx, t, whole, target)
      requires Compare(target, root) > 0
      modifies this, mem.Keys
      ensures Splaying(aux, lx', pl', rx, pr, t') && newLeft == HoleAt(lx', aux) && mem.Keys == old(mem.Keys)
      ensures Divided(lx', rx, t', whole, target)
      ensures if stop then Compare(target, t'.node) > 0 && t'.right == Leaf else Size(t') < Size(t)
    {
      stop, newLeft, lx', pl', t' := true, left, lx, pl, t;
      var tmp := root.right;
      assert t.node in Nodes(t);
      if tmp == null {
        return;
      }
      var turned;
      turned, t' := TurnLeft(target, tmp, aux, lx, pl, rx, pr, t, whole);
      if turned && root.right == null {
        return;
      }
      DividedShiftLeft(lx, rx, t', whole, target);
      newLeft := LinkRight(left, aux, lx, pl, rx, pr, t');
      stop, lx', pl', t' := false, InRight(lx, t'.node, t'.tag, t'.left), Root(t'.right), t'.right;
    }

    /** Rotates left when the target is after the root's right child too. */
    method TurnLeft(target: Target, tmp: SplayNode, ghost aux: SplayNode, ghost lx: Spine, ghost pl: SplayNode?,
                    ghost rx: Spine, ghost pr: SplayNode?, ghost t: Shape, ghost whole: seq<SplayNode>)
      returns (turned: bool, ghost t': Shape)
      requires Splaying(aux, lx, pl, rx, pr, t) && Divided(lx, rx, t, whole, target)
      requires Compare(target, root) > 0 && t.right.Fork? && tmp == t.right.node
      modifies this, mem.Keys
      ensures Splaying(aux, lx, pl, rx, pr, t') && Divided(lx, rx, t', whole, target) && mem.Keys == old(mem.Keys)
      ensures turned == (Compare(target, tmp) > 0) && t' == (if turned then RotatedLeft(t) else t)
      ensures Size(t') == Size(t) && root in mem
    {
      turned, t' := Compare(target, tmp) > 0, t;
      if turned {
        RotatedInorder(t);
        RotateLeft(tmp, aux, lx, pl, rx, pr, t);
        t' := RotatedLeft(t);
      }
      assert t'.node in Nodes(t');
    }

    /** Moves the node nearest to the target to the root. Everything left of the root is then before the
        target and everything right of it after the target. */
    method Splay(target: Target)
      requires Valid() && root != null
      modifies this, mem.Keys
      ensures Valid() && root != null && Elements() == old(Elements()) && mem.Keys == old(mem.Keys)
      ensures AllBelow(Inorder(shape.left), target) && AllAbove(Inorder(shape.right), target)
    {
      var node := new SplayNode(0);
      ghost var whole, keys := Inorder(shape), mem.Keys;
      ghost var t, lx, rx := shape, Top, Top;
      ghost var pl: SplayNode?, pr: SplayNode? := null, null;
      mem := mem[node := Cell(null, null)];
      var left, right := node, node;
      HeldFrame(old(mem), mem, t);
      assert [] + Inorder(t) + [] == Inorder(t);
      var comp := Compare(target, root);
      while comp != 0
        invariant Splaying(node, lx, pl, rx, pr, t) && left == HoleAt(lx, node) && right == HoleAt(rx, node)
        invariant mem.Keys == keys + {node} && comp == Compare(target, root)
        invariant Divided(lx, rx, t, whole, target)
        decreases Size(t)
      {
        var stop;
        if comp < 0 {
          stop, right, rx, pr, t := GoLeft(target, right, node, lx, pl, rx, pr, t, whole);
        } else {
          stop, left, lx, pl, t := GoRight(target, left, node, lx, pl, rx, pr, t, whole);
        }
        if stop {
          break;
        }
        comp := Compare(target, root);
      }
      DividedAssembled(lx, rx, t, whole, target);
      Assemble(node, left, right, lx, pl, rx, pr, t);
    }

    /** The node with the key of `elm`, which a search moves to the root. */
    method Find(elm: SplayNode) returns (r: SplayNode?)
      requires Valid()
      modifies this, mem.Keys
      ensures Valid() && Elements() == old(Elements())
      ensures r == null <==> forall n :: n in Elements() ==> n.key != elm.key
      ensures r != null ==> r in Elements() && r.key == elm.key && r == root
    {
      if root == null {
        return null;
      }
      Splay(At(elm.key));
      FoundAtRoot(shape, elm.key);
      r := if Compare(At(elm.key), root) == 0 then root else null;
    }

    /** The first or the last node, moved to the root. */
    method MinMax(target: Target) returns (r: SplayNode)
      requires Valid() && root != null && !target.At?
      modifies this, mem.Keys
      ensures Valid() && Elements() == old(Elements()) && |Elements()| > 0
      ensures r == if target == Lowest then Elements()[0] else Elements()[|Elements()| - 1]
    {
      Splay(target);
      r := root;
      NoneBeyond(Inorder(shape.left), target);
      NoneBeyond(Inorder(shape.right), target);
    }

    /** The node after `elm` in the order. */
    method Next(elm: SplayNode, ghost at: nat) returns (r: SplayNode?)
      requires Valid() && at < |Elements()| && Elements()[at] == elm
      modifies this, mem.Keys
      ensures Valid() && Elements() == old(Elements())
      ensures r == if at + 1 < |Elements()| then Elements()[at + 1] else null
    {
      InorderHas(shape, elm);
      Splay(At(elm.key));
      FoundAtRoot(shape, elm.key);
      assert elm in Elements();
      ghost var k := |Inorder(shape.left)|;
      assert at == k;
      r := elm.right;
      if r != null {
        ghost var t := shape.right;
        assert elm in Nodes(shape) && t.node in Nodes(t);
        while r.left != null
          invariant t.Fork? && r == t.node && Held(mem, t) && Inorder(t)[0] == Inorder(shape.right)[0]
          decreases t
        {
          r, t := r.left, t.left;
        }
      }
    }

    /** Adds `elm`, unless a node has its key already; that node is then returned. */
    method Insert(elm: SplayNode) returns (r: SplayNode?, ghost at: nat)
      requires Valid() && elm !in mem
      modifies this, mem.Keys, elm
      ensures Valid() && at <= |old(Elements())|
      ensures r != null ==> Elements() == old(Elements()) && r in Elements() && r.key == elm.key
      ensures r == null ==> forall n :: n in old(Elements()) ==> n.key != elm.key
      ensures r == null ==> Elements() == old(Elements())[..at] + [elm] + old(Elements())[at..]
    {
      at := 0;
      if root == null {
        elm.left, elm.right := null, null;
        root, shape, mem := elm, Fork(Leaf, elm, (), Leaf), map[elm := Cell(null, null)];
        return null, at;
      }
      Splay(At(elm.key));
      FoundAtRoot(shape, elm.key);
      var comp := Compare(At(elm.key), root);
      if comp < 0 {
        at := InsertBelow(elm);
      } else if comp > 0 {
        at := InsertAbove(elm);
      } else {
        return root, at;
      }
      r := null;
    }

    /** Makes `elm` the root, the old root and what follows it on the right. */
    method InsertBelow(elm: SplayNode) returns (ghost at: nat)
      requires Valid() && root != null && elm !in mem && elm.key < root.key
      requires AllBelow(Inorder(shape.left), At(elm.key)) && AllAbove(Inorder(shape.right), At(elm.key))
      modifies this, mem.Keys, elm
      ensures Valid() && at <= |old(Elements())|
      ensures Elements() == old(Elements())[..at] + [elm] + old(Elements())[at..]
    {
      ghost var t, m: Mem := shape, mem;
      at := |Inorder(t.left)|;
      assert elm !in Nodes(t) && t.node in Nodes(t);
      HangLess(m, t, elm);
      elm.left, elm.right := root.left, root;
      root.left := null;
      root := elm;
      mem := m[t.node := Cell(null, m[t.node].right)][elm := Cell(Root(t.left), t.node)];
      shape := Fork(t.left, elm, (), Fork(Leaf, t.node, t.tag, t.right));
    }

    /** Makes `elm` the root, the old root and what precedes it on the left. */
    method InsertAbove(elm: SplayNode) returns (ghost at: nat)
      requires Valid() && root != null && elm !in mem && root.key < elm.key
      requires AllBelow(Inorder(shape.left), At(elm.key)) && AllAbove(Inorder(shape.right), At(elm.key))
      modifies this, mem.Keys, elm
      ensures Valid() && at <= |old(Elements())|
      ensures Elements() == old(Elements())[..at] + [elm] + old(Elements())[at..]
    {
      ghost var t, m: Mem := shape, mem;
      at := |Inorder(t.left)| + 1;
      assert elm !in Nodes(t) && t.node in Nodes(t);
      HangMore(m, t, elm);
      elm.right, elm.left := root.right, root;
      root.right := null;
      root := elm;
      mem := m[t.node := Cell(m[t.node].left, null)][elm := Cell(t.node, Root(t.right))];
      shape := Fork(Fork(t.left, t.node, t.tag, Leaf), elm, (), t.right);
    }

    /** Removes the node with the key of `elm`. */
    method Remove(elm: SplayNode) returns (r: SplayNode?, ghost at: nat)
      requires Valid()
      modifies this, mem.Keys
      ensures Valid()
      ensures r == if exists n :: n in old(Elements()) && n.key == elm.key then elm else null
      ensures r == null ==> Elements() == old(Elements())
      ensures r != null ==> at < |old(Elements())| && old(Elements())[at].key == elm.key
      ensures r != null ==> Elements() == old(Elements())[..at] + old(Elements())[at + 1..]
    {
      at := 0;
      if root == null {
        return null, at;
      }
      Splay(At(elm.key));
      ghost var t, all, order := shape, mem, Elements();
      FoundAtRoot(t, elm.key);
      assert t.node in Nodes(t) && Nodes(t.left) <= Nodes(t) && Nodes(t.right) <= Nodes(t);
      if Compare(At(elm.key), root) != 0 {
        return null, at;
      }
      at := |Inorder(t.left)|;
      assert order[..at] == Inorder(t.left) && order[at + 1..] == Inorder(t.right);
      RemoveRoot(At(elm.key));
      r := elm;
    }

    /** Takes the root out: its right subtree goes below the largest of the smaller nodes, which is splayed
        to their root. */
    method RemoveRoot(target: Target)
      requires Valid() && root != null
      requires AllBelow(Inorder(shape.left), target)
      modifies this, mem.Keys
      ensures Valid() && Elements() == Inorder(old(shape).left) + Inorder(old(shape).right)
    {
      ghost var t, all: Mem := shape, mem;
      assert t.node in Nodes(t) && Nodes(t.left) <= Nodes(t) && Nodes(t.right) <= Nodes(t);
      AscendingAround(Inorder(t.left), t.node, Inorder(t.right));
      AscendingWithout(Inorder(t.left), t.node, Inorder(t.right));
      if root.left == null {
        root := root.right;
        Narrow(t.right);
        assert [] + Inorder(t.right) == Inorder(t.right);
      } else {
        var tmp := root.right;
        root := root.left;
        Narrow(t.left);
        Splay(target);
        NoneRight(shape, target);
        assert forall n :: n in Nodes(t.right) ==> all[n] == Cell(n.left, n.right);
        Graft(tmp, all, t.right);
      }
    }

    /** Hangs the tree `rest` on the right of the root. */
    method Graft(tmp: SplayNode?, ghost all: Mem, ghost rest: Shape)
      requires Valid() && root != null && shape.right == Leaf && tmp == Root(rest)
      requires Held(all, rest) && Distinct(rest) && Nodes(rest) !! Nodes(shape) && Nodes(rest) <= all.Keys
      requires forall n :: n in Nodes(rest) ==> all[n] == Cell(n.left, n.right)
      requires Ascending(Elements() + Inorder(rest))
      modifies this, root
      ensures Valid() && Elements() == old(Elements()) + Inorder(rest)
    {
      ghost var t, m: Mem := shape, mem;
      HangRest(m, all, t, rest);
      ghost var m' := m[t.node := Cell(m[t.node].left, tmp)] + map n | n in Nodes(rest) :: all[n];
      assert forall n :: n in m' ==> m'[n] == if n in Nodes(rest) then all[n] else if n == t.node then Cell(m[n].left, tmp) else m[n];
      assert Inorder(t.right) == [] && Inorder(t.left) + [t.node] + [] == Inorder(t.left) + [t.node];
      root.right := tmp;
      mem := m';
      shape := Fork(t.left, t.node, t.tag, rest);
    }

    /** Forgets all but the subtree the root pointer has moved to. */
    ghost method Narrow(t: Shape)
      requires Mirrors() && Held(mem, t) && Nodes(t) <= mem.Keys && Distinct(t) && root == Root(t)
      requires Ascending(Inorder(t))
      modifies this`shape, this`mem
      ensures Valid() && shape == t
    {
      ghost var m: Mem := map n | n in Nodes(t) :: mem[n];
      HeldFrame(mem, m, t);
      shape, mem := t, m;
    }
  }

  lemma JoinBelow(l: seq<SplayNode>, e: SplayNode, n: SplayNode, r: seq<SplayNode>)
    requires Ascending(l + [n] + r) && AllBelow(l, At(e.key)) && AllAbove(r, At(e.key)) && e.key < n.key
    ensures var order, s, k := l + [n] + r, l + [e] + ([] + [n] + r), |l|;
            s == order[..k] + [e] + order[k..] && Ascending(s)
  {
    var order := l + [n] + r;
    assert order == l + ([n] + r) && [] + [n] + r == [n] + r;
    AscendingWith(l, e, [n] + r);
  }

  lemma JoinAbove(l: seq<SplayNode>, e: SplayNode, n: SplayNode, r: seq<SplayNode>)
    requires Ascending(l + [n] + r) && AllBelow(l, At(e.key)) && AllAbove(r, At(e.key)) && n.key < e.key
    ensures var order, s, k := l + [n] + r, (l + [n] + []) + [e] + r, |l| + 1;
            s == order[..k] + [e] + order[k..] && Ascending(s)
  {
    assert l + [n] + [] == l + [n];
    AscendingWith(l + [n], e, r);
  }

  lemma BelowInorder(t: Shape, e: SplayNode)
    requires t.Fork? && Ascending(Inorder(t)) && e.key < t.node.key
    requires AllBelow(Inorder(t.left), At(e.key)) && AllAbove(Inorder(t.right), At(e.key))
    ensures var s, k := Inorder(Fork(t.left, e, (), Fork(Leaf, t.node, t.tag, t.right))), |Inorder(t.left)|;
            s == Inorder(t)[..k] + [e] + Inorder(t)[k..] && Ascending(s)
  {
    var l: Shape := Leaf;
    assert Inorder(l) == [];
    assert Inorder(Fork(l, t.node, t.tag, t.right)) == Inorder(l) + [t.node] + Inorder(t.right);
    JoinBelow(Inorder(t.left), e, t.node, Inorder(t.right));
  }

  lemma AboveInorder(t: Shape, e: SplayNode)
    requires t.Fork? && Ascending(Inorder(t)) && t.node.key < e.key
    requires AllBelow(Inorder(t.left), At(e.key)) && AllAbove(Inorder(t.right), At(e.key))
    ensures var s, k := Inorder(Fork(Fork(t.left, t.node, t.tag, Leaf), e, (), t.right)), |Inorder(t.left)| + 1;
            s == Inorder(t)[..k] + [e] + Inorder(t)[k..] && Ascending(s)
  {
    var l: Shape := Leaf;
    assert Inorder(l) == [];
    assert Inorder(Fork(t.left, t.node, t.tag, l)) == Inorder(t.left) + [t.node] + Inorder(l);
    JoinAbove(Inorder(t.left), e, t.node, Inorder(t.right));
  }

  lemma HangLess(m: Mem, t: Shape, e: SplayNode)
    requires t.Fork? && Ascending(Inorder(t)) && e.key < t.node.key
    requires AllBelow(Inorder(t.left), At(e.key)) && AllAbove(Inorder(t.right), At(e.key))
    requires Held(m, t) && Distinct(t) && e !in Nodes(t) && m.Keys == Nodes(t)
    ensures t.node in m
    ensures var u := Fork(t.left, e, (), Fork(Leaf, t.node, t.tag, t.right));
            var m' := m[t.node := Cell(null, m[t.node].right)][e := Cell(Root(t.left), t.node)];
            Held(m', u) && Distinct(u) && Nodes(u) == m'.Keys && Ascending(Inorder(u))
    ensures var u := Fork(t.left, e, (), Fork(Leaf, t.node, t.tag, t.right));
            var k := |Inorder(t.left)|;
            Inorder(u) == Inorder(t)[..k] + [e] + Inorder(t)[k..]
  {
    BelowInorder(t, e);
    var m' := m[t.node := Cell(null, m[t.node].right)][e := Cell(Root(t.left), t.node)];
    var lower := Fork(Leaf, t.node, t.tag, t.right);
    assert t.node in Nodes(t) && Nodes(t.left) <= Nodes(t) && Nodes(t.right) <= Nodes(t);
    HeldFrame(m, m', t.left);
    HeldFrame(m, m', t.right);
    assert Nodes(lower) == {t.node} + Nodes(t.right) && Held(m', lower) && Distinct(lower);
  }

  lemma HangMore(m: Mem, t: Shape, e: SplayNode)
    requires t.Fork? && Ascending(Inorder(t)) && t.node.key < e.key
    requires AllBelow(Inorder(t.left), At(e.key)) && AllAbove(Inorder(t.right), At(e.key))
    requires Held(m, t) && Distinct(t) && e !in Nodes(t) && m.Keys == Nodes(t)
    ensures t.node in m
    ensures var u := Fork(Fork(t.left, t.node, t.tag, Leaf), e, (), t.right);
            var m' := m[t.node := Cell(m[t.node].left, null)][e := Cell(t.node, Root(t.right))];
            Held(m', u) && Distinct(u) && Nodes(u) == m'.Keys && Ascending(Inorder(u))
    ensures var u := Fork(Fork(t.left, t.node, t.tag, Leaf), e, (), t.right);
            var k := |Inorder(t.left)| + 1;
            Inorder(u) == Inorder(t)[..k] + [e] + Inorder(t)[k..]
  {
    AboveInorder(t, e);
    var m' := m[t.node := Cell(m[t.node].left, null)][e := Cell(t.node, Root(t.right))];
    var lower := Fork(t.left, t.node, t.tag, Leaf);
    assert t.node in Nodes(t) && Nodes(t.left) <= Nodes(t) && Nodes(t.right) <= Nodes(t);
    HeldFrame(m, m', t.left);
    HeldFrame(m, m', t.right);
    assert Nodes(lower) == {t.node} + Nodes(t.left) && Held(m', lower) && Distinct(lower);
  }

  /** The right subtree of a removed root goes to the right of the largest smaller node. */
  lemma HangRest(m: Mem, all: Mem, t: Shape, rest: Shape)
    requires t.Fork? && Held(m, t) && Distinct(t) && m.Keys == Nodes(t) && Nodes(t.right) == {}
    requires Held(all, rest) && Distinct(rest) && Nodes(rest) !! Nodes(t) && Nodes(rest) <= all.Keys
    ensures t.node in m
    ensures var u := Fork(t.left, t.node, t.tag, rest);
            var m' := m[t.node := Cell(m[t.node].left, Root(rest))] + map n | n in Nodes(rest) :: all[n];
            Held(m', u) && Distinct(u) && Nodes(u) == m'.Keys
  {
    var m' := m[t.node := Cell(m[t.node].left, Root(rest))] + map n | n in Nodes(rest) :: all[n];
    assert t.node in Nodes(t) && Nodes(t.left) <= Nodes(t);
    HeldFrame(m, m', t.left);
    HeldFrame(all, m', rest);
  }
}
