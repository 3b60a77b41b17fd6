/** The red-black tree, in place over linked nodes. */
module RedBlack {
  import opened Trees
  import opened Links
  import opened Powers
  import opened RedBlackShape

  type RbNode = Node<int, Color>
  type RbShape = Shape<int, Color>
  type RbZip = Zip<int, Color>

  // ---------- Insertion fix-up ----------

  /** The fix-up's invariant: the tree is red-black but for a red parent above the red node `elm`. */
  ghost predicate RedAt(x: RbZip, t: RbShape, elm: RbNode) {
    && t.Fork? && t.node == elm && t.tag == Red
    && Balanced(t) && BalancedAround(x, BlackHeight(t))
  }

  ghost predicate Sprouts(t: RbShape) {
    t.Fork? && t.left.Fork? && t.right.Fork?
  }

  /** Red parent and red uncle: both turn black, the grandparent turns red. */
  method PushBlackness(head: Head<int, Color>, parent: RbNode, uncle: RbNode, gparent: RbNode, ghost x: RbZip, ghost t: RbShape)
    returns (ghost t': RbShape)
    requires head.Represents(x, t) && Sprouts(t) && t.node == gparent
    requires (t.left.node == parent && t.right.node == uncle) || (t.left.node == uncle && t.right.node == parent)
    modifies head, head.mem.Keys
    ensures head.mem.Keys == old(head.mem.Keys)
    ensures head.Represents(x, t') && Inorder(t') == Inorder(t)
    ensures t' == Fork(Fork(t.left.left, t.left.node, Black, t.left.right), gparent, Red,
                       Fork(t.right.left, t.right.node, Black, t.right.right))
  {
    assert t.left.node in Nodes(t.left) && t.right.node in Nodes(t.right);
    head.SetTag(uncle, Black, x, t);
    ghost var t1 := Retag(t, uncle, Black);
    head.SetTag(parent, Black, x, t1);
    ghost var t2 := Retag(t1, parent, Black);
    head.SetTag(gparent, Red, x, t2);
    t' := Retag(t2, gparent, Red);
  }

  /** What one or two rotations make of a grandparent's tree whose red left child has a red child. */
  ghost function TurnedRight(t: RbShape, inner: bool): RbShape
    requires t.Fork? && t.left.Fork? && (inner ==> t.left.right.Fork?)
  {
    var p, u := t.left, t.right;
    if inner then
      Fork(Fork(p.left, p.node, p.tag, p.right.left), p.right.node, Black, Fork(p.right.right, t.node, Red, u))
    else
      Fork(p.left, p.node, Black, Fork(p.right, t.node, Red, u))
  }

  ghost function TurnedLeft(t: RbShape, inner: bool): RbShape
    requires t.Fork? && t.right.Fork? && (inner ==> t.right.left.Fork?)
  {
    var p, u := t.right, t.left;
    if inner then
      Fork(Fork(u, t.node, Red, p.left.left), p.left.node, Black, Fork(p.left.right, p.node, p.tag, p.right))
    else
      Fork(Fork(u, t.node, Red, p.left), p.node, Black, p.right)
  }

  method LiftLeftChild(head: Head<int, Color>, top: RbNode, gparent: RbNode, ghost x: RbZip, ghost t: RbShape)
    requires head.Represents(x, t) && t.Fork? && t.node == gparent && t.left.Fork? && t.left.node == top
    modifies head, head.mem.Keys
    ensures head.mem.Keys == old(head.mem.Keys)
    ensures head.Represents(x, TurnedRight(t, false)) && Inorder(TurnedRight(t, false)) == Inorder(t)
  {
    ghost var p, u := t.left, t.right;
    assert top in Nodes(p) && top in Nodes(t);
    head.SetTag(top, Black, x, t);
    ghost var t2 := Fork(Fork(p.left, top, Black, p.right), gparent, t.tag, u);
    assert gparent in Nodes(t2);
    head.SetTag(gparent, Red, x, t2);
    head.RotateRight(gparent, x, p.left, top, Black, p.right, Red, u);
  }

  method LiftRightChild(head: Head<int, Color>, top: RbNode, gparent: RbNode, ghost x: RbZip, ghost t: RbShape)
    requires head.Represents(x, t) && t.Fork? && t.node == gparent && t.right.Fork? && t.right.node == top
    modifies head, head.mem.Keys
    ensures head.mem.Keys == old(head.mem.Keys)
    ensures head.Represents(x, TurnedLeft(t, false)) && Inorder(TurnedLeft(t, false)) == Inorder(t)
  {
    ghost var p, u := t.right, t.left;
    assert top in Nodes(p) && top in Nodes(t);
    head.SetTag(top, Black, x, t);
    ghost var t2 := Fork(u, gparent, t.tag, Fork(p.left, top, Black, p.right));
    assert gparent in Nodes(t2);
    head.SetTag(gparent, Red, x, t2);
    head.RotateLeft(gparent, x, u, Red, p.left, top, Black, p.right);
  }

  /** Red left child of `gparent` with the red child `elm`: rotate it up. */
  method TurnRight(head: Head<int, Color>, elm: RbNode, parent: RbNode, gparent: RbNode,
                   ghost x: RbZip, ghost t: RbShape, ghost inner: bool)
    returns (next: RbNode)
    requires head.Represents(x, t) && t.Fork? && t.node == gparent && t.left.Fork? && t.left.node == parent
    requires if inner then Root(t.left.right) == elm else Root(t.left.left) == elm
    requires inner ==> t.left.right.tag == Red
    modifies head, head.mem.Keys
    ensures head.mem.Keys == old(head.mem.Keys)
    ensures head.Represents(x, TurnedRight(t, inner)) && Inorder(TurnedRight(t, inner)) == Inorder(t)
    ensures next == if inner then parent else elm
  {
    ghost var p := t.left;
    ghost var x1 := InLeft(x, gparent, t.tag, t.right);
    ZipUp(head.mem, head.root, x1, p);
    HoldsAt(head.mem, head.root, x1, p);
    if parent.right == elm {
      assert inner;
      head.RotateLeft(parent, x1, p.left, p.tag, p.right.left, elm, Red, p.right.right);
      p := LeftHigh(p.left, parent, p.tag, p.right.left, elm, Red, p.right.right);
      ZipUp(head.mem, head.root, x1, p);
      LiftLeftChild(head, elm, gparent, x, Fork(p, gparent, t.tag, t.right));
      next := parent;
    } else {
      LiftLeftChild(head, parent, gparent, x, t);
      next := elm;
    }
  }

  /** The mirror image of `TurnRight`. */
  method TurnLeft(head: Head<int, Color>, elm: RbNode, parent: RbNode, gparent: RbNode,
                  ghost x: RbZip, ghost t: RbShape, ghost inner: bool)
    returns (next: RbNode)
    requires head.Represents(x, t) && t.Fork? && t.node == gparent && t.right.Fork? && t.right.node == parent
    requires if inner then Root(t.right.left) == elm else Root(t.right.right) == elm
    requires inner ==> t.right.left.tag == Red
    modifies head, head.mem.Keys
    ensures head.mem.Keys == old(head.mem.Keys)
    ensures head.Represents(x, TurnedLeft(t, inner)) && Inorder(TurnedLeft(t, inner)) == Inorder(t)
    ensures next == if inner then parent else elm
  {
    ghost var p := t.right;
    ghost var x1 := InRight(x, gparent, t.tag, t.left);
    ZipUp(head.mem, head.root, x1, p);
    HoldsAt(head.mem, head.root, x1, p);
    if parent.left == elm {
      assert inner;
      head.RotateRight(parent, x1, p.left.left, elm, Red, p.left.right, p.tag, p.right);
      p := RightHigh(p.left.left, elm, Red, p.left.right, parent, p.tag, p.right);
      ZipUp(head.mem, head.root, x1, p);
      LiftRightChild(head, elm, gparent, x, Fork(t.left, gparent, t.tag, p));
      next := parent;
    } else {
      LiftRightChild(head, parent, gparent, x, t);
      next := elm;
    }
  }

  /** After the rotations the red node hangs below a black parent. */
  lemma TurnedRightRed(x: RbZip, t: RbShape, inner: bool)
    requires t.Fork? && t.left.Fork? && t.left.tag == Red && t.tag == Black && IsBlack(t.right)
    requires
      var x1 := InLeft(x, t.node, Black, t.right);
      if inner then t.left.right.Fork? && RedAt(InRight(x1, t.left.node, Red, t.left.left), t.left.right, t.left.right.node)
      else t.left.left.Fork? && RedAt(InLeft(x1, t.left.node, Red, t.left.right), t.left.left, t.left.left.node)
    ensures
      var s := TurnedRight(t, inner);
      RedAt(InLeft(x, s.node, Black, s.right), s.left, if inner then t.left.node else t.left.left.node)
  {
    var x1, q := InLeft(x, t.node, Black, t.right), if inner then t.left.right else t.left.left;
    var y := if inner then InRight(x1, t.left.node, Red, t.left.left) else InLeft(x1, t.left.node, Red, t.left.right);
    assert BalancedAround(y, BlackHeight(q)) && BalancedAround(x1, BlackHeight(q));
  }

  lemma TurnedLeftRed(x: RbZip, t: RbShape, inner: bool)
    requires t.Fork? && t.right.Fork? && t.right.tag == Red && t.tag == Black && IsBlack(t.left)
    requires
      var x1 := InRight(x, t.node, Black, t.left);
      if inner then t.right.left.Fork? && RedAt(InLeft(x1, t.right.node, Red, t.right.right), t.right.left, t.right.left.node)
      else t.right.right.Fork? && RedAt(InRight(x1, t.right.node, Red, t.right.left), t.right.right, t.right.right.node)
    ensures
      var s := TurnedLeft(t, inner);
      RedAt(InRight(x, s.node, Black, s.left), s.right, if inner then t.right.node else t.right.right.node)
  {
    var x1, q := InRight(x, t.node, Black, t.left), if inner then t.right.left else t.right.right;
    var y := if inner then InLeft(x1, t.right.node, Red, t.right.right) else InRight(x1, t.right.node, Red, t.right.left);
    assert BalancedAround(y, BlackHeight(q)) && BalancedAround(x1, BlackHeight(q));
  }

  /** Recolouring moves the red violation two levels up. */
  lemma PushedRed(x: RbZip, t: RbShape)
    requires x != Top && x.tag == Red && t.Fork? && RedAt(x, t, t.node)
    requires !IsBlack(x.up.other)
    ensures
      var s := Fill(x.up, Fill(x, t));
      var s' := Fork(Fork(s.left.left, s.left.node, Black, s.left.right), s.node, Red,
                     Fork(s.right.left, s.right.node, Black, s.right.right));
      RedAt(x.up.up, s', s.node)
  {
    assert BalancedAround(x.up, BlackHeight(t));
  }

  /** What memory says of the parent, grandparent and uncle of the focus. */
  lemma FamilyOf(head: Head<int, Color>, x: RbZip, t: RbShape)
    requires head.Represents(x, t) && t.Fork? && x != Top && x.up != Top
    ensures head.Represents(x.up.up, Fill(x.up, Fill(x, t)))
    ensures t.node.parent == x.node && x.node.parent == x.up.node
    ensures x.node == x.up.node.left <==> x.up.InLeft?
    ensures Root(x.up.other) == if x.up.InLeft? then x.up.node.right else x.up.node.left
    ensures x.up.other.Fork? ==> x.up.other.node.tag == x.up.other.tag
  {
    var t1 := Fill(x, t);
    HoldsAt(head.mem, head.root, x, t);
    ZipUp(head.mem, head.root, x, t);
    HoldsAt(head.mem, head.root, x.up, t1);
    ZipUp(head.mem, head.root, x.up, t1);
    HoldsAt(head.mem, head.root, x.up.up, Fill(x.up, t1));
  }

  /** One round of the insertion fix-up below a red parent. */
  method InsertStep(head: Head<int, Color>, elm: RbNode, ghost x: RbZip, ghost t: RbShape)
    returns (next: RbNode, ghost x': RbZip, ghost t': RbShape)
    requires head.Represents(x, t) && RedAt(x, t, elm) && x != Top && x.tag == Red
    modifies head, head.mem.Keys
    ensures head.mem.Keys == old(head.mem.Keys)
    ensures head.Represents(x', t') && RedAt(x', t', next)
    ensures Depth(x') < Depth(x) && Inorder(Plug(x', t')) == Inorder(Plug(x, t))
  {
    ghost var x2, t2, inner := x.up.up, Fill(x.up, Fill(x, t)), x.InLeft? != x.up.InLeft?;
    FamilyOf(head, x, t);
    var parent: RbNode := elm.parent;
    var gparent: RbNode := parent.parent;
    var onLeft := parent == gparent.left;
    var tmp := if onLeft then gparent.right else gparent.left;
    if tmp != null && tmp.tag == Red {
      PushedRed(x, t);
      t' := PushBlackness(head, parent, tmp, gparent, x2, t2);
      next, x' := gparent, x2;
      PlugInorder(x2, t2);
      PlugInorder(x2, t');
    } else if onLeft {
      TurnedRightRed(x2, t2, inner);
      next := TurnRight(head, elm, parent, gparent, x2, t2, inner);
      x', t' := TurnedZip(head, x2, t2, TurnedRight(t2, inner), true);
    } else {
      TurnedLeftRed(x2, t2, inner);
      next := TurnLeft(head, elm, parent, gparent, x2, t2, inner);
      x', t' := TurnedZip(head, x2, t2, TurnedLeft(t2, inner), false);
    }
  }

  /** Focuses on the left or the right child of a new tree of the same order. */
  lemma TurnedZip(head: Head<int, Color>, x: RbZip, t: RbShape, s: RbShape, left: bool) returns (x': RbZip, s': RbShape)
    requires s.Fork? && head.Represents(x, s) && Inorder(s) == Inorder(t)
    ensures x' == if left then InLeft(x, s.node, s.tag, s.right) else InRight(x, s.node, s.tag, s.left)
    ensures s' == if left then s.left else s.right
    ensures head.Represents(x', s') && Inorder(Plug(x', s')) == Inorder(Plug(x, t)) && Depth(x') == Depth(x) + 1
  {
    x' := if left then InLeft(x, s.node, s.tag, s.right) else InRight(x, s.node, s.tag, s.left);
    s' := if left then s.left else s.right;
    ZipUp(head.mem, head.root, x', s');
    PlugInorder(x, t);
    PlugInorder(x, s);
  }

  method InsertColor(head: Head<int, Color>, elm: RbNode, ghost x: RbZip, ghost t: RbShape) returns (ghost s: RbShape)
    requires head.Represents(x, t) && RedAt(x, t, elm)
    modifies head, head.mem.Keys
    ensures head.mem.Keys == old(head.mem.Keys)
    ensures head.Represents(Top, s) && Balanced(s) && IsBlack(s) && Inorder(s) == Inorder(Plug(x, t))
  {
    var e := elm;
    ghost var y, u := x, t;
    HoldsAt(head.mem, head.root, y, u);
    while e.parent != null && e.parent.tag == Red
      invariant head.mem.Keys == old(head.mem.Keys)
      invariant head.Represents(y, u) && RedAt(y, u, e)
      invariant e.parent == Hole(y) && (y != Top ==> y.node.tag == y.tag)
      invariant Inorder(Plug(y, u)) == Inorder(Plug(x, t))
      decreases Depth(y)
    {
      e, y, u := InsertStep(head, e, y, u);
      HoldsAt(head.mem, head.root, y, u);
    }
    s := BlackenRoot(head, y, u);
  }

  /** Once no red node has a red parent, blackening the root completes the repair. */
  method BlackenRoot(head: Head<int, Color>, ghost x: RbZip, ghost t: RbShape) returns (ghost s: RbShape)
    requires head.Represents(x, t) && t.Fork? && Balanced(t) && BalancedAround(x, BlackHeight(t))
    requires x == Top || x.tag == Black || t.tag == Black
    modifies head, head.mem.Keys
    ensures head.mem.Keys == old(head.mem.Keys)
    ensures head.Represents(Top, s) && Balanced(s) && IsBlack(s) && Inorder(s) == Inorder(Plug(x, t))
  {
    s := Plug(x, t);
    Unzip(head.mem, head.root, x, t);
    PlugBalanced(x, t);
    PlugNodes(x, t);
    assert s.Fork? && (x == Top || s.tag == Black);
    var root: RbNode := head.root;
    head.SetTag(root, Black, Top, s);
    s := Fork(s.left, root, Black, s.right);
  }

  // ---------- Removal fix-up ----------

  /** The fix-up's invariant: all is red-black, except that the tree at `elm` is one black node short
      and, if its root is red, that root may have red children and a red parent. */
  ghost predicate ShortAt(x: RbZip, t: RbShape, elm: Node?<int, Color>) {
    && Root(t) == elm
    && NearlyBalanced(t) && (IsBlack(t) ==> Balanced(t))
    && BalancedAround(x, BlackHeight(t) + 1)
  }

  /** A black node that is not the root, on a path that is one black node short. */
  ghost predicate ShortBelow(x: RbZip, t: RbShape) {
    && x != Top && IsBlack(t) && Balanced(t) && BalancedAround(x, BlackHeight(t) + 1)
  }

  /** Red sibling, hole on the left: rotate the sibling up, so that the new sibling is black. */
  method SinkLeft(head: Head<int, Color>, parent: RbNode, tmp: RbNode, ghost x: RbZip, ghost t: RbShape)
    requires head.Represents(x, t) && t.Fork? && t.node == parent && t.right.Fork? && t.right.node == tmp
    modifies head, head.mem.Keys
    ensures head.mem.Keys == old(head.mem.Keys)
    ensures
      var s := LeftHigh(t.left, parent, Red, t.right.left, tmp, Black, t.right.right);
      head.Represents(x, s) && Inorder(s) == Inorder(t)
  {
    assert tmp in Nodes(t.right) && tmp in Nodes(t);
    head.SetTag(tmp, Black, x, t);
    ghost var t2 := Fork(t.left, parent, t.tag, Fork(t.right.left, tmp, Black, t.right.right));
    assert parent in Nodes(t2);
    head.SetTag(parent, Red, x, t2);
    head.RotateLeft(parent, x, t.left, Red, t.right.left, tmp, Black, t.right.right);
  }

  method SinkRight(head: Head<int, Color>, parent: RbNode, tmp: RbNode, ghost x: RbZip, ghost t: RbShape)
    requires head.Represents(x, t) && t.Fork? && t.node == parent && t.left.Fork? && t.left.node == tmp
    modifies head, head.mem.Keys
    ensures head.mem.Keys == old(head.mem.Keys)
    ensures
      var s := RightHigh(t.left.left, tmp, Black, t.left.right, parent, Red, t.right);
      head.Represents(x, s) && Inorder(s) == Inorder(t)
  {
    assert tmp in Nodes(t.left) && tmp in Nodes(t);
    head.SetTag(tmp, Black, x, t);
    ghost var t2 := Fork(Fork(t.left.left, tmp, Black, t.left.right), parent, t.tag, t.right);
    assert parent in Nodes(t2);
    head.SetTag(parent, Red, x, t2);
    head.RotateRight(parent, x, t.left.left, tmp, Black, t.left.right, Red, t.right);
  }

  function Blackened(t: RbShape): RbShape {
    if t.Leaf? then t else Fork(t.left, t.node, Black, t.right)
  }

  /** The sibling's red inner child, hole on the left: rotate it above the sibling. */
  method RaiseInnerLeft(head: Head<int, Color>, tmp: RbNode, ghost x: RbZip, ghost w: RbShape)
    requires head.Represents(x, w) && w.Fork? && w.node == tmp && w.left.Fork?
    modifies head, head.mem.Keys
    ensures head.mem.Keys == old(head.mem.Keys)
    ensures
      var s := RightHigh(w.left.left, w.left.node, Black, w.left.right, tmp, Red, w.right);
      head.Represents(x, s) && Inorder(s) == Inorder(w)
  {
    HoldsAt(head.mem, head.root, x, w);
    var inner: RbNode := tmp.left;
    assert inner in Nodes(w.left) && inner in Nodes(w);
    head.SetTag(inner, Black, x, w);
    ghost var t2 := Fork(Fork(w.left.left, inner, Black, w.left.right), tmp, w.tag, w.right);
    assert tmp in Nodes(t2);
    head.SetTag(tmp, Red, x, t2);
    head.RotateRight(tmp, x, w.left.left, inner, Black, w.left.right, Red, w.right);
  }

  method RaiseInnerRight(head: Head<int, Color>, tmp: RbNode, ghost x: RbZip, ghost w: RbShape)
    requires head.Represents(x, w) && w.Fork? && w.node == tmp && w.right.Fork?
    modifies head, head.mem.Keys
    ensures head.mem.Keys == old(head.mem.Keys)
    ensures
      var s := LeftHigh(w.left, tmp, Red, w.right.left, w.right.node, Black, w.right.right);
      head.Represents(x, s) && Inorder(s) == Inorder(w)
  {
    HoldsAt(head.mem, head.root, x, w);
    var inner: RbNode := tmp.right;
    assert inner in Nodes(w.right) && inner in Nodes(w);
    head.SetTag(inner, Black, x, w);
    ghost var t2 := Fork(w.left, tmp, w.tag, Fork(w.right.left, inner, Black, w.right.right));
    assert tmp in Nodes(t2);
    head.SetTag(tmp, Red, x, t2);
    head.RotateLeft(tmp, x, w.left, Red, w.right.left, inner, Black, w.right.right);
  }

  /** The sibling takes the parent's colour and the parent turns black. */
  method PassColor(head: Head<int, Color>, parent: RbNode, tmp: RbNode, ghost x: RbZip, ghost t: RbShape, ghost right: bool)
    requires head.Represents(x, t) && t.Fork? && t.node == parent
    requires if right then t.right.Fork? && t.right.node == tmp else t.left.Fork? && t.left.node == tmp
    modifies head, head.mem.Keys
    ensures head.mem.Keys == old(head.mem.Keys)
    ensures
      var s := if right then Fork(t.left, parent, Black, Fork(t.right.left, tmp, t.tag, t.right.right))
               else Fork(Fork(t.left.left, tmp, t.tag, t.left.right), parent, Black, t.right);
      head.Represents(x, s) && Inorder(s) == Inorder(t)
  {
    HoldsAt(head.mem, head.root, x, t);
    assert if right then tmp in Nodes(t.right) else tmp in Nodes(t.left);
    head.SetTag(tmp, parent.tag, x, t);
    ghost var t2 := if right then Fork(t.left, parent, t.tag, Fork(t.right.left, tmp, t.tag, t.right.right))
                    else Fork(Fork(t.left.left, tmp, t.tag, t.left.right), parent, t.tag, t.right);
    assert parent in Nodes(t2);
    head.SetTag(parent, Black, x, t2);
  }

  /** The sibling's outer child, if there is one, turns black. */
  method BlackenOuter(head: Head<int, Color>, outer: Node?<int, Color>, ghost x: RbZip, ghost t: RbShape, ghost right: bool)
    returns (ghost s: RbShape)
    requires head.Represents(x, t) && t.Fork?
    requires if right then t.right.Fork? && outer == Root(t.right.right) else t.left.Fork? && outer == Root(t.left.left)
    modifies head, head.mem.Keys
    ensures head.mem.Keys == old(head.mem.Keys)
    ensures s == if right then Fork(t.left, t.node, t.tag, Fork(t.right.left, t.right.node, t.right.tag, Blackened(t.right.right)))
                 else Fork(Fork(Blackened(t.left.left), t.left.node, t.left.tag, t.left.right), t.node, t.tag, t.right)
    ensures head.Represents(x, s) && Inorder(s) == Inorder(t)
  {
    ghost var w := if right then t.right else t.left;
    ghost var c := if right then w.right else w.left;
    s := t;
    if outer != null {
      assert outer in Nodes(c) && outer in Nodes(w) && outer in Nodes(t);
      head.SetTag(outer, Black, x, t);
      s := Retag(t, outer, Black);
      assert Distinct(t) && Distinct(w) && outer != w.node && outer != t.node;
      assert right ==> outer !in Nodes(w.left) && outer !in Nodes(t.left);
      assert Retag(c, outer, Black) == Blackened(c);
      assert if right then Retag(w, outer, Black).right == Blackened(c) else Retag(w, outer, Black).left == Blackened(c);
    }
  }

  /** The last rotation, hole on the left: the sibling takes the parent's place and colour. */
  method RaiseSiblingLeft(head: Head<int, Color>, parent: RbNode, tmp: RbNode, ghost x: RbZip, ghost t: RbShape)
    requires head.Represents(x, t) && t.Fork? && t.node == parent && t.right.Fork? && t.right.node == tmp
    modifies head, head.mem.Keys
    ensures head.mem.Keys == old(head.mem.Keys)
    ensures
      var s := LeftHigh(t.left, parent, Black, t.right.left, tmp, t.tag, Blackened(t.right.right));
      head.Represents(x, s) && Inorder(s) == Inorder(t)
  {
    ghost var a, b, c := t.left, t.right.left, t.right.right;
    PassColor(head, parent, tmp, x, t, true);
    HoldsRight(head, x, Fork(a, parent, Black, Fork(b, tmp, t.tag, c)));
    ghost var s := BlackenOuter(head, tmp.right, x, Fork(a, parent, Black, Fork(b, tmp, t.tag, c)), true);
    head.RotateLeft(parent, x, a, Black, b, tmp, t.tag, Blackened(c));
  }

  method RaiseSiblingRight(head: Head<int, Color>, parent: RbNode, tmp: RbNode, ghost x: RbZip, ghost t: RbShape)
    requires head.Represents(x, t) && t.Fork? && t.node == parent && t.left.Fork? && t.left.node == tmp
    modifies head, head.mem.Keys
    ensures head.mem.Keys == old(head.mem.Keys)
    ensures
      var s := RightHigh(Blackened(t.left.left), tmp, t.tag, t.left.right, parent, Black, t.right);
      head.Represents(x, s) && Inorder(s) == Inorder(t)
  {
    ghost var a, b, c := t.left.left, t.left.right, t.right;
    PassColor(head, parent, tmp, x, t, false);
    HoldsRight(head, x, Fork(Fork(a, tmp, t.tag, b), parent, Black, c));
    ghost var s := BlackenOuter(head, tmp.left, x, Fork(Fork(a, tmp, t.tag, b), parent, Black, c), false);
    head.RotateRight(parent, x, Blackened(a), tmp, t.tag, b, Black, c);
  }

  lemma HoldsRight(head: Head<int, Color>, x: RbZip, t: RbShape)
    requires head.Represents(x, t)
    ensures t.Fork? && t.right.Fork? ==> t.right.node.right == Root(t.right.right) && t.right.node.left == Root(t.right.left)
    ensures t.Fork? && t.left.Fork? ==> t.left.node.left == Root(t.left.left) && t.left.node.right == Root(t.left.right)
  {
    HoldsAt(head.mem, head.root, x, t);
  }

  predicate BlackOrNone(n: Node?<int, Color>)
    reads n
  {
    n == null || n.tag == Black
  }

  // The tree at the parent of the hole, once the last rotations are done.

  ghost function SettledLeft(t: RbShape): RbShape
    requires t.Fork? && t.right.Fork? && (IsBlack(t.right.right) ==> t.right.left.Fork?)
  {
    var w := t.right;
    if IsBlack(w.right) then
      LeftHigh(t.left, t.node, Black, w.left.left, w.left.node, t.tag, Blackened(Fork(w.left.right, w.node, Red, w.right)))
    else
      LeftHigh(t.left, t.node, Black, w.left, w.node, t.tag, Blackened(w.right))
  }

  ghost function SettledRight(t: RbShape): RbShape
    requires t.Fork? && t.left.Fork? && (IsBlack(t.left.left) ==> t.left.right.Fork?)
  {
    var w := t.left;
    if IsBlack(w.left) then
      RightHigh(Blackened(Fork(w.left, w.node, Red, w.right.left)), w.right.node, t.tag, w.right.right, t.node, Black, t.right)
    else
      RightHigh(Blackened(w.left), w.node, t.tag, w.right, t.node, Black, t.right)
  }

  method SettleLeft(head: Head<int, Color>, parent: RbNode, ghost x: RbZip, ghost t: RbShape)
    requires head.Represents(x, t) && t.Fork? && t.node == parent && t.right.Fork?
    requires IsBlack(t.right.right) ==> t.right.left.Fork?
    modifies head, head.mem.Keys
    ensures head.mem.Keys == old(head.mem.Keys)
    ensures head.Represents(x, SettledLeft(t)) && Inorder(SettledLeft(t)) == Inorder(t)
  {
    ghost var w, x1, t1 := t.right, InRight(x, parent, t.tag, t.left), t;
    ChildrenAt(head, x, t);
    ChildrenAt(head, x1, w);
    ZipUp(head.mem, head.root, x1, w);
    if BlackOrNone(parent.right.right) {
      RaiseInnerLeft(head, parent.right, x1, w);
      w := RightHigh(w.left.left, w.left.node, Black, w.left.right, w.node, Red, w.right);
      ZipUp(head.mem, head.root, x1, w);
      t1 := Fork(t.left, parent, t.tag, w);
      ChildrenAt(head, x, t1);
    }
    RaiseSiblingLeft(head, parent, parent.right, x, t1);
  }

  method SettleRight(head: Head<int, Color>, parent: RbNode, ghost x: RbZip, ghost t: RbShape)
    requires head.Represents(x, t) && t.Fork? && t.node == parent && t.left.Fork?
    requires IsBlack(t.left.left) ==> t.left.right.Fork?
    modifies head, head.mem.Keys
    ensures head.mem.Keys == old(head.mem.Keys)
    ensures head.Represents(x, SettledRight(t)) && Inorder(SettledRight(t)) == Inorder(t)
  {
    ghost var w, x1, t1 := t.left, InLeft(x, parent, t.tag, t.right), t;
    ChildrenAt(head, x, t);
    ChildrenAt(head, x1, w);
    ZipUp(head.mem, head.root, x1, w);
    if BlackOrNone(parent.left.left) {
      RaiseInnerRight(head, parent.left, x1, w);
      w := LeftHigh(w.left, w.node, Red, w.right.left, w.right.node, Black, w.right.right);
      ZipUp(head.mem, head.root, x1, w);
      t1 := Fork(w, parent, t.tag, t.right);
      ChildrenAt(head, x, t1);
    }
    RaiseSiblingRight(head, parent, parent.left, x, t1);
  }

  /** What memory says of the focus and its children. */
  lemma ChildrenAt(head: Head<int, Color>, x: RbZip, t: RbShape)
    requires t.Fork? && (head.Represents(x, t) || (x != Top && head.Represents(x.up, Fill(x, t))))
    ensures t.node.left == Root(t.left) && t.node.right == Root(t.right) && t.node.tag == t.tag
    ensures t.node.parent == Hole(x)
    ensures t.left.Fork? ==> t.left.node.tag == t.left.tag
    ensures t.right.Fork? ==> t.right.node.tag == t.right.tag
  {
    if x != Top {
      ZipUp(head.mem, head.root, x, t);
    }
    HoldsAt(head.mem, head.root, x, t);
  }

  /** Once settled, the whole tree is red-black. */
  lemma SettledLeftBalanced(x: RbZip, t: RbShape)
    requires t.Fork? && t.right.Fork? && t.right.tag == Black && (IsBlack(t.right.right) ==> !IsBlack(t.right.left))
    requires ShortBelow(InLeft(x, t.node, t.tag, t.right), t.left)
    ensures Balanced(Plug(x, SettledLeft(t))) && IsBlack(Plug(x, SettledLeft(t)))
  {
    var s, w, h := SettledLeft(t), t.right, BlackHeight(t.left);
    assert BalancedAround(InLeft(x, t.node, t.tag, w), h + 1);
    assert Balanced(w.left) && Balanced(w.right) && BlackHeight(w.left) == BlackHeight(w.right) == h;
    assert Balanced(s.left) && Balanced(s.right) && BlackHeight(s.left) == BlackHeight(s.right) == h + 1;
    PlugBalanced(x, s);
  }

  lemma SettledRightBalanced(x: RbZip, t: RbShape)
    requires t.Fork? && t.left.Fork? && t.left.tag == Black && (IsBlack(t.left.left) ==> !IsBlack(t.left.right))
    requires ShortBelow(InRight(x, t.node, t.tag, t.left), t.right)
    ensures Balanced(Plug(x, SettledRight(t))) && IsBlack(Plug(x, SettledRight(t)))
  {
    var s, w, h := SettledRight(t), t.left, BlackHeight(t.right);
    assert BalancedAround(InRight(x, t.node, t.tag, w), h + 1);
    assert Balanced(w.left) && Balanced(w.right) && BlackHeight(w.left) == BlackHeight(w.right) == h;
    assert Balanced(s.left) && Balanced(s.right) && BlackHeight(s.left) == BlackHeight(s.right) == h + 1;
    PlugBalanced(x, s);
  }

  /** Taking one black node off a path moves the shortage to the parent, if both nephews are black. */
  lemma ReddenedShort(y: RbZip, t: RbShape)
    requires ShortBelow(y, t) && y.other.Fork? && y.other.tag == Black && IsBlack(y.other.left) && IsBlack(y.other.right)
    ensures
      var w := Fork(y.other.left, y.other.node, Red, y.other.right);
      var s := if y.InLeft? then Fork(t, y.node, y.tag, w) else Fork(w, y.node, y.tag, t);
      ShortAt(y.up, s, y.node)
  {
  }

  /** Rotating a red sibling up leaves the same shortage, below a red parent with a black sibling. */
  lemma SunkShort(y: RbZip, t: RbShape)
    requires ShortBelow(y, t) && y.other.Fork? && y.other.tag == Red
    ensures
      var w := y.other;
      && w.left.Fork? && w.left.tag == Black && w.right.Fork? && w.right.tag == Black
      && (y.InLeft? ==> ShortBelow(InLeft(InLeft(y.up, w.node, Black, w.right), y.node, Red, w.left), t))
      && (y.InRight? ==> ShortBelow(InRight(InRight(y.up, w.node, Black, w.left), y.node, Red, w.right), t))
  {
    assert BalancedAround(y, BlackHeight(t) + 1);
    assert Balanced(y.other) && BlackHeight(y.other) == BlackHeight(t) + 1;
  }

  lemma SiblingThere(y: RbZip, t: RbShape)
    requires ShortBelow(y, t)
    ensures y.other.Fork?
    ensures y.other.tag == Black && IsBlack(y.other.left) ==> IsBlack(y.other.right) || y.other.right.Fork?
  {
  }

  /** One round of the removal fix-up, the sibling being black. Either the shortage moves to the
      parent, or the tree is repaired and the focus moves to the root. */
  method Resolve(head: Head<int, Color>, parent: RbNode, elm: Node?<int, Color>, ghost y: RbZip, ghost t: RbShape)
    returns (next: Node?<int, Color>, ghost x': RbZip, ghost t': RbShape)
    requires head.Represents(y, t) && ShortBelow(y, t) && y.node == parent && Root(t) == elm
    requires y.other.Fork? && y.other.tag == Black
    modifies head, head.mem.Keys
    ensures head.mem.Keys == old(head.mem.Keys)
    ensures head.Represents(x', t') && ShortAt(x', t', next) && Inorder(Plug(x', t')) == Inorder(Plug(y, t))
    ensures x' == Top || (x' == y.up && next == parent && t'.Fork? && t'.tag == y.tag)
  {
    ghost var x, f := y.up, Fill(y, t);
    ghost var w := y.other;
    ZipUp(head.mem, head.root, y, t);
    ChildrenAt(head, x, f);
    ChildrenAt(head, if y.InLeft? then InRight(x, parent, y.tag, t) else InLeft(x, parent, y.tag, t), w);
    SideOf(head, y, t);
    var onLeft := parent.left == elm;
    var tmp: RbNode := if onLeft then parent.right else parent.left;
    if BlackOrNone(tmp.left) && BlackOrNone(tmp.right) {
      ReddenedShort(y, t);
      assert tmp in Nodes(w) && tmp in Nodes(f) && tmp != parent;
      head.SetTag(tmp, Red, x, f);
      next, x', t' := parent, x, Retag(f, tmp, Red);
      PlugInorder(x, f);
      PlugInorder(x', t');
    } else {
      t' := Settle(head, parent, onLeft, y, t);
      next, x' := head.root, Top;
    }
  }

  method Settle(head: Head<int, Color>, parent: RbNode, onLeft: bool, ghost y: RbZip, ghost t: RbShape) returns (ghost s: RbShape)
    requires ShortBelow(y, t) && y.node == parent && head.Represents(y.up, Fill(y, t)) && onLeft == y.InLeft?
    requires y.other.Fork? && y.other.tag == Black && !(IsBlack(y.other.left) && IsBlack(y.other.right))
    modifies head, head.mem.Keys
    ensures head.mem.Keys == old(head.mem.Keys)
    ensures head.Represents(Top, s) && Balanced(s) && IsBlack(s) && Root(s) == head.root
    ensures Inorder(s) == Inorder(Plug(y, t))
  {
    ghost var x, f := y.up, Fill(y, t);
    if onLeft {
      SettledLeftBalanced(x, f);
      SettleLeft(head, parent, x, f);
      s := SettledLeft(f);
    } else {
      SettledRightBalanced(x, f);
      SettleRight(head, parent, x, f);
      s := SettledRight(f);
    }
    PlugInorder(x, f);
    PlugInorder(x, s);
    Unzip(head.mem, head.root, x, s);
    s := Plug(x, s);
  }

  /** The side of the hole can be read off the parent's left pointer. */
  lemma SideOf(head: Head<int, Color>, y: RbZip, t: RbShape)
    requires head.Represents(y, t) && y != Top && y.other.Fork?
    ensures y.node.left == Root(t) <==> y.InLeft?
    ensures Root(y.other) == if y.InLeft? then y.node.right else y.node.left
    ensures y.other.node.tag == y.other.tag
  {
    HoldsAt(head.mem, head.root, y, t);
    ZipUp(head.mem, head.root, y, t);
    HoldsAt(head.mem, head.root, y.up, Fill(y, t));
  }

  method RemoveStep(head: Head<int, Color>, parent: RbNode, elm: Node?<int, Color>, ghost y: RbZip, ghost t: RbShape)
    returns (next: Node?<int, Color>, ghost x': RbZip, ghost t': RbShape)
    requires head.Represents(y, t) && ShortBelow(y, t) && y.node == parent && Root(t) == elm
    modifies head, head.mem.Keys
    ensures head.mem.Keys == old(head.mem.Keys)
    ensures head.Represents(x', t') && ShortAt(x', t', next) && Inorder(Plug(x', t')) == Inorder(Plug(y, t))
    ensures x' != Top && IsBlack(t') ==> Depth(x') < Depth(y)
    ensures x' != Top ==> next == parent
  {
    SiblingThere(y, t);
    SideOf(head, y, t);
    ghost var z, f, w := y, Fill(y, t), y.other;
    var onLeft := parent.left == elm;
    var tmp: RbNode := if onLeft then parent.right else parent.left;
    if tmp.tag == Red {
      SunkShort(y, t);
      ZipUp(head.mem, head.root, y, t);
      PlugInorder(y.up, f);
      if onLeft {
        SinkLeft(head, parent, tmp, y.up, f);
        z := InLeft(InLeft(y.up, w.node, Black, w.right), parent, Red, w.left);
      } else {
        SinkRight(head, parent, tmp, y.up, f);
        z := InRight(InRight(y.up, w.node, Black, w.left), parent, Red, w.right);
      }
      ghost var g := Fill(z, t);
      ZipUp(head.mem, head.root, z, t);
      ZipUp(head.mem, head.root, z.up, g);
      PlugInorder(y.up, Fill(z.up, g));
    }
    next, x', t' := Resolve(head, parent, elm, z, t);
  }

  method RemoveColor(head: Head<int, Color>, parent: Node?<int, Color>, elm: Node?<int, Color>, ghost x: RbZip, ghost t: RbShape)
    returns (ghost s: RbShape)
    requires head.Represents(x, t) && ShortAt(x, t, elm) && parent == Hole(x)
    modifies head, head.mem.Keys
    ensures head.mem.Keys == old(head.mem.Keys)
    ensures head.Represents(Top, s) && Balanced(s) && IsBlack(s) && Inorder(s) == Inorder(Plug(x, t))
  {
    var e, p := elm, parent;
    ghost var y, u := x, t;
    HoldsAt(head.mem, head.root, y, u);
    while BlackOrNone(e) && e != head.root
      invariant head.mem.Keys == old(head.mem.Keys)
      invariant head.Represents(y, u) && ShortAt(y, u, e)
      invariant y != Top ==> p == Hole(y)
      invariant e == head.root <==> y == Top
      invariant BlackOrNone(e) <==> IsBlack(u)
      invariant Inorder(Plug(y, u)) == Inorder(Plug(x, t))
      decreases if IsBlack(u) && y != Top then Depth(y) + 1 else 0
    {
      ghost var q := y;
      e, y, u := RemoveStep(head, p, e, y, u);
      HoldsAt(head.mem, head.root, y, u);
      p := if e == null then null else e.parent;
    }
    s := BlackenShort(head, e, y, u);
  }

  /** The shortage ends at a red node or at the root, which turns black. */
  method BlackenShort(head: Head<int, Color>, elm: Node?<int, Color>, ghost x: RbZip, ghost t: RbShape) returns (ghost s: RbShape)
    requires head.Represents(x, t) && ShortAt(x, t, elm) && (x == Top || !IsBlack(t))
    modifies head, head.mem.Keys
    ensures head.mem.Keys == old(head.mem.Keys)
    ensures head.Represents(Top, s) && Balanced(s) && IsBlack(s) && Inorder(s) == Inorder(Plug(x, t))
  {
    s := Blackened(t);
    if elm != null {
      head.SetTag(elm, Black, x, t);
    }
    PlugBalanced(x, s);
    PlugInorder(x, s);
    PlugInorder(x, t);
    Unzip(head.mem, head.root, x, s);
    s := Plug(x, s);
  }

  // ---------- The tree as an ordered set ----------

  ghost predicate Ascending(s: seq<RbNode>) {
    forall i, j :: 0 <= i < j < |s| ==> s[i].data < s[j].data
  }

  /** The keys left and right of the hole bound the key that is looked for. */
  ghost predicate Between(x: RbZip, k: int) {
    && (forall n :: n in Before(x) ==> n.data < k)
    && (forall n :: n in After(x) ==> k < n.data)
  }

  /** A step of the search keeps the key between the hole's neighbours. */
  lemma DescendBetween(x: RbZip, t: RbShape, k: int)
    requires t.Fork? && Between(x, k) && Ascending(Inorder(Plug(x, t)))
    ensures k < t.node.data ==> Between(InLeft(x, t.node, t.tag, t.right), k)
    ensures t.node.data < k ==> Between(InRight(x, t.node, t.tag, t.left), k)
  {
    PlugInorder(x, t);
    SplitAscending(Before(x), Inorder(t.left), t.node, Inorder(t.right), After(x));
  }

  lemma SplitAscending(a: seq<RbNode>, l: seq<RbNode>, e: RbNode, r: seq<RbNode>, b: seq<RbNode>)
    requires Ascending(a + (l + [e] + r) + b)
    ensures (forall n :: n in l ==> n.data < e.data) && (forall n :: n in r ==> e.data < n.data)
  {
    var s, at := a + (l + [e] + r) + b, |a| + |l|;
    assert s[at] == e;
    forall n | n in l ensures n.data < e.data {
      var i :| 0 <= i < |l| && l[i] == n;
      assert s[|a| + i] == n;
    }
    forall n | n in r ensures e.data < n.data {
      var i :| 0 <= i < |r| && r[i] == n;
      assert s[at + 1 + i] == n;
    }
  }

  /** What the search needs to know at a node. */
  lemma Descend(head: Head<int, Color>, x: RbZip, t: RbShape, k: int)
    requires head.Represents(x, t) && t.Fork? && Between(x, k) && Ascending(Inorder(Plug(x, t)))
    ensures t.node.left == Root(t.left) && t.node.right == Root(t.right)
    ensures k < t.node.data ==>
              var y := InLeft(x, t.node, t.tag, t.right); head.Represents(y, t.left) && Between(y, k)
    ensures t.node.data < k ==>
              var y := InRight(x, t.node, t.tag, t.left); head.Represents(y, t.right) && Between(y, k)
  {
    HoldsAt(head.mem, head.root, x, t);
    DescendBetween(x, t, k);
    ZipUp(head.mem, head.root, InLeft(x, t.node, t.tag, t.right), t.left);
    ZipUp(head.mem, head.root, InRight(x, t.node, t.tag, t.left), t.right);
  }

  lemma FirstAfter(x: RbZip)
    requires Ascending(Before(x) + After(x))
    ensures After(x) != [] ==> After(x)[0] in After(x) && forall n :: n in After(x) ==> After(x)[0].data <= n.data
  {
    var b, a := Before(x), After(x);
    forall n | n in a ensures a[0].data <= n.data {
      var i :| 0 <= i < |a| && a[i] == n;
      assert (b + a)[|b|] == a[0] && (b + a)[|b| + i] == n;
    }
  }

  lemma EqualIsMember(x: RbZip, t: RbShape)
    requires t.Fork?
    ensures t.node in Inorder(Plug(x, t))
  {
    PlugInorder(x, t);
    assert t.node in Inorder(t);
  }

  lemma InsertedAscending(a: seq<RbNode>, e: RbNode, b: seq<RbNode>)
    requires Ascending(a + b)
    requires (forall n :: n in a ==> n.data < e.data) && (forall n :: n in b ==> e.data < n.data)
    ensures Ascending(a + [e] + b)
    ensures (a + b)[..|a|] == a && (a + b)[|a|..] == b
  {
    var s := a + [e] + b;
    forall i, j | 0 <= i < j < |s| ensures s[i].data < s[j].data {
      var i', j' := if i <= |a| then i else i - 1, if j <= |a| then j else j - 1;
      if i == |a| {
        assert s[j] in b;
      } else if j == |a| {
        assert s[i] in a;
      } else {
        assert s[i] == (a + b)[i'] && s[j] == (a + b)[j'];
      }
    }
  }


  /** A new red leaf is the only possible violation. */
  lemma LeafRedAt(x: RbZip, elm: RbNode)
    requires Balanced(Plug(x, Leaf)) && IsBlack(Plug(x, Leaf))
    ensures RedAt(x, Fork(Leaf, elm, Red, Leaf), elm)
    ensures Inorder(Plug(x, Fork(Leaf, elm, Red, Leaf))) == Before(x) + [elm] + After(x)
  {
    PlugBalanced(x, Leaf);
    PlugInorder(x, Fork(Leaf, elm, Red, Leaf));
  }

  /** Hangs the new red leaf `elm` in the hole of `x` and repairs the colours. */
  method LinkRed(head: Head<int, Color>, elm: RbNode, parent: Node?<int, Color>, less: bool, ghost x: RbZip)
    returns (ghost s: RbShape)
    requires head.Represents(x, Leaf) && elm !in head.mem && parent == Hole(x) && less == x.InLeft?
    requires Balanced(Plug(x, Leaf)) && IsBlack(Plug(x, Leaf))
    modifies head, head.mem.Keys, elm
    ensures head.mem.Keys == old(head.mem.Keys) + {elm}
    ensures head.Represents(Top, s) && Balanced(s) && IsBlack(s)
    ensures Inorder(s) == Before(x) + [elm] + After(x)
  {
    LeafRedAt(x, elm);
    elm.tag := Red;
    head.Attach(elm, parent, less, x);
    s := InsertColor(head, elm, x, Fork(Leaf, elm, Red, Leaf));
  }

  lemma StepLeft(head: Head<int, Color>, x: RbZip, t: RbShape)
    requires head.Represents(x, t) && t.Fork?
    ensures head.Represents(InLeft(x, t.node, t.tag, t.right), t.left) && t.node.left == Root(t.left)
  {
    HoldsAt(head.mem, head.root, x, t);
    ZipUp(head.mem, head.root, InLeft(x, t.node, t.tag, t.right), t.left);
  }

  lemma AboveAt(head: Head<int, Color>, x: RbZip, t: RbShape)
    requires head.Represents(x, t) && t.Fork?
    ensures t.node.parent == Hole(x)
    ensures x != Top ==> (t.node == x.node.right <==> x.InRight?)
  {
    HoldsAt(head.mem, head.root, x, t);
    if x != Top {
      ZipUp(head.mem, head.root, x, t);
      HoldsAt(head.mem, head.root, x.up, Fill(x, t));
    }
  }

  // ---------- Removal ----------

  /** The order of the whole tree without the node at the focus. */
  ghost function OrderWithout(x: RbZip, t: RbShape): seq<RbNode>
    requires t.Fork?
  {
    Before(x) + (Inorder(t.left) + Inorder(t.right)) + After(x)
  }

  lemma WithoutOuter(x: RbZip, t: RbShape, u: RbShape)
    requires t.Fork? && ((t.left.Leaf? && u == t.right) || (t.right.Leaf? && u == t.left))
    ensures Inorder(Plug(x, u)) == OrderWithout(x, t)
  {
    PlugInorder(x, u);
    assert Inorder(u) == Inorder(t.left) + Inorder(t.right);
  }

  /** Removing the node at the focus leaves an ascending order and no other change. */
  lemma WithoutAscending(x: RbZip, t: RbShape) returns (at: nat)
    requires t.Fork? && Ascending(Inorder(Plug(x, t)))
    ensures Ascending(OrderWithout(x, t))
    ensures var s := Inorder(Plug(x, t)); at < |s| && s[at] == t.node && OrderWithout(x, t) == s[..at] + s[at + 1..]
  {
    PlugInorder(x, t);
    at := |Before(x)| + |Inorder(t.left)|;
    RemovedAscending(Before(x), Inorder(t.left), t.node, Inorder(t.right), After(x));
  }

  lemma RemovedAscending(a: seq<RbNode>, l: seq<RbNode>, e: RbNode, r: seq<RbNode>, b: seq<RbNode>)
    requires Ascending(a + (l + [e] + r) + b)
    ensures
      var s, at := a + (l + [e] + r) + b, |a| + |l|;
      && s[at] == e && a + (l + r) + b == s[..at] + s[at + 1..]
      && Ascending(s[..at] + s[at + 1..])
  {
    var s, at := a + (l + [e] + r) + b, |a| + |l|;
    var w := s[..at] + s[at + 1..];
    forall i, j | 0 <= i < j < |w| ensures w[i].data < w[j].data {
      var i', j' := if i < at then i else i + 1, if j < at then j else j + 1;
      assert w[i] == s[i'] && w[j] == s[j'];
    }
  }

  /** Only the colours on the path matter to the balance of a context, not which nodes are on it. */
  lemma {:induction false} RenamedBalanced(inner: RbZip, x: RbZip, l: RbShape, c: Color, o: RbNode, e: RbNode, h: nat)
    ensures BalancedAround(Compose(inner, InRight(x, o, c, l)), h) ==> BalancedAround(Compose(inner, InRight(x, e, c, l)), h)
    decreases inner
  {
    if inner != Top {
      RenamedBalanced(inner.up, x, l, c, o, e, h);
      RenamedBalanced(inner.up, x, l, c, o, e, h + 1);
    }
  }

  /** What splicing out a node with at most one child leaves to repair. */
  lemma SplicedShort(x: RbZip, t: RbShape, s: RbShape)
    requires Balanced(Plug(x, t)) && IsBlack(Plug(x, t)) && t.Fork?
    requires (t.left.Leaf? && s == t.right) || (t.right.Leaf? && s == t.left)
    ensures Balanced(s)
    ensures t.tag == Black ==> BalancedAround(x, BlackHeight(s) + 1)
    ensures t.tag == Red ==> BalancedAround(x, BlackHeight(s)) && IsBlack(s)
  {
    PlugBalanced(x, t);
  }

  /** The last part of a removal: a removed black node calls for a repair. */
  method Rebalance(head: Head<int, Color>, color: Color, parent: Node?<int, Color>, child: Node?<int, Color>,
                   ghost x: RbZip, ghost t: RbShape) returns (ghost s: RbShape)
    requires head.Represents(x, t) && parent == Hole(x) && child == Root(t) && Balanced(t)
    requires color == Black ==> BalancedAround(x, BlackHeight(t) + 1)
    requires color == Red ==> BalancedAround(x, BlackHeight(t)) && IsBlack(t)
    modifies head, head.mem.Keys
    ensures head.mem.Keys == old(head.mem.Keys)
    ensures head.Represents(Top, s) && Balanced(s) && IsBlack(s) && Inorder(s) == Inorder(Plug(x, t))
  {
    if color == Black {
      s := RemoveColor(head, parent, child, x, t);
    } else {
      s := Plug(x, t);
      PlugBalanced(x, t);
      Unzip(head.mem, head.root, x, t);
    }
  }

  /** Removal of a node with at most one child. */
  method RemoveOuter(head: Head<int, Color>, elm: RbNode, child: Node?<int, Color>, ghost x: RbZip, ghost t: RbShape, ghost u: RbShape)
    returns (ghost s: RbShape)
    requires head.Represents(x, t) && t.Fork? && t.node == elm && child == Root(u)
    requires (t.left.Leaf? && u == t.right) || (t.right.Leaf? && u == t.left)
    requires Balanced(Plug(x, t)) && IsBlack(Plug(x, t))
    modifies head, head.mem.Keys - {elm}
    ensures head.mem.Keys == old(head.mem.Keys) - {elm}
    ensures head.Represents(Top, s) && Balanced(s) && IsBlack(s)
    ensures Inorder(s) == OrderWithout(x, t)
  {
    SplicedShort(x, t, u);
    WithoutOuter(x, t, u);
    HoldsAt(head.mem, head.root, x, t);
    var parent, color := elm.parent, elm.tag;
    head.Splice(elm, child, x, t, u);
    s := Rebalance(head, color, parent, child, x, u);
  }

  /** The least node of the right subtree of `old`, with the path that leads to it. */
  method Successor(head: Head<int, Color>, o: RbNode, ghost x: RbZip, ghost t: RbShape)
    returns (e: RbNode, ghost inner: RbZip, ghost u: RbShape)
    requires head.Represents(x, t) && t.Fork? && t.node == o && t.right.Fork?
    ensures u.Fork? && u.node == e && u.left == Leaf && Plug(inner, u) == t.right && Before(inner) == []
    ensures head.Represents(Compose(inner, InRight(x, o, t.tag, t.left)), u)
    ensures o in head.mem && Distinct(t)
    ensures e.right == Root(u.right) && e.parent == Hole(Compose(inner, InRight(x, o, t.tag, t.left))) && e.tag == u.tag
  {
    ghost var outer := InRight(x, o, t.tag, t.left);
    ghost var y := outer;
    HoldsAt(head.mem, head.root, x, t);
    e := o.right;
    inner, u := Top, t.right;
    ZipUp(head.mem, head.root, outer, u);
    LeftAt(head, outer, u);
    while e.left != null
      invariant u.Fork? && u.node == e && Plug(inner, u) == t.right && Before(inner) == []
      invariant y == Compose(inner, outer) && head.Represents(y, u) && e.left == Root(u.left)
      decreases u
    {
      StepLeft(head, y, u);
      e := e.left;
      inner, y, u := InLeft(inner, u.node, u.tag, u.right), InLeft(y, u.node, u.tag, u.right), u.left;
      LeftAt(head, y, u);
    }
    HoldsAt(head.mem, head.root, y, u);
  }

  lemma LeftAt(head: Head<int, Color>, x: RbZip, t: RbShape)
    requires head.Represents(x, t) && t.Fork?
    ensures t.node.left == Root(t.left)
  {
    HoldsAt(head.mem, head.root, x, t);
  }

  /** Puts the spliced-out successor in the place of the removed node. */
  method Substitute(head: Head<int, Color>, o: RbNode, e: RbNode, ghost inner: RbZip, ghost v: RbShape,
                    ghost x: RbZip, ghost t: RbShape, ghost keys: set<RbNode>)
    requires t.Fork? && t.node == o && e in keys && e != o && head.mem.Keys == keys - {e}
    requires head.Represents(Compose(inner, InRight(x, o, t.tag, t.left)), v)
    modifies head, keys
    ensures head.mem.Keys == keys - {o}
    ensures head.Represents(Compose(inner, InRight(x, e, t.tag, t.left)), v)
  {
    ghost var f := Fork(t.left, o, t.tag, Plug(inner, v));
    Refocus(head, inner, v, x, t, o, t.tag);
    HoldsAt(head.mem, head.root, x, f);
    ghost var now := head.mem.Keys;
    assert now - {o} + {e} == keys - {o};
    e.tag := o.tag;
    head.TakePlace(o, e, x, f);
    Refocus(head, inner, v, x, t, e, t.tag);
  }

  /** From the root of a right subtree's parent to a place inside that subtree, and back. */
  lemma Refocus(head: Head<int, Color>, inner: RbZip, v: RbShape, x: RbZip, t: RbShape, n: RbNode, c: Color)
    requires t.Fork?
    ensures head.Represents(Compose(inner, InRight(x, n, c, t.left)), v)
       <==> head.Represents(x, Fork(t.left, n, c, Plug(inner, v)))
  {
    ZipInto(head.mem, head.root, inner, InRight(x, n, c, t.left), v);
    ZipUp(head.mem, head.root, InRight(x, n, c, t.left), Plug(inner, v));
  }

  /** Splices the successor of `o` out and puts it in the place of `o`; what is left is to rebalance. */
  method SwapOut(head: Head<int, Color>, o: RbNode, ghost x: RbZip, ghost t: RbShape)
    returns (color: Color, parent: Node?<int, Color>, child: Node?<int, Color>, ghost z: RbZip, ghost v: RbShape)
    requires head.Represents(x, t) && t.Fork? && t.node == o && t.right.Fork?
    requires Balanced(Plug(x, t)) && IsBlack(Plug(x, t))
    modifies head, head.mem.Keys
    ensures head.mem.Keys == old(head.mem.Keys) - {o}
    ensures head.Represents(z, v) && parent == Hole(z) && child == Root(v) && Balanced(v)
    ensures color == Black ==> BalancedAround(z, BlackHeight(v) + 1)
    ensures color == Red ==> BalancedAround(z, BlackHeight(v)) && IsBlack(v)
    ensures Inorder(Plug(z, v)) == OrderWithout(x, t)
  {
    var e;
    ghost var inner, u;
    e, inner, u := Successor(head, o, x, t);
    ghost var y := Compose(inner, InRight(x, o, t.tag, t.left));
    z, v := Compose(inner, InRight(x, e, t.tag, t.left)), u.right;
    SuccessorShort(inner, u, x, t);
    SubstitutedOrder(inner, u, x, t, e);
    child, parent, color := e.right, e.parent, e.tag;
    Exchange(head, o, e, child, inner, u, x, t);
    if parent == o {
      parent := e;
    }
  }

  /** Splices `e` out, then puts it in the place of `o`. */
  method Exchange(head: Head<int, Color>, o: RbNode, e: RbNode, child: Node?<int, Color>,
                  ghost inner: RbZip, ghost u: RbShape, ghost x: RbZip, ghost t: RbShape)
    requires t.Fork? && t.node == o && u.Fork? && u.node == e && u.left == Leaf && child == Root(u.right) && e != o
    requires head.Represents(Compose(inner, InRight(x, o, t.tag, t.left)), u) && o in head.mem
    modifies head, head.mem.Keys
    ensures head.mem.Keys == old(head.mem.Keys) - {o}
    ensures head.Represents(Compose(inner, InRight(x, e, t.tag, t.left)), u.right)
  {
    ghost var keys := head.mem.Keys;
    assert e in keys;
    head.Splice(e, child, Compose(inner, InRight(x, o, t.tag, t.left)), u, u.right);
    Substitute(head, o, e, inner, u.right, x, t, keys);
  }

  /** Removal of a node with two children. */
  method RemoveInner(head: Head<int, Color>, o: RbNode, ghost x: RbZip, ghost t: RbShape) returns (ghost s: RbShape)
    requires head.Represents(x, t) && t.Fork? && t.node == o && t.right.Fork?
    requires Balanced(Plug(x, t)) && IsBlack(Plug(x, t))
    modifies head, head.mem.Keys
    ensures head.mem.Keys == old(head.mem.Keys) - {o}
    ensures head.Represents(Top, s) && Balanced(s) && IsBlack(s)
    ensures Inorder(s) == OrderWithout(x, t)
  {
    var color, parent, child;
    ghost var z, v;
    color, parent, child, z, v := SwapOut(head, o, x, t);
    s := Rebalance(head, color, parent, child, z, v);
  }

  /** What splicing out the successor `u.node` leaves to repair, once it has replaced the removed node. */
  lemma SuccessorShort(inner: RbZip, u: RbShape, x: RbZip, t: RbShape)
    requires t.Fork? && u.Fork? && u.left == Leaf && Plug(inner, u) == t.right && Distinct(t)
    requires Balanced(Plug(x, t)) && IsBlack(Plug(x, t))
    ensures
      var e, v := u.node, u.right;
      var y, z := Compose(inner, InRight(x, t.node, t.tag, t.left)), Compose(inner, InRight(x, e, t.tag, t.left));
      && Balanced(v) && e != t.node && Hole(z) == (if Hole(y) == t.node then e else Hole(y))
      && (u.tag == Black ==> BalancedAround(z, BlackHeight(v) + 1))
      && (u.tag == Red ==> BalancedAround(z, BlackHeight(v)) && IsBlack(v))
  {
    var y, v := Compose(inner, InRight(x, t.node, t.tag, t.left)), u.right;
    SuccessorShortBefore(inner, u, x, t);
    RenamedBalanced(inner, x, t.left, t.tag, t.node, u.node, BlackHeight(v));
    RenamedBalanced(inner, x, t.left, t.tag, t.node, u.node, BlackHeight(v) + 1);
    PlugNodes(inner, u);
    assert u.node in Nodes(u);
    ComposedHole(inner, x, t, u.node);
  }

  lemma SuccessorShortBefore(inner: RbZip, u: RbShape, x: RbZip, t: RbShape)
    requires t.Fork? && u.Fork? && u.left == Leaf && Plug(inner, u) == t.right
    requires Balanced(Plug(x, t)) && IsBlack(Plug(x, t))
    ensures
      var v, y := u.right, Compose(inner, InRight(x, t.node, t.tag, t.left));
      && Balanced(v)
      && (u.tag == Black ==> BalancedAround(y, BlackHeight(v) + 1))
      && (u.tag == Red ==> BalancedAround(y, BlackHeight(v)) && IsBlack(v))
  {
    var outer := InRight(x, t.node, t.tag, t.left);
    PlugCompose(inner, outer, u);
    assert Fill(outer, t.right) == t;
    SplicedShort(Compose(inner, outer), u, u.right);
  }

  /** Renaming a node of the path changes the hole only if the hole hangs below that node. */
  lemma ComposedHole(inner: RbZip, x: RbZip, t: RbShape, e: RbNode)
    requires t.Fork? && t.node !in CtxNodes(inner)
    ensures
      var y, z := Compose(inner, InRight(x, t.node, t.tag, t.left)), Compose(inner, InRight(x, e, t.tag, t.left));
      Hole(z) == if Hole(y) == t.node then e else Hole(y)
  {
  }

  /** The order that a substitution leaves: the old one without the removed node. */
  lemma SubstitutedOrder(inner: RbZip, u: RbShape, x: RbZip, t: RbShape, e: RbNode)
    requires t.Fork? && u.Fork? && u.node == e && u.left == Leaf && Plug(inner, u) == t.right && Before(inner) == []
    ensures Inorder(Plug(Compose(inner, InRight(x, e, t.tag, t.left)), u.right))
            == OrderWithout(x, t)
  {
    var r := Plug(inner, u.right);
    PlugCompose(inner, InRight(x, e, t.tag, t.left), u.right);
    PlugInorder(inner, u.right);
    PlugInorder(inner, u);
    Regroup(Inorder(t.left), e, Inorder(u.right), After(inner));
    PlugInorder(x, Fork(t.left, e, t.tag, r));
  }

  lemma Regroup<T>(l: seq<T>, e: T, v: seq<T>, a: seq<T>)
    ensures l + [e] + ([] + v + a) == l + ([] + ([] + [e] + v) + a)
  {
  }

  method RemoveNode(head: Head<int, Color>, elm: RbNode, ghost x: RbZip, ghost t: RbShape) returns (ghost s: RbShape)
    requires head.Represents(Top, Plug(x, t)) && t.Fork? && t.node == elm
    requires Balanced(Plug(x, t)) && IsBlack(Plug(x, t))
    modifies head, head.mem.Keys
    ensures head.mem.Keys == old(head.mem.Keys) - {elm}
    ensures head.Represents(Top, s) && Balanced(s) && IsBlack(s)
    ensures Inorder(s) == OrderWithout(x, t)
  {
    Unzip(head.mem, head.root, x, t);
    HoldsAt(head.mem, head.root, x, t);
    if elm.left == null {
      s := RemoveOuter(head, elm, elm.right, x, t, t.right);
    } else if elm.right == null {
      s := RemoveOuter(head, elm, elm.left, x, t, t.left);
    } else {
      s := RemoveInner(head, elm, x, t);
    }
  }

  class RbTree {
    const head: Head<int, Color>
    ghost var shape: RbShape

    constructor ()
      ensures Valid() && shape == Leaf && fresh(head)
    {
      head := new Head();
      shape := Leaf;
      new;
    }

    ghost predicate Valid()
      reads this, head, head.mem.Keys
    {
      && head.Represents(Top, shape)
      && Balanced(shape) && IsBlack(shape)
      && Ascending(Inorder(shape))
    }

    /** The nodes in ascending order of their keys. */
    ghost function Elements(): seq<RbNode>
      reads this
    {
      Inorder(shape)
    }

    /** The height is at most 2 log2(n + 1) for n members. */
    lemma HeightOfMembers()
      requires Valid()
      ensures Pow2(Height(shape)) <= (|Elements()| + 1) * (|Elements()| + 1)
    {
      HeightBound(shape);
      SizeInorder(shape);
    }

    /** Walks down from the root to the node with key `k`, or to the place where it belongs. */
    method Seek(k: int) returns (found: Node?<int, Color>, parent: Node?<int, Color>, less: bool, ghost x: RbZip)
      requires Valid()
      ensures found != null ==> found in Elements() && found.data == k
      ensures found == null ==> head.Represents(x, Leaf) && Plug(x, Leaf) == shape && Between(x, k)
      ensures found == null ==> parent == Hole(x) && less == x.InLeft?
    {
      found, parent, less := head.root, null, false;
      ghost var t := shape;
      x := Top;
      while found != null
        invariant head.Represents(x, t) && Root(t) == found && Plug(x, t) == shape && Between(x, k)
        invariant parent == Hole(x) && less == x.InLeft?
        decreases t
      {
        Descend(head, x, t, k);
        parent := found;
        var n: RbNode := found;
        less := k < n.data;
        if less {
          found := n.left;
          x, t := InLeft(x, t.node, t.tag, t.right), t.left;
        } else if n.data < k {
          found := n.right;
          x, t := InRight(x, t.node, t.tag, t.left), t.right;
        } else {
          EqualIsMember(x, t);
          return;
        }
      }
    }

    /** The node with key `k`, if there is one. */
    method Find(k: int) returns (r: Node?<int, Color>)
      requires Valid()
      ensures r != null ==> r in Elements() && r.data == k
      ensures r == null ==> forall n :: n in Elements() ==> n.data != k
    {
      var parent, less;
      ghost var x;
      r, parent, less, x := Seek(k);
      PlugInorder(x, Leaf);
    }

    /** The first node whose key is at least `k`. */
    method NFind(k: int) returns (r: Node?<int, Color>)
      requires Valid()
      ensures r != null ==> r in Elements() && k <= r.data && forall n :: n in Elements() && k <= n.data ==> r.data <= n.data
      ensures r == null ==> forall n :: n in Elements() ==> n.data < k
    {
      var tmp := head.root;
      r := null;
      ghost var x, t := Top, shape;
      while tmp != null
        invariant head.Represents(x, t) && Root(t) == tmp && Plug(x, t) == shape && Between(x, k)
        invariant r == if After(x) == [] then null else After(x)[0]
        decreases t
      {
        Descend(head, x, t, k);
        var n: RbNode := tmp;
        if k < n.data {
          r := n;
          tmp := n.left;
          x, t := InLeft(x, t.node, t.tag, t.right), t.left;
        } else if n.data < k {
          tmp := n.right;
          x, t := InRight(x, t.node, t.tag, t.left), t.right;
        } else {
          EqualIsMember(x, t);
          return n;
        }
      }
      PlugInorder(x, Leaf);
      assert Inorder(shape) == Before(x) + After(x);
      FirstAfter(x);
    }

    /** Inserts `elm`, unless a node with its key is there already; then that node is returned. */
    method Insert(elm: RbNode) returns (r: Node?<int, Color>, ghost at: nat)
      requires Valid() && elm !in head.mem
      modifies this`shape, head, head.mem.Keys, elm
      ensures Valid()
      ensures r != null ==> r in old(Elements()) && r.data == elm.data && Elements() == old(Elements())
      ensures r == null ==> forall n :: n in old(Elements()) ==> n.data != elm.data
      ensures r == null ==> at <= |old(Elements())| && Elements() == old(Elements())[..at] + [elm] + old(Elements())[at..]
    {
      var parent, less;
      ghost var x;
      r, parent, less, x := Seek(elm.data);
      at := 0;
      if r == null {
        at := |Before(x)|;
        PlugInorder(x, Leaf);
        assert Inorder(shape) == Before(x) + After(x);
        InsertedAscending(Before(x), elm, After(x));
        ghost var s := LinkRed(head, elm, parent, less, x);
        ghost var m := head.mem;
        shape := s;
        forall k | k in head.mem.Keys ensures m[k] == Cell(k.left, k.right, k.parent, k.tag) {
          assert k as object != this;
        }
      }
    }

    /** The node with the least key. */
    method Min() returns (r: Node?<int, Color>)
      requires Valid()
      ensures r == if Elements() == [] then null else Elements()[0]
    {
      var tmp := head.root;
      r := null;
      ghost var x, t := Top, shape;
      while tmp != null
        invariant head.Represents(x, t) && Root(t) == tmp && Plug(x, t) == shape
        invariant Before(x) == [] && r == if x == Top then null else x.node
        invariant x != Top ==> x.InLeft?
        decreases t
      {
        r := tmp;
        StepLeft(head, x, t);
        x, t := InLeft(x, t.node, t.tag, t.right), t.left;
        tmp := r.left;
      }
      PlugInorder(x, t);
    }

    /** The node that follows `elm` in the order of the keys. */
    method Next(elm: RbNode, ghost at: nat) returns (r: Node?<int, Color>)
      requires Valid() && at < |Elements()| && Elements()[at] == elm
      ensures r == if at + 1 < |Elements()| then Elements()[at + 1] else null
    {
      assert elm in Elements();
      InorderNodes(shape, elm);
      ghost var x, t := PathTo(shape, elm), SubtreeAt(shape, elm);
      ghost var i := |Before(x)| + |Inorder(t.left)|;
      PathLeads(shape, elm);
      Unzip(head.mem, head.root, x, t);
      PlugInorder(x, t);
      assert Elements()[i] == elm && i == at;
      HoldsAt(head.mem, head.root, x, t);
      if elm.right != null {
        r := Leftmost(elm.right, InRight(x, elm, t.tag, t.left), t.right, i + 1);
      } else {
        r := FirstAbove(elm, x, t, i + 1);
      }
    }

    method Leftmost(elm: RbNode, ghost x: RbZip, ghost t: RbShape, ghost i: nat) returns (r: RbNode)
      requires Valid() && t.Fork? && t.node == elm && Plug(x, t) == shape && |Before(x)| == i
      ensures i < |Elements()| && r == Elements()[i]
    {
      r := elm;
      ghost var y, u := x, t;
      Unzip(head.mem, head.root, y, u);
      HoldsAt(head.mem, head.root, y, u);
      while r.left != null
        invariant u.Fork? && u.node == r && Plug(y, u) == shape && |Before(y)| == i
        invariant head.Represents(y, u) && r.left == Root(u.left)
        decreases u
      {
        StepLeft(head, y, u);
        y, u := InLeft(y, u.node, u.tag, u.right), u.left;
        r := r.left;
        HoldsAt(head.mem, head.root, y, u);
      }
      PlugInorder(y, u);
    }

    /** The nearest ancestor of which `elm` is not in the right subtree. */
    method FirstAbove(elm: RbNode, ghost x: RbZip, ghost t: RbShape, ghost i: nat) returns (r: Node?<int, Color>)
      requires Valid() && t.Fork? && t.node == elm && Plug(x, t) == shape && |Before(x)| + |Inorder(t)| == i
      ensures r == if i < |Elements()| then Elements()[i] else null
    {
      var e := elm;
      ghost var y, u := x, t;
      Unzip(head.mem, head.root, y, u);
      AboveAt(head, y, u);
      while e.parent != null && e == e.parent.right
        invariant u.Fork? && u.node == e && Plug(y, u) == shape && |Before(y)| + |Inorder(u)| == i
        invariant head.Represents(y, u)
        invariant e.parent == Hole(y) && (y != Top ==> (e == y.node.right <==> y.InRight?))
        decreases y
      {
        e := e.parent;
        ZipUp(head.mem, head.root, y, u);
        y, u := y.up, Fill(y, u);
        AboveAt(head, y, u);
      }
      r := e.parent;
      PlugInorder(y, u);
    }

    /** Removes the member `elm` and returns it. */
    method Remove(elm: RbNode) returns (r: RbNode, ghost at: nat)
      requires Valid() && elm in head.mem
      modifies this`shape, head, head.mem.Keys
      ensures Valid() && r == elm && head.mem.Keys == old(head.mem.Keys) - {elm}
      ensures at < |old(Elements())| && old(Elements())[at] == elm
      ensures Elements() == old(Elements())[..at] + old(Elements())[at + 1..]
    {
      ghost var x, t := PathTo(shape, elm), SubtreeAt(shape, elm);
      PathLeads(shape, elm);
      at := WithoutAscending(x, t);
      ghost var order, rest := Elements(), OrderWithout(x, t);
      assert Ascending(rest) && rest == order[..at] + order[at + 1..];
      ghost var s := RemoveNode(head, elm, x, t);
      ghost var m := head.mem;
      assert Inorder(s) == rest && Balanced(s) && IsBlack(s);
      shape := s;
      forall k | k in head.mem.Keys ensures m[k] == Cell(k.left, k.right, k.parent, k.tag) {
        assert k as object != this;
      }
      assert head.Represents(Top, s) && Elements() == rest;
      r := elm;
    }
  }
}
