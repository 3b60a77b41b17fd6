/** Binary trees over node references, and the zippers that in-place loops walk with.
    `tag` is what a node carries besides its links: a colour, a priority, or nothing. */
module Trees {

  datatype Tree<N, C> = Leaf | Fork(left: Tree<N, C>, node: N, tag: C, right: Tree<N, C>)

  /** A tree with a hole: the path from the hole up to the root. */
  datatype Ctx<N, C> =
    | Top
    | InLeft(up: Ctx<N, C>, node: N, tag: C, other: Tree<N, C>)
    | InRight(up: Ctx<N, C>, node: N, tag: C, other: Tree<N, C>)

  /** The tree one level up, the hole filled with `t`. */
  function Fill<N, C>(x: Ctx<N, C>, t: Tree<N, C>): Tree<N, C>
    requires x != Top
  {
    if x.InLeft? then Fork(t, x.node, x.tag, x.other) else Fork(x.other, x.node, x.tag, t)
  }

  /** The whole tree, the hole filled with `t`. */
  function Plug<N, C>(x: Ctx<N, C>, t: Tree<N, C>): Tree<N, C>
    decreases x
  {
    if x == Top then t else Plug(x.up, Fill(x, t))
  }

  function Depth<N, C>(x: Ctx<N, C>): nat {
    if x == Top then 0 else 1 + Depth(x.up)
  }

  /** The nodes in symmetric order. */
  function Inorder<N, C>(t: Tree<N, C>): seq<N> {
    match t
    case Leaf => []
    case Fork(l, n, _, r) => Inorder(l) + [n] + Inorder(r)
  }

  /** The nodes that precede the hole in symmetric order. */
  function Before<N, C>(x: Ctx<N, C>): seq<N> {
    match x
    case Top => []
    case InLeft(up, _, _, _) => Before(up)
    case InRight(up, n, _, l) => Before(up) + (Inorder(l) + [n])
  }

  /** The nodes that follow the hole in symmetric order. */
  function After<N, C>(x: Ctx<N, C>): seq<N> {
    match x
    case Top => []
    case InLeft(up, n, _, r) => ([n] + Inorder(r)) + After(up)
    case InRight(up, _, _, _) => After(up)
  }

  lemma {:induction false} PlugInorder<N, C>(x: Ctx<N, C>, t: Tree<N, C>)
    ensures Inorder(Plug(x, t)) == Before(x) + Inorder(t) + After(x)
    decreases x
  {
    if x != Top {
      PlugInorder(x.up, Fill(x, t));
    }
  }

  ghost function Nodes<N, C>(t: Tree<N, C>): set<N> {
    match t
    case Leaf => {}
    case Fork(l, n, _, r) => Nodes(l) + {n} + Nodes(r)
  }

  ghost function CtxNodes<N, C>(x: Ctx<N, C>): set<N> {
    if x == Top then {} else CtxNodes(x.up) + {x.node} + Nodes(x.other)
  }

  /** No node occurs twice. */
  ghost predicate Distinct<N, C>(t: Tree<N, C>) {
    t.Fork? ==>
      && t.node !in Nodes(t.left) && t.node !in Nodes(t.right) && Nodes(t.left) !! Nodes(t.right)
      && Distinct(t.left) && Distinct(t.right)
  }

  ghost predicate CtxDistinct<N, C>(x: Ctx<N, C>) {
    x != Top ==>
      && x.node !in CtxNodes(x.up) && x.node !in Nodes(x.other) && CtxNodes(x.up) !! Nodes(x.other)
      && CtxDistinct(x.up) && Distinct(x.other)
  }

  /** No node occurs twice in the hole's context and the tree that fills the hole. */
  ghost predicate Apart<N, C>(x: Ctx<N, C>, t: Tree<N, C>) {
    CtxDistinct(x) && Distinct(t) && CtxNodes(x) !! Nodes(t)
  }

  lemma FilledApart<N, C>(x: Ctx<N, C>, t: Tree<N, C>)
    requires x != Top
    ensures Apart(x, t) <==> Apart(x.up, Fill(x, t))
    ensures Nodes(Fill(x, t)) == Nodes(t) + {x.node} + Nodes(x.other)
    ensures CtxNodes(x) + Nodes(t) == CtxNodes(x.up) + Nodes(Fill(x, t))
  {
    assert x.node in CtxNodes(x) && Nodes(x.other) <= CtxNodes(x) && CtxNodes(x.up) <= CtxNodes(x);
    assert x.node in Nodes(Fill(x, t)) && Nodes(x.other) <= Nodes(Fill(x, t)) && Nodes(t) <= Nodes(Fill(x, t));
  }

  lemma {:induction false} PlugNodes<N, C>(x: Ctx<N, C>, t: Tree<N, C>)
    ensures Nodes(Plug(x, t)) == CtxNodes(x) + Nodes(t)
    ensures Distinct(Plug(x, t)) <==> Apart(x, t)
    decreases x
  {
    if x != Top {
      PlugNodes(x.up, Fill(x, t));
    }
  }

  /** The context `inner` placed in the hole of `outer`. */
  function Compose<N, C>(inner: Ctx<N, C>, outer: Ctx<N, C>): Ctx<N, C> {
    match inner
    case Top => outer
    case InLeft(up, n, c, r) => InLeft(Compose(up, outer), n, c, r)
    case InRight(up, n, c, l) => InRight(Compose(up, outer), n, c, l)
  }

  lemma {:induction false} PlugCompose<N, C>(inner: Ctx<N, C>, outer: Ctx<N, C>, t: Tree<N, C>)
    ensures Plug(Compose(inner, outer), t) == Plug(outer, Plug(inner, t))
    decreases inner
  {
    if inner != Top {
      PlugCompose(inner.up, outer, Fill(inner, t));
    }
  }

  lemma {:induction false} InorderNodes<N, C>(t: Tree<N, C>, n: N)
    ensures n in Inorder(t) <==> n in Nodes(t)
  {
    match t
    case Leaf =>
    case Fork(l, m, _, r) => InorderNodes(l, n); InorderNodes(r, n);
  }

  /** The two shapes that a rotation turns into each other. */
  function LeftHigh<N, C>(a: Tree<N, C>, e: N, ce: C, b: Tree<N, C>, t: N, ct: C, c: Tree<N, C>): Tree<N, C> {
    Fork(Fork(a, e, ce, b), t, ct, c)
  }

  function RightHigh<N, C>(a: Tree<N, C>, e: N, ce: C, b: Tree<N, C>, t: N, ct: C, c: Tree<N, C>): Tree<N, C> {
    Fork(a, e, ce, Fork(b, t, ct, c))
  }

  lemma RotationDistinct<N, C>(a: Tree<N, C>, e: N, ce: C, b: Tree<N, C>, t: N, ct: C, c: Tree<N, C>)
    ensures Nodes(LeftHigh(a, e, ce, b, t, ct, c)) == Nodes(RightHigh(a, e, ce, b, t, ct, c))
    ensures Distinct(LeftHigh(a, e, ce, b, t, ct, c)) <==> Distinct(RightHigh(a, e, ce, b, t, ct, c))
  {
    var l, r := Fork(a, e, ce, b), Fork(b, t, ct, c);
    assert t in Nodes(r) && Nodes(b) <= Nodes(r) && Nodes(c) <= Nodes(r);
    assert e in Nodes(l) && Nodes(a) <= Nodes(l) && Nodes(b) <= Nodes(l);
    if Distinct(Fork(a, e, ce, r)) {
      assert Distinct(r) && Distinct(l);
    }
    if Distinct(Fork(l, t, ct, c)) {
      assert Distinct(l) && Distinct(r);
    }
  }

  lemma RotationInorder<N, C>(a: Tree<N, C>, e: N, ce: C, b: Tree<N, C>, t: N, ct: C, c: Tree<N, C>)
    ensures Inorder(LeftHigh(a, e, ce, b, t, ct, c)) == Inorder(RightHigh(a, e, ce, b, t, ct, c))
  {
    assert Inorder(Fork(a, e, ce, b)) + [t] + Inorder(c) == Inorder(a) + [e] + (Inorder(b) + [t] + Inorder(c));
  }

  /** The path to the node `n`, and what hangs there. */
  ghost function PathTo<N, C>(t: Tree<N, C>, n: N): Ctx<N, C>
    requires n in Nodes(t)
  {
    if n == t.node then Top
    else if n in Nodes(t.left) then Compose(PathTo(t.left, n), InLeft(Top, t.node, t.tag, t.right))
    else Compose(PathTo(t.right, n), InRight(Top, t.node, t.tag, t.left))
  }

  ghost function SubtreeAt<N, C>(t: Tree<N, C>, n: N): (s: Tree<N, C>)
    requires n in Nodes(t)
    ensures s.Fork? && s.node == n
  {
    if n == t.node then t
    else if n in Nodes(t.left) then SubtreeAt(t.left, n)
    else SubtreeAt(t.right, n)
  }

  lemma {:induction false} PathLeads<N, C>(t: Tree<N, C>, n: N)
    requires n in Nodes(t)
    ensures Plug(PathTo(t, n), SubtreeAt(t, n)) == t
  {
    if n == t.node {
    } else if n in Nodes(t.left) {
      PathLeads(t.left, n);
      PlugCompose(PathTo(t.left, n), InLeft(Top, t.node, t.tag, t.right), SubtreeAt(t, n));
    } else {
      PathLeads(t.right, n);
      PlugCompose(PathTo(t.right, n), InRight(Top, t.node, t.tag, t.left), SubtreeAt(t, n));
    }
  }

  function Size<N, C>(t: Tree<N, C>): nat {
    if t.Leaf? then 0 else Size(t.left) + 1 + Size(t.right)
  }

  lemma {:induction false} SizeInorder<N, C>(t: Tree<N, C>)
    ensures |Inorder(t)| == Size(t)
  {
    if t.Fork? {
      SizeInorder(t.left);
      SizeInorder(t.right);
    }
  }

  function Height<N, C>(t: Tree<N, C>): nat {
    if t.Leaf? then 0
    else 1 + if Height(t.left) < Height(t.right) then Height(t.right) else Height(t.left)
  }

}
