/** Whole runs of the two search trees: what is in the tree afterwards, and in which order it is listed. */
module OrderedSets {
  import opened Trees
  import opened Links
  import opened Powers
  import opened RedBlackShape
  import RedBlack
  import SplayShape
  import Splay

  datatype Op = Add(key: int) | Drop(key: int)

  /** The keys added and not dropped since. */
  function Kept(ops: seq<Op>): set<int> {
    if ops == [] then {}
    else
      var op, before := ops[|ops| - 1], Kept(ops[..|ops| - 1]);
      match op
      case Add(k) => before + {k}
      case Drop(k) => before - {k}
  }

  /** The keys `keys` are in ascending order, each once, and are those of `s`. */
  predicate Lists(keys: seq<int>, s: set<int>) {
    && (forall i, j :: 0 <= i < j < |keys| ==> keys[i] < keys[j])
    && (forall k :: k in keys ==> k in s) && (forall k :: k in s ==> k in keys)
  }

  // ---------- Red-black ----------

  ghost function RbKeys(s: seq<RedBlack.RbNode>): seq<int> {
    seq(|s|, i requires 0 <= i < |s| => s[i].data)
  }

  /** Adding at a place adds the key. */
  lemma RbAdded(s: seq<RedBlack.RbNode>, at: nat, e: RedBlack.RbNode)
    requires at <= |s|
    ensures forall k :: k in RbKeys(s[..at] + [e] + s[at..]) <==> k in RbKeys(s) || k == e.data
  {
    var t := s[..at] + [e] + s[at..];
    assert RbKeys(t) == RbKeys(s[..at]) + [e.data] + RbKeys(s[at..]);
    assert RbKeys(s) == RbKeys(s[..at]) + RbKeys(s[at..]);
  }

  lemma RbDropped(s: seq<RedBlack.RbNode>, at: nat)
    requires at < |s| && RedBlack.Ascending(s)
    ensures forall k :: k in RbKeys(s[..at] + s[at + 1..]) <==> k in RbKeys(s) && k != s[at].data
  {
    var t := s[..at] + s[at + 1..];
    assert RbKeys(t) == RbKeys(s[..at]) + RbKeys(s[at + 1..]);
    assert RbKeys(s) == RbKeys(s[..at]) + [s[at].data] + RbKeys(s[at + 1..]);
    assert forall i :: 0 <= i < at ==> RbKeys(s[..at])[i] == s[i].data < s[at].data;
    assert forall i :: at < i < |s| ==> RbKeys(s[at + 1..])[i - at - 1] == s[i].data > s[at].data;
  }

  lemma RbHas(s: seq<RedBlack.RbNode>, n: RedBlack.RbNode)
    requires n in s
    ensures n.data in RbKeys(s)
  {
    var i :| 0 <= i < |s| && s[i] == n;
    assert RbKeys(s)[i] == n.data;
  }

  lemma RbHasNot(s: seq<RedBlack.RbNode>, k: int)
    requires forall n :: n in s ==> n.data != k
    ensures k !in RbKeys(s)
  {
  }

  /** The tree's nodes are those that its order lists. */
  lemma RbMember(tree: RedBlack.RbTree, n: RedBlack.RbNode)
    requires tree.Valid()
    ensures n in tree.head.mem <==> n in tree.Elements()
  {
    InorderNodes(tree.shape, n);
    assert tree.head.mem.Keys == Nodes(tree.shape);
  }

  /** After any run, walking from the first node on lists exactly the keys added and not dropped since. All the
      time the height is at most 2 log2(n + 1) for n keys. */
  method RbReplay(ops: seq<Op>) returns (keys: seq<int>)
    ensures Lists(keys, Kept(ops))
  {
    var tree := new RedBlack.RbTree();
    tree.HeightOfMembers();
    assert ops[..0] == [];
    for i := 0 to |ops|
      invariant tree.Valid() && fresh(tree) && fresh(tree.head) && forall n :: n in tree.head.mem ==> fresh(n)
      invariant forall k :: k in RbKeys(tree.Elements()) <==> k in Kept(ops[..i])
      invariant Pow2(Height(tree.shape)) <= (|tree.Elements()| + 1) * (|tree.Elements()| + 1)
    {
      assert ops[..i + 1][..i] == ops[..i];
      match ops[i] {
        case Add(a) => RbAdd(tree, a);
        case Drop(a) => RbDrop(tree, a);
      }
      tree.HeightOfMembers();
    }
    assert ops[..|ops|] == ops;
    keys := RbListing(tree);
    assert keys == RbKeys(tree.Elements());
  }

  method RbAdd(tree: RedBlack.RbTree, a: int)
    requires tree.Valid()
    modifies tree`shape, tree.head, tree.head.mem.Keys
    ensures tree.Valid() && forall n :: n in tree.head.mem ==> n in old(tree.head.mem) || fresh(n)
    ensures forall k :: k in RbKeys(tree.Elements()) <==> k in old(RbKeys(tree.Elements())) || k == a
  {
    ghost var before, members := tree.Elements(), tree.head.mem.Keys;
    forall e | e in before ensures e in members { RbMember(tree, e); }
    var n := new Node<int, Color>(a, Red);
    var r, at := tree.Insert(n);
    if r == null {
      RbAdded(before, at, n);
    } else {
      RbHas(before, r);
    }
    forall e | e in tree.head.mem ensures e in members || e == n {
      RbMember(tree, e);
    }
  }

  method RbDrop(tree: RedBlack.RbTree, a: int)
    requires tree.Valid()
    modifies tree`shape, tree.head, tree.head.mem.Keys
    ensures tree.Valid() && tree.head.mem.Keys <= old(tree.head.mem.Keys)
    ensures forall k :: k in RbKeys(tree.Elements()) <==> k in old(RbKeys(tree.Elements())) && k != a
  {
    ghost var before := tree.Elements();
    var n := tree.Find(a);
    if n != null {
      RbMember(tree, n);
      var r, at := tree.Remove(n);
      RbDropped(before, at);
    } else {
      RbHasNot(before, a);
    }
  }

  method RbListing(tree: RedBlack.RbTree) returns (keys: seq<int>)
    requires tree.Valid()
    ensures keys == RbKeys(tree.Elements())
  {
    keys := [];
    var n := tree.Min();
    ghost var i := 0;
    ghost var s := tree.Elements();
    while n != null
      invariant i <= |s| && keys == RbKeys(s[..i]) && n == if i < |s| then s[i] else null
      decreases |s| - i
    {
      assert s[..i + 1] == s[..i] + [s[i]];
      keys := keys + [n.data];
      n := tree.Next(n, i);
      i := i + 1;
    }
    assert s[..i] == s;
  }

  // ---------- Splay ----------

  ghost function SplayKeys(s: seq<SplayShape.SplayNode>): seq<int> {
    seq(|s|, i requires 0 <= i < |s| => s[i].key)
  }

  lemma SplayAdded(s: seq<SplayShape.SplayNode>, at: nat, e: SplayShape.SplayNode)
    requires at <= |s|
    ensures forall k :: k in SplayKeys(s[..at] + [e] + s[at..]) <==> k in SplayKeys(s) || k == e.key
  {
    var t := s[..at] + [e] + s[at..];
    assert SplayKeys(t) == SplayKeys(s[..at]) + [e.key] + SplayKeys(s[at..]);
    assert SplayKeys(s) == SplayKeys(s[..at]) + SplayKeys(s[at..]);
  }

  lemma SplayDropped(s: seq<SplayShape.SplayNode>, at: nat)
    requires at < |s| && Splay.Ascending(s)
    ensures forall k :: k in SplayKeys(s[..at] + s[at + 1..]) <==> k in SplayKeys(s) && k != s[at].key
  {
    var t := s[..at] + s[at + 1..];
    assert SplayKeys(t) == SplayKeys(s[..at]) + SplayKeys(s[at + 1..]);
    assert SplayKeys(s) == SplayKeys(s[..at]) + [s[at].key] + SplayKeys(s[at + 1..]);
    assert forall i :: 0 <= i < at ==> SplayKeys(s[..at])[i] == s[i].key < s[at].key;
    assert forall i :: at < i < |s| ==> SplayKeys(s[at + 1..])[i - at - 1] == s[i].key > s[at].key;
  }

  lemma SplayHas(s: seq<SplayShape.SplayNode>, n: SplayShape.SplayNode)
    requires n in s
    ensures n.key in SplayKeys(s)
  {
    var i :| 0 <= i < |s| && s[i] == n;
    assert SplayKeys(s)[i] == n.key;
  }

  lemma SplayMember(tree: Splay.SplayTree, n: SplayShape.SplayNode)
    requires tree.Valid()
    ensures n in tree.mem <==> n in tree.Elements()
  {
    InorderNodes(tree.shape, n);
  }

  method SplayAdd(tree: Splay.SplayTree, a: int)
    requires tree.Valid()
    modifies tree, tree.mem.Keys
    ensures tree.Valid() && forall n :: n in tree.mem ==> n in old(tree.mem) || fresh(n)
    ensures forall k :: k in SplayKeys(tree.Elements()) <==> k in old(SplayKeys(tree.Elements())) || k == a
  {
    ghost var before, members := tree.Elements(), tree.mem.Keys;
    forall e | e in before ensures e in members { SplayMember(tree, e); }
    var n := new SplayShape.SplayNode(a);
    var r, at := tree.Insert(n);
    if r == null {
      SplayAdded(before, at, n);
    } else {
      SplayHas(before, r);
    }
    forall e | e in tree.mem ensures e in members || e == n {
      SplayMember(tree, e);
    }
  }

  method SplayDrop(tree: Splay.SplayTree, a: int)
    requires tree.Valid()
    modifies tree, tree.mem.Keys
    ensures tree.Valid() && forall n :: n in tree.mem ==> n in old(tree.mem)
    ensures forall k :: k in SplayKeys(tree.Elements()) <==> k in old(SplayKeys(tree.Elements())) && k != a
  {
    ghost var before, members := tree.Elements(), tree.mem.Keys;
    forall e | e in before ensures e in members { SplayMember(tree, e); }
    var n := new SplayShape.SplayNode(a);
    var r, at := tree.Remove(n);
    if r != null {
      SplayDropped(before, at);
    }
    forall e | e in tree.mem ensures e in members {
      SplayMember(tree, e);
    }
  }

  /** After any run the splay tree too holds exactly the keys added and not dropped since, in order. */
  method SplayReplay(ops: seq<Op>) returns (tree: Splay.SplayTree, ghost keys: seq<int>)
    ensures tree.Valid() && keys == SplayKeys(tree.Elements()) && Lists(keys, Kept(ops))
  {
    tree := new Splay.SplayTree();
    assert ops[..0] == [];
    for i := 0 to |ops|
      invariant tree.Valid() && fresh(tree) && forall n :: n in tree.mem ==> fresh(n)
      invariant forall k :: k in SplayKeys(tree.Elements()) <==> k in Kept(ops[..i])
    {
      assert ops[..i + 1][..i] == ops[..i];
      match ops[i] {
        case Add(a) => SplayAdd(tree, a);
        case Drop(a) => SplayDrop(tree, a);
      }
    }
    assert ops[..|ops|] == ops;
    keys := SplayKeys(tree.Elements());
  }
}
