/** Intrusive circular lists: nodes linked both ways in a circle that goes through the list's head. */
module Queues {

  class QueueNode {
    var next: QueueNode?
    var prev: QueueNode?
  }

  /** The neighbours of the node `s[i]` in the circle. */
  ghost function After(h: QueueNode, s: seq<QueueNode>, i: nat): QueueNode {
    if i + 1 < |s| then s[i + 1] else h
  }

  ghost function Before(h: QueueNode, s: seq<QueueNode>, i: nat): QueueNode
    requires i <= |s|
  {
    if i > 0 then s[i - 1] else h
  }

  /** The list with head `h` holds the nodes of `s`, from the front to the tail. */
  ghost predicate List(h: QueueNode, s: seq<QueueNode>)
    reads h, s
  {
    && h !in s && (forall i, j :: 0 <= i < j < |s| ==> s[i] != s[j])
    && h.next == (if s == [] then h else s[0])
    && h.prev == (if s == [] then h else s[|s| - 1])
    && (forall i {:trigger s[i].next} :: 0 <= i < |s| ==> s[i].next == After(h, s, i))
    && (forall i {:trigger s[i].prev} :: 0 <= i < |s| ==> s[i].prev == Before(h, s, i))
  }

  method Init(q: QueueNode)
    modifies q
    ensures List(q, [])
  {
    q.next := q;
    q.prev := q;
  }

  method IsEmpty(h: QueueNode, ghost s: seq<QueueNode>) returns (r: bool)
    requires List(h, s)
    ensures r <==> s == []
  {
    r := h == h.next;
  }

  method Head(h: QueueNode, ghost s: seq<QueueNode>) returns (q: QueueNode)
    requires List(h, s) && s != []
    ensures q == s[0]
  {
    q := h.next;
  }

  method InsertTail(h: QueueNode, q: QueueNode, ghost s: seq<QueueNode>)
    requires List(h, s) && q != h && q !in s
    modifies q, h, s
    ensures List(h, s + [q])
  {
    var last := h.prev;
    assert s != [] ==> last == s[|s| - 1] && last.next == h;
    q.next := h;
    q.prev := last;
    last.next := q;
    h.prev := q;
    ghost var d := s + [q];
    forall i | 0 <= i < |d|
      ensures d[i].next == After(h, d, i) && d[i].prev == Before(h, d, i)
    {
      if i < |s| { assert d[i] == s[i] != q && old(s[i].next) == After(h, s, i) && old(s[i].prev) == Before(h, s, i); }
      if i > 0 { assert d[i - 1] == s[i - 1] != q; }
      if i + 1 < |s| { assert d[i + 1] == s[i + 1]; }
    }
  }

  method InsertHead(h: QueueNode, q: QueueNode, ghost s: seq<QueueNode>)
    requires List(h, s) && q != h && q !in s
    modifies q, h, s
    ensures List(h, [q] + s)
  {
    var first := h.next;
    assert s != [] ==> first == s[0];
    q.next := first;
    q.prev := h;
    first.prev := q;
    h.next := q;
    ghost var d := [q] + s;
    forall i | 0 <= i < |d|
      ensures d[i].next == After(h, d, i) && d[i].prev == Before(h, d, i)
    {
      if i > 0 { assert d[i] == s[i - 1] != q && old(s[i - 1].next) == After(h, s, i - 1) && old(s[i - 1].prev) == Before(h, s, i - 1); }
      if i > 1 { assert d[i - 1] == s[i - 2]; }
      if i < |s| { assert d[i + 1] == s[i]; }
    }
  }

  /** Unlinks a node; its own links still point into the list. */
  method Remove(q: QueueNode, ghost h: QueueNode, ghost s: seq<QueueNode>, ghost k: nat)
    requires List(h, s) && k < |s| && s[k] == q
    modifies h, s
    ensures List(h, s[..k] + s[k + 1..])
    ensures q.next == old(q.next) && q.prev == old(q.prev)
  {
    var before, after := q.prev, q.next;
    assert s[k].prev == before && s[k].next == after;
    assert before == Before(h, s, k) && after == After(h, s, k);
    before.next := after;
    after.prev := before;
    ghost var d := s[..k] + s[k + 1..];
    forall i | 0 <= i < |d|
      ensures d[i].next == After(h, d, i) && d[i].prev == Before(h, d, i)
    {
      var j := if i < k then i else i + 1;
      assert d[i] == s[j] && old(s[j].next) == After(h, s, j) && old(s[j].prev) == Before(h, s, j);
      if i > 0 { assert d[i - 1] == if i - 1 < k then s[i - 1] else s[i]; }
      if i + 1 < |d| { assert d[i + 1] == if i + 1 < k then s[i + 1] else s[i + 2]; }
    }
  }

  /** Moves all nodes to the list of `n`, in the same order; what `n` was linked to before is forgotten. */
  method Move(h: QueueNode, n: QueueNode, ghost s: seq<QueueNode>)
    requires List(h, s) && n != h && n !in s
    modifies h, n, s
    ensures List(h, []) && List(n, s)
  {
    var empty := IsEmpty(h, s);
    if empty {
      n.next := n;
      n.prev := n;
    } else {
      var q, last := h.next, h.prev;
      assert q == s[0] && last == s[|s| - 1] && s[0].prev == h;
      n.prev := last;
      last.next := n;
      n.next := q;
      var before := q.prev;
      assert before == h;
      h.prev := before;
      before.next := h;
      q.prev := n;
    }
  }
}
