/** The scheduler of the timers: a heap of nodes, one for each armed timer, is the map from armed timers to
    deadlines that the timer loop works with. */
module TimerHeap {
  import opened Links
  import opened Heaps
  import opened TimerBooks

  type TimerNode = Node<Timer, Deadline>

  type Tags = map<TimerNode, Deadline>

  /** No timer has two nodes. */
  ghost predicate OneEach(nodes: set<TimerNode>) {
    forall n, m :: n in nodes && m in nodes && n.data == m.data ==> n == m
  }

  ghost function Table(tags: Tags): Queue
    requires OneEach(tags.Keys)
  {
    map n | n in tags.Keys :: n.data := tags[n]
  }

  lemma TableAdded(tags: Tags, n: TimerNode, d: Deadline)
    requires OneEach(tags.Keys) && n.data !in Table(tags)
    ensures n !in tags && OneEach(tags.Keys + {n}) && Table(tags[n := d]) == Table(tags)[n.data := d]
  {
    forall m | m in tags.Keys ensures m.data != n.data {
      assert m.data in Table(tags);
    }
    var after := tags[n := d];
    assert after.Keys == tags.Keys + {n};
    assert OneEach(after.Keys);
    var t := Table(after);
    assert n in after.Keys && t[n.data] == d;
    assert forall m :: m in tags.Keys ==> m in after.Keys && t[m.data] == tags[m];
  }

  lemma TableDropped(tags: Tags, n: TimerNode)
    requires OneEach(tags.Keys) && n in tags
    ensures OneEach(tags.Keys - {n}) && Table(tags - {n}) == Table(tags) - {n.data}
  {
    var after := tags - {n};
    assert after.Keys == tags.Keys - {n};
    assert OneEach(after.Keys);
    assert forall m :: m in after.Keys ==> m in tags.Keys && m.data != n.data;
  }

  /** The heap holds the nodes of the table, each with its deadline. */
  ghost predicate Holds(heap: Heap<Timer, Deadline>, tags: Tags)
    reads heap, heap.head, heap.head.mem.Keys
  {
    && heap.Valid(LessThan) && heap.head.mem.Keys == tags.Keys && OneEach(tags.Keys)
    && forall n :: n in heap.head.mem.Keys ==> n.tag == tags[n]
  }

  /** Stores the deadline in a node that is not in the heap. */
  method SetDeadline(heap: Heap<Timer, Deadline>, node: TimerNode, d: Deadline, ghost tags: Tags)
    requires Holds(heap, tags) && node !in heap.head.mem
    modifies node
    ensures Holds(heap, tags) && node.tag == d
  {
    node.tag := d;
    assert heap.Valid(LessThan);
  }

  /** A node with a deadline of its own joins those in the heap. */
  method Join(heap: Heap<Timer, Deadline>, node: TimerNode, ghost tags: Tags)
    requires Holds(heap, tags) && node !in tags && OneEach(tags.Keys + {node})
    modifies heap, heap.head, heap.head.mem.Keys`left, heap.head.mem.Keys`right, heap.head.mem.Keys`parent
    modifies node`left, node`right, node`parent
    ensures Holds(heap, tags[node := node.tag])
  {
    ghost var after := tags[node := node.tag];
    assert after.Keys == tags.Keys + {node};
    assert forall n :: n in after.Keys ==> n.tag == after[n];
    HeapInsert(heap, node);
    assert heap.head.mem.Keys == after.Keys;
  }

  method HeapInsert(heap: Heap<Timer, Deadline>, node: TimerNode)
    requires heap.Valid(LessThan) && node !in heap.head.mem
    modifies heap, heap.head, heap.head.mem.Keys`left, heap.head.mem.Keys`right, heap.head.mem.Keys`parent
    modifies node`left, node`right, node`parent
    ensures heap.Valid(LessThan) && heap.head.mem.Keys == old(heap.head.mem.Keys) + {node}
    ensures forall n :: n in heap.head.mem.Keys ==> n.tag == old(n.tag)
  {
    LessThanIsWeak();
    heap.Insert(node, LessThan);
  }

  /** Arms the timer of the node, which is not armed. */
  method Arm(heap: Heap<Timer, Deadline>, node: TimerNode, d: Deadline, ghost tags: Tags)
    requires Holds(heap, tags) && node.data !in Table(tags)
    modifies heap, heap.head, heap.head.mem.Keys, node
    ensures Holds(heap, tags[node := d]) && Table(tags[node := d]) == Table(tags)[node.data := d]
  {
    TableAdded(tags, node, d);
    SetDeadline(heap, node, d, tags);
    Join(heap, node, tags);
  }

  /** The node leaves the heap; all deadlines stay. */
  method HeapRemove(heap: Heap<Timer, Deadline>, node: TimerNode)
    requires heap.Valid(LessThan) && node in heap.head.mem
    modifies heap, heap.head, heap.head.mem.Keys
    ensures heap.Valid(LessThan) && heap.head.mem.Keys == old(heap.head.mem.Keys) - {node}
    ensures forall n :: n in heap.head.mem.Keys ==> n.tag == old(n.tag)
  {
    LessThanIsWeak();
    heap.Remove(node, LessThan);
  }

  /** Disarms the timer of the node, which is armed. */
  method Disarm(heap: Heap<Timer, Deadline>, node: TimerNode, ghost tags: Tags)
    requires Holds(heap, tags) && node in tags
    modifies heap, heap.head, heap.head.mem.Keys
    ensures Holds(heap, tags - {node}) && Table(tags - {node}) == Table(tags) - {node.data}
  {
    TableDropped(tags, node);
    HeapRemove(heap, node);
  }

  /** The node of a least armed timer, null when none is armed. */
  method Min(heap: Heap<Timer, Deadline>, ghost tags: Tags) returns (r: Node?<Timer, Deadline>)
    requires Holds(heap, tags)
    ensures r == null <==> Table(tags) == map[]
    ensures r != null ==> TimerBooks.Least(Table(tags), r.data) && Table(tags)[r.data] == r.tag
  {
    LessThanIsWeak();
    r := heap.Min(LessThan);
    if r != null {
      assert r in tags.Keys;
      assert r.data in Table(tags);
    }
  }
}
