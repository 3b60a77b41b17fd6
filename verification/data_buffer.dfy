/** A byte buffer with headroom whose visible part slides as data is consumed. */
module Buffers {

  /** The headroom in front of fresh data, and the slack added when the buffer grows. */
  const RESERVE: int := 200
  const EXTRA: int := 10 * 1024
  const INT_MAX: int := 0x7fff_ffff

  function GetNewSize(n: int): (r: int)
    ensures n <= r && 0 < r && (n > 500 * 1024 ==> r == n + 10 * 1024)
  {
    if n <= 50 * 1024 then 50 * 1024
    else if n <= 100 * 1024 then 100 * 1024
    else if n <= 200 * 1024 then 200 * 1024
    else if n <= 500 * 1024 then 500 * 1024
    else n + 10 * 1024
  }

  /** Up to half a megabyte it is the least of four sizes that is enough. */
  lemma NewSizeLeast(n: int)
    requires n <= 500 * 1024
    ensures var r, sizes := GetNewSize(n), {50 * 1024, 100 * 1024, 200 * 1024, 500 * 1024};
            r in sizes && n <= r && forall q :: q in sizes && n <= q ==> r <= q
  {
  }

  /** A plain copy of `n` bytes between two offsets of one buffer. */
  datatype Move = Move(to: nat, from: nat, n: nat)

  predicate Within(k: int, at: nat, n: nat) {
    at <= k < at + n
  }

  /** The two ranges share a byte, for which a plain copy of memory is not defined. */
  ghost predicate Overlap(to: nat, from: nat, n: nat) {
    exists k :: Within(k, to, n) && Within(k, from, n)
  }

  ghost predicate SomeOverlap(moves: seq<Move>) {
    exists i :: 0 <= i < |moves| && Overlap(moves[i].to, moves[i].from, moves[i].n)
  }

  /** Moreover the ranges are not the same, so that the order of the single copies matters. */
  ghost predicate Clobbers(m: Move) {
    m.to != m.from && Overlap(m.to, m.from, m.n)
  }

  ghost predicate SomeClobber(moves: seq<Move>) {
    exists i :: 0 <= i < |moves| && Clobbers(moves[i])
  }

  /** A plain copy of memory. It is promised to copy where it is defined, and to leave the bytes when it copies
      a range onto itself. */
  method Memcpy(dst: array<char>, at: nat, src: array<char>, from: nat, n: nat)
    requires at + n <= dst.Length && from + n <= src.Length
    modifies dst
    ensures dst != src || at == from || !Overlap(at, from, n) ==> dst[at..at + n] == old(src[from..from + n])
    ensures dst[..at] == old(dst[..at]) && dst[at + n..] == old(dst[at + n..])
  {
    ghost var was, kept := src[..], dst[..];
    for i := 0 to n
      invariant forall k :: 0 <= k < at || at + i <= k < dst.Length ==> dst[k] == kept[k]
      invariant dst != src || at == from || !Overlap(at, from, n) ==>
                  forall k :: at <= k < at + i ==> dst[k] == was[k - at + from]
    {
      assert Within(from + i, from, n);
      assert at <= from + i < at + i ==> Within(from + i, at, n);
      dst[at + i] := src[from + i];
    }
    assert dst[..at] == kept[..at] && dst[at + n..] == kept[at + n..];
    if dst != src || at == from || !Overlap(at, from, n) {
      SameSlices(dst[..], at, was, from, n);
    }
  }

  lemma SameSlices(a: string, at: nat, b: string, from: nat, n: nat)
    requires at + n <= |a| && from + n <= |b| && forall k :: at <= k < at + n ==> a[k] == b[k - at + from]
    ensures a[at..at + n] == b[from..from + n]
  {
  }

  method CopyIn(dst: array<char>, at: nat, input: string)
    requires at + |input| <= dst.Length
    modifies dst
    ensures dst[at..at + |input|] == input
    ensures dst[..at] == old(dst[..at]) && dst[at + |input|..] == old(dst[at + |input|..])
  {
    forall k | at <= k < at + |input| {
      dst[k] := input[k - at];
    }
  }

  lemma Joined(s: string, a: nat, b: nat, c: nat)
    requires a <= b <= c <= |s|
    ensures s[a..c] == s[a..b] + s[b..c]
  {
  }

  // ---------- The offsets ----------

  /** Where the visible bytes are, in a buffer of which `size` bytes count. */
  datatype Layout = Layout(start: int, end: int, len: int, size: int)

  predicate Fits(g: Layout) {
    RESERVE <= g.size && 0 <= g.start && 0 <= g.len && g.start + g.len == g.end && g.end <= g.size
  }

  function Fresh(size: int): Layout {
    Layout(RESERVE, RESERVE, 0, size)
  }

  /** There is no room for `n` more bytes behind the visible ones. */
  predicate NoRoomBehind(g: Layout, n: int) {
    n > 0 && g.end + n > g.size - RESERVE
  }

  /** There is room for `n` more bytes once the visible ones are moved to the front. */
  predicate RoomInFront(g: Layout, n: int) {
    g.len + n < g.size - RESERVE
  }

  function AfterAppend(g: Layout, n: int): (r: Layout)
    requires Fits(g) && 0 <= n
    ensures Fits(r) && r.len == g.len + n
  {
    if NoRoomBehind(g, n) then
      var size := if RoomInFront(g, n) then g.size else GetNewSize(g.len + n + EXTRA);
      Layout(RESERVE, RESERVE + g.len + n, g.len + n, size)
    else Layout(g.start, g.end + n, g.len + n, g.size)
  }

  function AfterConsume(g: Layout, len: int): (r: Layout)
    requires Fits(g)
    ensures Fits(r)
  {
    if len > g.len || g.start + len < 0 then g
    else if g.len == len then Fresh(g.size)
    else Layout(g.start + len, g.end, g.len - len, g.size)
  }

  /** The plain copies inside the buffer that appending `n` bytes makes: with as much data as lies in front of
      it the compaction goes through a temporary, and with less it copies at once. */
  function Moves(g: Layout, n: int): seq<Move>
    requires Fits(g)
  {
    if NoRoomBehind(g, n) && RoomInFront(g, n) && g.len < g.start then [Move(RESERVE, g.start, g.len)] else []
  }

  /** The data is compacted at once, and its place and its new place have a byte in common. */
  predicate CopiesOverlap(g: Layout, n: int) {
    NoRoomBehind(g, n) && RoomInFront(g, n) && 0 < g.len < g.start < RESERVE + g.len && RESERVE < g.end
  }

  /** The same, with another place. */
  predicate CopiesClobber(g: Layout, n: int) {
    CopiesOverlap(g, n) && g.start != RESERVE
  }

  /** Exactly then one of the copies has ranges that overlap, or overlap without being the same. */
  lemma CompactionOverlap(g: Layout, n: int)
    requires Fits(g)
    ensures SomeOverlap(Moves(g, n)) <==> CopiesOverlap(g, n)
    ensures SomeClobber(Moves(g, n)) <==> CopiesClobber(g, n)
  {
    assert Moves(g, n) != [] ==> Moves(g, n) == [Moves(g, n)[0]];
    if CopiesOverlap(g, n) {
      var k := if g.start < RESERVE then RESERVE else g.start;
      assert Within(k, RESERVE, g.len) && Within(k, g.start, g.len);
      assert Overlap(Moves(g, n)[0].to, Moves(g, n)[0].from, Moves(g, n)[0].n);
      assert CopiesClobber(g, n) ==> Clobbers(Moves(g, n)[0]);
    }
  }

  class DataBuffer {
    var buffer: array<char>
    var bufferSize: nat
    var dataLen: int
    var start: int
    var end: int

    ghost predicate Valid()
      reads this
    {
      Fits(State()) && bufferSize <= buffer.Length
    }

    ghost function State(): Layout
      reads this
    {
      Layout(start, end, dataLen, bufferSize)
    }

    /** The bytes a reader sees. */
    ghost function Visible(): string
      requires Valid()
      reads this, buffer
    {
      buffer[start..end]
    }

    constructor (size: nat)
      requires RESERVE <= size
      ensures Valid() && Visible() == "" && fresh(buffer) && State() == Fresh(size)
    {
      buffer := new char[size + RESERVE](_ => 0 as char);
      bufferSize := size;
      start, end, dataLen := RESERVE, RESERVE, 0;
    }

    /** Appends the input after the visible bytes: in place, or after moving them to the front, or in a
        larger buffer. The bytes are right unless ranges that overlap without being the same were copied. */
    method AppendData(input: string) returns (r: int, ghost moves: seq<Move>)
      requires Valid() && dataLen + |input| + 2 * EXTRA <= INT_MAX
      modifies this, buffer
      ensures Valid() && State() == AfterAppend(old(State()), |input|) && dataLen <= INT_MAX
      ensures moves == Moves(old(State()), |input|)
      ensures !CopiesClobber(old(State()), |input|) ==> Visible() == old(Visible()) + input
      ensures r == (if input == "" then 0 else dataLen)
      ensures buffer == old(buffer) || fresh(buffer)
    {
      moves := [];
      if input == "" {
        return 0, moves;
      }
      if end + |input| > bufferSize - RESERVE {
        if dataLen + |input| >= bufferSize - RESERVE {
          Grow(input);
        } else {
          CompactionOverlap(State(), |input|);
          moves := Compact(input);
        }
        return dataLen, moves;
      }
      Extend(input);
      r := dataLen;
    }

    method Extend(input: string)
      requires Valid() && end + |input| <= bufferSize
      modifies this, buffer
      ensures Valid() && Visible() == old(Visible()) + input && buffer == old(buffer)
      ensures State() == Layout(old(start), old(end) + |input|, old(dataLen) + |input|, old(bufferSize))
    {
      CopyIn(buffer, end, input);
      assert buffer[..end] == old(buffer[..end]);
      assert buffer[start..end] == buffer[..end][start..];
      dataLen := dataLen + |input|;
      end := end + |input|;
    }

    method Grow(input: string)
      requires Valid() && dataLen + |input| + 2 * EXTRA <= INT_MAX
      modifies this
      ensures Valid() && Visible() == old(Visible()) + input && fresh(buffer)
      ensures bufferSize == GetNewSize(old(dataLen) + |input| + EXTRA)
      ensures start == RESERVE && dataLen == old(dataLen) + |input|
    {
      var newLen := GetNewSize(dataLen + |input| + EXTRA);
      var bigger := Enlarged(newLen, input);
      buffer := bigger;
      bufferSize := newLen;
      dataLen := dataLen + |input|;
      start := RESERVE;
      end := start + dataLen;
    }

    /** A new buffer with the visible bytes and the input. */
    method Enlarged(newLen: int, input: string) returns (bigger: array<char>)
      requires Valid() && RESERVE + dataLen + |input| <= newLen
      ensures fresh(bigger) && bigger.Length == newLen
      ensures bigger[RESERVE..RESERVE + dataLen + |input|] == Visible() + input
    {
      bigger := new char[newLen];
      Memcpy(bigger, RESERVE, buffer, start, dataLen);
      ghost var seen := bigger[RESERVE..RESERVE + dataLen];
      CopyIn(bigger, RESERVE + dataLen, input);
      assert bigger[RESERVE..RESERVE + dataLen] == bigger[..RESERVE + dataLen][RESERVE..] == seen;
      Joined(bigger[..], RESERVE, RESERVE + dataLen, RESERVE + dataLen + |input|);
    }

    /** Moves the visible bytes to the front of the same buffer and appends the input. */
    method Compact(input: string) returns (ghost moves: seq<Move>)
      requires Valid() && dataLen + |input| < bufferSize - RESERVE
      modifies this, buffer
      ensures Valid() && buffer == old(buffer)
      ensures State() == Layout(RESERVE, RESERVE + old(dataLen) + |input|, old(dataLen) + |input|, old(bufferSize))
      ensures moves == if old(dataLen) < old(start) then [Move(RESERVE, old(start), old(dataLen))] else []
      ensures !SomeClobber(moves) ==> Visible() == old(Visible()) + input
    {
      moves := MoveToFront();
      ghost var moved := buffer[RESERVE..RESERVE + dataLen];
      CopyIn(buffer, RESERVE + dataLen, input);
      assert buffer[RESERVE..RESERVE + dataLen] == buffer[..RESERVE + dataLen][RESERVE..] == moved;
      dataLen := dataLen + |input|;
      start := RESERVE;
      end := start + dataLen;
      Joined(buffer[..], start, end - |input|, end);
    }

    /** Moves the visible bytes behind the headroom, through a temporary when there are many. */
    method MoveToFront() returns (ghost moves: seq<Move>)
      requires Valid() && RESERVE + dataLen <= bufferSize
      modifies buffer
      ensures moves == if dataLen < start then [Move(RESERVE, start, dataLen)] else []
      ensures !SomeClobber(moves) ==> buffer[RESERVE..RESERVE + dataLen] == old(Visible())
    {
      if dataLen >= start {
        var temp := new char[dataLen];
        Memcpy(temp, 0, buffer, start, dataLen);
        assert temp[0..dataLen] == old(buffer[start..start + dataLen]);
        Memcpy(buffer, RESERVE, temp, 0, dataLen);
        moves := [];
      } else {
        Memcpy(buffer, RESERVE, buffer, start, dataLen);
        moves := [Move(RESERVE, start, dataLen)];
        assert Overlap(RESERVE, start, dataLen) && RESERVE != start ==> Clobbers(moves[0]);
      }
    }

    /** Drops visible bytes from the front. A negative length brings back what lies before them, as far as
        the buffer reaches; the result is the offset of the visible bytes, or -1 when nothing was done. */
    method ConsumeData(len: int) returns (at: int)
      requires Valid()
      modifies this
      ensures Valid() && buffer == old(buffer) && State() == AfterConsume(old(State()), len)
      ensures at == -1 <==> len > old(dataLen) || old(start) + len < 0
      ensures at == -1 ==> Visible() == old(Visible())
      ensures at != -1 ==> at == start
      ensures at != -1 && len >= 0 ==> Visible() == old(Visible())[len..]
      ensures at != -1 && len < 0 && dataLen > 0 ==> |Visible()| == |old(Visible())| - len && Visible()[-len..] == old(Visible())
    {
      if len > dataLen {
        return -1;
      }
      if len < 0 {
        if start + len < 0 {
          return -1;
        }
      }
      start := start + len;
      dataLen := dataLen - len;
      if dataLen == 0 {
        Reset();
      }
      at := start;
    }

    method Reset()
      requires RESERVE <= bufferSize <= buffer.Length
      modifies this
      ensures Valid() && Visible() == "" && buffer == old(buffer) && State() == Fresh(old(bufferSize))
    {
      start, end, dataLen := RESERVE, RESERVE, 0;
    }
  }

  // ---------- Every run ----------

  datatype Op = Append(data: string) | Consume(len: nat) | Clear

  /** What a byte queue does; a request for more than there is changes nothing. */
  function Queue(q: string, op: Op): string {
    match op
    case Append(data) => q + data
    case Consume(len) => if len <= |q| then q[len..] else q
    case Clear => ""
  }

  function Queued(q: string, ops: seq<Op>): string {
    if ops == [] then q else Queue(Queued(q, ops[..|ops| - 1]), ops[|ops| - 1])
  }

  function Added(op: Op): nat {
    if op.Append? then |op.data| else 0
  }

  /** Where the visible bytes are after a run. */
  function LayoutAfter(size: nat, ops: seq<Op>): (g: Layout)
    requires RESERVE <= size
    ensures Fits(g)
  {
    if ops == [] then Fresh(size) else After(LayoutAfter(size, ops[..|ops| - 1]), ops[|ops| - 1])
  }

  function After(g: Layout, op: Op): (r: Layout)
    requires Fits(g)
    ensures Fits(r)
  {
    match op
    case Append(data) => AfterAppend(g, |data|)
    case Consume(len) => AfterConsume(g, len)
    case Clear => Fresh(g.size)
  }

  /** No append of the run copies overlapping ranges. */
  predicate Defined(size: nat, ops: seq<Op>)
    requires RESERVE <= size
  {
    forall i :: 0 <= i < |ops| && ops[i].Append? ==> !CopiesOverlap(LayoutAfter(size, ops[..i]), Added(ops[i]))
  }

  /** No append of the run copies ranges that overlap without being the same. */
  predicate Intact(size: nat, ops: seq<Op>)
    requires RESERVE <= size
  {
    forall i :: 0 <= i < |ops| && ops[i].Append? ==> !CopiesClobber(LayoutAfter(size, ops[..i]), Added(ops[i]))
  }

  /** A buffer that is only appended to and reset never does. */
  lemma AppendsOnly(size: nat, ops: seq<Op>)
    requires RESERVE <= size && forall i :: 0 <= i < |ops| ==> !ops[i].Consume?
    ensures Intact(size, ops)
  {
    forall i | 0 <= i < |ops| ensures LayoutAfter(size, ops[..i]).start == RESERVE {
      StartStays(size, ops[..i]);
    }
  }

  lemma {:induction false} StartStays(size: nat, ops: seq<Op>)
    requires RESERVE <= size && forall i :: 0 <= i < |ops| ==> !ops[i].Consume?
    ensures LayoutAfter(size, ops).start == RESERVE
    decreases |ops|
  {
    if ops != [] {
      StartStays(size, ops[..|ops| - 1]);
    }
  }

  /** The bytes ever appended. */
  function Appended(ops: seq<Op>): nat {
    if ops == [] then 0 else Appended(ops[..|ops| - 1]) + Added(ops[|ops| - 1])
  }

  /** One more operation. */
  lemma QueuedNext(ops: seq<Op>, i: nat)
    requires i < |ops|
    ensures Queued("", ops[..i + 1]) == Queue(Queued("", ops[..i]), ops[i])
    ensures |Queued("", ops[..i])| + Added(ops[i]) <= Appended(ops)
  {
    assert ops[..i + 1][..i] == ops[..i];
    QueuedLength(ops[..i]);
    AppendedGrows(ops, i + 1);
  }

  lemma {:induction false} QueuedLength(ops: seq<Op>)
    ensures |Queued("", ops)| <= Appended(ops)
    decreases |ops|
  {
    if ops != [] { QueuedLength(ops[..|ops| - 1]); }
  }

  lemma {:induction false} AppendedGrows(ops: seq<Op>, k: nat)
    requires k <= |ops|
    ensures Appended(ops[..k]) <= Appended(ops)
    decreases |ops|
  {
    if k < |ops| {
      AppendedGrows(ops[..|ops| - 1], k);
      assert ops[..|ops| - 1][..k] == ops[..k];
    } else {
      assert ops[..k] == ops;
    }
  }

  /** The run is defined so far. */
  lemma DefinedNext(size: nat, ops: seq<Op>, i: nat)
    requires RESERVE <= size && i < |ops|
    ensures var g, append := LayoutAfter(size, ops[..i]), ops[i].Append?;
            && Defined(size, ops[..i + 1]) == (Defined(size, ops[..i]) && !(append && CopiesOverlap(g, Added(ops[i]))))
            && Intact(size, ops[..i + 1]) == (Intact(size, ops[..i]) && !(append && CopiesClobber(g, Added(ops[i]))))
  {
    forall j | 0 <= j <= i ensures ops[..i + 1][j] == ops[j] && ops[..i + 1][..j] == ops[..j] {
    }
    forall j | 0 <= j < i ensures ops[..i][j] == ops[j] && ops[..i][..j] == ops[..j] {
    }
  }

  lemma LayoutNext(size: nat, ops: seq<Op>, i: nat)
    requires RESERVE <= size && i < |ops|
    ensures LayoutAfter(size, ops[..i + 1]) == After(LayoutAfter(size, ops[..i]), ops[i])
  {
    assert ops[..i + 1][..i] == ops[..i];
  }

  lemma SomeOverlapJoin(a: seq<Move>, b: seq<Move>)
    ensures SomeOverlap(a + b) == (SomeOverlap(a) || SomeOverlap(b))
    ensures SomeClobber(a + b) == (SomeClobber(a) || SomeClobber(b))
  {
    var c := a + b;
    if i :| 0 <= i < |a| && Clobbers(a[i]) {
      assert c[i] == a[i];
    }
    if i :| 0 <= i < |b| && Clobbers(b[i]) {
      assert c[|a| + i] == b[i];
    }
    if i :| 0 <= i < |a| && Overlap(a[i].to, a[i].from, a[i].n) {
      assert c[i] == a[i];
    }
    if i :| 0 <= i < |b| && Overlap(b[i].to, b[i].from, b[i].n) {
      assert c[|a| + i] == b[i];
    }
  }

  method Apply(b: DataBuffer, op: Op) returns (ghost moves: seq<Move>)
    requires b.Valid() && b.dataLen + Added(op) + 2 * EXTRA <= INT_MAX
    modifies b, b.buffer
    ensures b.Valid() && (b.buffer == old(b.buffer) || fresh(b.buffer))
    ensures b.State() == After(old(b.State()), op)
    ensures SomeOverlap(moves) == (op.Append? && CopiesOverlap(old(b.State()), Added(op)))
    ensures SomeClobber(moves) == (op.Append? && CopiesClobber(old(b.State()), Added(op)))
    ensures !SomeClobber(moves) ==> b.Visible() == Queue(old(b.Visible()), op)
  {
    ghost var g := b.State();
    moves := [];
    if op.Append? {
      var r, m := b.AppendData(op.data);
      CompactionOverlap(g, |op.data|);
      moves := m;
    } else if op.Consume? {
      var _ := b.ConsumeData(op.len);
    } else {
      b.Reset();
    }
  }

  /** The offsets, the bytes and the copies after `i` operations are what the specification says. */
  ghost predicate Follows(size: nat, ops: seq<Op>, i: nat, g: Layout, seen: string, moves: seq<Move>)
    requires RESERVE <= size && i <= |ops|
  {
    && g == LayoutAfter(size, ops[..i]) && g.len == |seen| == |Queued("", ops[..i])|
    && SomeOverlap(moves) == !Defined(size, ops[..i])
    && SomeClobber(moves) == !Intact(size, ops[..i])
    && (Intact(size, ops[..i]) ==> seen == Queued("", ops[..i]))
  }

  lemma FollowsNext(size: nat, ops: seq<Op>, i: nat, g: Layout, seen: string, moves: seq<Move>,
                    g': Layout, seen': string, more: seq<Move>)
    requires RESERVE <= size && i < |ops| && Follows(size, ops, i, g, seen, moves) && g'.len == |seen'|
    requires g' == After(g, ops[i])
    requires SomeOverlap(more) == (ops[i].Append? && CopiesOverlap(g, Added(ops[i])))
    requires SomeClobber(more) == (ops[i].Append? && CopiesClobber(g, Added(ops[i])))
    requires !SomeClobber(more) ==> seen' == Queue(seen, ops[i])
    ensures Follows(size, ops, i + 1, g', seen', moves + more)
  {
    QueuedNext(ops, i);
    LayoutNext(size, ops, i);
    DefinedNext(size, ops, i);
    SomeOverlapJoin(moves, more);
  }

  method ApplyNext(size: nat, ops: seq<Op>, i: nat, b: DataBuffer, ghost moves: seq<Move>) returns (ghost all: seq<Move>)
    requires RESERVE <= size && Appended(ops) + 2 * EXTRA <= INT_MAX && i < |ops|
    requires b.Valid() && Follows(size, ops, i, b.State(), b.Visible(), moves)
    modifies b, b.buffer
    ensures b.Valid() && (b.buffer == old(b.buffer) || fresh(b.buffer))
    ensures Follows(size, ops, i + 1, b.State(), b.Visible(), all)
  {
    ghost var g, seen := b.State(), b.Visible();
    QueuedNext(ops, i);
    ghost var more := Apply(b, ops[i]);
    FollowsNext(size, ops, i, g, seen, moves, b.State(), b.Visible(), more);
    all := moves + more;
  }

  /** A run copies no overlapping ranges exactly when it is `Defined`, and none but equal ones exactly when it is
      `Intact`. Then the buffer shows what a byte queue would hold. */
  method RefinesQueue(size: nat, ops: seq<Op>) returns (seen: string, ghost moves: seq<Move>)
    requires RESERVE <= size && Appended(ops) + 2 * EXTRA <= INT_MAX
    ensures SomeOverlap(moves) == !Defined(size, ops)
    ensures SomeClobber(moves) == !Intact(size, ops)
    ensures Intact(size, ops) ==> seen == Queued("", ops)
    ensures |seen| == |Queued("", ops)|
  {
    var b := new DataBuffer(size);
    assert ops[..0] == [];
    moves := [];
    for i := 0 to |ops|
      invariant b.Valid() && fresh(b) && fresh(b.buffer)
      invariant Follows(size, ops, i, b.State(), b.Visible(), moves)
    {
      moves := ApplyNext(size, ops, i, b, moves);
    }
    assert ops[..|ops|] == ops;
    seen := b.buffer[b.start..b.end];
  }

  /** Appending, consuming less than half and appending again leads to an overlapping copy, if the first input
      fits in place, and the second only after the compaction. */
  method OverlapReached(size: nat, first: string, n: nat, second: string) returns (r: int, ghost moves: seq<Move>)
    requires |first| + 2 * RESERVE <= size && 2 * n < |first| < RESERVE + 2 * n
    requires |first| - n + |second| < size - RESERVE < RESERVE + |first| + |second|
    requires |first| + |second| + 2 * EXTRA <= INT_MAX
    ensures |moves| == 1 && moves[0].to == RESERVE && moves[0].from == RESERVE + n && moves[0].n == |first| - n
    ensures SomeOverlap(moves) && (SomeClobber(moves) <==> n > 0) && r == |first| - n + |second|
  {
    var b := new DataBuffer(size);
    var _, _ := b.AppendData(first);
    var _ := b.ConsumeData(n);
    CompactionOverlap(b.State(), |second|);
    r, moves := b.AppendData(second);
  }

  /** So it does with the default size. */
  method OverlapExample(first: string, second: string) returns (r: int, ghost moves: seq<Move>)
    requires |first| == 350 && |second| == 9500
    ensures |moves| == 1 && moves[0].to == 200 && moves[0].from == 300 && moves[0].n == 250
    ensures SomeClobber(moves) && r == 9750
  {
    r, moves := OverlapReached(EXTRA, first, 100, second);
  }
}
