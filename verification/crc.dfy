/** Division whose dividend comes in bit by bit, for any kind of words. */
module BitDivision {

  function Iter<T>(f: T -> T, x: T, n: nat): T
    decreases n
  {
    if n == 0 then x else Iter(f, f(x), n - 1)
  }

  /** A way to divide: `step` takes one bit off a remainder, `xor` adds, and of a dividend `bit` is the bit
      that comes next and `shift` the rest. */
  datatype Divider<!T> = Divider(step: T -> T, xor: (T, T) -> T, bit: T -> T, shift: T -> T)

  /** Dividing `n` bits of `e`, each added to the remainder as it comes. */
  function Feed<T>(v: Divider<T>, c: T, e: T, n: nat): T
    decreases n
  {
    if n == 0 then c else Feed(v, v.step(v.xor(c, v.bit(e))), v.shift(e), n - 1)
  }

  /** Only the next bit decides what a step does; the others move along. */
  ghost predicate BitDecides<T(!new)>(v: Divider<T>) {
    forall c, e :: v.step(v.xor(c, e)) == v.xor(v.step(v.xor(c, v.bit(e))), v.shift(e))
  }

  /** Adding the bits as they come, or all of them in advance. */
  lemma {:induction false} FeedAhead<T(!new)>(v: Divider<T>, c: T, e: T, n: nat)
    requires BitDecides(v)
    ensures Iter(v.step, v.xor(c, e), n) == v.xor(Feed(v, c, e, n), Iter(v.shift, e, n))
    decreases n
  {
    if n > 0 {
      FeedAhead(v, v.step(v.xor(c, v.bit(e))), v.shift(e), n - 1);
    }
  }

  /** The next `n` bits of `e` change nothing. */
  ghost predicate Quiet<T(!new)>(v: Divider<T>, e: T, n: nat)
    decreases n
  {
    n > 0 ==> (forall z :: v.xor(z, v.bit(e)) == z) && Quiet(v, v.shift(e), n - 1)
  }

  lemma {:induction false} FeedQuiet<T(!new)>(v: Divider<T>, c: T, e: T, n: nat)
    requires Quiet(v, e, n)
    ensures Feed(v, c, e, n) == Iter(v.step, c, n)
    decreases n
  {
    if n > 0 {
      FeedQuiet(v, v.step(c), v.shift(e), n - 1);
    }
  }

  /** Doing something for each byte in turn. */
  function Fold<T>(round: (T, bv8) -> T, c: T, data: seq<bv8>): T
    decreases |data|
  {
    if data == [] then c else Fold(round, round(c, data[0]), data[1..])
  }
}

/** Tables of linear functions, in rows of sixteen. */
module LinearTables {
  import opened BitDivision

  ghost predicate Linear<T(!new)>(xor: (T, T) -> T, e: T -> T) {
    forall a, b :: e(xor(a, b)) == xor(e(a), e(b))
  }

  lemma {:induction false} IterLinear<T(!new)>(xor: (T, T) -> T, f: T -> T, a: T, b: T, n: nat)
    requires Linear(xor, f)
    ensures Iter(f, xor(a, b), n) == xor(Iter(f, a, n), Iter(f, b, n))
    decreases n
  {
    if n > 0 { IterLinear(xor, f, f(a), f(b), n - 1); }
  }

  /** How a number is put together from its two halves of four bits. */
  datatype Halving<!T> = Halving(xor: (T, T) -> T, low: nat -> T, high: nat -> T)

  function Word<T>(h: Halving<T>, n: nat): T {
    h.xor(h.low(n % 16), h.high(n / 16))
  }

  /** The row holds the entries of the numbers from `lo` up to `hi`. */
  ghost predicate Part<T>(h: Halving<T>, r: seq<T>, e: T -> T, lo: nat, hi: nat) {
    hi <= |r| && forall j {:trigger h.low(j)} :: lo <= j < hi ==> r[j] == e(h.low(j))
  }

  ghost predicate FirstRow<T>(h: Halving<T>, r: seq<T>, e: T -> T) {
    |r| == 16 && Part(h, r, e, 0, 16)
  }

  lemma Parts<T>(h: Halving<T>, r: seq<T>, e: T -> T)
    requires |r| == 16 && Part(h, r, e, 0, 8) && Part(h, r, e, 8, 16)
    ensures FirstRow(h, r, e)
  {
  }

  /** The row `row` plus the value `v`. */
  function Plus<T>(xor: (T, T) -> T, row: seq<T>, v: T): seq<T>
    requires |row| == 16
  {
    [xor(row[0], v), xor(row[1], v), xor(row[2], v), xor(row[3], v),
     xor(row[4], v), xor(row[5], v), xor(row[6], v), xor(row[7], v),
     xor(row[8], v), xor(row[9], v), xor(row[10], v), xor(row[11], v),
     xor(row[12], v), xor(row[13], v), xor(row[14], v), xor(row[15], v)]
  }

  lemma PlusAt<T>(xor: (T, T) -> T, row: seq<T>, v: T, j: nat)
    requires |row| == 16 && j < 16
    ensures Plus(xor, row, v)[j] == xor(row[j], v)
  {
  }

  /** The sequence holds the entries from number `base` on. */
  ghost predicate Fits<T>(h: Halving<T>, s: seq<T>, base: nat, e: T -> T) {
    forall j :: 0 <= j < |s| ==> s[j] == e(Word(h, base + j))
  }

  /** A whole row follows from the first one and its own first entry. */
  lemma RowFits<T(!new)>(h: Halving<T>, e: T -> T, row: seq<T>, first: seq<T>, k: nat)
    requires Linear(h.xor, e) && FirstRow(h, first, e)
    requires |row| == 16 && row == Plus(h.xor, first, row[0]) && row[0] == e(h.high(k))
    ensures Fits(h, row, 16 * k, e)
  {
    forall j | 0 <= j < 16 ensures row[j] == e(Word(h, 16 * k + j)) {
      PlusAt(h.xor, first, row[0], j);
      assert (16 * k + j) % 16 == j && (16 * k + j) / 16 == k;
      assert first[j] == e(h.low(j));
    }
  }

  lemma FitsConcat<T>(h: Halving<T>, a: seq<T>, b: seq<T>, base: nat, mid: nat, e: T -> T)
    requires Fits(h, a, base, e) && Fits(h, b, mid, e) && mid == base + |a|
    ensures Fits(h, a + b, base, e)
  {
    forall j | 0 <= j < |a + b| ensures (a + b)[j] == e(Word(h, base + j)) {
      if j >= |a| { assert (a + b)[j] == b[j - |a|]; }
    }
  }
}

/** The two dividers of CRC-32. */
module CrcBits {
  import opened BitDivision

  function Xor(a: bv32, b: bv32): bv32 {
    a ^ b
  }

  // Least significant bit first, by the reflected polynomial.

  function StepLow(c: bv32): bv32 {
    if LowBit(c) != 0 then Xor(Half(c), 0xEDB88320) else Half(c)
  }

  function LowBit(e: bv32): bv32 {
    e & 1
  }

  function Half(e: bv32): bv32 {
    e >> 1
  }

  // Most significant bit first.

  function StepHigh(m: bv32): bv32 {
    if HighBit(m) != 0 then Xor(Double(m), 0x04C11DB7) else Double(m)
  }

  function HighBit(e: bv32): bv32 {
    e & 0x8000_0000
  }

  function Double(e: bv32): bv32 {
    e << 1
  }

  const LOW_FIRST: Divider<bv32> := Divider(StepLow, Xor, LowBit, Half)
  const HIGH_FIRST: Divider<bv32> := Divider(StepHigh, Xor, HighBit, Double)

  /** The bytes of a word in the opposite order. */
  function Swap(c: bv32): bv32 {
    (c << 24) | ((c & 0xff00) << 8) | ((c >> 8) & 0xff00) | (c >> 24)
  }

  /** The eight steps of a byte, written out for the evaluation of table entries. */
  function LowSteps(c: bv32): bv32 {
    StepLow(StepLow(StepLow(StepLow(StepLow(StepLow(StepLow(StepLow(c))))))))
  }

  function HighSteps(c: bv32): bv32 {
    StepHigh(StepHigh(StepHigh(StepHigh(StepHigh(StepHigh(StepHigh(StepHigh(c))))))))
  }

  lemma XorMoves(y: bv32, z: bv32, p: bv32)
    ensures Xor(Xor(y, z), p) == Xor(Xor(y, p), z)
  {
    XorXor(y, z, p);
    XorXor(y, p, z);
  }

  lemma XorXor(a: bv32, b: bv32, c: bv32)
    ensures Xor(Xor(a, b), c) == a ^ b ^ c
  {
  }

  lemma LowBitMoves(c: bv32, e: bv32)
    ensures LowBit(Xor(c, e)) == LowBit(Xor(c, LowBit(e)))
  {
  }

  lemma LowRestMoves(c: bv32, e: bv32)
    ensures Half(Xor(c, e)) == Xor(Half(Xor(c, LowBit(e))), Half(e))
  {
  }

  /** Only the next bit decides what a step does. */
  lemma LowDecides(c: bv32, e: bv32)
    ensures StepLow(Xor(c, e)) == Xor(StepLow(Xor(c, LowBit(e))), Half(e))
  {
    LowBitMoves(c, e);
    LowRestMoves(c, e);
    XorMoves(Half(Xor(c, LowBit(e))), Half(e), 0xEDB88320);
  }

  lemma HighBitMoves(c: bv32, e: bv32)
    ensures HighBit(Xor(c, e)) == HighBit(Xor(c, HighBit(e)))
  {
  }

  lemma HighRestMoves(c: bv32, e: bv32)
    ensures Double(Xor(c, e)) == Xor(Double(Xor(c, HighBit(e))), Double(e))
  {
  }

  /** Only the next bit decides what a step does. */
  lemma HighDecides(c: bv32, e: bv32)
    ensures StepHigh(Xor(c, e)) == Xor(StepHigh(Xor(c, HighBit(e))), Double(e))
  {
    HighBitMoves(c, e);
    HighRestMoves(c, e);
    XorMoves(Double(Xor(c, HighBit(e))), Double(e), 0x04C11DB7);
  }
}

/** What the tables hold. */
module CrcEntries {
  import opened BitDivision
  import opened LinearTables
  import opened CrcBits
  import opened CrcTables

  /** The entries for a byte, given as a word. */
  function LeEntry(w: bv32): bv32 {
    LowSteps(w)
  }

  function BeEntry(w: bv32): bv32 {
    Swap(HighSteps(w << 24))
  }

  /** The halves of a byte, as words. */
  function WordLow(j: nat): bv32 {
    match j
    case 0 => 0
    case 1 => 1
    case 2 => 2
    case 3 => 3
    case 4 => 4
    case 5 => 5
    case 6 => 6
    case 7 => 7
    case 8 => 8
    case 9 => 9
    case 10 => 10
    case 11 => 11
    case 12 => 12
    case 13 => 13
    case 14 => 14
    case _ => 15
  }

  function WordHigh(k: nat): bv32 {
    match k
    case 0 => 0x00
    case 1 => 0x10
    case 2 => 0x20
    case 3 => 0x30
    case 4 => 0x40
    case 5 => 0x50
    case 6 => 0x60
    case 7 => 0x70
    case 8 => 0x80
    case 9 => 0x90
    case 10 => 0xa0
    case 11 => 0xb0
    case 12 => 0xc0
    case 13 => 0xd0
    case 14 => 0xe0
    case _ => 0xf0
  }

  const HALVES: Halving<bv32> := Halving(Xor, WordLow, WordHigh)

  lemma LowEight(r: seq<bv32>, e: bv32 -> bv32)
    requires |r| == 16
    requires r[0] == e(0) && r[1] == e(1) && r[2] == e(2) && r[3] == e(3)
    requires r[4] == e(4) && r[5] == e(5) && r[6] == e(6) && r[7] == e(7)
    ensures Part(HALVES, r, e, 0, 8)
  {
    forall j | 0 <= j < 8 ensures r[j] == e(WordLow(j)) {
      match j
      case 0 =>
      case 1 =>
      case 2 =>
      case 3 =>
      case 4 =>
      case 5 =>
      case 6 =>
      case _ => assert j == 7;
    }
  }

  lemma HighEight(r: seq<bv32>, e: bv32 -> bv32)
    requires |r| == 16
    requires r[8] == e(8) && r[9] == e(9) && r[10] == e(10) && r[11] == e(11)
    requires r[12] == e(12) && r[13] == e(13) && r[14] == e(14) && r[15] == e(15)
    ensures Part(HALVES, r, e, 8, 16)
  {
    forall j | 8 <= j < 16 ensures r[j] == e(WordLow(j)) {
      match j
      case 8 =>
      case 9 =>
      case 10 =>
      case 11 =>
      case 12 =>
      case 13 =>
      case 14 =>
      case _ => assert j == 15;
    }
  }

  lemma XorCases(x: bv32, y: bv32, p: bv32)
    ensures Xor(Xor(x, p), y) == Xor(Xor(x, y), p)
    ensures Xor(x, Xor(y, p)) == Xor(Xor(x, y), p)
    ensures Xor(Xor(x, p), Xor(y, p)) == Xor(x, y)
  {
    XorXor(x, p, y);
    XorXor(x, y, p);
    XorXorRight(x, y, p);
    XorXorBoth(x, y, p);
  }

  lemma XorXorRight(x: bv32, y: bv32, p: bv32)
    ensures Xor(x, Xor(y, p)) == x ^ y ^ p
  {
  }

  lemma XorXorBoth(x: bv32, y: bv32, p: bv32)
    ensures Xor(Xor(x, p), Xor(y, p)) == Xor(x, y)
  {
  }

  lemma HalfXor(a: bv32, b: bv32)
    ensures Half(Xor(a, b)) == Xor(Half(a), Half(b))
  {
  }

  lemma LowBitXor(a: bv32, b: bv32)
    ensures LowBit(Xor(a, b)) != 0 <==> (LowBit(a) != 0) != (LowBit(b) != 0)
  {
  }

  /** One step is linear. */
  lemma StepLowXorOdd(a: bv32, b: bv32)
    requires LowBit(a) != 0
    ensures StepLow(Xor(a, b)) == Xor(StepLow(a), StepLow(b))
  {
    HalfXor(a, b);
    LowBitXor(a, b);
    XorCases(Half(a), Half(b), 0xEDB88320);
  }

  lemma StepLowXorEven(a: bv32, b: bv32)
    requires LowBit(a) == 0
    ensures StepLow(Xor(a, b)) == Xor(StepLow(a), StepLow(b))
  {
    HalfXor(a, b);
    LowBitXor(a, b);
    XorCases(Half(a), Half(b), 0xEDB88320);
  }

  lemma StepLowXor(a: bv32, b: bv32)
    ensures StepLow(Xor(a, b)) == Xor(StepLow(a), StepLow(b))
  {
    if LowBit(a) != 0 { StepLowXorOdd(a, b); } else { StepLowXorEven(a, b); }
  }

  lemma DoubleXor(a: bv32, b: bv32)
    ensures Double(Xor(a, b)) == Xor(Double(a), Double(b))
  {
  }

  lemma HighBitXor(a: bv32, b: bv32)
    ensures HighBit(Xor(a, b)) != 0 <==> (HighBit(a) != 0) != (HighBit(b) != 0)
  {
  }

  lemma StepHighXorOdd(a: bv32, b: bv32)
    requires HighBit(a) != 0
    ensures StepHigh(Xor(a, b)) == Xor(StepHigh(a), StepHigh(b))
  {
    DoubleXor(a, b);
    HighBitXor(a, b);
    XorCases(Double(a), Double(b), 0x04C11DB7);
  }

  lemma StepHighXorEven(a: bv32, b: bv32)
    requires HighBit(a) == 0
    ensures StepHigh(Xor(a, b)) == Xor(StepHigh(a), StepHigh(b))
  {
    DoubleXor(a, b);
    HighBitXor(a, b);
    XorCases(Double(a), Double(b), 0x04C11DB7);
  }

  lemma StepHighXor(a: bv32, b: bv32)
    ensures StepHigh(Xor(a, b)) == Xor(StepHigh(a), StepHigh(b))
  {
    if HighBit(a) != 0 { StepHighXorOdd(a, b); } else { StepHighXorEven(a, b); }
  }

  lemma IterEight<T>(f: T -> T, x: T)
    ensures Iter(f, x, 8) == f(f(f(f(f(f(f(f(x))))))))
  {
  }

  lemma LeLinear()
    ensures Linear(Xor, LeEntry)
  {
    assert Linear(Xor, StepLow) by {
      forall a, b ensures StepLow(Xor(a, b)) == Xor(StepLow(a), StepLow(b)) { StepLowXor(a, b); }
    }
    forall a, b ensures LeEntry(Xor(a, b)) == Xor(LeEntry(a), LeEntry(b)) {
      IterLinear(Xor, StepLow, a, b, 8);
      LeIter(a);
      LeIter(b);
      LeIter(Xor(a, b));
    }
  }

  lemma LeIter(w: bv32)
    ensures LeEntry(w) == Iter(StepLow, w, 8)
  {
    IterEight(StepLow, w);
  }

  lemma SwapXor(a: bv32, b: bv32)
    ensures Swap(Xor(a, b)) == Xor(Swap(a), Swap(b))
  {
  }

  lemma TopXor(a: bv32, b: bv32)
    ensures Xor(a, b) << 24 == Xor(a << 24, b << 24)
  {
  }

  lemma BeIter(w: bv32)
    ensures BeEntry(w) == Swap(Iter(StepHigh, w << 24, 8))
  {
    IterEight(StepHigh, w << 24);
  }

  lemma BeXor(a: bv32, b: bv32)
    requires Linear(Xor, StepHigh)
    ensures BeEntry(Xor(a, b)) == Xor(BeEntry(a), BeEntry(b))
  {
    TopXor(a, b);
    IterLinear(Xor, StepHigh, a << 24, b << 24, 8);
    BeIter(a);
    BeIter(b);
    BeIter(Xor(a, b));
    SwapXor(Iter(StepHigh, a << 24, 8), Iter(StepHigh, b << 24, 8));
  }

  lemma BeLinear()
    ensures Linear(Xor, BeEntry)
  {
    assert Linear(Xor, StepHigh) by {
      forall a, b ensures StepHigh(Xor(a, b)) == Xor(StepHigh(a), StepHigh(b)) { StepHighXor(a, b); }
    }
    forall a, b ensures BeEntry(Xor(a, b)) == Xor(BeEntry(a), BeEntry(b)) {
      BeXor(a, b);
    }
  }

  lemma LeZero()
    ensures LE_ROW_0[0] == LeEntry(0)
  {
  }

  /** The other entries of the first row. */
  lemma LeFirst0()
    ensures LE_ROW_0[1] == LeEntry(1)
    ensures LE_ROW_0[2] == LeEntry(2) && LE_ROW_0[3] == LeEntry(3)
  {
  }

  lemma LeFirst1()
    ensures LE_ROW_0[4] == LeEntry(4) && LE_ROW_0[5] == LeEntry(5)
    ensures LE_ROW_0[6] == LeEntry(6) && LE_ROW_0[7] == LeEntry(7)
  {
  }

  lemma LeFirst2()
    ensures LE_ROW_0[8] == LeEntry(8) && LE_ROW_0[9] == LeEntry(9)
    ensures LE_ROW_0[10] == LeEntry(10) && LE_ROW_0[11] == LeEntry(11)
  {
  }

  lemma LeFirst3()
    ensures LE_ROW_0[12] == LeEntry(12) && LE_ROW_0[13] == LeEntry(13)
    ensures LE_ROW_0[14] == LeEntry(14) && LE_ROW_0[15] == LeEntry(15)
  {
  }

  /** The first entries of the rows. */
  lemma LeHeads0()
    ensures LE_ROW_0[0] == LeEntry(0) && LE_ROW_1[0] == LeEntry(16)
    ensures LE_ROW_2[0] == LeEntry(32) && LE_ROW_3[0] == LeEntry(48)
  {
  }

  lemma LeHeads1()
    ensures LE_ROW_4[0] == LeEntry(64) && LE_ROW_5[0] == LeEntry(80)
    ensures LE_ROW_6[0] == LeEntry(96) && LE_ROW_7[0] == LeEntry(112)
  {
  }

  lemma LeHeads2()
    ensures LE_ROW_8[0] == LeEntry(128) && LE_ROW_9[0] == LeEntry(144)
    ensures LE_ROW_10[0] == LeEntry(160) && LE_ROW_11[0] == LeEntry(176)
  {
  }

  lemma LeHeads3()
    ensures LE_ROW_12[0] == LeEntry(192) && LE_ROW_13[0] == LeEntry(208)
    ensures LE_ROW_14[0] == LeEntry(224) && LE_ROW_15[0] == LeEntry(240)
  {
  }

  lemma LeFirstLow()
    ensures Part(HALVES, LE_ROW_0, LeEntry, 0, 8)
  {
    LeZero();
    LeFirst0();
    LeFirst1();
    LowEight(LE_ROW_0, LeEntry);
  }

  lemma LeFirstHigh()
    ensures Part(HALVES, LE_ROW_0, LeEntry, 8, 16)
  {
    LeFirst2();
    LeFirst3();
    HighEight(LE_ROW_0, LeEntry);
  }

  lemma LeFirst()
    ensures FirstRow(HALVES, LE_ROW_0, LeEntry)
  {
    LeFirstLow();
    LeFirstHigh();
    Parts(HALVES, LE_ROW_0, LeEntry);
  }

  /** Each row is the first one plus its own first entry. */
  lemma LeRow0Is()
    ensures LE_ROW_0 == Plus(Xor, LE_ROW_0, LE_ROW_0[0])
  {
  }

  lemma LeRow1Is()
    ensures LE_ROW_1 == Plus(Xor, LE_ROW_0, LE_ROW_1[0])
  {
  }

  lemma LeRow2Is()
    ensures LE_ROW_2 == Plus(Xor, LE_ROW_0, LE_ROW_2[0])
  {
  }

  lemma LeRow3Is()
    ensures LE_ROW_3 == Plus(Xor, LE_ROW_0, LE_ROW_3[0])
  {
  }

  lemma LeRow4Is()
    ensures LE_ROW_4 == Plus(Xor, LE_ROW_0, LE_ROW_4[0])
  {
  }

  lemma LeRow5Is()
    ensures LE_ROW_5 == Plus(Xor, LE_ROW_0, LE_ROW_5[0])
  {
  }

  lemma LeRow6Is()
    ensures LE_ROW_6 == Plus(Xor, LE_ROW_0, LE_ROW_6[0])
  {
  }

  lemma LeRow7Is()
    ensures LE_ROW_7 == Plus(Xor, LE_ROW_0, LE_ROW_7[0])
  {
  }

  lemma LeRow8Is()
    ensures LE_ROW_8 == Plus(Xor, LE_ROW_0, LE_ROW_8[0])
  {
  }

  lemma LeRow9Is()
    ensures LE_ROW_9 == Plus(Xor, LE_ROW_0, LE_ROW_9[0])
  {
  }

  lemma LeRow10Is()
    ensures LE_ROW_10 == Plus(Xor, LE_ROW_0, LE_ROW_10[0])
  {
  }

  lemma LeRow11Is()
    ensures LE_ROW_11 == Plus(Xor, LE_ROW_0, LE_ROW_11[0])
  {
  }

  lemma LeRow12Is()
    ensures LE_ROW_12 == Plus(Xor, LE_ROW_0, LE_ROW_12[0])
  {
  }

  lemma LeRow13Is()
    ensures LE_ROW_13 == Plus(Xor, LE_ROW_0, LE_ROW_13[0])
  {
  }

  lemma LeRow14Is()
    ensures LE_ROW_14 == Plus(Xor, LE_ROW_0, LE_ROW_14[0])
  {
  }

  lemma LeRow15Is()
    ensures LE_ROW_15 == Plus(Xor, LE_ROW_0, LE_ROW_15[0])
  {
  }

  lemma LeRow0Fits()
    ensures |LE_ROW_0| == 16 && Fits(HALVES, LE_ROW_0, 0, LeEntry)
  {
    LeFirst();
    LeHeads0();
    LeRow0Is();
    LeLinear();
    RowFits(HALVES, LeEntry, LE_ROW_0, LE_ROW_0, 0);
  }

  lemma LeRow1Fits()
    ensures |LE_ROW_1| == 16 && Fits(HALVES, LE_ROW_1, 16, LeEntry)
  {
    LeFirst();
    LeHeads0();
    LeRow1Is();
    LeLinear();
    RowFits(HALVES, LeEntry, LE_ROW_1, LE_ROW_0, 1);
  }

  lemma LeRow2Fits()
    ensures |LE_ROW_2| == 16 && Fits(HALVES, LE_ROW_2, 32, LeEntry)
  {
    LeFirst();
    LeHeads0();
    LeRow2Is();
    LeLinear();
    RowFits(HALVES, LeEntry, LE_ROW_2, LE_ROW_0, 2);
  }

  lemma LeRow3Fits()
    ensures |LE_ROW_3| == 16 && Fits(HALVES, LE_ROW_3, 48, LeEntry)
  {
    LeFirst();
    LeHeads0();
    LeRow3Is();
    LeLinear();
    RowFits(HALVES, LeEntry, LE_ROW_3, LE_ROW_0, 3);
  }

  lemma LeRow4Fits()
    ensures |LE_ROW_4| == 16 && Fits(HALVES, LE_ROW_4, 64, LeEntry)
  {
    LeFirst();
    LeHeads1();
    LeRow4Is();
    LeLinear();
    RowFits(HALVES, LeEntry, LE_ROW_4, LE_ROW_0, 4);
  }

  lemma LeRow5Fits()
    ensures |LE_ROW_5| == 16 && Fits(HALVES, LE_ROW_5, 80, LeEntry)
  {
    LeFirst();
    LeHeads1();
    LeRow5Is();
    LeLinear();
    RowFits(HALVES, LeEntry, LE_ROW_5, LE_ROW_0, 5);
  }

  lemma LeRow6Fits()
    ensures |LE_ROW_6| == 16 && Fits(HALVES, LE_ROW_6, 96, LeEntry)
  {
    LeFirst();
    LeHeads1();
    LeRow6Is();
    LeLinear();
    RowFits(HALVES, LeEntry, LE_ROW_6, LE_ROW_0, 6);
  }

  lemma LeRow7Fits()
    ensures |LE_ROW_7| == 16 && Fits(HALVES, LE_ROW_7, 112, LeEntry)
  {
    LeFirst();
    LeHeads1();
    LeRow7Is();
    LeLinear();
    RowFits(HALVES, LeEntry, LE_ROW_7, LE_ROW_0, 7);
  }

  lemma LeRow8Fits()
    ensures |LE_ROW_8| == 16 && Fits(HALVES, LE_ROW_8, 128, LeEntry)
  {
    LeFirst();
    LeHeads2();
    LeRow8Is();
    LeLinear();
    RowFits(HALVES, LeEntry, LE_ROW_8, LE_ROW_0, 8);
  }

  lemma LeRow9Fits()
    ensures |LE_ROW_9| == 16 && Fits(HALVES, LE_ROW_9, 144, LeEntry)
  {
    LeFirst();
    LeHeads2();
    LeRow9Is();
    LeLinear();
    RowFits(HALVES, LeEntry, LE_ROW_9, LE_ROW_0, 9);
  }

  lemma LeRow10Fits()
    ensures |LE_ROW_10| == 16 && Fits(HALVES, LE_ROW_10, 160, LeEntry)
  {
    LeFirst();
    LeHeads2();
    LeRow10Is();
    LeLinear();
    RowFits(HALVES, LeEntry, LE_ROW_10, LE_ROW_0, 10);
  }

  lemma LeRow11Fits()
    ensures |LE_ROW_11| == 16 && Fits(HALVES, LE_ROW_11, 176, LeEntry)
  {
    LeFirst();
    LeHeads2();
    LeRow11Is();
    LeLinear();
    RowFits(HALVES, LeEntry, LE_ROW_11, LE_ROW_0, 11);
  }

  lemma LeRow12Fits()
    ensures |LE_ROW_12| == 16 && Fits(HALVES, LE_ROW_12, 192, LeEntry)
  {
    LeFirst();
    LeHeads3();
    LeRow12Is();
    LeLinear();
    RowFits(HALVES, LeEntry, LE_ROW_12, LE_ROW_0, 12);
  }

  lemma LeRow13Fits()
    ensures |LE_ROW_13| == 16 && Fits(HALVES, LE_ROW_13, 208, LeEntry)
  {
    LeFirst();
    LeHeads3();
    LeRow13Is();
    LeLinear();
    RowFits(HALVES, LeEntry, LE_ROW_13, LE_ROW_0, 13);
  }

  lemma LeRow14Fits()
    ensures |LE_ROW_14| == 16 && Fits(HALVES, LE_ROW_14, 224, LeEntry)
  {
    LeFirst();
    LeHeads3();
    LeRow14Is();
    LeLinear();
    RowFits(HALVES, LeEntry, LE_ROW_14, LE_ROW_0, 14);
  }

  lemma LeRow15Fits()
    ensures |LE_ROW_15| == 16 && Fits(HALVES, LE_ROW_15, 240, LeEntry)
  {
    LeFirst();
    LeHeads3();
    LeRow15Is();
    LeLinear();
    RowFits(HALVES, LeEntry, LE_ROW_15, LE_ROW_0, 15);
  }

  lemma LeTableFits()
    ensures |LE_TABLE| == 256 && Fits(HALVES, LE_TABLE, 0, LeEntry)
  {
    var t0 := LE_ROW_0;
    LeRow0Fits();
    LeRow1Fits();
    var t1 := t0 + LE_ROW_1;
    FitsConcat(HALVES, t0, LE_ROW_1, 0, 16, LeEntry);
    LeRow2Fits();
    var t2 := t1 + LE_ROW_2;
    FitsConcat(HALVES, t1, LE_ROW_2, 0, 32, LeEntry);
    LeRow3Fits();
    var t3 := t2 + LE_ROW_3;
    FitsConcat(HALVES, t2, LE_ROW_3, 0, 48, LeEntry);
    LeRow4Fits();
    var t4 := t3 + LE_ROW_4;
    FitsConcat(HALVES, t3, LE_ROW_4, 0, 64, LeEntry);
    LeRow5Fits();
    var t5 := t4 + LE_ROW_5;
    FitsConcat(HALVES, t4, LE_ROW_5, 0, 80, LeEntry);
    LeRow6Fits();
    var t6 := t5 + LE_ROW_6;
    FitsConcat(HALVES, t5, LE_ROW_6, 0, 96, LeEntry);
    LeRow7Fits();
    var t7 := t6 + LE_ROW_7;
    FitsConcat(HALVES, t6, LE_ROW_7, 0, 112, LeEntry);
    LeRow8Fits();
    var t8 := t7 + LE_ROW_8;
    FitsConcat(HALVES, t7, LE_ROW_8, 0, 128, LeEntry);
    LeRow9Fits();
    var t9 := t8 + LE_ROW_9;
    FitsConcat(HALVES, t8, LE_ROW_9, 0, 144, LeEntry);
    LeRow10Fits();
    var t10 := t9 + LE_ROW_10;
    FitsConcat(HALVES, t9, LE_ROW_10, 0, 160, LeEntry);
    LeRow11Fits();
    var t11 := t10 + LE_ROW_11;
    FitsConcat(HALVES, t10, LE_ROW_11, 0, 176, LeEntry);
    LeRow12Fits();
    var t12 := t11 + LE_ROW_12;
    FitsConcat(HALVES, t11, LE_ROW_12, 0, 192, LeEntry);
    LeRow13Fits();
    var t13 := t12 + LE_ROW_13;
    FitsConcat(HALVES, t12, LE_ROW_13, 0, 208, LeEntry);
    LeRow14Fits();
    var t14 := t13 + LE_ROW_14;
    FitsConcat(HALVES, t13, LE_ROW_14, 0, 224, LeEntry);
    LeRow15Fits();
    var t15 := t14 + LE_ROW_15;
    FitsConcat(HALVES, t14, LE_ROW_15, 0, 240, LeEntry);
    assert LE_TABLE == t15;
  }


  lemma BeZero()
    ensures BE_ROW_0[0] == BeEntry(0)
  {
  }

  /** The other entries of the first row. */
  lemma BeFirst0()
    ensures BE_ROW_0[1] == BeEntry(1)
    ensures BE_ROW_0[2] == BeEntry(2) && BE_ROW_0[3] == BeEntry(3)
  {
  }

  lemma BeFirst1()
    ensures BE_ROW_0[4] == BeEntry(4) && BE_ROW_0[5] == BeEntry(5)
    ensures BE_ROW_0[6] == BeEntry(6) && BE_ROW_0[7] == BeEntry(7)
  {
  }

  lemma BeFirst2()
    ensures BE_ROW_0[8] == BeEntry(8) && BE_ROW_0[9] == BeEntry(9)
    ensures BE_ROW_0[10] == BeEntry(10) && BE_ROW_0[11] == BeEntry(11)
  {
  }

  lemma BeFirst3()
    ensures BE_ROW_0[12] == BeEntry(12) && BE_ROW_0[13] == BeEntry(13)
    ensures BE_ROW_0[14] == BeEntry(14) && BE_ROW_0[15] == BeEntry(15)
  {
  }

  /** The first entries of the rows. */
  lemma BeHeads0()
    ensures BE_ROW_0[0] == BeEntry(0) && BE_ROW_1[0] == BeEntry(16)
    ensures BE_ROW_2[0] == BeEntry(32) && BE_ROW_3[0] == BeEntry(48)
  {
  }

  lemma BeHeads1()
    ensures BE_ROW_4[0] == BeEntry(64) && BE_ROW_5[0] == BeEntry(80)
    ensures BE_ROW_6[0] == BeEntry(96) && BE_ROW_7[0] == BeEntry(112)
  {
  }

  lemma BeHeads2()
    ensures BE_ROW_8[0] == BeEntry(128) && BE_ROW_9[0] == BeEntry(144)
    ensures BE_ROW_10[0] == BeEntry(160) && BE_ROW_11[0] == BeEntry(176)
  {
  }

  lemma BeHeads3()
    ensures BE_ROW_12[0] == BeEntry(192) && BE_ROW_13[0] == BeEntry(208)
    ensures BE_ROW_14[0] == BeEntry(224) && BE_ROW_15[0] == BeEntry(240)
  {
  }

  lemma BeFirstLow()
    ensures Part(HALVES, BE_ROW_0, BeEntry, 0, 8)
  {
    BeZero();
    BeFirst0();
    BeFirst1();
    LowEight(BE_ROW_0, BeEntry);
  }

  lemma BeFirstHigh()
    ensures Part(HALVES, BE_ROW_0, BeEntry, 8, 16)
  {
    BeFirst2();
    BeFirst3();
    HighEight(BE_ROW_0, BeEntry);
  }

  lemma BeFirst()
    ensures FirstRow(HALVES, BE_ROW_0, BeEntry)
  {
    BeFirstLow();
    BeFirstHigh();
    Parts(HALVES, BE_ROW_0, BeEntry);
  }

  /** Each row is the first one plus its own first entry. */
  lemma BeRow0Is()
    ensures BE_ROW_0 == Plus(Xor, BE_ROW_0, BE_ROW_0[0])
  {
  }

  lemma BeRow1Is()
    ensures BE_ROW_1 == Plus(Xor, BE_ROW_0, BE_ROW_1[0])
  {
  }

  lemma BeRow2Is()
    ensures BE_ROW_2 == Plus(Xor, BE_ROW_0, BE_ROW_2[0])
  {
  }

  lemma BeRow3Is()
    ensures BE_ROW_3 == Plus(Xor, BE_ROW_0, BE_ROW_3[0])
  {
  }

  lemma BeRow4Is()
    ensures BE_ROW_4 == Plus(Xor, BE_ROW_0, BE_ROW_4[0])
  {
  }

  lemma BeRow5Is()
    ensures BE_ROW_5 == Plus(Xor, BE_ROW_0, BE_ROW_5[0])
  {
  }

  lemma BeRow6Is()
    ensures BE_ROW_6 == Plus(Xor, BE_ROW_0, BE_ROW_6[0])
  {
  }

  lemma BeRow7Is()
    ensures BE_ROW_7 == Plus(Xor, BE_ROW_0, BE_ROW_7[0])
  {
  }

  lemma BeRow8Is()
    ensures BE_ROW_8 == Plus(Xor, BE_ROW_0, BE_ROW_8[0])
  {
  }

  lemma BeRow9Is()
    ensures BE_ROW_9 == Plus(Xor, BE_ROW_0, BE_ROW_9[0])
  {
  }

  lemma BeRow10Is()
    ensures BE_ROW_10 == Plus(Xor, BE_ROW_0, BE_ROW_10[0])
  {
  }

  lemma BeRow11Is()
    ensures BE_ROW_11 == Plus(Xor, BE_ROW_0, BE_ROW_11[0])
  {
  }

  lemma BeRow12Is()
    ensures BE_ROW_12 == Plus(Xor, BE_ROW_0, BE_ROW_12[0])
  {
  }

  lemma BeRow13Is()
    ensures BE_ROW_13 == Plus(Xor, BE_ROW_0, BE_ROW_13[0])
  {
  }

  lemma BeRow14Is()
    ensures BE_ROW_14 == Plus(Xor, BE_ROW_0, BE_ROW_14[0])
  {
  }

  lemma BeRow15Is()
    ensures BE_ROW_15 == Plus(Xor, BE_ROW_0, BE_ROW_15[0])
  {
  }

  lemma BeRow0Fits()
    ensures |BE_ROW_0| == 16 && Fits(HALVES, BE_ROW_0, 0, BeEntry)
  {
    BeFirst();
    BeHeads0();
    BeRow0Is();
    BeLinear();
    RowFits(HALVES, BeEntry, BE_ROW_0, BE_ROW_0, 0);
  }

  lemma BeRow1Fits()
    ensures |BE_ROW_1| == 16 && Fits(HALVES, BE_ROW_1, 16, BeEntry)
  {
    BeFirst();
    BeHeads0();
    BeRow1Is();
    BeLinear();
    RowFits(HALVES, BeEntry, BE_ROW_1, BE_ROW_0, 1);
  }

  lemma BeRow2Fits()
    ensures |BE_ROW_2| == 16 && Fits(HALVES, BE_ROW_2, 32, BeEntry)
  {
    BeFirst();
    BeHeads0();
    BeRow2Is();
    BeLinear();
    RowFits(HALVES, BeEntry, BE_ROW_2, BE_ROW_0, 2);
  }

  lemma BeRow3Fits()
    ensures |BE_ROW_3| == 16 && Fits(HALVES, BE_ROW_3, 48, BeEntry)
  {
    BeFirst();
    BeHeads0();
    BeRow3Is();
    BeLinear();
    RowFits(HALVES, BeEntry, BE_ROW_3, BE_ROW_0, 3);
  }

  lemma BeRow4Fits()
    ensures |BE_ROW_4| == 16 && Fits(HALVES, BE_ROW_4, 64, BeEntry)
  {
    BeFirst();
    BeHeads1();
    BeRow4Is();
    BeLinear();
    RowFits(HALVES, BeEntry, BE_ROW_4, BE_ROW_0, 4);
  }

  lemma BeRow5Fits()
    ensures |BE_ROW_5| == 16 && Fits(HALVES, BE_ROW_5, 80, BeEntry)
  {
    BeFirst();
    BeHeads1();
    BeRow5Is();
    BeLinear();
    RowFits(HALVES, BeEntry, BE_ROW_5, BE_ROW_0, 5);
  }

  lemma BeRow6Fits()
    ensures |BE_ROW_6| == 16 && Fits(HALVES, BE_ROW_6, 96, BeEntry)
  {
    BeFirst();
    BeHeads1();
    BeRow6Is();
    BeLinear();
    RowFits(HALVES, BeEntry, BE_ROW_6, BE_ROW_0, 6);
  }

  lemma BeRow7Fits()
    ensures |BE_ROW_7| == 16 && Fits(HALVES, BE_ROW_7, 112, BeEntry)
  {
    BeFirst();
    BeHeads1();
    BeRow7Is();
    BeLinear();
    RowFits(HALVES, BeEntry, BE_ROW_7, BE_ROW_0, 7);
  }

  lemma BeRow8Fits()
    ensures |BE_ROW_8| == 16 && Fits(HALVES, BE_ROW_8, 128, BeEntry)
  {
    BeFirst();
    BeHeads2();
    BeRow8Is();
    BeLinear();
    RowFits(HALVES, BeEntry, BE_ROW_8, BE_ROW_0, 8);
  }

  lemma BeRow9Fits()
    ensures |BE_ROW_9| == 16 && Fits(HALVES, BE_ROW_9, 144, BeEntry)
  {
    BeFirst();
    BeHeads2();
    BeRow9Is();
    BeLinear();
    RowFits(HALVES, BeEntry, BE_ROW_9, BE_ROW_0, 9);
  }

  lemma BeRow10Fits()
    ensures |BE_ROW_10| == 16 && Fits(HALVES, BE_ROW_10, 160, BeEntry)
  {
    BeFirst();
    BeHeads2();
    BeRow10Is();
    BeLinear();
    RowFits(HALVES, BeEntry, BE_ROW_10, BE_ROW_0, 10);
  }

  lemma BeRow11Fits()
    ensures |BE_ROW_11| == 16 && Fits(HALVES, BE_ROW_11, 176, BeEntry)
  {
    BeFirst();
    BeHeads2();
    BeRow11Is();
    BeLinear();
    RowFits(HALVES, BeEntry, BE_ROW_11, BE_ROW_0, 11);
  }

  lemma BeRow12Fits()
    ensures |BE_ROW_12| == 16 && Fits(HALVES, BE_ROW_12, 192, BeEntry)
  {
    BeFirst();
    BeHeads3();
    BeRow12Is();
    BeLinear();
    RowFits(HALVES, BeEntry, BE_ROW_12, BE_ROW_0, 12);
  }

  lemma BeRow13Fits()
    ensures |BE_ROW_13| == 16 && Fits(HALVES, BE_ROW_13, 208, BeEntry)
  {
    BeFirst();
    BeHeads3();
    BeRow13Is();
    BeLinear();
    RowFits(HALVES, BeEntry, BE_ROW_13, BE_ROW_0, 13);
  }

  lemma BeRow14Fits()
    ensures |BE_ROW_14| == 16 && Fits(HALVES, BE_ROW_14, 224, BeEntry)
  {
    BeFirst();
    BeHeads3();
    BeRow14Is();
    BeLinear();
    RowFits(HALVES, BeEntry, BE_ROW_14, BE_ROW_0, 14);
  }

  lemma BeRow15Fits()
    ensures |BE_ROW_15| == 16 && Fits(HALVES, BE_ROW_15, 240, BeEntry)
  {
    BeFirst();
    BeHeads3();
    BeRow15Is();
    BeLinear();
    RowFits(HALVES, BeEntry, BE_ROW_15, BE_ROW_0, 15);
  }

  lemma BeTableFits()
    ensures |BE_TABLE| == 256 && Fits(HALVES, BE_TABLE, 0, BeEntry)
  {
    var t0 := BE_ROW_0;
    BeRow0Fits();
    BeRow1Fits();
    var t1 := t0 + BE_ROW_1;
    FitsConcat(HALVES, t0, BE_ROW_1, 0, 16, BeEntry);
    BeRow2Fits();
    var t2 := t1 + BE_ROW_2;
    FitsConcat(HALVES, t1, BE_ROW_2, 0, 32, BeEntry);
    BeRow3Fits();
    var t3 := t2 + BE_ROW_3;
    FitsConcat(HALVES, t2, BE_ROW_3, 0, 48, BeEntry);
    BeRow4Fits();
    var t4 := t3 + BE_ROW_4;
    FitsConcat(HALVES, t3, BE_ROW_4, 0, 64, BeEntry);
    BeRow5Fits();
    var t5 := t4 + BE_ROW_5;
    FitsConcat(HALVES, t4, BE_ROW_5, 0, 80, BeEntry);
    BeRow6Fits();
    var t6 := t5 + BE_ROW_6;
    FitsConcat(HALVES, t5, BE_ROW_6, 0, 96, BeEntry);
    BeRow7Fits();
    var t7 := t6 + BE_ROW_7;
    FitsConcat(HALVES, t6, BE_ROW_7, 0, 112, BeEntry);
    BeRow8Fits();
    var t8 := t7 + BE_ROW_8;
    FitsConcat(HALVES, t7, BE_ROW_8, 0, 128, BeEntry);
    BeRow9Fits();
    var t9 := t8 + BE_ROW_9;
    FitsConcat(HALVES, t8, BE_ROW_9, 0, 144, BeEntry);
    BeRow10Fits();
    var t10 := t9 + BE_ROW_10;
    FitsConcat(HALVES, t9, BE_ROW_10, 0, 160, BeEntry);
    BeRow11Fits();
    var t11 := t10 + BE_ROW_11;
    FitsConcat(HALVES, t10, BE_ROW_11, 0, 176, BeEntry);
    BeRow12Fits();
    var t12 := t11 + BE_ROW_12;
    FitsConcat(HALVES, t11, BE_ROW_12, 0, 192, BeEntry);
    BeRow13Fits();
    var t13 := t12 + BE_ROW_13;
    FitsConcat(HALVES, t12, BE_ROW_13, 0, 208, BeEntry);
    BeRow14Fits();
    var t14 := t13 + BE_ROW_14;
    FitsConcat(HALVES, t13, BE_ROW_14, 0, 224, BeEntry);
    BeRow15Fits();
    var t15 := t14 + BE_ROW_15;
    FitsConcat(HALVES, t14, BE_ROW_15, 0, 240, BeEntry);
    assert BE_TABLE == t15;
  }

}

/** The table-driven CRC. */
module Crc {
  import opened BitDivision
  import opened CrcBits
  import opened CrcTables
  import opened LinearTables
  import opened CrcEntries

  /** The table index for the next byte. */
  function Index(c: bv32, d: bv8): bv8 {
    ((c & 0xff) as bv8) ^ d
  }

  /** What one byte does to the word. */
  function Round(table: seq<bv32>, c: bv32, d: bv8): bv32
    requires |table| >= 256
  {
    Xor(table[Index(c, d) as int], c >> 8)
  }

  function TableCrc(table: seq<bv32>, c: bv32, data: seq<bv8>): bv32
    requires |table| >= 256
    decreases |data|
  {
    if data == [] then c else TableCrc(table, Round(table, c, data[0]), data[1..])
  }

  /** The loop over the bytes, with either table. */
  method GetCrc32(table: seq<bv32>, crc: bv32, data: seq<bv8>) returns (r: bv32)
    requires |table| >= 256
    ensures r == TableCrc(table, crc, data)
  {
    r := crc;
    assert data[0..] == data;
    for i := 0 to |data|
      invariant TableCrc(table, crc, data) == TableCrc(table, r, data[i..])
    {
      assert data[i..][0] == data[i] && data[i..][1..] == data[i + 1..];
      r := Round(table, r, data[i]);
    }
  }

  /** Splitting the input and going on from the result gives the same. */
  lemma {:induction false} Chained(table: seq<bv32>, c: bv32, a: seq<bv8>, b: seq<bv8>)
    requires |table| >= 256
    ensures TableCrc(table, c, a + b) == TableCrc(table, TableCrc(table, c, a), b)
    decreases |a|
  {
    if a == [] {
      assert a + b == b;
    } else {
      assert (a + b)[1..] == a[1..] + b;
      Chained(table, Round(table, c, a[0]), a[1..], b);
    }
  }

  /** Dividing the eight bits of a byte, the lowest first. */
  function LowByte(c: bv32, d: bv8): bv32 {
    Feed(LOW_FIRST, c, d as bv32, 8)
  }

  /** Dividing the eight bits of a byte, the highest first. */
  function HighByte(m: bv32, d: bv8): bv32 {
    Feed(HIGH_FIRST, m, (d as bv32) << 24, 8)
  }

  /** The CRC bit by bit. */
  function LowCrc(c: bv32, data: seq<bv8>): bv32 {
    Fold(LowByte, c, data)
  }

  function HighCrc(m: bv32, data: seq<bv8>): bv32 {
    Fold(HighByte, m, data)
  }

  // ---------- One byte ----------

  lemma IndexWord(c: bv32, d: bv8)
    ensures Index(c, d) as bv32 == (c ^ (d as bv32)) & 0xff
  {
  }

  lemma HalvesOf(i: bv8)
    ensures (i as int) % 16 == (i & 15) as int && (i as int) / 16 == (i >> 4) as int
  {
    assert i as int == 16 * ((i >> 4) as int) + (i & 15) as int;
    assert 0 <= (i & 15) as int < 16;
  }

  lemma LowHalf(lo: bv8)
    requires lo < 16
    ensures WordLow(lo as int) == lo as bv32
  {
    if lo == 0 { }
    else if lo == 1 { }
    else if lo == 2 { }
    else if lo == 3 { }
    else if lo == 4 { }
    else if lo == 5 { }
    else if lo == 6 { }
    else if lo == 7 { }
    else if lo == 8 { }
    else if lo == 9 { }
    else if lo == 10 { }
    else if lo == 11 { }
    else if lo == 12 { }
    else if lo == 13 { }
    else if lo == 14 { }
    else if lo == 15 { }
  }

  lemma HighHalf(hi: bv8)
    requires hi & 15 == 0
    ensures WordHigh((hi >> 4) as int) == hi as bv32
  {
    if hi == 0 { }
    else if hi == 16 { }
    else if hi == 32 { }
    else if hi == 48 { }
    else if hi == 64 { }
    else if hi == 80 { }
    else if hi == 96 { }
    else if hi == 112 { }
    else if hi == 128 { }
    else if hi == 144 { }
    else if hi == 160 { }
    else if hi == 176 { }
    else if hi == 192 { }
    else if hi == 208 { }
    else if hi == 224 { }
    else if hi == 240 { }
  }

  lemma JoinHalves(i: bv8)
    ensures Xor((i & 15) as bv32, (i & 0xf0) as bv32) == i as bv32
    ensures (i & 15) < 16 && (i & 0xf0) & 15 == 0 && (i & 0xf0) >> 4 == i >> 4
  {
  }

  /** The word that the tables were proved for at a number is that number. */
  lemma WordOf(i: bv8)
    ensures Word(HALVES, i as int) == i as bv32
  {
    HalvesOf(i);
    JoinHalves(i);
    LowHalf(i & 15);
    HighHalf(i & 0xf0);
  }

  lemma LowFirstDecides()
    ensures BitDecides(LOW_FIRST)
  {
    forall c, e ensures LOW_FIRST.step(LOW_FIRST.xor(c, e))
                        == LOW_FIRST.xor(LOW_FIRST.step(LOW_FIRST.xor(c, LOW_FIRST.bit(e))), LOW_FIRST.shift(e))
    {
      LowDecides(c, e);
    }
  }

  lemma HighFirstDecides()
    ensures BitDecides(HIGH_FIRST)
  {
    forall c, e ensures HIGH_FIRST.step(HIGH_FIRST.xor(c, e))
                        == HIGH_FIRST.xor(HIGH_FIRST.step(HIGH_FIRST.xor(c, HIGH_FIRST.bit(e))), HIGH_FIRST.shift(e))
    {
      HighDecides(c, e);
    }
  }

  /** Eight shifts. */
  lemma {:induction false} HalfIter(e: bv32)
    ensures Iter(Half, e, 8) == e >> 8
  {
    Shifts(e);
    IterOnce(Half, e, 8);
    IterOnce(Half, e >> 1, 7);
    IterOnce(Half, e >> 2, 6);
    IterOnce(Half, e >> 3, 5);
    IterOnce(Half, e >> 4, 4);
    IterOnce(Half, e >> 5, 3);
    IterOnce(Half, e >> 6, 2);
    IterOnce(Half, e >> 7, 1);
  }

  lemma IterOnce<T>(f: T -> T, x: T, n: nat)
    requires n > 0
    ensures Iter(f, x, n) == Iter(f, f(x), n - 1)
  {
  }

  lemma Shifts(e: bv32)
    ensures (e >> 1) >> 1 == e >> 2 && (e >> 2) >> 1 == e >> 3 && (e >> 3) >> 1 == e >> 4 && (e >> 4) >> 1 == e >> 5
    ensures (e >> 5) >> 1 == e >> 6 && (e >> 6) >> 1 == e >> 7 && (e >> 7) >> 1 == e >> 8
  {
  }

  lemma {:induction false} DoubleIter(e: bv32)
    ensures Iter(Double, e, 8) == e << 8
  {
    LeftShifts(e);
    IterOnce(Double, e, 8);
    IterOnce(Double, e << 1, 7);
    IterOnce(Double, e << 2, 6);
    IterOnce(Double, e << 3, 5);
    IterOnce(Double, e << 4, 4);
    IterOnce(Double, e << 5, 3);
    IterOnce(Double, e << 6, 2);
    IterOnce(Double, e << 7, 1);
  }

  lemma LeftShifts(e: bv32)
    ensures (e << 1) << 1 == e << 2 && (e << 2) << 1 == e << 3 && (e << 3) << 1 == e << 4 && (e << 4) << 1 == e << 5
    ensures (e << 5) << 1 == e << 6 && (e << 6) << 1 == e << 7 && (e << 7) << 1 == e << 8
  {
  }

  /** A bit that is not set adds nothing. */
  lemma XorNothing(z: bv32, w: bv32)
    requires w == 0
    ensures Xor(z, w) == z
  {
  }

  lemma QuietOnce<T(!new)>(v: Divider<T>, e: T, n: nat, rest: T)
    requires n > 0 && rest == v.shift(e) && Quiet(v, rest, n - 1) && forall z :: v.xor(z, v.bit(e)) == z
    ensures Quiet(v, e, n)
  {
  }

  lemma LowQuietOnce(e: bv32, n: nat, rest: bv32)
    requires n > 0 && rest == Half(e) && Quiet(LOW_FIRST, rest, n - 1) && LowBit(e) == 0
    ensures Quiet(LOW_FIRST, e, n)
  {
    forall z ensures LOW_FIRST.xor(z, LOW_FIRST.bit(e)) == z { XorNothing(z, LowBit(e)); }
    QuietOnce(LOW_FIRST, e, n, rest);
  }

  lemma HighQuietOnce(e: bv32, n: nat, rest: bv32)
    requires n > 0 && rest == Double(e) && Quiet(HIGH_FIRST, rest, n - 1) && HighBit(e) == 0
    ensures Quiet(HIGH_FIRST, e, n)
  {
    forall z ensures HIGH_FIRST.xor(z, HIGH_FIRST.bit(e)) == z { XorNothing(z, HighBit(e)); }
    QuietOnce(HIGH_FIRST, e, n, rest);
  }

  /** A word whose low byte is zero is quiet for eight bits. */
  lemma LowQuiet(x: bv32, y: bv32)
    requires y == x & 0xffff_ff00
    ensures Quiet(LOW_FIRST, y, 8)
  {
    QuietBits(x, y);
    LowQuietOnce(y >> 7, 1, Half(y >> 7));
    LowQuietOnce(y >> 6, 2, y >> 7);
    LowQuietOnce(y >> 5, 3, y >> 6);
    LowQuietOnce(y >> 4, 4, y >> 5);
    LowQuietOnce(y >> 3, 5, y >> 4);
    LowQuietOnce(y >> 2, 6, y >> 3);
    LowQuietOnce(y >> 1, 7, y >> 2);
    LowQuietOnce(y, 8, y >> 1);
  }

  lemma QuietBits(x: bv32, y: bv32)
    requires y == x & 0xffff_ff00
    ensures LowBit(y) == 0 && LowBit(y >> 1) == 0 && LowBit(y >> 2) == 0 && LowBit(y >> 3) == 0
    ensures LowBit(y >> 4) == 0 && LowBit(y >> 5) == 0 && LowBit(y >> 6) == 0 && LowBit(y >> 7) == 0
    ensures Half(y) == y >> 1 && Half(y >> 1) == y >> 2 && Half(y >> 2) == y >> 3 && Half(y >> 3) == y >> 4
    ensures Half(y >> 4) == y >> 5 && Half(y >> 5) == y >> 6 && Half(y >> 6) == y >> 7
  {
  }

  lemma HighQuiet(x: bv32, y: bv32)
    requires y == x & 0x00ff_ffff
    ensures Quiet(HIGH_FIRST, y, 8)
  {
    QuietTopBits(x, y);
    HighQuietOnce(y << 7, 1, Double(y << 7));
    HighQuietOnce(y << 6, 2, y << 7);
    HighQuietOnce(y << 5, 3, y << 6);
    HighQuietOnce(y << 4, 4, y << 5);
    HighQuietOnce(y << 3, 5, y << 4);
    HighQuietOnce(y << 2, 6, y << 3);
    HighQuietOnce(y << 1, 7, y << 2);
    HighQuietOnce(y, 8, y << 1);
  }

  lemma QuietTopBits(x: bv32, y: bv32)
    requires y == x & 0x00ff_ffff
    ensures HighBit(y) == 0 && HighBit(y << 1) == 0 && HighBit(y << 2) == 0 && HighBit(y << 3) == 0
    ensures HighBit(y << 4) == 0 && HighBit(y << 5) == 0 && HighBit(y << 6) == 0 && HighBit(y << 7) == 0
    ensures Double(y) == y << 1 && Double(y << 1) == y << 2 && Double(y << 2) == y << 3 && Double(y << 3) == y << 4
    ensures Double(y << 4) == y << 5 && Double(y << 5) == y << 6 && Double(y << 6) == y << 7
  {
  }

  lemma BytesApart(x: bv32)
    ensures Xor(x & 0xff, x & 0xffff_ff00) == x && (x & 0xffff_ff00) >> 8 == x >> 8
    ensures Xor(x & 0xff00_0000, x & 0x00ff_ffff) == x && (x & 0x00ff_ffff) << 8 == x << 8
  {
  }

  /** The low byte is divided, the others only move. */
  lemma LowSplit(x: bv32)
    ensures Iter(StepLow, x, 8) == Xor(Iter(StepLow, x & 0xff, 8), x >> 8)
  {
    var i, y := x & 0xff, x & 0xffff_ff00;
    BytesApart(x);
    LowQuiet(x, y);
    HalfIter(y);
    LowFirstDecides();
    SplitQuiet(LOW_FIRST, i, y, x >> 8);
  }

  /** The high byte is divided, the others only move. */
  lemma HighSplit(x: bv32)
    ensures Iter(StepHigh, x, 8) == Xor(Iter(StepHigh, x & 0xff00_0000, 8), x << 8)
  {
    var i, y := x & 0xff00_0000, x & 0x00ff_ffff;
    BytesApart(x);
    HighQuiet(x, y);
    DoubleIter(y);
    HighFirstDecides();
    SplitQuiet(HIGH_FIRST, i, y, x << 8);
  }

  lemma SplitQuiet<T(!new)>(v: Divider<T>, i: T, y: T, z: T)
    requires BitDecides(v) && Quiet(v, y, 8) && Iter(v.shift, y, 8) == z
    ensures Iter(v.step, v.xor(i, y), 8) == v.xor(Iter(v.step, i, 8), z)
  {
    FeedAhead(v, i, y, 8);
    FeedQuiet(v, i, y, 8);
  }

  lemma ByteGone(d: bv8)
    ensures (d as bv32) >> 8 == 0 && ((d as bv32) << 24) << 8 == 0
  {
  }

  /** Adding a whole byte before its eight steps. */
  lemma LowAhead(c: bv32, d: bv8)
    ensures Iter(StepLow, Xor(c, d as bv32), 8) == LowByte(c, d)
  {
    var e := d as bv32;
    LowFirstDecides();
    FeedAhead(LOW_FIRST, c, e, 8);
    HalfIter(e);
    ByteGone(d);
    XorNothing(LowByte(c, d), e >> 8);
  }

  lemma HighAhead(m: bv32, d: bv8)
    ensures Iter(StepHigh, Xor(m, (d as bv32) << 24), 8) == HighByte(m, d)
  {
    var e := (d as bv32) << 24;
    HighFirstDecides();
    FeedAhead(HIGH_FIRST, m, e, 8);
    DoubleIter(e);
    ByteGone(d);
    XorNothing(HighByte(m, d), e << 8);
  }

  lemma LowAgree(c: bv32, d: bv8)
    ensures Xor(c, d as bv32) >> 8 == c >> 8
  {
  }

  lemma XorIs(a: bv32, b: bv32)
    ensures Xor(a, b) == a ^ b
  {
  }

  /** The table entry for a byte is what its eight steps leave. */
  lemma LeAt(i: bv8)
    ensures |CRC_32_IEEE_LE| == 257 && CRC_32_IEEE_LE[i as int] == LeEntry(i as bv32)
  {
    LeTableFits();
    WordOf(i);
    EntryAt(LE_TABLE, LAST_ENTRY, LeEntry, i as int, i as bv32);
  }

  lemma BeAt(i: bv8)
    ensures |CRC_32_IEEE| == 257 && CRC_32_IEEE[i as int] == BeEntry(i as bv32)
  {
    BeTableFits();
    WordOf(i);
    EntryAt(BE_TABLE, LAST_ENTRY, BeEntry, i as int, i as bv32);
  }

  lemma EntryAt(table: seq<bv32>, last: bv32, e: bv32 -> bv32, n: nat, w: bv32)
    requires |table| == 256 && n < 256 && Fits(HALVES, table, 0, e) && Word(HALVES, n) == w
    ensures (table + [last])[n] == e(w)
  {
    assert 0 + n == n;
    assert table[n] == e(Word(HALVES, 0 + n));
  }

  /** One round of the loop divides the eight bits of one byte. */
  lemma LeRound(table: seq<bv32>, c: bv32, d: bv8)
    requires |table| >= 256 && table[Index(c, d) as int] == Iter(StepLow, Xor(c, d as bv32) & 0xff, 8)
    ensures Round(table, c, d) == LowByte(c, d)
  {
    LowFromEntry(table[Index(c, d) as int], c, d);
  }

  lemma LowFromEntry(entry: bv32, c: bv32, d: bv8)
    requires entry == Iter(StepLow, Xor(c, d as bv32) & 0xff, 8)
    ensures Xor(entry, c >> 8) == LowByte(c, d)
  {
    var x := Xor(c, d as bv32);
    LowAgree(c, d);
    LowFinish(entry, c, d, x, x & 0xff, c >> 8);
  }

  lemma LowFinish(entry: bv32, c: bv32, d: bv8, x: bv32, i: bv32, rest: bv32)
    requires x == Xor(c, d as bv32) && i == x & 0xff && rest == x >> 8 && entry == Iter(StepLow, i, 8)
    ensures Xor(entry, rest) == LowByte(c, d)
  {
    LowSplit(x);
    LowAhead(c, d);
  }

  lemma HighFinish(entry: bv32, m: bv32, d: bv8, x: bv32, i: bv32, rest: bv32)
    requires x == Xor(m, (d as bv32) << 24) && i == x & 0xff00_0000 && rest == x << 8 && entry == Iter(StepHigh, i, 8)
    ensures Xor(entry, rest) == HighByte(m, d)
  {
    HighSplit(x);
    HighAhead(m, d);
  }

  lemma LeStepsAt(c: bv32, d: bv8)
    ensures LeEntry(Index(c, d) as bv32) == Iter(StepLow, Xor(c, d as bv32) & 0xff, 8)
  {
    IndexWord(c, d);
    XorIs(c, d as bv32);
    LeIter(Index(c, d) as bv32);
  }

  lemma BeStepsAt(c: bv32, d: bv8)
    ensures BeEntry(Index(c, d) as bv32) == Swap(Iter(StepHigh, Xor(Swap(c), (d as bv32) << 24) & 0xff00_0000, 8))
  {
    IndexWord(c, d);
    SwapParts(c, d);
    XorIs(Swap(c), (d as bv32) << 24);
    BeIter(Index(c, d) as bv32);
  }

  lemma SwapParts(c: bv32, d: bv8)
    ensures ((c ^ (d as bv32)) & 0xff) << 24 == (Swap(c) ^ ((d as bv32) << 24)) & 0xff00_0000
  {
  }

  lemma SwapSwap(a: bv32)
    ensures Swap(Swap(a)) == a
  {
  }

  lemma HighAgree(m: bv32, d: bv8)
    ensures Xor(m, (d as bv32) << 24) << 8 == m << 8
  {
  }

  /** One round with the other table is the same for byte-swapped words, the highest bit first. */
  lemma BeRound(table: seq<bv32>, c: bv32, d: bv8, high: bv32)
    requires |table| >= 256 && high == Iter(StepHigh, Xor(Swap(c), (d as bv32) << 24) & 0xff00_0000, 8)
    requires table[Index(c, d) as int] == Swap(high)
    ensures Round(table, c, d) == Swap(HighByte(Swap(c), d))
  {
    HighFromEntry(high, c, d);
  }

  lemma HighFromEntry(high: bv32, c: bv32, d: bv8)
    requires high == Iter(StepHigh, Xor(Swap(c), (d as bv32) << 24) & 0xff00_0000, 8)
    ensures Xor(Swap(high), c >> 8) == Swap(HighByte(Swap(c), d))
  {
    HighRest(high, Swap(c), d);
    SwapRest(high, c);
  }

  lemma HighRest(high: bv32, m: bv32, d: bv8)
    requires high == Iter(StepHigh, Xor(m, (d as bv32) << 24) & 0xff00_0000, 8)
    ensures Xor(high, m << 8) == HighByte(m, d)
  {
    var x := Xor(m, (d as bv32) << 24);
    HighAgree(m, d);
    HighFinish(high, m, d, x, x & 0xff00_0000, m << 8);
  }

  lemma SwapRest(high: bv32, c: bv32)
    ensures Xor(Swap(high), c >> 8) == Swap(Xor(high, Swap(c) << 8))
  {
    SwapXor(high, Swap(c) << 8);
    SwapShift(c);
  }

  lemma SwapShift(c: bv32)
    ensures Swap(Swap(c) << 8) == c >> 8
  {
  }

  // ---------- Whole messages ----------

  lemma LeStep(c: bv32, d: bv8)
    ensures |CRC_32_IEEE_LE| == 257 && Round(CRC_32_IEEE_LE, c, d) == LowByte(c, d)
  {
    LeAt(Index(c, d));
    LeStepsAt(c, d);
    LeRound(CRC_32_IEEE_LE, c, d);
  }

  lemma BeStep(c: bv32, d: bv8)
    ensures |CRC_32_IEEE| == 257 && Round(CRC_32_IEEE, c, d) == Swap(HighByte(Swap(c), d))
  {
    BeAt(Index(c, d));
    BeStepsAt(c, d);
    BeRound(CRC_32_IEEE, c, d, Iter(StepHigh, Xor(Swap(c), (d as bv32) << 24) & 0xff00_0000, 8));
  }

  /** With the first table the loop is reflected division, bit by bit, from any start value. */
  lemma {:induction false} LeRefines(c: bv32, data: seq<bv8>)
    ensures |CRC_32_IEEE_LE| == 257 && TableCrc(CRC_32_IEEE_LE, c, data) == LowCrc(c, data)
    decreases |data|
  {
    LeStep(c, 0);
    if data != [] {
      LeStep(c, data[0]);
      LeRefines(LowByte(c, data[0]), data[1..]);
    }
  }

  /** With the second table it is division by the plain polynomial, the highest bit first, on words with
      their bytes swapped. */
  lemma {:induction false} BeRefines(c: bv32, data: seq<bv8>)
    ensures |CRC_32_IEEE| == 257 && TableCrc(CRC_32_IEEE, c, data) == Swap(HighCrc(Swap(c), data))
    decreases |data|
  {
    BeStep(c, 0);
    SwapSwap(c);
    if data != [] {
      var m := HighByte(Swap(c), data[0]);
      BeStep(c, data[0]);
      SwapSwap(m);
      BeRefines(Swap(m), data[1..]);
    }
  }
}
