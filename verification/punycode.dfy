/** UTF-8 as the label encoder reads it. */
module Utf8 {
  import opened Wrappers

  type Byte = x: nat | x < 0x100
  type Scalar = x: nat | x < 0x110000 && !(0xD800 <= x < 0xE000)

  /** The bitwise exclusive or of two 2-bit numbers. */
  function Xor2(a: nat, b: nat): (r: nat)
    requires a < 4 && b < 4
    ensures r < 4
  {
    2 * ((a / 2 + b / 2) % 2) + (a % 2 + b % 2) % 2
  }

  /** The top two bits of the exclusive or of three bytes are 10. */
  predicate Continues(b: Byte, c: Byte, d: Byte) {
    Xor2(Xor2(b / 64, c / 64), d / 64) == 2
  }

  /** Refuses overlong forms, surrogates and what is past the last character. */
  function Checked(v: nat, least: nat): (r: Option<Scalar>)
    ensures r.Some? ==> r.value >= least
  {
    if v < least || v > 0x10FFFF || 0xD800 <= v <= 0xDFFF then None else Some(v)
  }

  /** The number with the given bits in front and three groups of six bits after them. */
  function Bits(a: nat, x: nat, y: nat, z: nat): nat {
    a * 0x40000 + x * 0x1000 + y * 0x40 + z
  }

  /** The tail of the decoder: the lead bits and three continuation bytes, the least value allowed. */
  function Join(a: nat, b: Byte, c: Byte, d: Byte, least: nat): (r: Option<Scalar>)
    ensures r.Some? ==> r.value >= least
  {
    if Continues(b, c, d) then Checked(Bits(a, b % 64, c % 64, d % 64), least) else None
  }

  /** One character at position `p`, and the position after it. A lead byte with too few bytes after
      it is read as a shorter form. */
  function Decode1(s: seq<Byte>, p: nat): (r: (Option<Scalar>, nat))
    requires p < |s|
    ensures p < r.1 <= |s|
  {
    var a, left := s[p], |s| - p - 1;
    if a < 128 then (Some(a), p + 1)
    else if a > 0xF7 then (None, p + 1)
    else if left >= 3 && a > 0xEF then (Join(a % 8, s[p + 1], s[p + 2], s[p + 3], 0x10000), p + 4)
    else if left >= 2 && a > 0xDF then (Join(0, 0x80 + a % 16, s[p + 1], s[p + 2], 0x800), p + 3)
    else if left >= 1 && a > 0xBF then (Join(0, 0x80, 0x80 + a % 32, s[p + 1], 0x80), p + 2)
    else (None, p + 1)
  }

  /** All the characters from position `p` to the end, or nothing when one of them is refused. */
  function Decode(s: seq<Byte>, p: nat): Option<seq<Scalar>>
    requires p <= |s|
    decreases |s| - p
  {
    if p == |s| then Some([])
    else
      var (c, q) := Decode1(s, p);
      if c.None? || Decode(s, q).None? then None else Some([c.value] + Decode(s, q).value)
  }

  function Encode1(c: Scalar): seq<Byte> {
    var (c6, c12, c18) := (c / 64, c / 64 / 64, c / 64 / 64 / 64);
    if c < 0x80 then [c]
    else if c < 0x800 then [0xC0 + c6, 0x80 + c % 64]
    else if c < 0x10000 then [0xE0 + c12, 0x80 + c6 % 64, 0x80 + c % 64]
    else [0xF0 + c18, 0x80 + c12 % 64, 0x80 + c6 % 64, 0x80 + c % 64]
  }

  /** The well-formed UTF-8 text of a sequence of characters. */
  function Encode(cs: seq<Scalar>): seq<Byte> {
    if cs == [] then [] else Encode1(cs[0]) + Encode(cs[1..])
  }

  lemma Continuation(b: Byte, x: nat)
    requires x < 64 && b == 0x80 + x
    ensures b / 64 == 2 && b % 64 == x
  {
  }

  /** Joining continuation bytes that carry the bits x, y, z. */
  lemma JoinSextets(a: nat, b: Byte, c: Byte, d: Byte, x: nat, y: nat, z: nat, least: nat)
    requires x < 64 && y < 64 && z < 64 && b == 0x80 + x && c == 0x80 + y && d == 0x80 + z
    ensures Join(a, b, c, d, least) == Checked(Bits(a, x, y, z), least)
  {
    Continuation(b, x);
    Continuation(c, y);
    Continuation(d, z);
    assert Xor2(2, 2) == 0 && Xor2(0, 2) == 2;
  }

  /** The base-64 digits of a character. */
  lemma Sextets(c: Scalar)
    ensures c == Bits(c / 64 / 64 / 64, c / 64 / 64 % 64, c / 64 % 64, c % 64)
  {
    var c6, c12 := c / 64, c / 64 / 64;
    assert c == 64 * c6 + c % 64;
    assert c6 == 64 * c12 + c6 % 64;
    assert c12 == 64 * (c12 / 64) + c12 % 64;
  }

  lemma Decodes4(s: seq<Byte>, p: nat, a: nat, x: nat, y: nat, z: nat)
    requires p + 4 <= |s| && a < 8 && x < 64 && y < 64 && z < 64
    requires s[p] == 0xF0 + a && s[p + 1] == 0x80 + x && s[p + 2] == 0x80 + y && s[p + 3] == 0x80 + z
    ensures Decode1(s, p) == (Checked(Bits(a, x, y, z), 0x10000), p + 4)
  {
    assert s[p] % 8 == a;
    JoinSextets(a, s[p + 1], s[p + 2], s[p + 3], x, y, z, 0x10000);
  }

  lemma Decodes3(s: seq<Byte>, p: nat, x: nat, y: nat, z: nat)
    requires p + 3 <= |s| && x < 16 && y < 64 && z < 64
    requires s[p] == 0xE0 + x && s[p + 1] == 0x80 + y && s[p + 2] == 0x80 + z
    ensures Decode1(s, p) == (Checked(Bits(0, x, y, z), 0x800), p + 3)
  {
    var b: Byte := 0x80 + x;
    assert s[p] % 16 == x;
    JoinSextets(0, b, s[p + 1], s[p + 2], x, y, z, 0x800);
  }

  lemma LowBits(a: Byte, y: nat)
    requires y < 32 && a == 0xC0 + y
    ensures a % 32 == y
  {
  }

  lemma Decodes2(s: seq<Byte>, p: nat, y: nat, z: nat)
    requires p + 2 <= |s| && y < 32 && z < 64
    requires s[p] == 0xC0 + y && s[p + 1] == 0x80 + z
    ensures Decode1(s, p) == (Checked(Bits(0, 0, y, z), 0x80), p + 2)
  {
    var b: Byte, c: Byte, x: nat := 0x80, 0x80 + y, 0;
    LowBits(s[p], y);
    JoinSextets(0, b, c, s[p + 1], x, y, z, 0x80);
  }

  /** Decoding undoes encoding, for one character with any bytes after it. */
  lemma Encode1Decodes(c: Scalar, s: seq<Byte>, p: nat)
    requires p + |Encode1(c)| <= |s| && forall i :: 0 <= i < |Encode1(c)| ==> s[p + i] == Encode1(c)[i]
    ensures Decode1(s, p) == (Some(c), p + |Encode1(c)|)
  {
    var e := Encode1(c);
    var c6, c12, c18 := c / 64, c / 64 / 64, c / 64 / 64 / 64;
    Sextets(c);
    assert s[p + 0] == e[0];
    if c >= 0x10000 {
      assert s[p + 1] == e[1] && s[p + 2] == e[2] && s[p + 3] == e[3];
      Decodes4(s, p, c18, c12 % 64, c6 % 64, c % 64);
    } else if c >= 0x800 {
      assert s[p + 1] == e[1] && s[p + 2] == e[2];
      Decodes3(s, p, c12, c6 % 64, c % 64);
    } else if c >= 0x80 {
      assert s[p + 1] == e[1];
      Decodes2(s, p, c6, c % 64);
    }
  }

  lemma SuffixSplit(s: seq<Byte>, p: nat, e: seq<Byte>, rest: seq<Byte>)
    requires p <= |s| && s[p..] == e + rest
    ensures p + |e| <= |s| && s[p + |e|..] == rest && forall i :: 0 <= i < |e| ==> s[p + i] == e[i]
  {
    forall i | 0 <= i < |e| ensures s[p + i] == e[i] { assert s[p..][i] == e[i]; }
    assert s[p + |e|..] == s[p..][|e|..];
  }

  lemma {:induction false} DecodeEncodeAt(cs: seq<Scalar>, s: seq<Byte>, p: nat)
    requires p <= |s| && s[p..] == Encode(cs)
    ensures Decode(s, p) == Some(cs)
    decreases cs
  {
    if cs != [] {
      var e, rest := Encode1(cs[0]), Encode(cs[1..]);
      SuffixSplit(s, p, e, rest);
      Encode1Decodes(cs[0], s, p);
      DecodeEncodeAt(cs[1..], s, p + |e|);
      assert [cs[0]] + cs[1..] == cs;
    }
  }

  /** Well-formed text is decoded to the characters it encodes. */
  lemma DecodeEncode(cs: seq<Scalar>)
    ensures Decode(Encode(cs), 0) == Some(cs)
  {
    DecodeEncodeAt(cs, Encode(cs), 0);
  }

  predicate Tail(s: seq<Byte>, p: nat, n: nat) {
    p + n < |s| && forall i :: p < i <= p + n ==> 0x80 <= s[i] < 0xC0
  }

  /** From position `p` on the text consists of lead bytes that have their continuation bytes behind them. */
  predicate Shaped(s: seq<Byte>, p: nat)
    decreases |s| - p
  {
    p == |s|
    || (p < |s| && s[p] < 0x80 && Shaped(s, p + 1))
    || (p < |s| && 0xC0 <= s[p] < 0xE0 && Tail(s, p, 1) && Shaped(s, p + 2))
    || (p < |s| && 0xE0 <= s[p] < 0xF0 && Tail(s, p, 2) && Shaped(s, p + 3))
    || (p < |s| && 0xF0 <= s[p] && Tail(s, p, 3) && Shaped(s, p + 4))
  }

  /** Of such texts just the well-formed ones are read: no overlong forms, no surrogates, nothing past the last
      character. */
  lemma {:induction false} ReadIsWellFormed(s: seq<Byte>, p: nat, cs: seq<Scalar>)
    requires p <= |s| && Shaped(s, p)
    ensures Decode(s, p) == Some(cs) <==> s[p..] == Encode(cs)
    decreases |s| - p
  {
    if s[p..] == Encode(cs) {
      DecodeEncodeAt(cs, s, p);
    }
    if Decode(s, p) == Some(cs) {
      if p == |s| {
        assert s[p..] == [];
      } else {
        var (c, q) := Decode1(s, p);
        ReadOne(s, p);
        assert cs == [c.value] + Decode(s, q).value && cs[0] == c.value && cs[1..] == Decode(s, q).value;
        ReadIsWellFormed(s, q, cs[1..]);
        assert s[p..] == s[p..q] + s[q..];
      }
    }
  }

  lemma ReadOne(s: seq<Byte>, p: nat)
    requires p < |s| && Shaped(s, p) && Decode1(s, p).0.Some?
    ensures var (c, q) := Decode1(s, p); Shaped(s, q) && s[p..q] == Encode1(c.value)
  {
    if s[p] < 0x80 {
    } else if s[p] < 0xE0 {
      assert 0x80 <= s[p + 1] < 0xC0;
      var y, z := s[p] - 0xC0, s[p + 1] - 0x80;
      Decodes2(s, p, y, z);
      Encoded2(y, z, Bits(0, 0, y, z));
    } else if s[p] < 0xF0 {
      assert 0x80 <= s[p + 1] < 0xC0 && 0x80 <= s[p + 2] < 0xC0;
      var x, y, z := s[p] - 0xE0, s[p + 1] - 0x80, s[p + 2] - 0x80;
      Decodes3(s, p, x, y, z);
      Encoded3(x, y, z, Bits(0, x, y, z));
    } else {
      assert 0x80 <= s[p + 1] < 0xC0 && 0x80 <= s[p + 2] < 0xC0 && 0x80 <= s[p + 3] < 0xC0;
      assert s[p] <= 0xF7;
      var a, x, y, z := s[p] - 0xF0, s[p + 1] - 0x80, s[p + 2] - 0x80, s[p + 3] - 0x80;
      Decodes4(s, p, a, x, y, z);
      Encoded4(a, x, y, z, Bits(a, x, y, z));
    }
  }

  lemma SplitSextet(v: nat, hi: nat, lo: nat)
    requires v == hi * 64 + lo && lo < 64
    ensures v / 64 == hi && v % 64 == lo
  {
  }

  lemma Encoded2(y: nat, z: nat, c: Scalar)
    requires y < 32 && z < 64 && c == Bits(0, 0, y, z) && c >= 0x80
    ensures Encode1(c) == [0xC0 + y, 0x80 + z]
  {
    SplitSextet(c, y, z);
  }

  lemma Encoded3(x: nat, y: nat, z: nat, c: Scalar)
    requires x < 16 && y < 64 && z < 64 && c == Bits(0, x, y, z) && c >= 0x800
    ensures Encode1(c) == [0xE0 + x, 0x80 + y, 0x80 + z]
  {
    SplitSextet(c, x * 64 + y, z);
    SplitSextet(c / 64, x, y);
  }

  lemma Encoded4(a: nat, x: nat, y: nat, z: nat, c: Scalar)
    requires a < 8 && x < 64 && y < 64 && z < 64 && c == Bits(a, x, y, z) && c >= 0x10000
    ensures Encode1(c) == [0xF0 + a, 0x80 + x, 0x80 + y, 0x80 + z]
  {
    SplitSextet(c, a * 4096 + x * 64 + y, z);
    SplitSextet(c / 64, a * 64 + x, y);
    SplitSextet(c / 64 / 64, a, x);
  }

  /** The test of the continuation bytes is one for all of them: the exclusive or of their leading bits is right for
      continuation bytes, but not only for them. */
  lemma LooseTest(b: Byte, c: Byte, d: Byte)
    ensures 0x80 <= b < 0xC0 && 0x80 <= c < 0xC0 && 0x80 <= d < 0xC0 ==> Continues(b, c, d)
    ensures 0x80 <= b < 0xC0 ==> (Continues(b, c, d) <==> c / 64 == d / 64)
    ensures 0x80 <= b < 0xC0 && 0x80 <= c < 0xC0 ==> (Continues(b, c, d) <==> 0x80 <= d < 0xC0)
  {
    TopIs(b);
    TopIs(c);
    TopIs(d);
    if b / 64 == 2 { LooseAs(b, c, d, c / 64, d / 64); }
  }

  lemma LooseAs(b: Byte, c: Byte, d: Byte, y: nat, z: nat)
    requires b / 64 == 2 && y == c / 64 < 4 && z == d / 64 < 4
    ensures Continues(b, c, d) <==> y == z
  {
    XorEqual(y, z);
  }

  lemma TopIs(b: Byte)
    ensures b / 64 < 4 && (0x80 <= b < 0xC0 <==> b / 64 == 2)
  {
  }

  lemma XorEqual(y: nat, z: nat)
    requires y < 4 && z < 4
    ensures Xor2(Xor2(2, y), z) == 2 <==> y == z
  {
    var two: nat := 2;
    XorHalves(two, y);
    XorHalves(Xor2(two, y), z);
    Halves(Xor2(Xor2(two, y), z));
    Halves(y);
    Halves(z);
  }

  lemma Halves(a: nat)
    requires a < 4
    ensures a == 2 * (a / 2) + a % 2 && a / 2 < 2
  {
  }

  lemma XorHalves(a: nat, b: nat)
    requires a < 4 && b < 4
    ensures Xor2(a, b) / 2 == if a / 2 == b / 2 then 0 else 1
    ensures Xor2(a, b) % 2 == if a % 2 == b % 2 then 0 else 1
  {
    Halves(a);
    Halves(b);
    var p, q := (a / 2 + b / 2) % 2, (a % 2 + b % 2) % 2;
    SumBits(a / 2, b / 2);
    SumBits(a % 2, b % 2);
    TwoBits(p, q);
  }

  lemma SumBits(p: nat, q: nat)
    requires p < 2 && q < 2
    ensures (p + q) % 2 == if p == q then 0 else 1
  {
  }

  lemma TwoBits(p: nat, q: nat)
    requires p < 2 && q < 2
    ensures (2 * p + q) / 2 == p && (2 * p + q) % 2 == q
  {
  }

  /** For instance a lead byte for three with two bytes behind it that are no continuation bytes at all is read as
      if they were: 0xE2, 0x02, 0x2C as the character 0x20AC. */
  lemma IllFormedRead(s: seq<Byte>, x: nat, c: Scalar)
    requires |s| == 3 && x < 16 && s[0] == 0xE0 + x && s[1] < 0x40 && s[2] < 0x40
    requires c == Bits(0, x, s[1], s[2]) && c >= 0x800
    ensures Decode1(s, 0) == (Some(c), 3) && !Shaped(s, 0)
  {
    var b: Byte := 0x80 + x;
    assert s[0] % 16 == x && b % 64 == x && b / 64 == 2;
    LooseTest(b, s[1], s[2]);
    assert s[1] / 64 == 0 && s[2] / 64 == 0 && s[1] % 64 == s[1] && s[2] % 64 == s[2];
  }

  /** A stretch that ends between two characters is decoded as on its own. */
  lemma Decode1Local(s: seq<Byte>, p: nat, from: nat, end: nat)
    requires from <= p < end <= |s| && Decode1(s, p).1 <= end
    ensures Decode1(s[from..end], p - from) == (Decode1(s, p).0, Decode1(s, p).1 - from)
  {
    var t := s[from..end];
    assert t[p - from] == s[p];
    if p + 1 < end { assert t[p + 1 - from] == s[p + 1]; }
    if p + 2 < end { assert t[p + 2 - from] == s[p + 2]; }
    if p + 3 < end { assert t[p + 3 - from] == s[p + 3]; }
  }
}

/** Punycode: the decoder of RFC 3492, section 6.2, and its digits. */
module PunycodeText {
  import opened Wrappers
  import opened Utf8

  const DASH: Byte := 45

  /** The digits a to z and 0 to 9, in this order. */
  function Digit(d: nat): Byte
    requires d < 36
  {
    if d < 26 then 97 + d else 22 + d
  }

  /** The value of a digit, in either case of letters. */
  function DigitValue(b: Byte): (r: Option<nat>)
    ensures r.Some? ==> r.value < 36
  {
    if 97 <= b <= 122 then Some(b - 97)
    else if 65 <= b <= 90 then Some(b - 65)
    else if 48 <= b <= 57 then Some(b - 22)
    else None
  }

  /** The least digit value that does not end an integer. */
  function Threshold(k: nat, bias: nat): (t: nat)
    ensures 1 <= t <= 26
  {
    if k <= bias then 1 else if k - bias > 26 then 26 else k - bias
  }

  /** The digit value for `q` and what is left for the next digits. */
  function Carry(q: nat, t: nat): (r: (nat, nat))
    requires 1 <= t <= 26 && t <= q
    ensures t <= r.0 < 36 && r.1 < q && q == r.0 + (36 - t) * r.1
  {
    var y := 36 - t;
    DivMod(q - t, y);
    (t + (q - t) % y, (q - t) / y)
  }

  lemma DivMod(a: nat, y: nat)
    requires y > 0
    ensures 0 <= a / y <= a && 0 <= a % y < y && a == a % y + y * (a / y)
  {
    MulGrows(y, a / y);
  }

  lemma {:induction false} MulGrows(y: nat, b: int)
    requires y > 0
    ensures if b < 0 then y * b <= b else y * b >= b
    decreases if b < 0 then -b else b
  {
    if b > 0 { MulGrows(y, b - 1); } else if b < 0 { MulGrows(y, b + 1); }
  }

  /** The variable-length integer of section 3.3. */
  function Digits(q: nat, k: nat, bias: nat): seq<Byte>
    decreases q
  {
    var t := Threshold(k, bias);
    if q < t then [Digit(q)]
    else [Digit(Carry(q, t).0)] + Digits(Carry(q, t).1, k + 36, bias)
  }

  /** The bias adaptation of section 6.1. */
  function Adapt(delta: nat, count: nat, first: bool): nat
    requires count > 0
  {
    var d := if first then delta / 700 else delta / 2;
    DivMod(d, count);
    Skew(d + d / count, 0)
  }

  function Skew(delta: nat, k: nat): nat {
    if delta > 455 then Skew(delta / 35, k + 36) else k + 36 * delta / (delta + 38)
  }

  /** Reads one integer: `i` plus its value times `w`, and the rest of the text. */
  function ReadInt(ext: seq<Byte>, i: nat, w: nat, k: nat, bias: nat): (r: Option<(nat, seq<Byte>)>)
    ensures r.Some? ==> |r.value.1| < |ext|
    decreases |ext|
  {
    if ext == [] || DigitValue(ext[0]).None? then None
    else
      var d, t := DigitValue(ext[0]).value, Threshold(k, bias);
      if d < t then Some((i + d * w, ext[1..]))
      else ReadInt(ext[1..], i + d * w, w * (36 - t), k + 36, bias)
  }

  datatype State = State(n: nat, i: nat, bias: nat, out: seq<nat>)

  /** One insertion of the decoder, `i` being the sum of the old position and the integer read. */
  function Insert(st: State, i: nat): State
    requires st.i <= i
  {
    var count := |st.out| + 1;
    var n, pos := st.n + i / count, i % count;
    State(n, pos + 1, Adapt(i - st.i, count, st.i == 0), st.out[..pos] + [n] + st.out[pos..])
  }

  lemma {:induction false} ReadIntGrows(ext: seq<Byte>, i: nat, w: nat, k: nat, bias: nat)
    ensures var r := ReadInt(ext, i, w, k, bias); r.Some? ==> r.value.0 >= i
    decreases |ext|
  {
    if ext != [] && DigitValue(ext[0]).Some? && DigitValue(ext[0]).value >= Threshold(k, bias) {
      var t := Threshold(k, bias);
      ReadIntGrows(ext[1..], i + DigitValue(ext[0]).value * w, w * (36 - t), k + 36, bias);
    }
  }

  function Run(ext: seq<Byte>, st: State): Option<State>
    decreases |ext|
  {
    if ext == [] then Some(st)
    else
      var r := ReadInt(ext, st.i, 1, 36, st.bias);
      if r.None? then None
      else
        ReadIntGrows(ext, st.i, 1, 36, st.bias);
        Run(r.value.1, Insert(st, r.value.0))
  }

  /** The number of characters before the last delimiter, zero when there is none. */
  function BasicCount(s: seq<Byte>): (b: nat)
    ensures b == 0 || (b < |s| && s[b] == DASH)
  {
    if s == [] then 0
    else if s[|s| - 1] == DASH then |s| - 1
    else BasicCount(s[..|s| - 1])
  }

  function Start(basics: seq<Byte>): State {
    State(128, 0, 72, basics)
  }

  /** The decoder. */
  function Unpuny(s: seq<Byte>): Option<seq<nat>> {
    var b := BasicCount(s);
    if exists j :: 0 <= j < b && s[j] >= 128 then None
    else
      var r := Run(if b > 0 then s[b + 1..] else s, Start(s[..b]));
      if r.None? then None else Some(r.value.out)
  }

  /** Reading one digit. */
  lemma ReadDigit(d: nat, e: seq<Byte>, i: nat, w: nat, k: nat, bias: nat)
    requires d < 36
    ensures var t := Threshold(k, bias);
            ReadInt([Digit(d)] + e, i, w, k, bias)
            == if d < t then Some((i + d * w, e)) else ReadInt(e, i + d * w, w * (36 - t), k + 36, bias)
  {
    assert ([Digit(d)] + e)[1..] == e;
    assert DigitValue(Digit(d)) == Some(d);
  }

  /** An integer is read back from its digits. */
  lemma {:induction false} ReadDigits(q: nat, k: nat, bias: nat, i: nat, w: nat, total: nat, rest: seq<Byte>)
    requires total == i + q * w
    ensures ReadInt(Digits(q, k, bias) + rest, i, w, k, bias) == Some((total, rest))
    decreases q
  {
    if q < Threshold(k, bias) {
      ReadDigit(q, rest, i, w, k, bias);
    } else {
      var q', i', w' := ReadFirst(q, k, bias, i, w, total, rest);
      ReadDigits(q', k + 36, bias, i', w', total, rest);
    }
  }

  /** Reading the first of several digits. */
  lemma ReadFirst(q: nat, k: nat, bias: nat, i: nat, w: nat, total: nat, rest: seq<Byte>) returns (q': nat, i': nat, w': nat)
    requires q >= Threshold(k, bias) && total == i + q * w
    ensures q' < q && total == i' + q' * w'
    ensures ReadInt(Digits(q, k, bias) + rest, i, w, k, bias) == ReadInt(Digits(q', k + 36, bias) + rest, i', w', k + 36, bias)
  {
    var t := Threshold(k, bias);
    var d := Carry(q, t).0;
    q', i', w' := Carry(q, t).1, i + d * w, w * (36 - t);
    Regroup(q, 36 - t, q', d, w);
    ReadDigitThen(q, k, bias, i, w, i', w', rest);
  }

  lemma ReadDigitThen(q: nat, k: nat, bias: nat, i: nat, w: nat, i': nat, w': nat, rest: seq<Byte>)
    requires var t := Threshold(k, bias); q >= t && i' == i + Carry(q, t).0 * w && w' == w * (36 - t)
    ensures ReadInt(Digits(q, k, bias) + rest, i, w, k, bias)
            == ReadInt(Digits(Carry(q, Threshold(k, bias)).1, k + 36, bias) + rest, i', w', k + 36, bias)
  {
    var (d, q') := Carry(q, Threshold(k, bias));
    var e := Digits(q', k + 36, bias);
    ConsAppend(Digit(d), e, rest);
    ReadDigit(d, e + rest, i, w, k, bias);
  }

  lemma ConsAppend(b: Byte, e: seq<Byte>, rest: seq<Byte>)
    ensures [b] + e + rest == [b] + (e + rest)
  {
  }

  lemma Regroup(q: nat, y: nat, a: nat, d: nat, w: nat)
    requires q == d + y * a
    ensures d * w + a * (w * y) == q * w
  {
    assert q * w == d * w + (y * a) * w;
    assert (y * a) * w == a * (w * y);
  }

  lemma {:induction false} ReadIntAppend(e: seq<Byte>, more: seq<Byte>, i: nat, w: nat, k: nat, bias: nat)
    requires ReadInt(e, i, w, k, bias).Some?
    ensures var r := ReadInt(e, i, w, k, bias).value;
            ReadInt(e + more, i, w, k, bias) == Some((r.0, r.1 + more))
    decreases |e|
  {
    var d, t := DigitValue(e[0]).value, Threshold(k, bias);
    assert (e + more)[1..] == e[1..] + more && (e + more)[0] == e[0];
    if d >= t {
      var i', w' := i + d * w, w * (36 - t);
      ReadIntAppend(e[1..], more, i', w', k + 36, bias);
    }
  }

  /** Decoding goes on after a prefix from the state the prefix leaves. */
  lemma {:induction false} RunAppend(e: seq<Byte>, more: seq<Byte>, st: State)
    requires Run(e, st).Some?
    ensures Run(e + more, st) == Run(more, Run(e, st).value)
    decreases |e|
  {
    if e == [] {
      assert e + more == more;
    } else {
      var r := ReadInt(e, st.i, 1, 36, st.bias).value;
      ReadIntAppend(e, more, st.i, 1, 36, st.bias);
      ReadIntGrows(e, st.i, 1, 36, st.bias);
      RunAppend(r.1, more, Insert(st, r.0));
    }
  }

  /** One more integer makes one more insertion. */
  lemma RunDigits(e: seq<Byte>, st: State, delta: nat)
    requires Run(e, st).Some?
    ensures var mid := Run(e, st).value;
            Run(e + Digits(delta, 36, mid.bias), st) == Some(Insert(mid, mid.i + delta))
  {
    var mid := Run(e, st).value;
    var g := Digits(delta, 36, mid.bias);
    RunAppend(e, g, st);
    var total := mid.i + delta;
    ReadDigits(delta, 36, mid.bias, mid.i, 1, total, []);
    assert g + [] == g;
    assert Run([], Insert(mid, mid.i + delta)) == Some(Insert(mid, mid.i + delta));
  }

  lemma {:induction false} DigitsHaveNoDash(q: nat, k: nat, bias: nat)
    ensures DASH !in Digits(q, k, bias)
    decreases q
  {
    var t := Threshold(k, bias);
    if q >= t {
      DigitsHaveNoDash(Carry(q, t).1, k + 36, bias);
    }
  }

  lemma {:induction false} BasicCountAt(basics: seq<Byte>, ext: seq<Byte>)
    requires DASH !in ext
    ensures BasicCount(basics + [DASH] + ext) == |basics|
    decreases |ext|
  {
    var s := basics + [DASH] + ext;
    if ext == [] {
      assert s[|s| - 1] == DASH;
    } else {
      assert s[..|s| - 1] == basics + [DASH] + ext[..|ext| - 1];
      BasicCountAt(basics, ext[..|ext| - 1]);
    }
  }

  lemma {:induction false} BasicCountNone(ext: seq<Byte>)
    requires DASH !in ext
    ensures BasicCount(ext) == 0
    decreases |ext|
  {
    if ext != [] {
      BasicCountNone(ext[..|ext| - 1]);
    }
  }
}

/** The digits, written out. */
module PunycodeLetters {
  import opened PunycodeText

  const ALPHABET: string := "abcdefghijklmnopqrstuvwxyz0123456789"

  lemma DigitIs(d: nat)
    requires d < 36
    ensures Digit(d) < 128 && Digit(d) as char == ALPHABET[d]
  {
  }
}
