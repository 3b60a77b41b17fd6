/** Base64: what the encoder writes and what the decoder reads back. */
module Base64 {
  import opened Wrappers

  type Byte = x: nat | x < 0x100
  type Sextet = x: nat | x < 0x40

  /** The alphabet of section 4 of RFC 4648. */
  function Letter(v: Sextet): char {
    if v < 26 then 'A' + v as char
    else if v < 52 then 'a' + (v - 26) as char
    else if v < 62 then '0' + (v - 52) as char
    else if v == 62 then '+'
    else '/'
  }

  /** The place of a character in the alphabet. */
  function Find(c: char): (r: Option<Sextet>)
    ensures r.Some? ==> Letter(r.value) == c
  {
    if 'A' <= c <= 'Z' then Some((c - 'A') as nat)
    else if 'a' <= c <= 'z' then Some((c - 'a') as nat + 26)
    else if '0' <= c <= '9' then Some((c - '0') as nat + 52)
    else if c == '+' then Some(62)
    else if c == '/' then Some(63)
    else None
  }

  lemma FindLetter(v: Sextet)
    ensures Find(Letter(v)) == Some(v) && Letter(v) != '='
  {
  }

  /** The characters of three bytes. */
  function Quad(a: Byte, b: Byte, c: Byte): string {
    [Letter(a / 4), Letter(a % 4 * 16 + b / 16), Letter(b % 16 * 4 + c / 64), Letter(c % 64)]
  }

  /** The text of a byte string. An incomplete last group is filled with zero bits and padded. */
  function Encoded(bytes: seq<Byte>): string {
    if bytes == [] then ""
    else if |bytes| == 1 then Quad(bytes[0], 0, 0)[..2] + "=="
    else if |bytes| == 2 then Quad(bytes[0], bytes[1], 0)[..3] + "="
    else Quad(bytes[0], bytes[1], bytes[2]) + Encoded(bytes[3..])
  }

  /** What the decoder makes of a character: a character outside the alphabet counts as 255. */
  function Value(c: char): Byte {
    if Find(c).Some? then Find(c).value else 255
  }

  /** The three bytes of four such values, in eight bits each. */
  function Triple(a: Byte, b: Byte, c: Byte, d: Byte): seq<Byte> {
    [(a * 4 + b / 16 % 4) % 256, (b % 16 * 16 + c / 4 % 16) % 256, (c % 4 * 64 + d) % 256]
  }

  /** The bytes of a text without other characters. Of an incomplete last group of n characters, the first
      n - 1 bytes count; the missing characters are taken as the null character. */
  function Bytes(text: string): seq<Byte> {
    if text == "" then []
    else if |text| < 4 then
      var t := text + ['\0', '\0', '\0'];
      Triple(Value(t[0]), Value(t[1]), Value(t[2]), Value(t[3]))[..|text| - 1]
    else Triple(Value(text[0]), Value(text[1]), Value(text[2]), Value(text[3])) + Bytes(text[4..])
  }

  /** The text up to the first padding or foreign character. */
  function Payload(text: string): string {
    if text == "" || Find(text[0]).None? then "" else [text[0]] + Payload(text[1..])
  }

  function Decoded(text: string): seq<Byte> {
    Bytes(Payload(text))
  }

  // ---------- The encoder ----------

  lemma Assoc(a: string, b: string, c: string)
    ensures a + (b + c) == a + b + c
  {
  }

  /** The four values that three bytes are cut into. */
  method Cut(three: array<Byte>) returns (four: seq<Sextet>)
    requires three.Length == 3
    ensures |four| == 4
    ensures [Letter(four[0]), Letter(four[1]), Letter(four[2]), Letter(four[3])] == Quad(three[0], three[1], three[2])
  {
    four := [three[0] / 4, three[0] % 4 * 16 + three[1] / 16, three[1] % 16 * 4 + three[2] / 64, three[2] % 64];
  }

  /** Writes the first `n` characters of the group. */
  method Write(before: string, three: array<Byte>, n: nat) returns (ret: string)
    requires three.Length == 3 && n <= 4
    ensures ret == before + Quad(three[0], three[1], three[2])[..n]
  {
    var four := Cut(three);
    ret := before;
    for j := 0 to n
      invariant ret == before + Quad(three[0], three[1], three[2])[..j]
    {
      ret := ret + [Letter(four[j])];
    }
  }

  lemma EncodedNext(rest: seq<Byte>)
    requires |rest| >= 3
    ensures Encoded(rest) == Quad(rest[0], rest[1], rest[2])[..4] + Encoded(rest[3..])
  {
  }

  /** Collects three bytes at a time; what is left at the end is filled up and padded. */
  method Base64Encode(bytes: seq<Byte>) returns (ret: string)
    ensures ret == Encoded(bytes)
  {
    ret := "";
    var three := new Byte[3](_ => 0);
    var i, at := 0, 0;
    ghost var done := 0;
    assert bytes[0..] == bytes;
    while at < |bytes|
      invariant 0 <= i < 3 && at == done + i <= |bytes|
      invariant forall k :: 0 <= k < i ==> three[k] == bytes[done + k]
      invariant Encoded(bytes) == ret + Encoded(bytes[done..])
    {
      three[i] := bytes[at];
      i, at := i + 1, at + 1;
      if i == 3 {
        ghost var rest := bytes[done..];
        assert rest[0] == three[0] && rest[1] == three[1] && rest[2] == three[2] && rest[3..] == bytes[done + 3..];
        EncodedNext(rest);
        Assoc(ret, Quad(rest[0], rest[1], rest[2])[..4], Encoded(rest[3..]));
        ret := Write(ret, three, 4);
        i, done := 0, done + 3;
      }
    }
    if i > 0 {
      ret := WriteLast(ret, three, i, bytes[done..]);
    }
  }

  /** Fills up the last group with zeros, writes what it needs and pads. */
  method WriteLast(before: string, three: array<Byte>, i: nat, ghost rest: seq<Byte>) returns (ret: string)
    requires three.Length == 3 && 0 < i < 3 && |rest| == i && forall k :: 0 <= k < i ==> three[k] == rest[k]
    modifies three
    ensures ret == before + Encoded(rest)
  {
    for j := i to 3
      invariant forall k :: 0 <= k < i ==> three[k] == rest[k]
      invariant forall k :: i <= k < j ==> three[k] == 0
    {
      three[j] := 0;
    }
    ret := Write(before, three, i + 1);
    ghost var written := Quad(three[0], three[1], three[2])[..i + 1];
    var n := i;
    while n < 3
      invariant i <= n <= 3 && ret == before + written + "=="[..n - i]
    {
      ret := ret + "=";
      n := n + 1;
    }
    Assoc(before, written, "=="[..3 - i]);
    assert "=="[..1] == "=" && "=="[..2] == "==";
  }

  // ---------- The decoder ----------

  lemma {:induction false} PayloadEnd(p: string, rest: string)
    requires forall k :: 0 <= k < |p| ==> Find(p[k]).Some?
    requires rest == "" || Find(rest[0]).None?
    ensures Payload(p + rest) == p
  {
    if p == "" {
      assert p + rest == rest;
    } else {
      assert (p + rest)[0] == p[0] && (p + rest)[1..] == p[1..] + rest;
      PayloadEnd(p[1..], rest);
    }
  }

  /** Joins the values of a group. */
  method Join(four: array<Byte>) returns (three: seq<Byte>)
    requires four.Length == 4
    ensures three == Triple(four[0], four[1], four[2], four[3])
  {
    var a: nat, b: nat, c: nat, d: nat := four[0], four[1], four[2], four[3];
    three := [(a * 4 + b / 16 % 4) % 256, (b % 16 * 16 + c / 4 % 16) % 256, (c % 4 * 64 + d) % 256];
  }

  lemma BytesNext(rest: string)
    requires |rest| >= 4
    ensures Bytes(rest) == Triple(Value(rest[0]), Value(rest[1]), Value(rest[2]), Value(rest[3])) + Bytes(rest[4..])
  {
  }

  lemma AssocBytes(a: seq<Byte>, b: seq<Byte>, c: seq<Byte>)
    ensures a + (b + c) == a + b + c
  {
  }

  /** Replaces the characters of a group by their values and joins them. */
  method Convert(chars: array<char>) returns (three: seq<Byte>)
    requires chars.Length == 4
    ensures three == Triple(Value(chars[0]), Value(chars[1]), Value(chars[2]), Value(chars[3]))
  {
    var four := new Byte[4](_ => 0);
    for i := 0 to 4
      invariant forall k :: 0 <= k < i ==> four[k] == Value(chars[k])
    {
      four[i] := Value(chars[i]);
    }
    three := Join(four);
  }

  /** Characters of the alphabet from the start on belong to the payload. */
  lemma {:induction false} PayloadHas(text: string, n: nat)
    requires n <= |text| && forall k :: 0 <= k < n ==> Find(text[k]).Some?
    ensures n <= |Payload(text)| && Payload(text)[..n] == text[..n]
    decreases text
  {
    if n > 0 {
      PayloadHas(text[1..], n - 1);
      assert text[..n] == [text[0]] + text[1..][..n - 1];
    }
  }

  lemma PayloadIs(text: string, at: nat)
    requires at <= |text| && forall k :: 0 <= k < at ==> Find(text[k]).Some?
    requires at == |text| || Find(text[at]).None?
    ensures Payload(text) == text[..at]
  {
    assert text == text[..at] + text[at..];
    PayloadEnd(text[..at], text[at..]);
  }

  /** Reads the full groups and leaves the characters of the last one. */
  method FullGroups(text: string, chars: array<char>) returns (ret: seq<Byte>, i: nat, at: nat, ghost groups: nat)
    requires chars.Length == 4
    modifies chars
    ensures 0 <= i < 4 && at == 4 * groups + i <= |text| && (at == |text| || Find(text[at]).None?)
    ensures forall k :: 0 <= k < at ==> Find(text[k]).Some?
    ensures forall k :: 0 <= k < i ==> chars[k] == text[4 * groups + k]
    ensures 3 * groups <= |Decoded(text)| && ret == Decoded(text)[..3 * groups]
  {
    i, at := 0, 0;
    ret := [];
    groups := 0;
    ghost var all := Decoded(text);
    while at < |text| && text[at] != '=' && Find(text[at]).Some?
      invariant 0 <= i < 4 && at == 4 * groups + i <= |text|
      invariant forall k :: 0 <= k < at ==> Find(text[k]).Some?
      invariant forall k :: 0 <= k < i ==> chars[k] == text[4 * groups + k]
      invariant 3 * groups <= |all| && ret == all[..3 * groups]
    {
      chars[i] := text[at];
      i, at := i + 1, at + 1;
      if i == 4 {
        ret := Group(ret, chars, text, all, groups);
        i, groups := 0, groups + 1;
      }
    }
  }

  method Base64Decode(text: string) returns (ret: seq<Byte>)
    ensures ret == Decoded(text)
  {
    var chars := new char[4](_ => '\0');
    var i, at;
    ghost var groups;
    ret, i, at, groups := FullGroups(text, chars);
    PayloadIs(text, at);
    LastBytes(text[..at], groups, i);
    if i > 0 {
      ret := Finish(ret, chars, i, text[..at][4 * groups..]);
    }
  }

  /** Fills up the last group with null characters and converts it; all but its last byte count. */
  method Finish(before: seq<Byte>, chars: array<char>, i: nat, ghost tail: string) returns (ret: seq<Byte>)
    requires chars.Length == 4 && 0 < i < 4 && |tail| == i && forall k :: 0 <= k < i ==> chars[k] == tail[k]
    modifies chars
    ensures ret == before + Bytes(tail)
  {
    for j := i to 4
      invariant forall k :: 0 <= k < i ==> chars[k] == tail[k]
      invariant forall k :: i <= k < j ==> chars[k] == '\0'
    {
      chars[j] := '\0';
    }
    var three := Convert(chars);
    ret := before;
    for j := 0 to i - 1
      invariant ret == before + three[..j]
    {
      ret := ret + [three[j]];
    }
  }

  /** Converts a full group. */
  method Group(before: seq<Byte>, chars: array<char>, ghost text: string, ghost all: seq<Byte>, ghost g: nat) returns (ret: seq<Byte>)
    requires chars.Length == 4 && 4 * g + 4 <= |text| && forall k :: 0 <= k < 4 * g + 4 ==> Find(text[k]).Some?
    requires forall k :: 0 <= k < 4 ==> chars[k] == text[4 * g + k]
    requires all == Decoded(text) && 3 * g <= |all| && before == all[..3 * g]
    ensures 3 * g + 3 <= |all| && ret == all[..3 * g + 3]
  {
    var three := Convert(chars);
    ret := before + three;
    ghost var payload := Payload(text);
    PayloadHas(text, 4 * g + 4);
    forall k | 0 <= k < 4 ensures payload[4 * g + k] == chars[k] {
      assert payload[..4 * g + 4][4 * g + k] == text[..4 * g + 4][4 * g + k];
    }
    GroupBytes(payload, g);
    assert all[..3 * g + 3] == all[..3 * g] + all[3 * g..3 * g + 3];
  }

  /** The bytes of group number `g`. */
  lemma {:induction false} GroupBytes(p: string, g: nat)
    requires 4 * g + 4 <= |p|
    ensures var k := 4 * g;
            |Bytes(p)| >= 3 * g + 3
            && Bytes(p)[3 * g..3 * g + 3] == Triple(Value(p[k]), Value(p[k + 1]), Value(p[k + 2]), Value(p[k + 3]))
    decreases g
  {
    var head, rest := Triple(Value(p[0]), Value(p[1]), Value(p[2]), Value(p[3])), p[4..];
    BytesNext(p);
    if g > 0 {
      GroupBytes(rest, g - 1);
      Behind(head, Bytes(rest), 3 * (g - 1), 3 * g);
    }
  }

  lemma Behind(a: seq<Byte>, b: seq<Byte>, lo: nat, hi: nat)
    requires |a| == 3 && lo <= hi <= |b|
    ensures (a + b)[lo + 3..hi + 3] == b[lo..hi]
  {
  }

  /** Behind the full groups come the bytes of the last one. */
  lemma {:induction false} LastBytes(p: string, g: nat, i: nat)
    requires |p| == 4 * g + i
    ensures |Bytes(p)| >= 3 * g && Bytes(p) == Bytes(p)[..3 * g] + Bytes(p[4 * g..])
    decreases g
  {
    if g == 0 {
      assert p[0..] == p && [] + Bytes(p) == Bytes(p);
    } else {
      var head, rest := Triple(Value(p[0]), Value(p[1]), Value(p[2]), Value(p[3])), p[4..];
      BytesNext(p);
      LastBytes(rest, g - 1, i);
      assert rest[4 * (g - 1)..] == p[4 * g..];
      FrontBehind(head, Bytes(rest), 3 * (g - 1), Bytes(p[4 * g..]));
    }
  }

  lemma FrontBehind(a: seq<Byte>, b: seq<Byte>, n: nat, c: seq<Byte>)
    requires |a| == 3 && n <= |b| && b == b[..n] + c
    ensures a + b == (a + b)[..n + 3] + c
  {
    assert (a + b)[..n + 3] == a + b[..n];
    AssocBytes(a, b[..n], c);
  }

  // ---------- Round trip ----------

  lemma Values(v: Sextet)
    ensures Value(Letter(v)) == v && Find(Letter(v)).Some?
  {
    FindLetter(v);
  }

  /** The three sums give the bytes back. */
  lemma Sextets(a: Byte, b: Byte, c: Byte)
    ensures (a / 4 * 4 + (a % 4 * 16 + b / 16) / 16 % 4) % 256 == a
    ensures ((a % 4 * 16 + b / 16) % 16 * 16 + (b % 16 * 4 + c / 64) / 4 % 16) % 256 == b
    ensures ((b % 16 * 4 + c / 64) % 4 * 64 + c % 64) % 256 == c
  {
    var x, y, z := b / 16, c / 64, b % 16;
    assert (a % 4 * 16 + x) / 16 == a % 4 && (a % 4 * 16 + x) % 16 == x;
    assert (z * 4 + y) / 4 == z && (z * 4 + y) % 4 == y;
    assert a == a / 4 * 4 + a % 4;
    assert b == x * 16 + z;
    assert c == y * 64 + c % 64;
  }

  lemma TripleQuad(a: Byte, b: Byte, c: Byte)
    ensures var q := Quad(a, b, c);
            && Triple(Value(q[0]), Value(q[1]), Value(q[2]), Value(q[3])) == [a, b, c]
            && forall k :: 0 <= k < 4 ==> Find(q[k]).Some?
  {
    Values(a / 4);
    Values(a % 4 * 16 + b / 16);
    Values(b % 16 * 4 + c / 64);
    Values(c % 64);
    Sextets(a, b, c);
  }

  function Padding(n: nat): string {
    if n % 3 == 0 then "" else if n % 3 == 1 then "==" else "="
  }

  /** The text is `p` and the padding; `p` has only characters of the alphabet and is read as the bytes. */
  ghost predicate Shape(bytes: seq<Byte>, p: string) {
    && Encoded(bytes) == p + Padding(|bytes|)
    && (forall k :: 0 <= k < |p| ==> Find(p[k]).Some?)
    && |p| + |Padding(|bytes|)| == (|bytes| + 2) / 3 * 4
    && Bytes(p) == bytes
  }

  lemma {:induction false} EncodedShape(bytes: seq<Byte>) returns (p: string)
    ensures Shape(bytes, p)
    decreases |bytes|
  {
    if bytes == [] {
      p := "";
    } else if |bytes| < 3 {
      var n := |bytes|;
      var a, b := bytes[0], if n == 2 then bytes[1] else 0;
      TripleQuad(a, b, 0);
      p := Quad(a, b, 0)[..n + 1];
      LastGroup(a, b, n, p);
    } else {
      var rest := bytes[3..];
      var p' := EncodedShape(rest);
      p := Quad(bytes[0], bytes[1], bytes[2]) + p';
      ShapeNext(bytes, rest, p');
    }
  }

  lemma ThreeMore(n: nat)
    ensures (n + 3) % 3 == n % 3 && (n + 3 + 2) / 3 * 4 == (n + 2) / 3 * 4 + 4
  {
  }

  lemma ShapeNext(bytes: seq<Byte>, rest: seq<Byte>, p: string)
    requires |bytes| >= 3 && rest == bytes[3..] && Shape(rest, p)
    ensures Shape(bytes, Quad(bytes[0], bytes[1], bytes[2]) + p)
  {
    var a, b, c := bytes[0], bytes[1], bytes[2];
    var q := Quad(a, b, c);
    TripleQuad(a, b, c);
    ThreeMore(|rest|);
    Assoc(q, p, Padding(|rest|));
    BytesQuad(a, b, c, p);
    assert bytes == [a, b, c] + rest;
    InAlphabet(q, p);
  }

  lemma InAlphabet(q: string, p: string)
    requires forall k :: 0 <= k < |q| ==> Find(q[k]).Some?
    requires forall k :: 0 <= k < |p| ==> Find(p[k]).Some?
    ensures forall k :: 0 <= k < |q + p| ==> Find((q + p)[k]).Some?
  {
    forall k | 0 <= k < |q + p| ensures Find((q + p)[k]).Some? {
      if k >= |q| { assert (q + p)[k] == p[k - |q|]; } else { assert (q + p)[k] == q[k]; }
    }
  }

  lemma BytesQuad(a: Byte, b: Byte, c: Byte, p: string)
    ensures Bytes(Quad(a, b, c) + p) == [a, b, c] + Bytes(p)
  {
    var t := Quad(a, b, c) + p;
    TripleQuad(a, b, c);
    BytesNext(t);
    assert t[4..] == p;
  }

  /** An incomplete group is read back, whatever the missing characters are taken for. */
  lemma LastGroup(a: Byte, b: Byte, n: nat, p: string)
    requires 1 <= n <= 2 && (n == 1 ==> b == 0) && p == Quad(a, b, 0)[..n + 1]
    ensures Bytes(p) == [a, b][..n]
  {
    var q := Quad(a, b, 0);
    var t := p + ['\0', '\0', '\0'];
    TripleQuad(a, b, 0);
    assert t[0] == q[0] && t[1] == q[1] && (n == 2 ==> t[2] == q[2]) && |p| == n + 1;
  }

  /** The encoder's text: four characters for every three bytes begun, all of the alphabet but for the padding
      of section 4 of RFC 4648, which is two signs for one byte left over, one for two, and none for none. */
  lemma EncodedLength(bytes: seq<Byte>)
    ensures var e, pad := Encoded(bytes), if |bytes| % 3 == 0 then 0 else 3 - |bytes| % 3;
            && |e| == (|bytes| + 2) / 3 * 4 && pad <= |e|
            && (forall k :: 0 <= k < |e| - pad ==> Find(e[k]).Some?)
            && (forall k :: |e| - pad <= k < |e| ==> e[k] == '=')
    ensures Find('=').None?
  {
    var p := EncodedShape(bytes);
    forall k | 0 <= k < |p| ensures Find(Encoded(bytes)[k]).Some? {
      assert Encoded(bytes)[k] == p[k];
    }
  }

  /** Decoding gives back every byte string. */
  lemma RoundTrip(bytes: seq<Byte>)
    ensures Decoded(Encoded(bytes)) == bytes
  {
    var p := EncodedShape(bytes);
    PayloadEnd(p, Padding(|bytes|));
  }
}

/** The alphabet, written out, and the bits of a group. */
module Base64Letters {
  import opened Base64

  const UPPER: string := "ABCDEFGHIJKLMNOPQRSTUVWXYZ"
  const LOWER: string := "abcdefghijklmnopqrstuvwxyz"
  const OTHER: string := "0123456789+/"

  lemma LetterIs(v: Sextet)
    ensures Letter(v) == if v < 26 then UPPER[v] else if v < 52 then LOWER[v - 26] else OTHER[v - 52]
  {
  }

  /** The four letters of three bytes stand for their bits in order, six at a time. */
  lemma GroupBits(a: Byte, b: Byte, c: Byte)
    ensures var q := Quad(a, b, c);
            && (forall k :: 0 <= k < 4 ==> Find(q[k]).Some?)
            && a * 0x10000 + b * 0x100 + c
               == Find(q[0]).value * 0x40000 + Find(q[1]).value * 0x1000 + Find(q[2]).value * 0x40 + Find(q[3]).value
  {
    FindLetter(a / 4);
    FindLetter(a % 4 * 16 + b / 16);
    FindLetter(b % 16 * 4 + c / 64);
    FindLetter(c % 64);
    assert a == a / 4 * 4 + a % 4 && b == b / 16 * 16 + b % 16 && c == c / 64 * 64 + c % 64;
  }
}
