/** Texts of internet addresses: what the printers print and what the parsers accept. */
module InetText {
  import opened Wrappers

  type Byte = x: nat | x < 0x100
  type Word = x: nat | x < 0x10000

  function DecChar(d: nat): char
    requires d < 10
  {
    '0' + d as char
  }

  function HexChar(d: nat): char
    requires d < 16
  {
    if d < 10 then '0' + d as char else 'a' + (d - 10) as char
  }

  function DecValue(c: char): (r: Option<nat>)
    ensures r.Some? ==> r.value < 10
  {
    if '0' <= c <= '9' then Some((c - '0') as nat) else None
  }

  function HexValue(c: char): (r: Option<nat>)
    ensures r.Some? ==> r.value < 16
  {
    if '0' <= c <= '9' then Some((c - '0') as nat)
    else if 'a' <= c <= 'f' then Some((c - 'a') as nat + 10)
    else if 'A' <= c <= 'F' then Some((c - 'A') as nat + 10)
    else None
  }

  /** Decimal digits without leading zeros. */
  function Dec(n: nat): string {
    if n < 10 then [DecChar(n)] else Dec(n / 10) + [DecChar(n % 10)]
  }

  /** Lower-case hexadecimal digits without leading zeros. */
  function Hex(n: nat): string {
    if n < 16 then [HexChar(n)] else Hex(n / 16) + [HexChar(n % 16)]
  }

  /** The dotted quad of four bytes. */
  function Quad(b: seq<Byte>): string
    requires |b| == 4
  {
    Dec(b[0]) + "." + Dec(b[1]) + "." + Dec(b[2]) + "." + Dec(b[3])
  }

  /** Words in hexadecimal, with colons between them. */
  function HexList(ws: seq<Word>): string {
    if ws == [] then ""
    else if |ws| == 1 then Hex(ws[0])
    else HexList(ws[..|ws| - 1]) + ":" + Hex(ws[|ws| - 1])
  }

  function WordBytes(ws: seq<Word>): (r: seq<Byte>)
    ensures |r| == 2 * |ws|
  {
    if ws == [] then [] else WordBytes(ws[..|ws| - 1]) + [ws[|ws| - 1] / 256, ws[|ws| - 1] % 256]
  }

  // ---------- Which words are compressed ----------

  predicate ZeroRun(ws: seq<Word>, b: nat, n: nat) {
    b + n <= |ws| && forall i :: b <= i < b + n ==> ws[i] == 0
  }

  /** What section 4.2 of RFC 5952 asks for: the longest run of at least two zero words is compressed, the
      first of them when several are longest; nothing is compressed when there is no such run. */
  ghost predicate Compression(ws: seq<Word>, run: Option<(nat, nat)>) {
    match run
    case None => forall b: nat, n: nat :: ZeroRun(ws, b, n) ==> n < 2
    case Some(r) =>
      r.1 >= 2 && ZeroRun(ws, r.0, r.1)
      && forall b: nat, n: nat :: ZeroRun(ws, b, n) ==> n < r.1 || (n == r.1 && r.0 <= b)
  }

  /** There is one way to compress. */
  lemma CompressionUnique(ws: seq<Word>, r: Option<(nat, nat)>, q: Option<(nat, nat)>)
    requires Compression(ws, r) && Compression(ws, q)
    ensures r == q
  {
    if r.Some? { assert ZeroRun(ws, r.value.0, r.value.1); }
    if q.Some? { assert ZeroRun(ws, q.value.0, q.value.1); }
  }

  /** What follows the two colons. Behind six zero words, or behind five and ffff, the last four bytes are a
      dotted quad. */
  function Rest(ws: seq<Word>, b: nat, n: nat): string
    requires |ws| == 8 && b + n <= 8
  {
    var quad := Quad([ws[6] / 256, ws[6] % 256, ws[7] / 256, ws[7] % 256]);
    if b == 0 && n == 6 then quad
    else if b == 0 && n == 5 && ws[5] == 0xffff then HexList(ws[5..6]) + ":" + quad
    else HexList(ws[b + n..])
  }

  function Print6(ws: seq<Word>, run: Option<(nat, nat)>): string
    requires |ws| == 8 && (run.Some? ==> run.value.0 + run.value.1 <= 8)
  {
    match run
    case None => HexList(ws)
    case Some(r) => HexList(ws[..r.0]) + ":" + (":" + Rest(ws, r.0, r.1))
  }

  // ---------- The parsers, as functions ----------

  /** Reads on in a dotted quad: `tmp` are the bytes begun, of which the last is still growing. */
  function Scan4(rest: string, tmp: seq<Byte>, saw: bool, octets: nat): Option<seq<Byte>>
    requires |tmp| > 0
  {
    if rest == "" then if octets < 4 then None else Some(tmp)
    else
      var c, k := rest[0], |tmp| - 1;
      if DecValue(c).Some? then
        var nw := tmp[k] * 10 + DecValue(c).value;
        if (saw && tmp[k] == 0) || nw > 255 || (!saw && octets + 1 > 4) then None
        else Scan4(rest[1..], tmp[k := nw], true, if saw then octets else octets + 1)
      else if c == '.' && saw && octets != 4 then Scan4(rest[1..], tmp + [0], false, octets)
      else None
  }

  function Parse4(s: string): Option<seq<Byte>> {
    Scan4(s, [0], false, 0)
  }

  /** What the main loop leaves: the bytes stored, where the two colons were, a word not yet stored. */
  datatype Scanned = Scanned(bytes: seq<Byte>, colon: Option<nat>, seen: nat, val: nat)

  /** Reads on in an address: `tok` is the text from the current word on. */
  function Scan6(rest: string, tok: string, bytes: seq<Byte>, colon: Option<nat>, seen: nat, val: nat): Option<Scanned>
  {
    if rest == "" then Some(Scanned(bytes, colon, seen, val))
    else
      var c, r := rest[0], rest[1..];
      if HexValue(c).Some? then
        if seen + 1 > 4 then None else Scan6(r, tok, bytes, colon, seen + 1, val * 16 + HexValue(c).value)
      else if c == ':' then
        if seen == 0 then
          if colon.Some? then None else Scan6(r, r, bytes, Some(|bytes|), 0, val)
        else if r == "" || |bytes| + 2 > 16 then None
        else Scan6(r, r, bytes + [val / 256 % 256, val % 256], colon, 0, 0)
      else if c == '.' && |bytes| + 4 <= 16 && Parse4(tok).Some? then
        Some(Scanned(bytes + Parse4(tok).value, colon, 0, val))
      else None
  }

  function Zeros(n: nat): seq<Byte> {
    seq(n, _ => 0)
  }

  /** Stores the last word, and shifts what follows the two colons to the end. */
  function Finish6(s: Scanned): Option<seq<Byte>> {
    if s.seen > 0 && |s.bytes| + 2 > 16 then None
    else
      var bytes := if s.seen > 0 then s.bytes + [s.val / 256 % 256, s.val % 256] else s.bytes;
      if s.colon.Some? && s.colon.value <= |bytes| < 16 then
        Some(bytes[..s.colon.value] + Zeros(16 - |bytes|) + bytes[s.colon.value..])
      else if s.colon.None? && |bytes| == 16 then Some(bytes)
      else None
  }

  function Parse6(s: string): Option<seq<Byte>> {
    var start := if s != "" && s[0] == ':' then if |s| > 1 && s[1] == ':' then Some(s[1..]) else None else Some(s);
    if start.None? then None
    else
      var end := Scan6(start.value, start.value, [], None, 0, 0);
      if end.None? then None else Finish6(end.value)
  }

  // ---------- Dotted quads: the parser accepts exactly what the printer prints ----------

  /** The canonical text of what a scan has read. */
  function Text4(tmp: seq<Byte>, saw: bool): string
    requires |tmp| > 0
  {
    Dotted(tmp[..|tmp| - 1]) + if saw then Dec(tmp[|tmp| - 1]) else ""
  }

  /** Numbers with a dot after each. */
  function Dotted(bs: seq<Byte>): string {
    if bs == [] then "" else Dotted(bs[..|bs| - 1]) + (Dec(bs[|bs| - 1]) + ".")
  }

  ghost predicate Scan4Ok(tmp: seq<Byte>, saw: bool, octets: nat) {
    |tmp| > 0 && |tmp| == (if saw then octets else octets + 1) && octets <= 4 && (!saw ==> octets < 4 && tmp[|tmp| - 1] == 0)
  }

  lemma DigitChars(d: nat, c: char)
    ensures d < 10 ==> DecValue(DecChar(d)) == Some(d) && HexValue(DecChar(d)) == Some(d)
    ensures DecValue(c).Some? ==> DecChar(DecValue(c).value) == c
    ensures d < 16 ==> HexValue(HexChar(d)) == Some(d)
  {
  }

  lemma DecSnoc(n: nat, d: nat)
    requires n > 0 && d < 10
    ensures Dec(n * 10 + d) == Dec(n) + [DecChar(d)]
  {
    assert (n * 10 + d) / 10 == n && (n * 10 + d) % 10 == d;
  }

  /** One digit more. */
  lemma TextDigit(tmp: seq<Byte>, saw: bool, octets: nat, d: nat)
    requires Scan4Ok(tmp, saw, octets) && d < 10
    requires var k := |tmp| - 1; !(saw && tmp[k] == 0) && tmp[k] * 10 + d <= 255
    ensures var k := |tmp| - 1; Text4(tmp[k := tmp[k] * 10 + d], true) == Text4(tmp, saw) + [DecChar(d)]
  {
    var k := |tmp| - 1;
    var tmp' := tmp[k := tmp[k] * 10 + d];
    assert tmp'[..k] == tmp[..k];
    if saw {
      DecSnoc(tmp[k], d);
    }
  }

  lemma TextDot(tmp: seq<Byte>)
    requires |tmp| > 0
    ensures Text4(tmp + [0], false) == Text4(tmp, true) + "."
  {
    assert (tmp + [0])[..|tmp|] == tmp;
  }

  lemma TextQuad(tmp: seq<Byte>)
    requires |tmp| == 4
    ensures Text4(tmp, true) == Quad(tmp)
  {
    var a, b, c := tmp[..1], tmp[..2], tmp[..3];
    assert c[..2] == b && b[..1] == a && a[..0] == [];
    assert Dotted([]) == "";
    assert Dotted(a) == "" + (Dec(tmp[0]) + ".");
    assert Dotted(b) == Dotted(a) + (Dec(tmp[1]) + ".");
    assert Dotted(c) == Dotted(b) + (Dec(tmp[2]) + ".");
  }

  lemma Shift(a: string, c: char, r: string)
    ensures a + [c] + r == a + ([c] + r)
  {
  }

  /** The scan gives the bytes whose quad is what was read followed by the rest. */
  ghost predicate ReadsAs(text: string, rest: string, r: Option<seq<Byte>>) {
    r.Some? ==> |r.value| == 4 && text + rest == Quad(r.value)
  }

  lemma ReadsAsShift(text: string, c: char, rest: string, r: Option<seq<Byte>>)
    requires rest != "" && c == rest[0] && ReadsAs(text + [c], rest[1..], r)
    ensures ReadsAs(text, rest, r)
  {
    Shift(text, c, rest[1..]);
    assert rest == [c] + rest[1..];
  }

  lemma {:induction false} Scan4Sound(rest: string, tmp: seq<Byte>, saw: bool, octets: nat)
    requires Scan4Ok(tmp, saw, octets)
    ensures ReadsAs(Text4(tmp, saw), rest, Scan4(rest, tmp, saw, octets))
    decreases rest
  {
    var k, text, result := |tmp| - 1, Text4(tmp, saw), Scan4(rest, tmp, saw, octets);
    if rest == "" {
      if result.Some? { TextQuad(tmp); }
      assert text + "" == text;
    } else if result.Some? {
      var c, r := rest[0], rest[1..];
      if DecValue(c).Some? {
        var d := DecValue(c).value;
        DigitChars(d, c);
        TextDigit(tmp, saw, octets, d);
        Scan4Sound(r, tmp[k := tmp[k] * 10 + d], true, if saw then octets else octets + 1);
      } else {
        TextDot(tmp);
        Scan4Sound(r, tmp + [0], false, octets);
      }
      assert ReadsAs(text + [c], r, result);
      ReadsAsShift(text, c, rest, result);
    }
  }

  /** Reading a number. */
  lemma {:induction false} Scan4Dec(n: nat, rest: string, tmp: seq<Byte>, octets: nat)
    requires Scan4Ok(tmp, false, octets) && n <= 255
    ensures Scan4(Dec(n) + rest, tmp, false, octets) == Scan4(rest, tmp[|tmp| - 1 := n], true, octets + 1)
    decreases n
  {
    var k := |tmp| - 1;
    if n < 10 {
      DigitChars(n, '0');
      assert (Dec(n) + rest)[1..] == rest;
    } else {
      var d := DecChar(n % 10);
      DigitChars(n % 10, d);
      assert Dec(n) + rest == Dec(n / 10) + ([d] + rest);
      Scan4Dec(n / 10, [d] + rest, tmp, octets);
      assert ([d] + rest)[1..] == rest;
      assert tmp[k := n / 10][k := n] == tmp[k := n];
    }
  }

  lemma Scan4DecDot(n: nat, rest: string, tmp: seq<Byte>, octets: nat)
    requires Scan4Ok(tmp, false, octets) && n <= 255 && octets < 3
    ensures Scan4(Dec(n) + "." + rest, tmp, false, octets) == Scan4(rest, tmp[|tmp| - 1 := n] + [0], false, octets + 1)
  {
    assert Dec(n) + "." + rest == Dec(n) + ("." + rest);
    Scan4Dec(n, "." + rest, tmp, octets);
    assert ("." + rest)[1..] == rest;
  }

  lemma Scan4Complete(b: seq<Byte>)
    requires |b| == 4
    ensures Parse4(Quad(b)) == Some(b)
  {
    var t3 := Dec(b[3]);
    var t2 := Dec(b[2]) + "." + t3;
    var t1 := Dec(b[1]) + "." + t2;
    assert Quad(b) == Dec(b[0]) + "." + t1;
    Scan4DecDot(b[0], t1, [0], 0);
    assert [0][0 := b[0]] + [0] == [b[0], 0];
    Scan4DecDot(b[1], t2, [b[0], 0], 1);
    assert [b[0], 0][1 := b[1]] + [0] == [b[0], b[1], 0];
    Scan4DecDot(b[2], t3, [b[0], b[1], 0], 2);
    assert [b[0], b[1], 0][2 := b[2]] + [0] == [b[0], b[1], b[2], 0];
    Scan4Dec(b[3], "", [b[0], b[1], b[2], 0], 3);
    assert t3 + "" == t3;
    assert [b[0], b[1], b[2], 0][3 := b[3]] == b;
  }

  /** Printing and parsing of dotted quads are inverse to each other: a text is accepted if and only if it is
      the canonical one of the bytes it is read as. */
  lemma QuadRoundTrip(s: string, b: seq<Byte>)
    requires |b| == 4
    ensures Parse4(s) == Some(b) <==> s == Quad(b)
  {
    Scan4Complete(b);
    if Parse4(s) == Some(b) {
      Scan4Sound(s, [0], false, 0);
      assert [0][..0] == [];
      assert "" + "" + s == s;
    }
  }

  // ---------- Addresses: parsing what is printed ----------

  lemma {:induction false} HexListCons(ws: seq<Word>)
    requires |ws| > 1
    ensures HexList(ws) == Hex(ws[0]) + ":" + HexList(ws[1..])
  {
    var k := |ws| - 1;
    if k == 1 {
      assert ws[..1] == [ws[0]] && ws[1..] == [ws[1]];
    } else {
      HexListCons(ws[..k]);
      assert ws[..k][1..] == ws[1..][..k - 1];
      assert HexList(ws[1..]) == HexList(ws[1..][..k - 1]) + ":" + Hex(ws[k]);
    }
  }

  lemma {:induction false} WordBytesConcat(a: seq<Word>, b: seq<Word>)
    ensures WordBytes(a + b) == WordBytes(a) + WordBytes(b)
    decreases |b|
  {
    if b == [] {
      assert a + b == a;
    } else {
      var k := |b| - 1;
      assert (a + b)[..|a + b| - 1] == a + b[..k];
      WordBytesConcat(a, b[..k]);
    }
  }

  lemma WordBytesOne(w: Word)
    ensures WordBytes([w]) == [w / 256, w % 256]
  {
    assert [w][..0] == [];
  }

  lemma {:induction false} WordBytesZero(ws: seq<Word>)
    requires ZeroRun(ws, 0, |ws|)
    ensures WordBytes(ws) == Zeros(2 * |ws|)
  {
    if ws != [] {
      assert ZeroRun(ws[..|ws| - 1], 0, |ws| - 1);
      WordBytesZero(ws[..|ws| - 1]);
    }
  }

  /** The digits of a word stay few, and there is at least one. */
  lemma HexLength(w: Word)
    ensures 1 <= |Hex(w)| <= 4
  {
    var a, b, c := w / 16, w / 16 / 16, w / 16 / 16 / 16;
    assert |Hex(c)| == 1;
    assert b == 16 * c + b % 16 && 1 <= |Hex(b)| <= 2;
    assert a == 16 * b + a % 16 && 1 <= |Hex(a)| <= 3;
  }

  /** Reading a word. */
  lemma {:induction false} ScanWord(w: Word, rest: string, tok: string, bytes: seq<Byte>, colon: Option<nat>)
    requires |Hex(w)| <= 4
    ensures Scan6(Hex(w) + rest, tok, bytes, colon, 0, 0) == Scan6(rest, tok, bytes, colon, |Hex(w)|, w)
    decreases w
  {
    if w < 16 {
      DigitChars(w, '0');
      assert (Hex(w) + rest)[1..] == rest;
    } else {
      var d := HexChar(w % 16);
      DigitChars(w % 16, d);
      assert Hex(w) + rest == Hex(w / 16) + ([d] + rest);
      ScanWord(w / 16, [d] + rest, tok, bytes, colon);
      assert ([d] + rest)[1..] == rest;
    }
  }

  /** A word and the colon that stores it. */
  lemma ScanWordColon(w: Word, rest: string, tok: string, bytes: seq<Byte>, colon: Option<nat>)
    requires rest != "" && |bytes| + 2 <= 16
    ensures Scan6(Hex(w) + ":" + rest, tok, bytes, colon, 0, 0) == Scan6(rest, rest, bytes + WordBytes([w]), colon, 0, 0)
  {
    HexLength(w);
    assert Hex(w) + ":" + rest == Hex(w) + (":" + rest);
    ScanWord(w, ":" + rest, tok, bytes, colon);
    assert (":" + rest)[1..] == rest;
    WordBytesOne(w);
    assert w / 256 % 256 == w / 256;
  }

  /** A list of words, each stored by the colon after it. */
  lemma {:induction false} ScanList(ws: seq<Word>, rest: string, tok: string, bytes: seq<Byte>, colon: Option<nat>)
    requires ws != [] && rest != "" && |bytes| + 2 * |ws| <= 16
    ensures Scan6(HexList(ws) + ":" + rest, tok, bytes, colon, 0, 0)
            == Scan6(rest, rest, bytes + WordBytes(ws), colon, 0, 0)
    decreases |ws|
  {
    if |ws| == 1 {
      assert ws == [ws[0]];
      ScanWordColon(ws[0], rest, tok, bytes, colon);
    } else {
      var more := HexList(ws[1..]) + ":" + rest;
      HexListCons(ws);
      Regroup(Hex(ws[0]), HexList(ws[1..]), rest);
      ScanWordColon(ws[0], more, tok, bytes, colon);
      ScanList(ws[1..], rest, more, bytes + WordBytes([ws[0]]), colon);
      WordBytesConcat([ws[0]], ws[1..]);
      assert [ws[0]] + ws[1..] == ws;
      assert bytes + WordBytes([ws[0]]) + WordBytes(ws[1..]) == bytes + WordBytes(ws);
    }
  }

  lemma Regroup(a: string, b: string, rest: string)
    ensures (a + ":" + b) + ":" + rest == a + ":" + (b + ":" + rest)
  {
  }

  /** The bytes stored when the text ends with a list of words. */
  lemma ScanLast(ws: seq<Word>, tok: string, bytes: seq<Byte>, colon: Option<nat>)
    requires ws != [] && |bytes| + 2 * |ws| <= 16 && (colon.Some? ==> colon.value <= |bytes| && |bytes| + 2 * |ws| < 16)
    requires colon.None? ==> |bytes| + 2 * |ws| == 16
    ensures var end := Scan6(HexList(ws), tok, bytes, colon, 0, 0);
            end.Some? && Finish6(end.value) == Finish6(Scanned(bytes + WordBytes(ws), colon, 0, 0))
  {
    var k := |ws| - 1;
    var w := ws[k];
    var front := ws[..k];
    HexLength(w);
    assert Hex(w) + "" == Hex(w);
    WordBytesOne(w);
    WordBytesConcat(front, [w]);
    assert front + [w] == ws;
    assert w / 256 % 256 == w / 256;
    var stored := bytes + WordBytes(front);
    if k == 0 {
      assert stored == bytes;
      ScanWord(w, "", tok, stored, colon);
    } else {
      ScanList(front, Hex(w), tok, bytes, colon);
      ScanWord(w, "", Hex(w), stored, colon);
    }
    assert stored + [w / 256, w % 256] == bytes + WordBytes(ws);
  }

  /** Reading decimal digits as a word, before the dot shows that they were not. */
  lemma {:induction false} ScanDecimal(n: nat, rest: string, tok: string, bytes: seq<Byte>, colon: Option<nat>)
    returns (val: nat)
    requires |Dec(n)| <= 4
    ensures Scan6(Dec(n) + rest, tok, bytes, colon, 0, 0) == Scan6(rest, tok, bytes, colon, |Dec(n)|, val)
    decreases n
  {
    if n < 10 {
      DigitChars(n, '0');
      assert (Dec(n) + rest)[1..] == rest;
      val := n;
    } else {
      var d := DecChar(n % 10);
      DigitChars(n % 10, d);
      assert Dec(n) + rest == Dec(n / 10) + ([d] + rest);
      val := ScanDecimal(n / 10, [d] + rest, tok, bytes, colon);
      assert ([d] + rest)[1..] == rest;
      val := val * 16 + n % 10;
    }
  }

  /** A dotted quad at the end. */
  lemma ScanQuad(b: seq<Byte>, bytes: seq<Byte>, colon: Option<nat>)
    requires |b| == 4 && |bytes| + 4 <= 16
    ensures var end := Scan6(Quad(b), Quad(b), bytes, colon, 0, 0);
            end.Some? && end.value.bytes == bytes + b && end.value.colon == colon && end.value.seen == 0
  {
    var more := "." + (Dec(b[1]) + "." + Dec(b[2]) + "." + Dec(b[3]));
    assert Quad(b) == Dec(b[0]) + more;
    DecLength(b[0]);
    var val := ScanDecimal(b[0], more, Quad(b), bytes, colon);
    Scan4Complete(b);
  }

  lemma DecLength(b: Byte)
    ensures 1 <= |Dec(b)| <= 3
  {
    if b >= 10 {
      var q: nat := b / 10;
      assert b == 10 * q + b % 10 && 1 <= q < 26;
      if q >= 10 {
        var r: nat := q / 10;
        assert q == 10 * r + q % 10 && 1 <= r < 3;
        assert |Dec(r)| == 1;
        assert |Dec(q)| == 2;
      } else {
        assert |Dec(q)| == 1;
      }
      assert |Dec(b)| == |Dec(q)| + 1;
    }
  }

  /** What the words after a run of zeros are read back as. */
  lemma ScanRest(ws: seq<Word>, b: nat, n: nat)
    requires |ws| == 8 && n >= 2 && ZeroRun(ws, b, n)
    ensures var rest, front := Rest(ws, b, n), WordBytes(ws[..b]);
            var end := Scan6(rest, rest, front, Some(2 * b), 0, 0);
            end.Some? && Finish6(end.value) == Some(front + Zeros(2 * n) + WordBytes(ws[b + n..]))
  {
    if b == 0 && n == 6 {
      ScanRestQuad(ws);
    } else if b == 0 && n == 5 && ws[5] == 0xffff {
      ScanRestMapped(ws);
    } else {
      ScanRestWords(ws, b, n);
    }
  }

  lemma ScanRestQuad(ws: seq<Word>)
    requires |ws| == 8
    ensures var rest := Rest(ws, 0, 6);
            var end := Scan6(rest, rest, WordBytes(ws[..0]), Some(0), 0, 0);
            end.Some? && Finish6(end.value) == Some(WordBytes(ws[..0]) + Zeros(12) + WordBytes(ws[6..]))
  {
    var front, tail := WordBytes(ws[..0]), WordBytes(ws[6..]);
    TailQuad(ws);
    ScanQuad(tail, front, Some(0));
    assert front + tail == tail;
  }

  lemma ScanRestMapped(ws: seq<Word>)
    requires |ws| == 8 && ws[5] == 0xffff
    ensures var rest := Rest(ws, 0, 5);
            var end := Scan6(rest, rest, WordBytes(ws[..0]), Some(0), 0, 0);
            end.Some? && Finish6(end.value) == Some(WordBytes(ws[..0]) + Zeros(10) + WordBytes(ws[5..]))
  {
    var rest, front, tail := Rest(ws, 0, 5), WordBytes(ws[..0]), WordBytes(ws[5..]);
    var quad := WordBytes(ws[6..]);
    TailQuad(ws);
    DecLength(quad[0]);
    assert Quad(quad) != "";
    ScanList(ws[5..6], Quad(quad), rest, front, Some(0));
    ScanQuad(quad, front + WordBytes(ws[5..6]), Some(0));
    assert ws[5..] == ws[5..6] + ws[6..];
    WordBytesConcat(ws[5..6], ws[6..]);
    assert front + WordBytes(ws[5..6]) + quad == tail;
  }

  lemma ScanRestWords(ws: seq<Word>, b: nat, n: nat)
    requires |ws| == 8 && n >= 2 && b + n <= 8
    ensures var rest, front := HexList(ws[b + n..]), WordBytes(ws[..b]);
            var end := Scan6(rest, rest, front, Some(2 * b), 0, 0);
            end.Some? && Finish6(end.value) == Some(front + Zeros(2 * n) + WordBytes(ws[b + n..]))
  {
    var rest, front, tail := HexList(ws[b + n..]), WordBytes(ws[..b]), WordBytes(ws[b + n..]);
    var bytes := front + tail;
    assert bytes[..2 * b] == front && bytes[2 * b..] == tail;
    if b + n == 8 {
      assert bytes == front;
    } else {
      ScanLast(ws[b + n..], rest, front, Some(2 * b));
    }
  }

  lemma TailQuad(ws: seq<Word>)
    requires |ws| == 8
    ensures WordBytes(ws[6..]) == [ws[6] / 256, ws[6] % 256, ws[7] / 256, ws[7] % 256]
  {
    assert ws[6..] == [ws[6]] + [ws[7]];
    WordBytesConcat([ws[6]], [ws[7]]);
    WordBytesOne(ws[6]);
    WordBytesOne(ws[7]);
  }

  /** The zeros that were left out come back where they were. */
  lemma RunBytes(ws: seq<Word>, b: nat, n: nat)
    requires ZeroRun(ws, b, n)
    ensures WordBytes(ws[..b]) + Zeros(2 * n) + WordBytes(ws[b + n..]) == WordBytes(ws)
  {
    var zeros := ws[b..b + n];
    assert ZeroRun(zeros, 0, n);
    WordBytesZero(zeros);
    assert ws == ws[..b] + zeros + ws[b + n..];
    WordBytesConcat(ws[..b] + zeros, ws[b + n..]);
    WordBytesConcat(ws[..b], zeros);
  }

  lemma HexListStart(ws: seq<Word>)
    requires ws != []
    ensures HexList(ws) != "" && HexValue(HexList(ws)[0]).Some? && HexList(ws)[0] != ':'
  {
    if |ws| > 1 { HexListCons(ws); }
    HexStart(ws[0]);
  }

  lemma {:induction false} HexStart(n: nat)
    ensures Hex(n) != "" && HexValue(Hex(n)[0]).Some? && Hex(n)[0] != ':'
  {
    if n < 16 { DigitChars(n, '0'); } else { HexStart(n / 16); }
  }

  /** A text with two colons. */
  lemma ScanColons(ws: seq<Word>, b: nat, rest: string)
    requires |ws| == 8 && b < 8 && ws[..0] == []
    ensures var s := HexList(ws[..b]) + ":" + (":" + rest);
            var end := Scan6(rest, rest, WordBytes(ws[..b]), Some(2 * b), 0, 0);
            Parse6(s) == if end.None? then None else Finish6(end.value)
  {
    var s, more := HexList(ws[..b]) + ":" + (":" + rest), ":" + rest;
    assert more[1..] == rest;
    if b == 0 {
      assert s == ":" + more && s[1..] == more;
    } else {
      HexListStart(ws[..b]);
      assert s[0] == HexList(ws[..b])[0];
      ScanList(ws[..b], more, s, [], None);
      assert [] + WordBytes(ws[..b]) == WordBytes(ws[..b]);
    }
  }

  /** Every address is read back from its text, whichever zeros are left out. */
  lemma AddressRoundTrip(ws: seq<Word>, run: Option<(nat, nat)>)
    requires |ws| == 8 && Compression(ws, run)
    ensures Parse6(Print6(ws, run)) == Some(WordBytes(ws))
  {
    assert ws[..0] == [];
    if run.None? {
      HexListStart(ws);
      ScanLast(ws, HexList(ws), [], None);
      assert [] + WordBytes(ws) == WordBytes(ws);
    } else {
      var (b, n) := run.value;
      RunBytes(ws, b, n);
      ScanRest(ws, b, n);
      ScanColons(ws, b, Rest(ws, b, n));
    }
  }
}

/** The printers and parsers themselves. */
module Inet {
  import opened Wrappers
  import opened InetText

  /** The dotted quad, if it and its terminator fit. */
  method Ntop4(src: seq<Byte>, size: nat) returns (r: Option<string>)
    requires |src| == 4
    ensures r == if |Quad(src)| < size then Some(Quad(src)) else None
  {
    var tmp := Dec(src[0]) + "." + Dec(src[1]) + "." + Dec(src[2]) + "." + Dec(src[3]);
    r := if |tmp| >= size then None else Some(tmp);
  }

  method Pton4(src: string) returns (r: Option<seq<Byte>>)
    ensures r == Parse4(src)
    ensures r.Some? ==> |r.value| == 4
  {
    var tmp := new Byte[4](_ => 0);
    var saw, octets, tp, i := false, 0, 0, 0;
    assert src[0..] == src && tmp[..1] == [0];
    while i < |src|
      invariant i <= |src| && tp < 4 && Scan4Ok(tmp[..tp + 1], saw, octets)
      invariant Parse4(src) == Scan4(src[i..], tmp[..tp + 1], saw, octets)
    {
      var ch := src[i];
      ghost var t := tmp[..tp + 1];
      assert src[i..][1..] == src[i + 1..] && t[tp] == tmp[tp];
      i := i + 1;
      if DecValue(ch).Some? {
        var nw := tmp[tp] * 10 + DecValue(ch).value;
        if saw && tmp[tp] == 0 {
          return None;
        }
        if nw > 255 {
          return None;
        }
        tmp[tp] := nw;
        assert tmp[..tp + 1] == t[tp := nw];
        if !saw {
          octets := octets + 1;
          if octets > 4 {
            return None;
          }
          saw := true;
        }
      } else if ch == '.' && saw {
        if octets == 4 {
          return None;
        }
        tp := tp + 1;
        tmp[tp] := 0;
        assert tmp[..tp + 1] == t + [0];
        saw := false;
      } else {
        return None;
      }
    }
    assert src[i..] == "";
    if octets < 4 {
      return None;
    }
    assert tmp[..tp + 1] == tmp[..];
    r := Some(tmp[..]);
  }

  function Pair(high: nat, low: nat): nat {
    high * 256 + low
  }

  lemma {:induction false} WordsBack(ws: seq<Word>, src: seq<Byte>)
    requires |src| == 2 * |ws| && forall k :: 0 <= k < |ws| ==> ws[k] == Pair(src[2 * k], src[2 * k + 1])
    ensures WordBytes(ws) == src
  {
    if ws != [] {
      var k := |ws| - 1;
      WordsBack(ws[..k], src[..2 * k]);
      assert ws[k] / 256 == src[2 * k] && ws[k] % 256 == src[2 * k + 1];
      assert src == src[..2 * k] + [src[2 * k], src[2 * k + 1]];
    }
  }

  /** Joins the bytes to words, high byte first. */
  method WordsOf(src: seq<Byte>) returns (ws: seq<Word>)
    requires |src| == 16
    ensures |ws| == 8 && WordBytes(ws) == src
  {
    var words := new Word[8](_ => 0);
    for i := 0 to 16
      invariant forall k :: 0 <= k < 8 ==>
        words[k] == if 2 * k + 1 < i then Pair(src[2 * k], src[2 * k + 1]) else if 2 * k < i then Pair(src[2 * k], 0) else 0
    {
      words[i / 2] := words[i / 2] + if i % 2 == 0 then Pair(src[i], 0) else src[i];
    }
    ws := words[..];
    WordsBack(ws, src);
  }

  function Run(base: int, len: nat): Option<(nat, nat)> {
    if base < 0 then None else Some((base, len))
  }

  /** The run `(base, len)` is the first longest among the runs before `end`. */
  ghost predicate Longest(ws: seq<Word>, base: int, len: nat, end: nat) {
    && (base < 0 ==> len == 0) && (base >= 0 ==> len > 0 && ZeroRun(ws, base, len))
    && forall b: nat, n: nat :: ZeroRun(ws, b, n) && b + n <= end && n > 0 ==> n < len || (n == len && base <= b)
  }

  /** A run does not contain a word that is not zero. */
  lemma NotAcross(ws: seq<Word>, b: nat, n: nat, k: nat)
    requires k < |ws| && ws[k] != 0 && ZeroRun(ws, b, n)
    ensures k < b || b + n <= k
  {
  }

  /** A run that ends before `end` and a run that ends there: the longer one, or the first. */
  lemma LongestJoin(ws: seq<Word>, base: int, len: nat, b: nat, end: nat)
    requires b < end <= |ws| && ZeroRun(ws, b, end - b) && Longest(ws, base, len, b)
    requires b > 0 ==> ws[b - 1] != 0
    requires base + len <= b
    ensures if end - b > len then Longest(ws, b, end - b, end) else Longest(ws, base, len, end)
  {
    forall b': nat, n: nat | ZeroRun(ws, b', n) && b' + n <= end && n > 0
      ensures b' + n <= b || (b <= b' && n <= end - b && (n == end - b ==> b' == b))
    {
      if b > 0 {
        NotAcross(ws, b', n, b - 1);
      }
    }
  }

  /** The longest run of zero words, the first of several; -1 when none has two. */
  method LongestRun(ws: seq<Word>) returns (base: int, len: nat)
    ensures base >= -1 && Compression(ws, Run(base, len))
  {
    base, len := -1, 0;
    var curBase: int, curLen: nat := -1, 0;
    for i := 0 to |ws|
      invariant base >= -1 && Longest(ws, base, len, if curBase < 0 then i else curBase)
      invariant base + len <= if curBase < 0 then i else curBase
      invariant curBase >= -1 && (curBase >= 0 ==> curBase + curLen == i && curLen > 0 && ZeroRun(ws, curBase, curLen))
      invariant if curBase < 0 then i > 0 ==> ws[i - 1] != 0 else curBase > 0 ==> ws[curBase - 1] != 0
    {
      if ws[i] == 0 {
        if curBase == -1 {
          curBase, curLen := i, 1;
        } else {
          curLen := curLen + 1;
        }
      } else {
        if curBase != -1 {
          LongestJoin(ws, base, len, curBase, i);
          if base == -1 || curLen > len {
            base, len := curBase, curLen;
          }
          curBase := -1;
        }
        forall b: nat, n: nat | ZeroRun(ws, b, n) && b + n <= i + 1 && n > 0 ensures b + n <= i {
          NotAcross(ws, b, n, i);
        }
      }
    }
    if curBase != -1 {
      LongestJoin(ws, base, len, curBase, |ws|);
      if base == -1 || curLen > len {
        base, len := curBase, curLen;
      }
    }
    if base != -1 && len < 2 {
      base := -1;
    }
  }

  // ---------- Printing an address ----------

  /** What is printed when the words before `i` are done. */
  function Shown(ws: seq<Word>, run: Option<(nat, nat)>, i: nat): string
    requires i <= |ws| && (run.Some? ==> run.value.0 + run.value.1 <= |ws|)
  {
    match run
    case None => HexList(ws[..i])
    case Some(r) =>
      if i <= r.0 then HexList(ws[..i])
      else if i <= r.0 + r.1 then HexList(ws[..r.0]) + ":"
      else HexList(ws[..r.0]) + ":" + (":" + HexList(ws[r.0 + r.1..i]))
  }

  predicate Skipped(run: Option<(nat, nat)>, i: nat) {
    run.Some? && run.value.0 <= i < run.value.0 + run.value.1
  }

  lemma HexListSnoc(ws: seq<Word>, j: nat, i: nat)
    requires j <= i < |ws|
    ensures HexList(ws[j..i + 1]) == HexList(ws[j..i]) + (if i > j then ":" else "") + Hex(ws[i])
  {
    assert ws[j..i + 1][..i - j] == ws[j..i];
    assert HexList(ws[j..j]) == "";
  }

  lemma RegroupWord(a: string, b: string, colon: string, c: string)
    ensures a + ":" + (":" + (b + colon + c)) == a + ":" + (":" + b) + colon + c
  {
  }

  /** What a word adds to the text. */
  lemma ShownNext(ws: seq<Word>, run: Option<(nat, nat)>, i: nat)
    requires i < |ws| && (run.Some? ==> run.value.0 + run.value.1 <= |ws| && run.value.1 > 0)
    ensures Skipped(run, i) ==>
              Shown(ws, run, i + 1) == Shown(ws, run, i) + if i == run.value.0 then ":" else ""
    ensures !Skipped(run, i) ==>
              Shown(ws, run, i + 1) == Shown(ws, run, i) + (if i > 0 then ":" else "") + Hex(ws[i])
  {
    assert ws[0..i] == ws[..i] && ws[0..i + 1] == ws[..i + 1];
    if run.None? || i < run.value.0 {
      HexListSnoc(ws, 0, i);
    } else if i >= run.value.0 + run.value.1 {
      var j := run.value.0 + run.value.1;
      HexListSnoc(ws, j, i);
      RegroupWord(HexList(ws[..run.value.0]), HexList(ws[j..i]), if i > j then ":" else "", Hex(ws[i]));
    }
  }

  /** The text is complete when all words are done, but for a run at the end. */
  lemma ShownAll(ws: seq<Word>, run: Option<(nat, nat)>)
    requires |ws| == 8 && (run.Some? ==> run.value.0 + run.value.1 <= 8 && run.value.1 > 0)
    requires run.Some? && run.value.0 == 0 && run.value.1 == 5 ==> ws[5] != 0xffff
    requires run.Some? && run.value.0 == 0 ==> run.value.1 != 6
    ensures Print6(ws, run) == Shown(ws, run, 8) + if run.Some? && run.value.0 + run.value.1 == 8 then ":" else ""
  {
    assert ws[..8] == ws;
    if run.Some? {
      var (b, n) := run.value;
      assert ws[b + n..8] == ws[b + n..];
      assert HexList(ws[..b]) + ":" + (":" + "") == HexList(ws[..b]) + ":" + ":";
    }
  }

  /** With the quad at the end. */
  lemma ShownQuad(ws: seq<Word>, run: Option<(nat, nat)>, quad: seq<Byte>)
    requires |ws| == 8 && run.Some? && run.value.0 == 0 && quad == [ws[6] / 256, ws[6] % 256, ws[7] / 256, ws[7] % 256]
    requires run.value.1 == 6 || (run.value.1 == 5 && ws[5] == 0xffff)
    ensures Print6(ws, run) == Shown(ws, run, 6) + ":" + Quad(quad)
    ensures |Shown(ws, run, 6)| <= 6 && |Quad(quad)| <= 15
  {
    assert HexList(ws[..0]) == "";
    HexLength(ws[5]);
    assert |HexList(ws[5..6])| == |Hex(ws[5])|;
    DecLength(quad[0]);
    DecLength(quad[1]);
    DecLength(quad[2]);
    DecLength(quad[3]);
    if run.value.1 == 5 {
      var h, q := HexList(ws[5..6]), Quad(quad);
      assert ":" + (":" + (h + ":" + q)) == ":" + (":" + h) + ":" + q;
    }
  }

  lemma {:induction false} HexListLength(ws: seq<Word>)
    ensures |HexList(ws)| <= 5 * |ws|
  {
    if |ws| == 1 {
      HexLength(ws[0]);
    } else if |ws| > 1 {
      HexListLength(ws[..|ws| - 1]);
      HexLength(ws[|ws| - 1]);
    }
  }

  /** The text and its terminator fit the printer's own buffer of 46 characters. */
  lemma TextFits(ws: seq<Word>, run: Option<(nat, nat)>)
    requires |ws| == 8 && Compression(ws, run)
    ensures |Print6(ws, run)| < 46
  {
    if run.None? {
      HexListLength(ws);
    } else {
      var (b, n) := run.value;
      assert ZeroRun(ws, b, n);
      var quad := [ws[6] / 256, ws[6] % 256, ws[7] / 256, ws[7] % 256];
      if b == 0 && (n == 6 || (n == 5 && ws[5] == 0xffff)) {
        ShownQuad(ws, run, quad);
      } else {
        HexListLength(ws[..b]);
        HexListLength(ws[b + n..]);
      }
    }
  }

  /** Prints an address: in the text the first longest run of zero words is left out, and the text is what
      the parser reads as this address. */
  method Ntop6(src: seq<Byte>, size: nat) returns (r: Option<string>, ghost ws: seq<Word>, ghost run: Option<(nat, nat)>)
    requires |src| == 16
    ensures |ws| == 8 && WordBytes(ws) == src && Compression(ws, run)
    ensures r == if |Print6(ws, run)| + 1 > size then None else Some(Print6(ws, run))
    ensures r.Some? ==> Parse6(r.value) == Some(src)
    ensures size >= 46 ==> r.Some?
  {
    var words := WordsOf(src);
    var base, len := LongestRun(words);
    ws, run := words, Run(base, len);
    var tmp, i, quad, last := "", 0, false, words[7];
    assert ws[..0] == [];
    while i < 8
      invariant i <= 8 && tmp == Shown(ws, run, i)
      invariant base == 0 && (len == 6 || (len == 5 && ws[5] == 0xffff)) ==> i <= 6
      decreases 8 - i
    {
      ShownNext(ws, run, i);
      assert tmp + "" == tmp;
      if base != -1 && base <= i < base + len {
        if i == base {
          tmp := tmp + ":";
        }
        i := i + 1;
        continue;
      }
      if i != 0 {
        tmp := tmp + ":";
      }
      if i == 6 && base == 0 && (len == 6 || (len == 7 && last != 1) || (len == 5 && words[5] == 0xffff)) {
        TailBytes(ws, src);
        ShownQuad(ws, run, src[12..]);
        var four := Ntop4(src[12..], 46 - |tmp|);
        tmp := tmp + four.value;
        quad := true;
        break;
      }
      tmp := tmp + Hex(words[i]);
      i := i + 1;
    }
    if !quad {
      ShownAll(ws, run);
      assert tmp + "" == tmp;
      if base != -1 && base + len == 8 {
        tmp := tmp + ":";
      }
    }
    assert tmp + "" == tmp;
    TextFits(ws, run);
    AddressRoundTrip(ws, run);
    r := if |tmp| + 1 > size then None else Some(tmp);
  }

  lemma TailBytes(ws: seq<Word>, src: seq<Byte>)
    requires |ws| == 8 && WordBytes(ws) == src
    ensures src[12..] == [ws[6] / 256, ws[6] % 256, ws[7] / 256, ws[7] % 256]
  {
    TailQuad(ws);
    assert ws == ws[..6] + ws[6..];
    WordBytesConcat(ws[..6], ws[6..]);
  }

  // ---------- Parsing an address ----------

  /** Moves what follows the two colons to the end of the buffer, in place and from the back. */
  method ShiftTail(tmp: array<Byte>, tp: nat, colonp: nat)
    requires tmp.Length == 16 && colonp <= tp < 16 && forall j :: tp <= j < 16 ==> tmp[j] == 0
    modifies tmp
    ensures tmp[..] == old(tmp[..colonp]) + Zeros(16 - tp) + old(tmp[colonp..tp])
  {
    var n := tp - colonp;
    for i := 1 to n + 1
      invariant forall j :: 0 <= j < tp - (i - 1) ==> tmp[j] == old(tmp[j])
      invariant forall j :: tp - (i - 1) <= j < 16 - (i - 1) ==> tmp[j] == 0
      invariant forall j :: 16 - (i - 1) <= j < 16 ==> tmp[j] == old(tmp[j - 16 + tp])
    {
      tmp[16 - i] := tmp[colonp + n - i];
      tmp[colonp + n - i] := 0;
    }
  }

  /** Stores the word `val` at `tp`. */
  method StoreWord(tmp: array<Byte>, tp: nat, val: nat)
    requires tmp.Length == 16 && tp + 2 <= 16
    modifies tmp
    ensures tmp[..tp + 2] == old(tmp[..tp]) + [val / 256 % 256, val % 256]
    ensures forall j :: tp + 2 <= j < 16 ==> tmp[j] == old(tmp[j])
  {
    tmp[tp] := val / 256 % 256;
    tmp[tp + 1] := val % 256;
  }

  method Pton6(src: string) returns (r: Option<seq<Byte>>)
    ensures r == Parse6(src)
    ensures r.Some? ==> |r.value| == 16
  {
    var tmp := new Byte[16](_ => 0);
    var p: nat, tp: nat := 0, 0;
    var colonp: Option<nat> := None;
    if src != "" && src[0] == ':' {
      p := 1;
      if |src| == 1 || src[1] != ':' {
        return None;
      }
    }
    var curtok, seen: nat, val: nat := p, 0, 0;
    ghost var end := Scan6(src[p..], src[p..], [], None, 0, 0);
    assert src[0..] == src && tmp[..0] == [];
    while p < |src|
      invariant p <= |src| && curtok <= |src| && tp <= 16 && (colonp.Some? ==> colonp.value <= tp)
      invariant end == Scan6(src[p..], src[curtok..], tmp[..tp], colonp, seen, val)
      invariant forall j :: tp <= j < 16 ==> tmp[j] == 0
    {
      var ch := src[p];
      assert src[p..][1..] == src[p + 1..];
      p := p + 1;
      if HexValue(ch).Some? {
        val := val * 16 + HexValue(ch).value;
        seen := seen + 1;
        if seen > 4 {
          return None;
        }
        continue;
      }
      if ch == ':' {
        curtok := p;
        if seen == 0 {
          if colonp.Some? {
            return None;
          }
          colonp := Some(tp);
          continue;
        } else if p == |src| {
          return None;
        }
        if tp + 2 > 16 {
          return None;
        }
        StoreWord(tmp, tp, val);
        tp, seen, val := tp + 2, 0, 0;
        continue;
      }
      if ch == '.' && tp + 4 <= 16 {
        var four := Pton4(src[curtok..]);
        if four.Some? {
          ghost var before := tmp[..tp];
          StoreFour(tmp, tp, four.value);
          tp, seen, p := tp + 4, 0, |src|;
          assert src[p..] == "";
          break;
        }
      }
      return None;
    }
    assert src[p..] == "";
    assert end == Some(Scanned(tmp[..tp], colonp, seen, val));
    r := Finish(tmp, tp, colonp, seen, val);
  }

  method StoreFour(tmp: array<Byte>, tp: nat, four: seq<Byte>)
    requires tmp.Length == 16 && tp + 4 <= 16 && |four| == 4
    modifies tmp
    ensures tmp[..tp + 4] == old(tmp[..tp]) + four
    ensures forall j :: tp + 4 <= j < 16 ==> tmp[j] == old(tmp[j])
  {
    tmp[tp], tmp[tp + 1], tmp[tp + 2], tmp[tp + 3] := four[0], four[1], four[2], four[3];
  }

  /** Stores the last word and puts the zeros back. */
  method Finish(tmp: array<Byte>, tp0: nat, colonp: Option<nat>, seen: nat, val: nat) returns (r: Option<seq<Byte>>)
    requires tmp.Length == 16 && tp0 <= 16 && (colonp.Some? ==> colonp.value <= tp0)
    requires forall j :: tp0 <= j < 16 ==> tmp[j] == 0
    modifies tmp
    ensures r == Finish6(Scanned(old(tmp[..tp0]), colonp, seen, val))
    ensures r.Some? ==> |r.value| == 16
  {
    var tp := tp0;
    if seen > 0 {
      if tp + 2 > 16 {
        return None;
      }
      StoreWord(tmp, tp, val);
      tp := tp + 2;
    }
    if colonp.Some? {
      if tp == 16 {
        return None;
      }
      ghost var bytes := tmp[..tp];
      assert bytes[..colonp.value] == tmp[..colonp.value] && bytes[colonp.value..] == tmp[colonp.value..tp];
      ShiftTail(tmp, tp, colonp.value);
      tp := 16;
    }
    if tp != 16 {
      return None;
    }
    assert tmp[..16] == tmp[..];
    r := Some(tmp[..]);
  }
}
