/** Which texts the parser of 128-bit addresses accepts, and as what. */
module InetGrammar {
  import opened Wrappers
  import opened InetText

  const LOWER: string := "0123456789abcdef"
  const UPPER: string := "0123456789ABCDEF"

  /** The character is the hexadecimal digit for `d`, of either case. */
  predicate DigitFor(c: char, d: nat) {
    d < 16 && (c == LOWER[d] || c == UPPER[d])
  }

  lemma HexValueIs(c: char, d: nat)
    ensures HexValue(c) == Some(d) <==> DigitFor(c, d)
  {
    assert LOWER[0] == '0' && LOWER[1] == '1' && LOWER[2] == '2' && LOWER[3] == '3' && LOWER[4] == '4';
    assert LOWER[5] == '5' && LOWER[6] == '6' && LOWER[7] == '7' && LOWER[8] == '8' && LOWER[9] == '9';
    assert LOWER[10] == 'a' && LOWER[11] == 'b' && LOWER[12] == 'c' && LOWER[13] == 'd' && LOWER[14] == 'e' && LOWER[15] == 'f';
    assert UPPER[0] == '0' && UPPER[1] == '1' && UPPER[2] == '2' && UPPER[3] == '3' && UPPER[4] == '4';
    assert UPPER[5] == '5' && UPPER[6] == '6' && UPPER[7] == '7' && UPPER[8] == '8' && UPPER[9] == '9';
    assert UPPER[10] == 'A' && UPPER[11] == 'B' && UPPER[12] == 'C' && UPPER[13] == 'D' && UPPER[14] == 'E' && UPPER[15] == 'F';
  }

  /** What is printed is the lower-case digit. */
  lemma HexCharIs(d: nat)
    requires d < 16
    ensures HexChar(d) == LOWER[d] && (d < 10 ==> DecChar(d) == LOWER[d])
  {
    DigitChars(d, '0');
    HexValueIs(HexChar(d), d);
    if d < 10 {
      HexValueIs(DecChar(d), d);
    }
    assert d >= 10 ==> HexChar(d) >= 'a' && UPPER[d] <= 'F' by {
      assert UPPER[10] == 'A' && UPPER[11] == 'B' && UPPER[12] == 'C' && UPPER[13] == 'D' && UPPER[14] == 'E' && UPPER[15] == 'F';
    }
    assert d < 10 ==> UPPER[d] == LOWER[d] by {
      assert LOWER[..10] == "0123456789" == UPPER[..10];
      assert d < 10 ==> LOWER[d] == LOWER[..10][d] && UPPER[d] == UPPER[..10][d];
    }
  }

  // ---------- The grammar ----------

  predicate Digits(g: string) {
    forall k :: 0 <= k < |g| ==> HexValue(g[k]).Some?
  }

  /** One to four hexadecimal digits of either case, leading zeros allowed. */
  predicate Group(g: string) {
    1 <= |g| <= 4 && Digits(g)
  }

  predicate Groups(gs: seq<string>) {
    forall i :: 0 <= i < |gs| ==> Group(gs[i])
  }

  function Value(g: string): nat
    requires Digits(g)
  {
    if g == "" then 0 else Value(g[..|g| - 1]) * 16 + HexValue(g[|g| - 1]).value
  }

  /** The two bytes of a group, the high one first. */
  function Pair(g: string): (r: seq<Byte>)
    requires Digits(g)
    ensures |r| == 2
  {
    [Value(g) / 256 % 256, Value(g) % 256]
  }

  function Pairs(gs: seq<string>): (r: seq<Byte>)
    requires Groups(gs)
    ensures |r| == 2 * |gs|
  {
    if gs == [] then [] else Pair(gs[0]) + Pairs(gs[1..])
  }

  /** Groups, each with a colon behind it. */
  function Colons(gs: seq<string>): string {
    if gs == [] then "" else gs[0] + ":" + Colons(gs[1..])
  }

  /** A list of groups ends with a group or with a dotted quad; behind two colons there may be nothing. */
  datatype Ending = Nothing | Word(g: string) | Dots(b: seq<Byte>)

  predicate Proper(gs: seq<string>, e: Ending) {
    Groups(gs) && (e.Nothing? ==> gs == []) && (e.Word? ==> Group(e.g)) && (e.Dots? ==> |e.b| == 4)
  }

  function ListText(gs: seq<string>, e: Ending): string
    requires Proper(gs, e)
  {
    Colons(gs) + match e case Nothing => "" case Word(g) => g case Dots(b) => Quad(b)
  }

  function ListBytes(gs: seq<string>, e: Ending): seq<Byte>
    requires Proper(gs, e)
  {
    Pairs(gs) + match e case Nothing => [] case Word(g) => Pair(g) case Dots(b) => b
  }

  /** The text of sixteen bytes in full. */
  ghost predicate Full(s: string, bytes: seq<Byte>, gs: seq<string>, e: Ending) {
    Proper(gs, e) && s == ListText(gs, e) && bytes == ListBytes(gs, e) && |bytes| == 16
  }

  /** The text before and after two colons, which stand for at least one zero byte. */
  ghost predicate Short(s: string, bytes: seq<Byte>, front: seq<string>, gs: seq<string>, e: Ending) {
    && Groups(front) && Proper(gs, e)
    && s == (if front == [] then ":" else Colons(front)) + (":" + ListText(gs, e))
    && |Pairs(front)| + |ListBytes(gs, e)| < 16 && bytes == Padded(Pairs(front), ListBytes(gs, e))
  }

  function Padded(a: seq<Byte>, b: seq<Byte>): seq<Byte>
    requires |a| + |b| < 16
  {
    a + Zeros(16 - (|a| + |b|)) + b
  }

  ghost predicate Denotes(s: string, bytes: seq<Byte>) {
    (exists gs, e :: Full(s, bytes, gs, e)) || (exists front, gs, e :: Short(s, bytes, front, gs, e))
  }

  // ---------- What the parser accepts is in the grammar ----------

  /** What has been stored when the word in hand is. */
  function Stored(r: Scanned): seq<Byte> {
    if r.seen > 0 then r.bytes + [r.val / 256 % 256, r.val % 256] else r.bytes
  }

  /** A scan of the text `t` that reads one list. */
  ghost predicate One(t: string, bytes: seq<Byte>, colon: Option<nat>, r: Scanned, gs: seq<string>, e: Ending) {
    Proper(gs, e) && t == ListText(gs, e) && r.colon == colon && Stored(r) == bytes + ListBytes(gs, e)
  }

  /** A scan of the text `t` that reads groups, then a second colon, then a list. */
  ghost predicate Two(t: string, bytes: seq<Byte>, colon: Option<nat>, r: Scanned, front: seq<string>, gs: seq<string>, e: Ending) {
    && colon.None? && Groups(front) && Proper(gs, e) && t == Colons(front) + (":" + ListText(gs, e))
    && r.colon.Some? && r.colon.value == |bytes| + |Pairs(front)|
    && Stored(r) == bytes + Pairs(front) + ListBytes(gs, e)
  }

  lemma DigitsMore(p: string, c: char)
    requires Digits(p) && HexValue(c).Some?
    ensures Digits(p + [c]) && Value(p + [c]) == Value(p) * 16 + HexValue(c).value
  {
    assert (p + [c])[..|p|] == p;
  }

  lemma OneMore(p: string, t: string, bytes: seq<Byte>, colon: Option<nat>, r: Scanned, gs: seq<string>, e: Ending)
    requires Group(p) && t != "" && One(t, bytes + Pair(p), colon, r, gs, e)
    ensures One(p + (":" + t), bytes, colon, r, [p] + gs, e)
  {
    ListHead(p, gs, e);
    AssocBytes(bytes, Pair(p), ListBytes(gs, e));
  }

  lemma AssocBytes(a: seq<Byte>, b: seq<Byte>, c: seq<Byte>)
    ensures a + b + c == a + (b + c)
  {
  }

  lemma GroupsMore(p: string, gs: seq<string>)
    requires Group(p) && Groups(gs)
    ensures Groups([p] + gs) && ([p] + gs)[1..] == gs
    ensures Pairs([p] + gs) == Pair(p) + Pairs(gs) && Colons([p] + gs) == p + ":" + Colons(gs)
  {
    var all := [p] + gs;
    assert all[0] == p && all[1..] == gs;
    assert forall i :: 1 <= i < |all| ==> all[i] == gs[i - 1];
  }

  lemma ListHead(p: string, gs: seq<string>, e: Ending)
    requires Group(p) && Proper(gs, e) && !e.Nothing?
    ensures Proper([p] + gs, e) && ListText([p] + gs, e) == p + (":" + ListText(gs, e))
    ensures ListBytes([p] + gs, e) == Pair(p) + ListBytes(gs, e)
  {
    GroupsMore(p, gs);
    AssocText(p, Colons(gs), match e case Nothing => "" case Word(g) => g case Dots(b) => Quad(b));
  }

  lemma AssocText(p: string, a: string, b: string)
    ensures p + ":" + a + b == p + (":" + (a + b))
  {
  }

  lemma TwoMore(p: string, t: string, bytes: seq<Byte>, r: Scanned, front: seq<string>, gs: seq<string>, e: Ending)
    requires Group(p) && Two(t, bytes + Pair(p), None, r, front, gs, e)
    ensures Two(p + (":" + t), bytes, None, r, [p] + front, gs, e)
  {
    GroupsMore(p, front);
    AssocText(p, Colons(front), ":" + ListText(gs, e));
    AssocBytes(bytes, Pair(p), Pairs(front));
  }

  ghost predicate Reads(two: bool, t: string, bytes: seq<Byte>, colon: Option<nat>, r: Scanned,
                        front: seq<string>, gs: seq<string>, e: Ending) {
    if two then Two(t, bytes, colon, r, front, gs, e) else One(t, bytes, colon, r, gs, e)
  }

  lemma ReadMore(two: bool, p: string, t: string, bytes: seq<Byte>, colon: Option<nat>, r: Scanned,
                 front: seq<string>, gs: seq<string>, e: Ending) returns (front': seq<string>, gs': seq<string>)
    requires Group(p) && t != "" && Reads(two, t, bytes + Pair(p), colon, r, front, gs, e)
    ensures Reads(two, p + (":" + t), bytes, colon, r, front', gs', e)
  {
    if two {
      TwoMore(p, t, bytes, r, front, gs, e);
      front', gs' := [p] + front, gs;
    } else {
      OneMore(p, t, bytes, colon, r, gs, e);
      front', gs' := front, [p] + gs;
    }
  }

  lemma {:induction false} ScanSound(rest: string, p: string, bytes: seq<Byte>, colon: Option<nat>)
    returns (two: bool, front: seq<string>, gs: seq<string>, e: Ending)
    requires Digits(p) && |p| <= 4
    ensures var r := Scan6(rest, p + rest, bytes, colon, |p|, Value(p));
            r.Some? ==> Reads(two, p + rest, bytes, colon, r.value, front, gs, e)
    decreases rest
  {
    two, front, gs, e := false, [], [], Nothing;
    var r := Scan6(rest, p + rest, bytes, colon, |p|, Value(p));
    if r.None? {
    } else if rest == "" {
      SoundEnd(p, bytes, colon);
      if p != "" { e := Word(p); }
    } else {
      var c, more := rest[0], rest[1..];
      assert rest == [c] + more;
      if HexValue(c).Some? {
        DigitsMore(p, c);
        assert p + rest == p + [c] + more;
        two, front, gs, e := ScanSound(more, p + [c], bytes, colon);
      } else if c == ':' && p == "" {
        two, front, gs, e := ScanSound(more, "", bytes, Some(|bytes|));
        assert "" + more == more && "" + rest == ":" + more;
        SoundColon(more, bytes, r.value, gs, e);
        two := true;
        front := [];
      } else if c == ':' {
        two, front, gs, e := ScanSound(more, "", bytes + Pair(p), colon);
        assert "" + more == more && p + rest == p + (":" + more);
        front, gs := ReadMore(two, p, more, bytes, colon, r.value, front, gs, e);
      } else {
        var tok := p + rest;
        e := Dots(Parse4(tok).value);
        SoundQuad(tok, bytes);
      }
    }
  }

  lemma SoundColon(more: string, bytes: seq<Byte>, r: Scanned, gs: seq<string>, e: Ending)
    requires One(more, bytes, Some(|bytes|), r, gs, e)
    ensures Two(":" + more, bytes, None, r, [], gs, e)
  {
    assert Colons([]) + (":" + more) == ":" + more && bytes + Pairs([]) == bytes;
  }

  lemma SoundEnd(p: string, bytes: seq<Byte>, colon: Option<nat>)
    requires Digits(p) && |p| <= 4
    ensures var r := Scanned(bytes, colon, |p|, Value(p));
            One(p + "", bytes, colon, r, [], if p == "" then Nothing else Word(p))
  {
    assert p + "" == p && "" + p == p;
    assert bytes + [] == bytes;
    if p != "" { assert [] + Pair(p) == Pair(p); }
  }

  lemma SoundQuad(tok: string, bytes: seq<Byte>)
    requires Parse4(tok).Some?
    ensures var e := Dots(Parse4(tok).value);
            Proper([], e) && tok == ListText([], e) && bytes + e.b == bytes + ListBytes([], e)
  {
    Scan4Sound(tok, [0], false, 0);
    assert [0][..0] == [];
    assert "" + "" + tok == tok && "" + Quad(Parse4(tok).value) == Quad(Parse4(tok).value);
    assert [] + Parse4(tok).value == Parse4(tok).value;
  }

  // ---------- What is in the grammar is accepted ----------

  lemma {:induction false} ScanDigits(g: string, rest: string, p: string, tok: string, bytes: seq<Byte>, colon: Option<nat>)
    requires Digits(p) && Digits(g) && |p| + |g| <= 4
    ensures Digits(p + g)
    ensures Scan6(g + rest, tok, bytes, colon, |p|, Value(p)) == Scan6(rest, tok, bytes, colon, |p + g|, Value(p + g))
    decreases |g|
  {
    if g == "" {
      assert g + rest == rest && p + g == p;
    } else {
      var c := g[0];
      assert (g + rest)[0] == c && (g + rest)[1..] == g[1..] + rest;
      DigitsMore(p, c);
      ScanDigits(g[1..], rest, p + [c], tok, bytes, colon);
      assert p + [c] + g[1..] == p + g;
    }
  }

  lemma ScanGroup(g: string, rest: string, tok: string, bytes: seq<Byte>, colon: Option<nat>)
    requires Group(g)
    ensures Scan6(g + rest, tok, bytes, colon, 0, 0) == Scan6(rest, tok, bytes, colon, |g|, Value(g))
  {
    ScanDigits(g, rest, "", tok, bytes, colon);
    assert "" + g == g;
  }

  /** Groups with colons are stored one by one. */
  lemma {:induction false} ScanColonsOf(gs: seq<string>, rest: string, tok: string, bytes: seq<Byte>, colon: Option<nat>)
    requires Groups(gs) && gs != [] && rest != "" && |bytes| + 2 * |gs| <= 16
    ensures Scan6(Colons(gs) + rest, tok, bytes, colon, 0, 0) == Scan6(rest, rest, bytes + Pairs(gs), colon, 0, 0)
    decreases |gs|
  {
    var g, more := gs[0], Colons(gs[1..]) + rest;
    ColonsHead(gs, rest);
    ScanFirst(g, more, tok, bytes, colon);
    if gs[1..] == [] {
      assert more == rest && bytes + Pair(g) + [] == bytes + Pair(g);
    } else {
      ScanColonsOf(gs[1..], rest, more, bytes + Pair(g), colon);
    }
    PairsHead(bytes, gs);
  }

  lemma ColonsHead(gs: seq<string>, rest: string)
    requires gs != []
    ensures Colons(gs) + rest == gs[0] + (":" + (Colons(gs[1..]) + rest))
  {
  }

  lemma PairsHead(bytes: seq<Byte>, gs: seq<string>)
    requires gs != [] && Groups(gs)
    ensures bytes + Pairs(gs) == bytes + Pair(gs[0]) + Pairs(gs[1..])
  {
  }

  /** The colon behind a group stores it. */
  lemma ScanFirst(g: string, more: string, tok: string, bytes: seq<Byte>, colon: Option<nat>)
    requires Group(g) && more != "" && |bytes| + 2 <= 16
    ensures Scan6(g + (":" + more), tok, bytes, colon, 0, 0) == Scan6(more, more, bytes + Pair(g), colon, 0, 0)
  {
    ScanGroup(g, ":" + more, tok, bytes, colon);
    assert (":" + more)[0] == ':' && (":" + more)[1..] == more;
  }

  lemma EndingScanned(e: Ending, tok: string, bytes: seq<Byte>, colon: Option<nat>)
    requires Proper([], e) && |bytes| + |ListBytes([], e)| <= 16 && tok == ListText([], e)
    ensures var r := Scan6(tok, tok, bytes, colon, 0, 0);
            r.Some? && r.value.colon == colon && Stored(r.value) == bytes + ListBytes([], e)
            && (r.value.seen > 0 ==> |r.value.bytes| + 2 <= 16)
  {
    match e
    case Nothing => assert bytes + ([] + []) == bytes;
    case Word(g) =>
      assert tok == g == g + "";
      ScanGroup(g, "", tok, bytes, colon);
      assert [] + Pair(g) == Pair(g);
    case Dots(b) =>
      assert tok == Quad(b) && [] + b == b;
      ScanQuad(b, bytes, colon);
  }

  lemma ListScanned(gs: seq<string>, e: Ending, tok: string, bytes: seq<Byte>, colon: Option<nat>)
    requires Proper(gs, e) && |bytes| + |ListBytes(gs, e)| <= 16 && tok == ListText(gs, e)
    ensures var r := Scan6(tok, tok, bytes, colon, 0, 0);
            r.Some? && r.value.colon == colon && Stored(r.value) == bytes + ListBytes(gs, e)
            && (r.value.seen > 0 ==> |r.value.bytes| + 2 <= 16)
  {
    if gs == [] {
      EndingScanned(e, tok, bytes, colon);
    } else {
      var last, stored := ListText([], e), bytes + Pairs(gs);
      EndingText(e);
      ListParts(bytes, gs, e);
      ScanColonsOf(gs, last, tok, bytes, colon);
      EndingScanned(e, last, stored, colon);
    }
  }

  lemma ListParts(bytes: seq<Byte>, gs: seq<string>, e: Ending)
    requires Proper(gs, e)
    ensures ListText(gs, e) == Colons(gs) + ListText([], e)
    ensures bytes + ListBytes(gs, e) == bytes + Pairs(gs) + ListBytes([], e)
    ensures |ListBytes(gs, e)| == |Pairs(gs)| + |ListBytes([], e)|
  {
  }

  lemma EndingText(e: Ending)
    requires Proper([], e)
    ensures ListText([], e) == match e case Nothing => "" case Word(g) => g case Dots(b) => Quad(b)
    ensures e != Nothing ==> ListText([], e) != "" && HexValue(ListText([], e)[0]).Some?
  {
    if e.Dots? {
      QuadStart(e.b);
    }
  }

  lemma QuadStart(b: seq<Byte>)
    requires |b| == 4
    ensures Quad(b) != "" && HexValue(Quad(b)[0]).Some?
  {
    DecStart(b[0]);
    assert Quad(b)[0] == Dec(b[0])[0];
  }

  lemma {:induction false} DecStart(n: nat)
    ensures Dec(n) != "" && HexValue(Dec(n)[0]).Some?
  {
    if n < 10 { DigitChars(n, '0'); } else { DecStart(n / 10); }
  }

  /** A text in the grammar does not start with a colon, unless with two. */
  lemma ColonsStart(gs: seq<string>, rest: string)
    requires Groups(gs) && gs != []
    ensures var t := Colons(gs) + rest; t != "" && t[0] != ':'
  {
    var g := gs[0];
    assert (Colons(gs) + rest)[0] == g[0] && HexValue(g[0]).Some?;
  }

  lemma FullAccepted(s: string, bytes: seq<Byte>, gs: seq<string>, e: Ending)
    requires Full(s, bytes, gs, e)
    ensures Parse6(s) == Some(bytes)
  {
    var t := ListText([], e);
    ListParts([], gs, e);
    if gs != [] { ColonsStart(gs, t); }
    ListScanned(gs, e, s, [], None);
    assert [] + ListBytes(gs, e) == bytes;
  }

  lemma ShortAccepted(s: string, bytes: seq<Byte>, front: seq<string>, gs: seq<string>, e: Ending)
    requires Short(s, bytes, front, gs, e)
    ensures Parse6(s) == Some(bytes)
  {
    var t := ListText(gs, e);
    var fb, lb := Pairs(front), ListBytes(gs, e);
    ListScanned(gs, e, t, fb, Some(|fb|));
    ShortScanned(s, t, front);
    var end := Scan6(t, t, fb, Some(|fb|), 0, 0).value;
    Halved(fb, lb);
  }

  /** The text in front of two colons is stored. */
  lemma ShortScanned(s: string, t: string, front: seq<string>)
    requires Groups(front) && 2 * |front| <= 16 && s == (if front == [] then ":" else Colons(front)) + (":" + t)
    ensures var fb := Pairs(front);
            var end := Scan6(t, t, fb, Some(|fb|), 0, 0);
            Parse6(s) == if end.None? then None else Finish6(end.value)
  {
    var more, fb := ":" + t, Pairs(front);
    assert more[0] == ':' && more[1..] == t;
    if front == [] {
      assert s[0] == ':' && s[1] == ':' && s[1..] == more;
      assert fb == [];
    } else {
      ColonsStart(front, more);
      ScanColonsOf(front, more, s, [], None);
      assert [] + fb == fb;
    }
  }

  /** The parser accepts exactly the texts of the grammar, and reads them as the bytes they denote. */
  lemma AddressTexts(s: string, bytes: seq<Byte>)
    ensures Parse6(s) == Some(bytes) <==> Denotes(s, bytes)
  {
    if Parse6(s) == Some(bytes) {
      Accepted(s, bytes);
    }
    if gs, e :| Full(s, bytes, gs, e) {
      FullAccepted(s, bytes, gs, e);
    }
    if front, gs, e :| Short(s, bytes, front, gs, e) {
      ShortAccepted(s, bytes, front, gs, e);
    }
  }

  lemma Accepted(s: string, bytes: seq<Byte>)
    requires Parse6(s) == Some(bytes)
    ensures Denotes(s, bytes)
  {
    var start := if s[0] == ':' then s[1..] else s;
    var two, front, gs, e := ScanSound(start, "", [], None);
    assert "" + start == start;
    var r := Scan6(start, start, [], None, 0, 0).value;
    if two {
      assert [] + Pairs(front) == Pairs(front);
      AcceptedShort(s, start, bytes, r, front, gs, e);
    } else {
      assert [] + ListBytes(gs, e) == ListBytes(gs, e);
      AcceptedFull(s, start, bytes, r, gs, e);
    }
  }

  lemma AcceptedShort(s: string, start: string, bytes: seq<Byte>, r: Scanned, front: seq<string>, gs: seq<string>, e: Ending)
    requires s != "" && start == (if s[0] == ':' then s[1..] else s) && (s[0] == ':' ==> start != "" && start[0] == ':')
    requires Two(start, [], None, r, front, gs, e) && Finish6(r) == Some(bytes)
    ensures Short(s, bytes, front, gs, e)
  {
    ShortFinish(r, Pairs(front), ListBytes(gs, e), bytes);
    ShortText(s, start, front, ":" + ListText(gs, e));
  }

  lemma ShortText(s: string, start: string, front: seq<string>, more: string)
    requires s != "" && start == (if s[0] == ':' then s[1..] else s) && (s[0] == ':' ==> start != "" && start[0] == ':')
    requires Groups(front) && start == Colons(front) + more && more != "" && more[0] == ':'
    ensures s == (if front == [] then ":" else Colons(front)) + more
  {
    if front != [] {
      ColonsStart(front, more);
    } else {
      assert start == more && s == ":" + more;
    }
  }

  lemma ShortFinish(r: Scanned, fb: seq<Byte>, lb: seq<Byte>, bytes: seq<Byte>)
    requires Stored(r) == [] + fb + lb && r.colon.Some? && r.colon.value == |fb| && Finish6(r) == Some(bytes)
    ensures |fb| + |lb| < 16 && bytes == Padded(fb, lb)
  {
    Halved(fb, lb);
  }

  lemma Halved(a: seq<Byte>, b: seq<Byte>)
    ensures [] + a + b == a + b && (a + b)[..|a|] == a && (a + b)[|a|..] == b
  {
  }

  lemma AcceptedFull(s: string, start: string, bytes: seq<Byte>, r: Scanned, gs: seq<string>, e: Ending)
    requires s != "" && start == (if s[0] == ':' then s[1..] else s) && (s[0] == ':' ==> start != "" && start[0] == ':')
    requires One(start, [], None, r, gs, e) && Finish6(r) == Some(bytes)
    ensures Full(s, bytes, gs, e)
  {
    assert [] + ListBytes(gs, e) == ListBytes(gs, e);
    ListParts([], gs, e);
    EndingText(e);
    if gs != [] { ColonsStart(gs, ListText([], e)); }
  }

  // ---------- For instance ----------

  /** A fifth digit is refused. */
  lemma FiveDigits(gs: seq<string>, g: string, rest: string)
    requires Groups(gs) && |gs| <= 7 && |g| == 5 && Digits(g)
    ensures Parse6(Colons(gs) + (g + rest)) == None
  {
    var s, more := Colons(gs) + (g + rest), g + rest;
    assert more[0] == g[0];
    ScanFive(g, rest, if gs == [] then s else more, Pairs(gs));
    if gs == [] {
      assert s == more;
    } else {
      ColonsStart(gs, more);
      ScanColonsOf(gs, more, s, [], None);
      assert [] + Pairs(gs) == Pairs(gs);
    }
  }

  lemma ScanFive(g: string, rest: string, tok: string, bytes: seq<Byte>)
    requires |g| == 5 && Digits(g)
    ensures Scan6(g + rest, tok, bytes, None, 0, 0) == None
  {
    var a, b := g[..4], [g[4]] + rest;
    assert g + rest == a + b && b[0] == g[4];
    ScanGroup(a, b, tok, bytes, None);
  }

  /** Two colons a second time are refused. */
  lemma ColonsTwice(front: seq<string>, gs: seq<string>, rest: string)
    requires Groups(front) && Groups(gs) && front != [] && gs != [] && |front| + |gs| <= 8
    ensures Parse6(Colons(front) + (":" + (Colons(gs) + (":" + rest)))) == None
  {
    var last := ":" + rest;
    var back := Colons(gs) + last;
    var s := Colons(front) + (":" + back);
    ColonsStart(front, ":" + back);
    ScanColonsOf(front, ":" + back, s, [], None);
    assert [] + Pairs(front) == Pairs(front);
    assert (":" + back)[0] == ':' && (":" + back)[1..] == back;
    ScanColonsOf(gs, last, back, Pairs(front), Some(|Pairs(front)|));
    assert last[0] == ':';
  }

  /** A ninth group is refused. */
  lemma NineGroups(gs: seq<string>, g: string, rest: string)
    requires Groups(gs) && |gs| == 8 && Group(g) && (rest == "" || rest[0] == ':')
    ensures Parse6(Colons(gs) + (g + rest)) == None
  {
    var more := g + rest;
    var s := Colons(gs) + more;
    assert more[0] == g[0];
    ColonsStart(gs, more);
    ScanColonsOf(gs, more, s, [], None);
    ScanGroup(g, rest, more, [] + Pairs(gs), None);
  }

  // ---------- What is printed ----------

  /** A printed word has no leading zero, and its digits are lower-case. */
  lemma {:induction false} HexCanonical(n: nat)
    ensures Hex(n) != "" && (n > 0 ==> Hex(n)[0] != '0') && (n == 0 ==> Hex(n) == "0")
    ensures forall k :: 0 <= k < |Hex(n)| ==> Hex(n)[k] in LOWER
  {
    if n < 16 {
      HexCharIs(n);
      assert LOWER[0] == '0';
      HexValueIs(HexChar(n), 0);
      HexValueIs(HexChar(n), n);
    } else {
      HexCanonical(n / 16);
      HexCharIs(n % 16);
    }
  }

  /** Four bytes behind zeros, and behind zeros and ffff, are printed as a quad. */
  lemma PrintedQuads(ws: seq<InetText.Word>)
    requires |ws| == 8
    ensures var quad := Quad([ws[6] / 256, ws[6] % 256, ws[7] / 256, ws[7] % 256]);
            && Print6(ws, Some((0, 6))) == "::" + quad
            && (ws[5] == 0xffff ==> Print6(ws, Some((0, 5))) == "::ffff:" + quad)
  {
    var quad := Quad([ws[6] / 256, ws[6] % 256, ws[7] / 256, ws[7] % 256]);
    assert HexList(ws[..0]) == "";
    assert "" + ":" + (":" + quad) == "::" + quad;
    if ws[5] == 0xffff {
      assert ws[5..6] == [ws[5]];
      HexFfff();
      assert "" + ":" + (":" + ("ffff" + ":" + quad)) == "::ffff:" + quad;
    }
  }

  lemma HexFfff()
    ensures Hex(0xffff) == "ffff"
  {
    assert Hex(0xf) == "f";
    assert Hex(0xff) == Hex(0xf) + "f";
    assert Hex(0xfff) == Hex(0xff) + "f";
    assert Hex(0xffff) == Hex(0xfff) + "f";
  }

  /** Other addresses are printed without dots. */
  lemma PrintedWords(ws: seq<InetText.Word>, b: nat, n: nat)
    requires |ws| == 8 && b + n <= 8 && !(b == 0 && n == 6) && !(b == 0 && n == 5 && ws[5] == 0xffff)
    ensures Print6(ws, Some((b, n))) == HexList(ws[..b]) + ":" + (":" + HexList(ws[b + n..]))
    ensures '.' !in Print6(ws, Some((b, n))) && '.' !in Print6(ws, None)
  {
    NoDots(ws);
    NoDots(ws[..b]);
    NoDots(ws[b + n..]);
  }

  lemma {:induction false} NoDots(ws: seq<InetText.Word>)
    ensures '.' !in HexList(ws)
    decreases |ws|
  {
    if |ws| == 1 {
      NoDot(ws[0]);
    } else if ws != [] {
      NoDots(ws[..|ws| - 1]);
      NoDot(ws[|ws| - 1]);
    }
  }

  lemma {:induction false} NoDot(n: nat)
    ensures '.' !in Hex(n)
  {
    if n >= 16 { NoDot(n / 16); }
  }
}
