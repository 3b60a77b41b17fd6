/** The label encoder and the translation of whole host names. */
module Idna {
  import opened Wrappers
  import opened Utf8
  import opened PunycodeText

  /** One more than the largest value of an unsigned word. */
  const U32: nat := 0x1_0000_0000

  datatype Status = Success | Invalid | TooBig

  /** The characters less than `n`, in order. */
  function Below(cs: seq<Scalar>, n: nat): (r: seq<Scalar>)
    ensures |r| <= |cs|
  {
    if cs == [] then [] else (if cs[0] < n then [cs[0]] else []) + Below(cs[1..], n)
  }

  lemma {:induction false} BelowConcat(a: seq<Scalar>, b: seq<Scalar>, n: nat)
    ensures Below(a + b, n) == Below(a, n) + Below(b, n)
  {
    if a == [] {
      assert a + b == b;
    } else {
      assert (a + b)[1..] == a[1..] + b;
      BelowConcat(a[1..], b, n);
    }
  }

  lemma BelowNext(cs: seq<Scalar>, idx: nat, n: nat)
    requires idx < |cs|
    ensures Below(cs[..idx + 1], n) == Below(cs[..idx], n) + (if cs[idx] < n then [cs[idx]] else [])
    ensures Below(cs[idx..], n) == (if cs[idx] < n then [cs[idx]] else []) + Below(cs[idx + 1..], n)
  {
    assert cs[..idx + 1] == cs[..idx] + [cs[idx]];
    BelowConcat(cs[..idx], [cs[idx]], n);
    assert cs[idx..][1..] == cs[idx + 1..];
  }

  /** When no character lies between two bounds, both keep the same. */
  lemma {:induction false} BelowSame(cs: seq<Scalar>, n: nat, m: nat)
    requires n <= m && forall j :: 0 <= j < |cs| ==> cs[j] < n || cs[j] >= m
    ensures Below(cs, n) == Below(cs, m)
  {
    if cs != [] {
      BelowSame(cs[1..], n, m);
    }
  }

  lemma {:induction false} BelowIn(cs: seq<Scalar>, n: nat, c: Scalar)
    ensures c in Below(cs, n) <==> c in cs && c < n
  {
    if cs != [] {
      BelowIn(cs[1..], n, c);
    }
  }

  lemma {:induction false} BelowAll(cs: seq<Scalar>, n: nat)
    ensures |Below(cs, n)| == |cs| <==> forall j :: 0 <= j < |cs| ==> cs[j] < n
    ensures |Below(cs, n)| == |cs| ==> Below(cs, n) == cs
  {
    if cs != [] {
      BelowAll(cs[1..], n);
      assert forall j :: 1 <= j < |cs| ==> cs[j] == cs[1..][j - 1];
      if forall j :: 0 <= j < |cs| ==> cs[j] < n {
        assert forall j :: 0 <= j < |cs[1..]| ==> cs[1..][j] == cs[j + 1] < n;
      }
      assert cs == [cs[0]] + cs[1..];
    }
  }

  /** What the encoder has handled at index `idx` of the pass for `n`. */
  function Handled(cs: seq<Scalar>, n: nat, idx: nat): seq<Scalar>
    requires idx <= |cs|
  {
    Below(cs[..idx], n + 1) + Below(cs[idx..], n)
  }

  /** How many insertion points `count` characters have in a text with `size` of them. */
  function Rounds(count: nat, size: nat): nat {
    if count == 0 then 0 else size + Rounds(count - 1, size)
  }

  lemma {:induction false} RoundsIs(count: nat, size: nat)
    ensures Rounds(count, size) == count * size
  {
    if count > 0 {
      RoundsIs(count - 1, size);
      assert count * size == (count - 1) * size + size;
    }
  }

  lemma {:induction false} RoundsAdd(a: nat, b: nat, size: nat)
    ensures Rounds(a + b, size) == Rounds(a, size) + Rounds(b, size)
  {
    if a > 0 {
      RoundsAdd(a - 1, b, size);
    }
  }

  /** The decoder, run on the digits written so far, has the encoder's bias and handled characters, and
      its position plus `delta` is the distance to the next insertion point. */
  ghost predicate Tracks(ext: seq<Byte>, cs: seq<Scalar>, n: nat, idx: nat, h: nat, delta: nat, bias: nat, first: bool)
    requires idx <= |cs|
  {
    var r := Run(ext, StartOf(cs));
    r.Some? && TracksState(r.value, cs, n, idx, h, delta, bias, first)
  }

  function StartOf(cs: seq<Scalar>): State {
    State(128, 0, 72, Below(cs, 128))
  }

  ghost predicate TracksState(st: State, cs: seq<Scalar>, n: nat, idx: nat, h: nat, delta: nat, bias: nat, first: bool)
    requires idx <= |cs|
  {
    st.bias == bias && st.n <= n && (first <==> st.i == 0)
    && st.out == Handled(cs, n, idx) && h == |st.out|
    && st.i + delta == Rounds(n - st.n, h + 1) + |Below(cs[..idx], n + 1)|
  }

  lemma TracksStart(cs: seq<Scalar>)
    ensures Tracks([], cs, 128, 0, |Below(cs, 128)|, 0, 72, true)
  {
    assert cs[..0] == [] && cs[0..] == cs;
    assert [] + Below(cs, 128) == Below(cs, 128);
  }

  lemma TracksLess(ext: seq<Byte>, cs: seq<Scalar>, n: nat, idx: nat, h: nat, delta: nat, bias: nat, first: bool)
    requires idx < |cs| && cs[idx] < n && Tracks(ext, cs, n, idx, h, delta, bias, first)
    ensures Tracks(ext, cs, n, idx + 1, h, delta + 1, bias, first)
  {
    BelowNext(cs, idx, n);
    BelowNext(cs, idx, n + 1);
  }

  lemma TracksMore(ext: seq<Byte>, cs: seq<Scalar>, n: nat, idx: nat, h: nat, delta: nat, bias: nat, first: bool)
    requires idx < |cs| && cs[idx] > n && Tracks(ext, cs, n, idx, h, delta, bias, first)
    ensures Tracks(ext, cs, n, idx + 1, h, delta, bias, first)
  {
    BelowNext(cs, idx, n);
    BelowNext(cs, idx, n + 1);
  }

  lemma {:induction false} DivModOf(a: nat, b: nat, r: nat)
    requires r < b
    ensures (a * b + r) / b == a && (a * b + r) % b == r
  {
    if a > 0 {
      var x := (a - 1) * b + r;
      assert a * b + r == x + b;
      DivModOf(a - 1, b, r);
      AddOnce(x, b);
    }
  }

  lemma AddOnce(x: nat, b: nat)
    requires b > 0
    ensures (x + b) / b == x / b + 1 && (x + b) % b == x % b
  {
    var q, r := x / b, x % b;
    assert x + b == b * (q + 1) + r;
    var q', r' := (x + b) / b, (x + b) % b;
    assert b * (q' - q - 1) == r - r';
    Between(b, q' - q - 1, r - r');
  }

  lemma Between(b: nat, k: int, d: int)
    requires b > 0 && b * k == d && d < b && -d < b
    ensures k == 0 && d == 0
  {
    assert b * (k - 1) == d - b && b * (k + 1) == d + b;
    MulGrows(b, k - 1);
    MulGrows(b, k + 1);
  }

  /** Writing `delta` makes the decoder insert the character where it belongs. */
  lemma InsertHandled(st: State, cs: seq<Scalar>, n: nat, idx: nat, h: nat, delta: nat, bias: nat, first: bool)
    requires idx < |cs| && cs[idx] == n && TracksState(st, cs, n, idx, h, delta, bias, first)
    ensures TracksState(Insert(st, st.i + delta), cs, n, idx + 1, h + 1, 0, Adapt(delta, h + 1, first), false)
  {
    var before, after := Below(cs[..idx], n + 1), Below(cs[idx..], n);
    var next := Insert(st, st.i + delta);
    RoundsIs(n - st.n, h + 1);
    InsertAt(st, n, st.i + delta, |before|);
    Halves(before, after);
    HandledNext(cs, n, idx);
    assert next.n - n == 0;
  }

  lemma Halves(a: seq<Scalar>, b: seq<Scalar>)
    ensures (a + b)[..|a|] == a && (a + b)[|a|..] == b
  {
  }

  lemma HandledNext(cs: seq<Scalar>, n: nat, idx: nat)
    requires idx < |cs| && cs[idx] == n
    ensures Handled(cs, n, idx + 1) == Below(cs[..idx], n + 1) + [n] + Below(cs[idx..], n)
    ensures |Below(cs[..idx + 1], n + 1)| == |Below(cs[..idx], n + 1)| + 1
  {
    BelowNext(cs, idx, n);
    BelowNext(cs, idx, n + 1);
  }

  lemma InsertAt(st: State, n: nat, i: nat, pos: nat)
    requires st.n <= n && st.i <= i && pos <= |st.out| && i == (n - st.n) * (|st.out| + 1) + pos
    ensures var next := Insert(st, i);
            next.n == n && next.i == pos + 1 && next.out == st.out[..pos] + [n] + st.out[pos..]
            && next.bias == Adapt(i - st.i, |st.out| + 1, st.i == 0)
  {
    DivModOf(n - st.n, |st.out| + 1, pos);
  }

  lemma TracksEqual(ext: seq<Byte>, cs: seq<Scalar>, n: nat, idx: nat, h: nat, delta: nat, bias: nat, first: bool)
    requires idx < |cs| && cs[idx] == n && Tracks(ext, cs, n, idx, h, delta, bias, first) && DASH !in ext
    ensures h < |cs| && DASH !in ext + Digits(delta, 36, bias)
    ensures Tracks(ext + Digits(delta, 36, bias), cs, n, idx + 1, h + 1, 0, Adapt(delta, h + 1, first), false)
  {
    RunDigits(ext, StartOf(cs), delta);
    InsertHandled(Run(ext, StartOf(cs)).value, cs, n, idx, h, delta, bias, first);
    DigitsHaveNoDash(delta, 36, bias);
  }

  /** Moving on to the next character that occurs. */
  lemma TracksJump(ext: seq<Byte>, cs: seq<Scalar>, n: nat, m: nat, h: nat, delta: nat, to: nat, bias: nat, first: bool)
    requires n <= m && to == delta + Rounds(m - n, h + 1) && Tracks(ext, cs, n, 0, h, delta, bias, first)
    requires forall j :: 0 <= j < |cs| ==> cs[j] < n || cs[j] >= m
    ensures Tracks(ext, cs, m, 0, h, to, bias, first)
  {
    assert cs[..0] == [] && cs[0..] == cs;
    BelowSame(cs, n, m);
    var st := Run(ext, StartOf(cs)).value;
    RoundsAdd(n - st.n, m - n, h + 1);
  }

  /** The end of a pass is the start of the next. */
  lemma TracksWrap(ext: seq<Byte>, cs: seq<Scalar>, n: nat, h: nat, delta: nat, bias: nat, first: bool)
    requires Tracks(ext, cs, n, |cs|, h, delta, bias, first)
    ensures Tracks(ext, cs, n + 1, 0, h, delta + 1, bias, first)
  {
    assert cs[..0] == [] && cs[0..] == cs && cs[..|cs|] == cs && cs[|cs|..] == [];
    var st := Run(ext, StartOf(cs)).value;
    assert Handled(cs, n, |cs|) == Below(cs, n + 1) == Handled(cs, n + 1, 0);
    assert Rounds(n + 1 - st.n, h + 1) == Rounds(n - st.n, h + 1) + (h + 1);
  }

  /** `delta` stays within what the largest character and the length allow. */
  lemma DeltaBound(ext: seq<Byte>, cs: seq<Scalar>, n: nat, idx: nat, h: nat, delta: nat, bias: nat, first: bool)
    requires idx <= |cs| && n < 0x110000 && Tracks(ext, cs, n, idx, h, delta, bias, first)
    ensures h <= |cs| && delta < 0x110000 * (|cs| + 1)
  {
    BelowConcat(cs[..idx], cs[idx..], n);
    var st := Run(ext, StartOf(cs)).value;
    var a := n - st.n;
    RoundsIs(a, h + 1);
    assert a * (h + 1) <= 0x10FFFF * (h + 1) by { MulMono(a, 0x10FFFF, h + 1); }
    assert |Below(cs[..idx], n + 1)| <= h;
  }

  lemma MulMono(a: nat, b: nat, c: nat)
    requires a <= b
    ensures a * c <= b * c
  {
  }

  /** Position `p` of the text is where its character number `idx` starts. */
  ghost predicate At(s: seq<Byte>, p: nat, cs: seq<Scalar>, idx: nat) {
    p <= |s| && idx <= |cs| && Decode(s, p) == Some(cs[idx..])
  }

  lemma NextChar(s: seq<Byte>, p: nat, cs: seq<Scalar>, idx: nat)
    requires At(s, p, cs, idx) && p < |s|
    ensures idx < |cs| && Decode1(s, p).0 == Some(cs[idx]) && At(s, Decode1(s, p).1, cs, idx + 1)
  {
    var (c, q) := Decode1(s, p);
    var rest := Decode(s, q).value;
    assert cs[idx..] == [c.value] + rest;
    assert cs[idx] == cs[idx..][0] && cs[idx + 1..] == cs[idx..][1..] == rest;
  }

  lemma {:induction false} DecodeLength(s: seq<Byte>, p: nat)
    requires p <= |s| && Decode(s, p).Some?
    ensures |Decode(s, p).value| <= |s| - p
    decreases |s| - p
  {
    if p < |s| {
      DecodeLength(s, Decode1(s, p).1);
    }
  }

  /** The text up to `p` holds the characters `seen`, or it is refused later. */
  ghost predicate SeenTo(s: seq<Byte>, p: nat, seen: seq<Scalar>) {
    p <= |s| && Decode(s, 0) == if Decode(s, p).None? then None else Some(seen + Decode(s, p).value)
  }

  lemma SeenNext(s: seq<Byte>, p: nat, seen: seq<Scalar>)
    requires SeenTo(s, p, seen) && p < |s|
    ensures var (c, q) := Decode1(s, p);
            if c.None? then Decode(s, 0).None? else SeenTo(s, q, seen + [c.value])
  {
    var (c, q) := Decode1(s, p);
    if c.Some? && Decode(s, q).Some? {
      var rest := Decode(s, q).value;
      assert seen + ([c.value] + rest) == (seen + [c.value]) + rest;
    }
  }

  lemma BelowPush(seen: seq<Scalar>, c: Scalar, n: nat)
    ensures |Below(seen + [c], n)| == |Below(seen, n)| + if c < n then 1 else 0
  {
    BelowConcat(seen, [c], n);
  }

  /** Checks the text and counts its basic and its other characters. */
  method ScanLabel(s: seq<Byte>) returns (ok: bool, h: nat, todo: nat)
    ensures ok <==> Decode(s, 0).Some?
    ensures ok ==> h == |Below(Decode(s, 0).value, 128)| && h + todo == |Decode(s, 0).value|
  {
    var p := 0;
    ghost var seen: seq<Scalar> := [];
    h, todo := 0, 0;
    assert Decode(s, 0).Some? ==> [] + Decode(s, 0).value == Decode(s, 0).value;
    while p < |s|
      invariant SeenTo(s, p, seen) && h == |Below(seen, 128)| && h + todo == |seen|
    {
      SeenNext(s, p, seen);
      var (c, q) := Decode1(s, p);
      if c.None? {
        return false, h, todo;
      }
      BelowPush(seen, c.value, 128);
      if c.value < 128 {
        h := h + 1;
      } else {
        todo := todo + 1;
      }
      p, seen := q, seen + [c.value];
    }
    assert seen + [] == seen;
    ok := true;
  }

  /** Writes the basic characters in order. */
  method CopyBasics(s: seq<Byte>, ghost cs: seq<Scalar>, h: nat) returns (out: seq<Byte>)
    requires Decode(s, 0) == Some(cs) && h == |Below(cs, 128)|
    ensures out == Below(cs, 128)
  {
    var p, x := 0, 0;
    ghost var idx := 0;
    out := [];
    assert cs[0..] == cs;
    while p < |s|
      invariant At(s, p, cs, idx) && out == Below(cs[..idx], 128) && x == |out|
    {
      NextChar(s, p, cs, idx);
      BelowNext(cs, idx, 128);
      var (c, q) := Decode1(s, p);
      p, idx := q, idx + 1;
      if c.value > 127 {
        continue;
      }
      out := out + [c.value];
      x := x + 1;
      if x == h {
        AllCopied(cs, idx);
        break;
      }
    }
    if p == |s| {
      assert idx == |cs| && cs[..idx] == cs;
    }
  }

  /** With all basic characters counted, there are none left. */
  lemma AllCopied(cs: seq<Scalar>, idx: nat)
    requires idx <= |cs| && |Below(cs[..idx], 128)| == |Below(cs, 128)|
    ensures Below(cs[..idx], 128) == Below(cs, 128)
  {
    BelowConcat(cs[..idx], cs[idx..], 128);
    assert cs[..idx] + cs[idx..] == cs;
    assert Below(cs[idx..], 128) == [];
  }

  /** Writes `delta` as a variable-length integer. */
  method WriteDelta(before: seq<Byte>, delta: nat, bias: nat) returns (out: seq<Byte>)
    ensures out == before + Digits(delta, 36, bias)
  {
    var k: nat, q: nat := 36, delta;
    out := before;
    while true
      invariant out + Digits(q, k, bias) == before + Digits(delta, 36, bias)
      decreases q
    {
      var t: nat := 1;
      if k > bias {
        t := k - bias;
      }
      if t > 26 {
        t := 26;
      }
      if q < t {
        break;
      }
      assert t == Threshold(k, bias);
      ghost var rest := Digits(Carry(q, t).1, k + 36, bias);
      DivMod(q - t, 36 - t);
      var x: nat, y: nat := q - t, 36 - t;
      q, t := x / y, t + x % y;
      assert out + ([Digit(t)] + rest) == (out + [Digit(t)]) + rest;
      out := out + [Digit(t)];
      k := k + 36;
    }
    out := out + [Digit(q)];
  }

  lemma DivTwice(a: nat)
    ensures a / 2 / 350 == a / 700
  {
  }

  /** The bias for the next integer, `h` counting the character just written. */
  method AdaptBias(delta: nat, h: nat, first: bool) returns (bias: nat)
    requires delta < U32 && h > 0
    ensures bias == Adapt(delta, h, first)
  {
    var d: nat := delta / 2;
    if first {
      DivTwice(delta);
      d := d / 350;
    }
    DivMod(d, h);
    d := d + d / h;
    assert d < U32;
    bias := 0;
    ghost var total := Skew(d, 0);
    while d > 455
      invariant Skew(d, bias) == total
    {
      d := d / 35;
      bias := bias + 36;
    }
    bias := bias + 36 * d / (d + 38);
  }

  // ---------- How large `delta` becomes ----------

  /** The place of the first `c`. */
  function First(cs: seq<Scalar>, c: nat): (i: nat)
    requires c in cs
    ensures i < |cs| && cs[i] == c && c !in cs[..i]
  {
    if cs[0] == c then 0
    else
      var i := First(cs[1..], c);
      assert cs[..i + 1] == [cs[0]] + cs[1..][..i];
      i + 1
  }

  /** The place of the last `c`. */
  function Last(cs: seq<Scalar>, c: nat): (i: nat)
    requires c in cs
    ensures i < |cs| && cs[i] == c && c !in cs[i + 1..]
  {
    var k := |cs| - 1;
    if cs[k] == c then k
    else
      assert cs == cs[..k] + [cs[k]];
      var i := Last(cs[..k], c);
      assert cs[i + 1..] == cs[..k][i + 1..] + [cs[k]];
      i
  }

  /** `delta` in the pass for `n` that starts with `d`, after the characters `seen`: what has been passed over
      since the last occurrence of `n`, or since the start. */
  function DeltaAt(seen: seq<Scalar>, n: nat, d: nat): nat {
    if n in seen then |Below(seen[Last(seen, n) + 1..], n)| else d + |Below(seen, n)|
  }

  /** What passing over the character `c` makes of `delta`. */
  function Counted(c: Scalar, n: nat, delta: nat): nat {
    if c < n then delta + 1 else if c == n then 0 else delta
  }

  lemma DeltaNext(seen: seq<Scalar>, c: Scalar, n: nat, d: nat)
    ensures DeltaAt(seen + [c], n, d) == Counted(c, n, DeltaAt(seen, n, d))
    ensures n in seen + [c] <==> n in seen || c == n
  {
    var more := seen + [c];
    assert more[..|seen|] == seen && more[|seen|] == c;
    if n in seen && c != n {
      var l := Last(seen, n);
      assert Last(more, n) == l && more[l + 1..] == seen[l + 1..] + [c];
      BelowPush(seen[l + 1..], c, n);
    } else if c == n {
      assert Last(more, n) == |seen| && more[|seen| + 1..] == [];
    } else {
      BelowPush(seen, c, n);
    }
  }

  /** The rest of the pass for `n`, from index `idx` on: what `delta` ends with, or nothing if it would be too large. */
  function Pass(cs: seq<Scalar>, n: nat, delta: nat, idx: nat): Option<nat>
    requires idx <= |cs|
    decreases |cs| - idx
  {
    if idx == |cs| then Some(delta)
    else
      var next := Counted(cs[idx], n, delta);
      if next >= U32 then None else Pass(cs, n, next, idx + 1)
  }

  /** The largest `delta` of a pass that starts with `d`, as far as it is written or still grows. */
  function PassPeak(cs: seq<Scalar>, n: nat, d: nat): nat
    requires n in cs
  {
    d + |Below(cs[..First(cs, n)], n)|
  }

  /** A count that reaches the limit does so before the first occurrence. */
  lemma PeakReached(cs: seq<Scalar>, n: nat, d: nat, idx: nat)
    requires idx < |cs| < U32 - 1 && n in cs && cs[idx] < n && DeltaAt(cs[..idx], n, d) + 1 == U32
    ensures PassPeak(cs, n, d) >= U32
  {
    var f := First(cs, n);
    assert n !in cs[..idx];
    assert forall j :: 0 <= j < idx ==> cs[..idx][j] == cs[j];
    BelowPush(cs[..idx], cs[idx], n);
    assert cs[..idx + 1] == cs[..idx] + [cs[idx]] && cs[..f] == cs[..idx + 1] + cs[idx + 1..f];
    BelowConcat(cs[..idx + 1], cs[idx + 1..f], n);
  }

  lemma PeakMet(cs: seq<Scalar>, n: nat, d: nat, idx: nat)
    requires idx < |cs| && cs[idx] == n && n !in cs[..idx]
    ensures PassPeak(cs, n, d) == DeltaAt(cs[..idx], n, d)
  {
    var f := First(cs, n);
    assert forall j :: 0 <= j < idx ==> cs[..idx][j] == cs[j];
    assert forall j :: 0 <= j < f ==> cs[..f][j] == cs[j];
  }

  /** A pass that is entered with a small `delta` fails exactly when its peak is too large. */
  lemma PassExact(cs: seq<Scalar>, n: nat, d: nat)
    requires n in cs && |cs| < U32 - 1 && d < U32
    ensures Pass(cs, n, d, 0) == if PassPeak(cs, n, d) < U32 then Some(EndDelta(cs, n)) else None
  {
    assert cs[..0] == [];
    PassFrom(cs, n, d, 0, d);
  }

  lemma {:induction false} PassFrom(cs: seq<Scalar>, n: nat, d: nat, idx: nat, delta: nat)
    requires idx <= |cs| < U32 - 1 && n in cs && delta < U32
    requires delta == DeltaAt(cs[..idx], n, d) && (n in cs[..idx] ==> PassPeak(cs, n, d) < U32)
    ensures Pass(cs, n, delta, idx) == if PassPeak(cs, n, d) < U32 then Some(EndDelta(cs, n)) else None
    decreases |cs| - idx
  {
    if idx == |cs| {
      assert cs[..idx] == cs;
    } else {
      assert cs[..idx + 1] == cs[..idx] + [cs[idx]];
      DeltaNext(cs[..idx], cs[idx], n, d);
      var next := Counted(cs[idx], n, delta);
      if next >= U32 {
        PeakReached(cs, n, d, idx);
      } else {
        if cs[idx] == n && n !in cs[..idx] {
          PeakMet(cs, n, d, idx);
        }
        PassFrom(cs, n, d, idx + 1, next);
      }
    }
  }

  /** What the pass after the one for `p` starts with; 127 stands for the start. */
  function StartDelta(cs: seq<Scalar>, p: nat): nat {
    if p in cs && p >= 128 then EndDelta(cs, p) + 1 else 0
  }

  /** What the pass for `p` ends with. */
  function EndDelta(cs: seq<Scalar>, p: nat): nat
    requires p in cs
  {
    |Below(cs[Last(cs, p) + 1..], p)|
  }

  /** `m` is the first character above `p`, and `p` is not basic, or the largest of the basic ones. */
  ghost predicate Next(cs: seq<Scalar>, p: nat, m: nat) {
    m in cs && p < m && (p == 127 || (p >= 128 && p in cs)) && Gap(cs, p, m)
  }

  /** Nothing lies between `p` and `m`. */
  predicate Gap(cs: seq<Scalar>, p: nat, m: nat) {
    forall j :: 0 <= j < |cs| ==> cs[j] <= p || cs[j] >= m
  }

  lemma GapSkip(cs: seq<Scalar>, p: nat, m: nat)
    requires Gap(cs, p, m) && m !in cs
    ensures Gap(cs, p, m + 1)
  {
  }

  /** The largest `delta` of the pass for `m`, after that for `p`: what the last pass left, a full round of
      insertion points for each character between, and those below `m` in front of it. */
  function Peak(cs: seq<Scalar>, p: nat, m: nat): nat
    requires m in cs && p < m
  {
    PassPeak(cs, m, EntryDelta(cs, p, m))
  }

  /** What the first pass after that for `p` would start with if it were that for `m`. */
  function EntryDelta(cs: seq<Scalar>, p: nat, m: nat): nat
    requires p < m
  {
    StartDelta(cs, p) + Rounds(m - p - 1, |Below(cs, m)| + 1)
  }

  /** A number to be written does not fit into 32 bits. */
  ghost predicate Overflows(cs: seq<Scalar>) {
    exists p: nat, m: nat :: Next(cs, p, m) && Peak(cs, p, m) >= U32
  }

  /** All passes for characters from `n` on fit, entered with `delta`. */
  function Fits(cs: seq<Scalar>, n: nat, delta: nat): bool
    decreases 0x110000 - n
  {
    if n >= 0x110000 then true
    else if n in cs then
      delta < U32 && Pass(cs, n, delta, 0).Some? && Fits(cs, n + 1, Pass(cs, n, delta, 0).value + 1)
    else Fits(cs, n + 1, delta + |Below(cs, n)| + 1)
  }

  /** Characters that do not occur are passed over at once. */
  lemma {:induction false} FitsJump(cs: seq<Scalar>, n: nat, m: nat, delta: nat)
    requires n <= m <= 0x110000 && forall j :: 0 <= j < |cs| ==> cs[j] < n || cs[j] >= m
    ensures Fits(cs, n, delta) == Fits(cs, m, delta + Rounds(m - n, |Below(cs, m)| + 1))
    decreases m - n
  {
    if n < m {
      BelowSame(cs, n, m);
      FitsJump(cs, n + 1, m, delta + |Below(cs, n)| + 1);
    }
  }

  lemma JumpFits(cs: seq<Scalar>, n: nat, m: nat, delta: nat, to: nat)
    requires n <= m < 0x110000 && m in cs && forall j :: 0 <= j < |cs| ==> cs[j] < n || cs[j] >= m
    requires to == delta + Rounds(m - n, |Below(cs, m)| + 1)
    ensures Fits(cs, n, delta) == (to < U32 && Fits(cs, m, to))
  {
    FitsJump(cs, n, m, delta);
  }

  ghost predicate PeaksFrom(cs: seq<Scalar>, n: nat) {
    forall p: nat, m: nat :: Next(cs, p, m) && m >= n ==> Peak(cs, p, m) < U32
  }

  /** After the pass for `p` the others fit exactly when their peaks do. */
  lemma {:induction false} FitsExact(cs: seq<Scalar>, p: nat, n: nat, delta: nat)
    requires |cs| < U32 - 1 && 127 <= p < n && (p == 127 || p in cs) && delta == EntryDelta(cs, p, n)
    requires Gap(cs, p, n)
    ensures Fits(cs, n, delta) == PeaksFrom(cs, n)
    decreases 0x110000 - n
  {
    if n >= 0x110000 {
      NoPeaks(cs, n);
    } else if n in cs {
      PeakStep(cs, p, n, delta);
      FitsExact(cs, n, n + 1, EndDelta(cs, n) + 1);
      FitsHere(cs, n, delta, PeaksFrom(cs, n + 1));
    } else {
      GapSkip(cs, p, n);
      EntrySkip(cs, p, n);
      FitsExact(cs, p, n + 1, delta + |Below(cs, n)| + 1);
      FitsNotHere(cs, n, delta, PeaksFrom(cs, n + 1));
      PeaksSkip(cs, n);
    }
  }

  lemma FitsHere(cs: seq<Scalar>, n: nat, delta: nat, rest: bool)
    requires |cs| < U32 - 1 && n in cs && n < 0x110000 && Fits(cs, n + 1, EndDelta(cs, n) + 1) == rest
    ensures Fits(cs, n, delta) == (PassPeak(cs, n, delta) < U32 && rest)
  {
    FitsPass(cs, n, delta);
  }

  lemma FitsNotHere(cs: seq<Scalar>, n: nat, delta: nat, rest: bool)
    requires n !in cs && n < 0x110000 && Fits(cs, n + 1, delta + |Below(cs, n)| + 1) == rest
    ensures Fits(cs, n, delta) == rest
  {
  }

  lemma FitsPass(cs: seq<Scalar>, n: nat, delta: nat)
    requires |cs| < U32 - 1 && n in cs && n < 0x110000
    ensures Fits(cs, n, delta) == (PassPeak(cs, n, delta) < U32 && Fits(cs, n + 1, EndDelta(cs, n) + 1))
  {
    if delta < U32 {
      PassExact(cs, n, delta);
    }
  }

  lemma FitsStep(cs: seq<Scalar>, n: nat, delta: nat, ok: bool, end: nat, m: nat, next: nat)
    requires |cs| < U32 - 1 && n in cs && n < 0x110000 && delta < U32 && m == n + 1 && next == end + 1
    requires Pass(cs, n, delta, 0) == if ok then Some(end) else None
    ensures Fits(cs, n, delta) == (ok && Fits(cs, m, next))
    ensures ok ==> next < U32
  {
    PassExact(cs, n, delta);
  }

  lemma PeakStep(cs: seq<Scalar>, p: nat, n: nat, delta: nat)
    requires 127 <= p < n && (p == 127 || p in cs) && n in cs && Gap(cs, p, n) && delta == EntryDelta(cs, p, n)
    ensures PeaksFrom(cs, n) == (PassPeak(cs, n, delta) < U32 && PeaksFrom(cs, n + 1))
    ensures EntryDelta(cs, n, n + 1) == EndDelta(cs, n) + 1 && Gap(cs, n, n + 1)
  {
    assert Next(cs, p, n);
    OnePair(cs, p, n);
    EntryNext(cs, n);
  }

  lemma NoPeaks(cs: seq<Scalar>, n: nat)
    requires n >= 0x110000
    ensures PeaksFrom(cs, n)
  {
  }

  lemma EntryNext(cs: seq<Scalar>, n: nat)
    requires n in cs && n >= 128
    ensures EntryDelta(cs, n, n + 1) == EndDelta(cs, n) + 1
  {
  }

  lemma EntrySkip(cs: seq<Scalar>, p: nat, n: nat)
    requires p < n && n !in cs
    ensures EntryDelta(cs, p, n + 1) == EntryDelta(cs, p, n) + |Below(cs, n)| + 1
  {
    BelowSame(cs, n, n + 1);
  }

  lemma PeaksSkip(cs: seq<Scalar>, n: nat)
    requires n !in cs
    ensures PeaksFrom(cs, n) == PeaksFrom(cs, n + 1)
  {
  }

  /** Only one pass goes just before that for `n`. */
  lemma OnePair(cs: seq<Scalar>, p: nat, n: nat)
    requires Next(cs, p, n)
    ensures PeaksFrom(cs, n) == (Peak(cs, p, n) < U32 && PeaksFrom(cs, n + 1))
  {
    if Peak(cs, p, n) < U32 && PeaksFrom(cs, n + 1) {
      forall a: nat, m: nat | Next(cs, a, m) && m >= n ensures Peak(cs, a, m) < U32 {
        if m == n { SamePair(cs, p, a, n); }
      }
    }
  }

  lemma SamePair(cs: seq<Scalar>, p: nat, a: nat, n: nat)
    requires Next(cs, p, n) && Next(cs, a, n)
    ensures a == p
  {
  }

  lemma OverflowsExact(cs: seq<Scalar>)
    requires |cs| < U32 - 1
    ensures Fits(cs, 128, 0) <==> !Overflows(cs)
  {
    FitsExact(cs, 127, 128, 0);
    PeaksAll(cs);
  }

  lemma PeaksAll(cs: seq<Scalar>)
    ensures PeaksFrom(cs, 128) <==> !Overflows(cs)
  {
  }

  /** The least character that is at least `n`. */
  method LeastFrom(s: seq<Byte>, ghost cs: seq<Scalar>, n: nat) returns (m: nat)
    requires Decode(s, 0) == Some(cs) && exists j :: 0 <= j < |cs| && cs[j] >= n
    ensures n <= m < 0x110000 && m in cs
    ensures forall j :: 0 <= j < |cs| ==> cs[j] < n || cs[j] >= m
  {
    var p := 0;
    ghost var idx := 0;
    m := U32 - 1;
    assert cs[0..] == cs;
    while p < |s|
      invariant At(s, p, cs, idx)
      invariant m == U32 - 1 || (n <= m && exists j :: 0 <= j < idx && cs[j] == m)
      invariant forall j :: 0 <= j < idx ==> cs[j] < n || cs[j] >= m
    {
      NextChar(s, p, cs, idx);
      var (c, q) := Decode1(s, p);
      if c.value >= n && c.value < m {
        m := c.value;
      }
      p, idx := q, idx + 1;
    }
  }

  /** Counts or writes the character `c`, at index `idx` of the pass for `n`. */
  method Visit(ghost cs: seq<Scalar>, ghost idx: nat, c: Scalar, n: nat, h0: nat, delta0: nat, bias0: nat,
               first0: bool, ext0: seq<Byte>)
    returns (ok: bool, h: nat, delta: nat, bias: nat, first: bool, ext: seq<Byte>)
    requires idx < |cs| && cs[idx] == c && n < 0x110000 && DASH !in ext0
    requires Tracks(ext0, cs, n, idx, h0, delta0, bias0, first0) && delta0 < U32
    ensures !ok ==> U32 <= 0x110000 * (|cs| + 1)
    ensures ok <==> Counted(c, n, delta0) < U32
    ensures ok ==> Tracks(ext, cs, n, idx + 1, h, delta, bias, first) && DASH !in ext && h <= |cs|
    ensures ok ==> delta == Counted(c, n, delta0) && delta < U32
    ensures ok ==> h == if c == n then h0 + 1 else h0
  {
    ok, h, delta, bias, first, ext := true, h0, delta0, bias0, first0, ext0;
    if c < n {
      TracksLess(ext, cs, n, idx, h, delta, bias, first);
      if delta + 1 == U32 {
        DeltaBound(ext, cs, n, idx + 1, h, delta + 1, bias, first);
        ok := false;
      } else {
        delta := delta + 1;
      }
    } else if c == n {
      TracksEqual(ext, cs, n, idx, h, delta, bias, first);
      ext := WriteDelta(ext, delta, bias);
      h := h + 1;
      bias := AdaptBias(delta, h, first);
      first, delta := false, 0;
    } else {
      TracksMore(ext, cs, n, idx, h, delta, bias, first);
    }
  }

  /** Writes every occurrence of the character `n`. */
  method EncodePass(s: seq<Byte>, ghost cs: seq<Scalar>, n: nat, h0: nat, delta0: nat, bias0: nat, first0: bool,
                    todo0: nat, ext0: seq<Byte>)
    returns (ok: bool, h: nat, delta: nat, bias: nat, first: bool, todo: nat, ext: seq<Byte>)
    requires Decode(s, 0) == Some(cs) && n < 0x110000 && DASH !in ext0 && n in cs
    requires Tracks(ext0, cs, n, 0, h0, delta0, bias0, first0) && h0 + todo0 == |cs| && delta0 < U32
    ensures !ok ==> U32 <= 0x110000 * (|cs| + 1)
    ensures Pass(cs, n, delta0, 0) == if ok then Some(delta) else None
    ensures ok ==> Tracks(ext, cs, n, |cs|, h, delta, bias, first) && h + todo == |cs|
    ensures ok ==> todo < todo0 && DASH !in ext
  {
    h, delta, bias, first, todo, ext := h0, delta0, bias0, first0, todo0, ext0;
    var p := 0;
    ghost var idx, met, total := 0, false, Pass(cs, n, delta0, 0);
    assert cs[0..] == cs;
    while p < |s|
      invariant At(s, p, cs, idx) && Tracks(ext, cs, n, idx, h, delta, bias, first) && DASH !in ext
      invariant h + todo == |cs| && delta < U32 && Pass(cs, n, delta, idx) == total
      invariant if met then todo < todo0 else todo == todo0 && forall j :: 0 <= j < idx ==> cs[j] != n
    {
      NextChar(s, p, cs, idx);
      var (c, q) := Decode1(s, p);
      ok, h, delta, bias, first, ext := Visit(cs, idx, c.value, n, h, delta, bias, first, ext);
      if !ok {
        return;
      }
      if c.value == n {
        todo, met := todo - 1, true;
      }
      p, idx := q, idx + 1;
    }
    ok := true;
  }

  /** When every character is handled, the decoder's output is the text. */
  lemma TracksEnd(ext: seq<Byte>, cs: seq<Scalar>, n: nat, h: nat, delta: nat, bias: nat, first: bool)
    requires Tracks(ext, cs, n, 0, h, delta, bias, first)
    ensures h == |Below(cs, n)|
    ensures h < |cs| ==> exists j :: 0 <= j < |cs| && cs[j] >= n
    ensures h == |cs| ==> Run(ext, StartOf(cs)).Some? && Run(ext, StartOf(cs)).value.out == cs
  {
    assert cs[..0] == [] && cs[0..] == cs;
    assert [] + Below(cs, n) == Below(cs, n);
    BelowAll(cs, n);
  }

  /** The text without prefix is decoded to the characters. */
  lemma UnpunyWhole(basics: seq<Byte>, ext: seq<Byte>, cs: seq<Scalar>)
    requires basics == Below(cs, 128) && DASH !in ext
    requires Run(ext, StartOf(cs)).Some? && Run(ext, StartOf(cs)).value.out == cs
    ensures Unpuny(Tail(basics, ext)) == Some(cs)
  {
    var s := Tail(basics, ext);
    var b := BasicCount(s);
    if basics == [] {
      BasicCountNone(ext);
      assert s[..b] == basics;
    } else {
      BasicCountAt(basics, ext);
      assert s[..b] == basics && s[b + 1..] == ext;
    }
    forall j | 0 <= j < b ensures s[j] < 128 {
      BelowIn(cs, 128, Below(cs, 128)[j]);
      assert basics[j] == s[j];
    }
  }

  const PREFIX: seq<Byte> := [120, 110, 45, 45]

  predicate IsAscii(cs: seq<Scalar>) {
    forall j :: 0 <= j < |cs| ==> cs[j] < 128
  }

  /** The written label stands for the characters: they are copied when all are basic, and otherwise the
      decoder gets them back from what follows the prefix. */
  predicate StandsFor(d: seq<Byte>, cs: seq<Scalar>) {
    if IsAscii(cs) then d == cs else PREFIX <= d && Unpuny(d[4..]) == Some(cs)
  }

  lemma NotAscii(cs: seq<Scalar>)
    ensures |Below(cs, 128)| == |cs| <==> IsAscii(cs)
  {
    BelowAll(cs, 128);
  }

  lemma StandsForTail(d: seq<Byte>, tail: seq<Byte>, cs: seq<Scalar>)
    requires d == PREFIX + tail && Unpuny(tail) == Some(cs) && !IsAscii(cs)
    ensures StandsFor(d, cs)
  {
    PrefixTail(d, tail);
  }

  /** A label put together from its parts. */
  lemma WholeLabel(d: seq<Byte>, basics: seq<Byte>, ext: seq<Byte>, cs: seq<Scalar>)
    requires basics == Below(cs, 128) && DASH !in ext && |basics| < |cs|
    requires Run(ext, StartOf(cs)).Some? && Run(ext, StartOf(cs)).value.out == cs
    requires d == PREFIX + Tail(basics, ext)
    ensures StandsFor(d, cs)
  {
    NotAscii(cs);
    UnpunyWhole(basics, ext, cs);
    StandsForTail(d, Tail(basics, ext), cs);
  }

  /** What follows the prefix. */
  function Tail(basics: seq<Byte>, ext: seq<Byte>): seq<Byte> {
    if basics == [] then ext else basics + [DASH] + ext
  }

  lemma TailJoins(basics: seq<Byte>, ext: seq<Byte>)
    ensures (PREFIX + basics + if basics == [] then [] else [DASH]) + ext == PREFIX + Tail(basics, ext)
  {
  }

  lemma PrefixTail(d: seq<Byte>, tail: seq<Byte>)
    requires d == PREFIX + tail
    ensures PREFIX <= d && d[4..] == tail
  {
  }

  /** Moves `n` and `delta` on to the next character that occurs, unless `delta` would be too large. */
  method Advance(s: seq<Byte>, ghost cs: seq<Scalar>, n: nat, h: nat, delta: nat, ghost bias: nat, ghost first: bool,
                 ghost ext: seq<Byte>) returns (ok: bool, m: nat, to: nat)
    requires Decode(s, 0) == Some(cs) && h < |cs| && delta < U32 && Tracks(ext, cs, n, 0, h, delta, bias, first)
    ensures !ok ==> U32 <= 0x110000 * (|cs| + 1)
    ensures Fits(cs, n, delta) == (ok && Fits(cs, m, to))
    ensures ok ==> m < 0x110000 && m in cs && to < U32 && Tracks(ext, cs, m, 0, h, to, bias, first)
  {
    TracksEnd(ext, cs, n, h, delta, bias, first);
    m := LeastFrom(s, cs, n);
    ok, to := Sum(delta, m - n, h + 1);
    Jump(ext, cs, n, m, h, delta, to, bias, first);
  }

  /** The sum, unless it would overflow. */
  method Sum(delta: nat, x: nat, y: nat) returns (ok: bool, to: nat)
    requires delta < U32 && y > 0
    ensures to == delta + Rounds(x, y) && (ok <==> to < U32)
  {
    RoundsIs(x, y);
    OverflowTest(delta, x, y);
    ok := !(x > (U32 - 1 - delta) / y);
    to := delta + x * y;
  }

  /** The sum keeps pace with the decoder and is bounded. */
  lemma Jump(ext: seq<Byte>, cs: seq<Scalar>, n: nat, m: nat, h: nat, delta: nat, to: nat, bias: nat, first: bool)
    requires n <= m < 0x110000 && to == delta + Rounds(m - n, h + 1)
    requires Tracks(ext, cs, n, 0, h, delta, bias, first) && forall j :: 0 <= j < |cs| ==> cs[j] < n || cs[j] >= m
    requires m in cs
    ensures Tracks(ext, cs, m, 0, h, to, bias, first) && to < 0x110000 * (|cs| + 1)
    ensures Fits(cs, n, delta) == (to < U32 && Fits(cs, m, to))
  {
    TracksJump(ext, cs, n, m, h, delta, to, bias, first);
    DeltaBound(ext, cs, m, 0, h, to, bias, first);
    TracksEnd(ext, cs, m, h, to, bias, first);
    JumpFits(cs, n, m, delta, to);
  }

  /** Encodes the characters that are not basic, one pass for each of them. */
  method EncodeRest(s: seq<Byte>, ghost cs: seq<Scalar>, h0: nat, todo0: nat) returns (ok: bool, ext: seq<Byte>)
    requires Decode(s, 0) == Some(cs) && h0 == |Below(cs, 128)| && h0 + todo0 == |cs| < U32 - 1
    ensures !ok ==> U32 <= 0x110000 * (|cs| + 1)
    ensures ok <==> Fits(cs, 128, 0)
    ensures ok ==> DASH !in ext && Run(ext, StartOf(cs)).Some? && Run(ext, StartOf(cs)).value.out == cs
  {
    var n: nat, h, delta: nat, bias: nat, first, todo := 128, h0, 0, 72, true, todo0;
    ext := [];
    ghost var fits := Fits(cs, 128, 0);
    TracksStart(cs);
    while todo > 0
      invariant Tracks(ext, cs, n, 0, h, delta, bias, first) && h + todo == |cs| && DASH !in ext
      invariant delta < U32 && Fits(cs, n, delta) == fits
      decreases todo
    {
      ok, n, h, delta, bias, first, todo, ext := OnePass(s, cs, n, h, delta, bias, first, todo, ext);
      if !ok {
        return;
      }
    }
    TracksEnd(ext, cs, n, h, delta, bias, first);
    FitsDone(cs, n, delta);
    ok := true;
  }

  /** Finds the next character, and writes all its occurrences. */
  method OnePass(s: seq<Byte>, ghost cs: seq<Scalar>, n0: nat, h0: nat, delta0: nat, bias0: nat, first0: bool,
                 todo0: nat, ext0: seq<Byte>)
    returns (ok: bool, n: nat, h: nat, delta: nat, bias: nat, first: bool, todo: nat, ext: seq<Byte>)
    requires Decode(s, 0) == Some(cs) && |cs| < U32 - 1 && 0 < todo0 && h0 + todo0 == |cs| && delta0 < U32
    requires Tracks(ext0, cs, n0, 0, h0, delta0, bias0, first0) && DASH !in ext0
    ensures !ok ==> U32 <= 0x110000 * (|cs| + 1)
    ensures Fits(cs, n0, delta0) == (ok && Fits(cs, n, delta))
    ensures ok ==> Tracks(ext, cs, n, 0, h, delta, bias, first) && DASH !in ext
    ensures ok ==> h + todo == |cs| && todo < todo0 && delta < U32
  {
    h, delta, bias, first, todo, ext := h0, delta0, bias0, first0, todo0, ext0;
    ok, n, delta := Advance(s, cs, n0, h, delta, bias, first, ext);
    if !ok {
      return;
    }
    ghost var d := delta;
    ok, h, delta, bias, first, todo, ext := EncodePass(s, cs, n, h, delta, bias, first, todo, ext);
    FitsStep(cs, n, d, ok, delta, n + 1, delta + 1);
    if !ok {
      return;
    }
    TracksWrap(ext, cs, n, h, delta, bias, first);
    delta, n := delta + 1, n + 1;
  }

  /** Nothing is left from `n` on. */
  lemma FitsDone(cs: seq<Scalar>, n: nat, delta: nat)
    requires |Below(cs, n)| == |cs|
    ensures Fits(cs, n, delta)
  {
    BelowAll(cs, n);
    if n < 0x110000 {
      FitsJump(cs, n, 0x110000, delta);
    }
  }

  /** The division test is exact for the sum. */
  lemma OverflowTest(delta: nat, x: nat, y: nat)
    requires delta < U32 && y > 0
    ensures x > (U32 - 1 - delta) / y <==> delta + x * y >= U32
  {
    var a := U32 - 1 - delta;
    var q := a / y;
    assert a == q * y + a % y;
    if x > q {
      MulMono(q + 1, x, y);
    } else {
      MulMono(x, q, y);
    }
  }

  /** The label encoder, with room for everything it writes. */
  method EncodeLabel(s: seq<Byte>) returns (status: Status, d: seq<Byte>)
    requires |s| < U32 - 1
    ensures status == Invalid <==> Decode(s, 0).None?
    ensures status == Success ==> StandsFor(d, Decode(s, 0).value)
    ensures status == TooBig <==> Decode(s, 0).Some? && Overflows(Decode(s, 0).value)
    ensures status == TooBig ==> U32 <= 0x110000 * (|Decode(s, 0).value| + 1)
  {
    var ok, h, todo := ScanLabel(s);
    d := [];
    if !ok {
      return Invalid, d;
    }
    ghost var cs := Decode(s, 0).value;
    DecodeLength(s, 0);
    OverflowsExact(cs);
    if todo > 0 {
      d := PREFIX;
    }
    var basics := CopyBasics(s, cs, h);
    d := d + basics;
    if todo == 0 {
      BelowAll(cs, 128);
      FitsDone(cs, 128, 0);
      return Success, d;
    }
    if h > 0 {
      d := d + [DASH];
    }
    assert d == PREFIX + basics + if basics == [] then [] else [DASH];
    var fits, ext := EncodeRest(s, cs, h, todo);
    if !fits {
      return TooBig, d;
    }
    d := d + ext;
    TailJoins(basics, ext);
    WholeLabel(d, basics, ext, cs);
    status := Success;
  }

  /** The same for characters: their text is never refused as ill-formed. */
  method EncodeText(cs: seq<Scalar>) returns (status: Status, d: seq<Byte>)
    requires |Encode(cs)| < U32 - 1
    ensures status == if Overflows(cs) then TooBig else Success
    ensures status == Success ==> StandsFor(d, cs)
  {
    DecodeEncode(cs);
    status, d := EncodeLabel(Encode(cs));
  }

  const DOT: Byte := 46

  /** The full stop and the three characters treated like it. */
  predicate IsDot(c: Scalar) {
    c == 0x2E || c == 0x3002 || c == 0xFF0E || c == 0xFF61
  }

  predicate IsFullStop(b: Byte) {
    b == DOT
  }

  /** The fields of a sequence between its separators. */
  function Split<T>(s: seq<T>, sep: T -> bool): (r: seq<seq<T>>)
    ensures |r| > 0
  {
    if s == [] then [[]]
    else if sep(s[0]) then [[]] + Split(s[1..], sep)
    else Extend([s[0]], Split(s[1..], sep))
  }

  /** The fields with `x` put before the first of them. */
  function Extend<T>(x: seq<T>, fields: seq<seq<T>>): (r: seq<seq<T>>)
    requires |fields| > 0
    ensures |r| == |fields|
  {
    [x + fields[0]] + fields[1..]
  }

  function Labels(cs: seq<Scalar>): (r: seq<seq<Scalar>>)
    ensures |r| > 0
  {
    Split(cs, IsDot)
  }

  function Fields(d: seq<Byte>): (r: seq<seq<Byte>>)
    ensures |r| > 0
  {
    Split(d, IsFullStop)
  }

  lemma {:induction false} SplitField<T>(x: seq<T>, rest: seq<T>, sep: T -> bool)
    requires forall j :: 0 <= j < |x| ==> !sep(x[j])
    ensures Split(x + rest, sep) == Extend(x, Split(rest, sep))
  {
    if x == [] {
      assert x + rest == rest && [] + Split(rest, sep)[0] == Split(rest, sep)[0];
    } else {
      assert (x + rest)[0] == x[0] && (x + rest)[1..] == x[1..] + rest;
      SplitField(x[1..], rest, sep);
      assert [x[0]] + (x[1..] + Split(rest, sep)[0]) == x + Split(rest, sep)[0];
    }
  }

  /** A field, its separator and more. */
  lemma SplitAt<T>(x: seq<T>, s: T, rest: seq<T>, sep: T -> bool)
    requires sep(s) && forall j :: 0 <= j < |x| ==> !sep(x[j])
    ensures Split(x + [s] + rest, sep) == [x] + Split(rest, sep)
  {
    SplitField(x, [s] + rest, sep);
    assert ([s] + rest)[1..] == rest;
    assert x + [s] + rest == x + ([s] + rest);
    assert x + [] == x;
  }

  /** Fields, each with a separator after it. */
  function Dotted(parts: seq<seq<Byte>>): seq<Byte> {
    if parts == [] then [] else Dotted(parts[..|parts| - 1]) + parts[|parts| - 1] + [DOT]
  }

  lemma {:induction false} FieldsOfDotted(parts: seq<seq<Byte>>, last: seq<Byte>)
    requires (forall i :: 0 <= i < |parts| ==> DOT !in parts[i])
    ensures Fields(Dotted(parts) + last) == parts + Fields(last)
  {
    if parts == [] {
      assert [] + last == last && [] + Fields(last) == Fields(last);
    } else {
      var k := |parts| - 1;
      var more := parts[k] + [DOT] + last;
      assert Dotted(parts) + last == Dotted(parts[..k]) + more;
      FieldsOfDotted(parts[..k], more);
      SplitAt(parts[k], DOT, last, IsFullStop);
      assert parts[..k] + ([parts[k]] + Fields(last)) == parts + Fields(last);
    }
  }

  lemma {:induction false} ReadIntDigits(ext: seq<Byte>, i: nat, w: nat, k: nat, bias: nat)
    requires ReadInt(ext, i, w, k, bias).Some? && DOT in ext
    ensures DOT in ReadInt(ext, i, w, k, bias).value.1
    decreases |ext|
  {
    var d, t := DigitValue(ext[0]).value, Threshold(k, bias);
    assert ext == [ext[0]] + ext[1..];
    if d >= t {
      var i', w' := i + d * w, w * (36 - t);
      ReadIntDigits(ext[1..], i', w', k + 36, bias);
    }
  }

  /** The decoder reads no dot and keeps what it has inserted. */
  lemma {:induction false} RunKeeps(ext: seq<Byte>, st: State, c: nat)
    requires Run(ext, st).Some?
    ensures DOT !in ext && (c in st.out ==> c in Run(ext, st).value.out)
    decreases |ext|
  {
    if ext != [] {
      var r := ReadInt(ext, st.i, 1, 36, st.bias).value;
      ReadIntGrows(ext, st.i, 1, 36, st.bias);
      var next := Insert(st, r.0);
      if DOT in ext { ReadIntDigits(ext, st.i, 1, 36, st.bias); }
      RunKeeps(r.1, next, c);
      if c in st.out {
        var pos := r.0 % (|st.out| + 1);
        assert st.out == st.out[..pos] + st.out[pos..];
      }
    }
  }

  /** A written label has no dot. */
  lemma NoDot(d: seq<Byte>, cs: seq<Scalar>)
    requires StandsFor(d, cs) && DOT !in cs
    ensures DOT !in d
  {
    if !IsAscii(cs) {
      UnpunyKeeps(d[4..], DOT);
      assert d == d[..4] + d[4..];
      assert DOT !in d[..4];
    }
  }

  lemma UnpunyKeeps(t: seq<Byte>, c: Byte)
    requires Unpuny(t).Some? && c == DOT
    ensures c in t ==> c in Unpuny(t).value
  {
    var b := BasicCount(t);
    var ext := if b > 0 then t[b + 1..] else t;
    RunKeeps(ext, Start(t[..b]), c);
    assert t == if b > 0 then t[..b] + [DASH] + ext else ext;
  }

  /** The characters read from position `p` up to position `q`. */
  function Reads(s: seq<Byte>, p: nat, q: nat): Option<seq<Scalar>>
    requires p <= |s|
    decreases |s| - p
  {
    if p >= q || p == |s| then if p == q then Some([]) else None
    else
      var (c, next) := Decode1(s, p);
      if c.None? || Reads(s, next, q).None? then None else Some([c.value] + Reads(s, next, q).value)
  }

  lemma {:induction false} ReadsNext(s: seq<Byte>, p: nat, q: nat)
    requires p <= q < |s| && Reads(s, p, q).Some? && Decode1(s, q).0.Some?
    ensures Reads(s, p, Decode1(s, q).1) == Some(Reads(s, p, q).value + [Decode1(s, q).0.value])
    decreases |s| - p
  {
    var (c, r) := Decode1(s, q);
    if p == q {
      assert Reads(s, r, r) == Some([]);
      assert [c.value] + [] == [] + [c.value];
    } else {
      var (d, next) := Decode1(s, p);
      ReadsNext(s, next, q);
      var x := Reads(s, next, q).value;
      assert [d.value] + (x + [c.value]) == ([d.value] + x) + [c.value];
    }
  }

  lemma {:induction false} ReadsUpTo(s: seq<Byte>, p: nat, q: nat)
    requires p <= |s| && Reads(s, p, q).Some?
    ensures p <= q <= |s|
    decreases |s| - p
  {
    if p < q && p < |s| {
      ReadsUpTo(s, Decode1(s, p).1, q);
    }
  }

  /** A stretch between two characters, decoded as a text of its own. */
  lemma {:induction false} ReadsDecode(s: seq<Byte>, from: nat, p: nat, q: nat)
    requires from <= p <= q <= |s| && Reads(s, p, q).Some?
    ensures Decode(s[from..q], p - from) == Reads(s, p, q)
    decreases |s| - p
  {
    if p < q {
      var next := Decode1(s, p).1;
      ReadsUpTo(s, next, q);
      Decode1Local(s, p, from, q);
      ReadsDecode(s, from, next, q);
    }
  }

  /** Parts of the output stand for the labels. */
  ghost predicate AllStandFor(parts: seq<seq<Byte>>, labels: seq<seq<Scalar>>) {
    |parts| == |labels| && forall i :: 0 <= i < |parts| ==> StandsFor(parts[i], labels[i])
  }

  /** No field holds a separator. */
  lemma {:induction false} SplitClean<T>(s: seq<T>, sep: T -> bool, i: nat, j: nat)
    requires i < |Split(s, sep)| && j < |Split(s, sep)[i]|
    ensures !sep(Split(s, sep)[i][j])
  {
    if s != [] {
      if sep(s[0]) {
        if i > 0 { SplitClean(s[1..], sep, i - 1, j); }
      } else if i > 0 {
        SplitClean(s[1..], sep, i, j);
      } else if j > 0 {
        SplitClean(s[1..], sep, 0, j - 1);
      }
    }
  }

  lemma LabelsHaveNoDot(cs: seq<Scalar>)
    ensures forall i :: 0 <= i < |Labels(cs)| ==> DOT !in Labels(cs)[i]
  {
    var labels := Labels(cs);
    forall i | 0 <= i < |labels| ensures DOT !in labels[i] {
      if DOT in labels[i] {
        var j :| 0 <= j < |labels[i]| && labels[i][j] == DOT;
        SplitClean(cs, IsDot, i, j);
        assert false;
      }
    }
  }

  lemma WholeName(parts: seq<seq<Byte>>, last: seq<Byte>, labels: seq<seq<Scalar>>)
    requires AllStandFor(parts + [last], labels) && forall i :: 0 <= i < |labels| ==> DOT !in labels[i]
    ensures AllStandFor(Fields(Dotted(parts) + last), labels)
  {
    forall i | 0 <= i < |parts| ensures DOT !in parts[i] {
      assert (parts + [last])[i] == parts[i];
      NoDot(parts[i], labels[i]);
    }
    assert (parts + [last])[|parts|] == last;
    NoDot(last, labels[|parts|]);
    FieldsOfDotted(parts, last);
    SplitField(last, [], IsFullStop);
    assert last + [] == last;
  }

  /** One more character ends the last field or makes it longer. */
  lemma {:induction false} SplitPush<T>(s: seq<T>, c: T, sep: T -> bool)
    ensures var fields := Split(s, sep);
            var k := |fields| - 1;
            Split(s + [c], sep) == if sep(c) then fields + [[]] else fields[..k] + [fields[k] + [c]]
  {
    if s == [] {
      assert s + [c] == [c] && [c][1..] == s && [c] + [] == [c] && [] + [c] == [c];
    } else {
      assert (s + [c])[1..] == s[1..] + [c];
      SplitPush(s[1..], c, sep);
      PushField(Split(s[1..], sep), s[0], c);
    }
  }

  lemma PushField<T>(fields: seq<seq<T>>, s: T, c: T)
    requires |fields| > 0
    ensures var k := |fields| - 1;
            var longer, front := fields[..k] + [fields[k] + [c]], Extend([s], fields);
            [[]] + longer == ([[]] + fields)[..k + 1] + [fields[k] + [c]]
            && Extend([s], longer) == front[..k] + [front[k] + [c]]
            && Extend([s], fields + [[]]) == front + [[]]
  {
    var k := |fields| - 1;
    if k == 0 {
      assert [s] + (fields[0] + [c]) == ([s] + fields[0]) + [c];
    }
  }

  lemma LabelsPush(cs: seq<Scalar>, done: seq<seq<Scalar>>, piece: seq<Scalar>, c: Scalar)
    requires Labels(cs) == done + [piece]
    ensures Labels(cs + [c]) == if IsDot(c) then done + [piece] + [[]] else done + [piece + [c]]
  {
    SplitPush(cs, c, IsDot);
  }

  lemma PartPush(parts: seq<seq<Byte>>, part: seq<Byte>, labels: seq<seq<Scalar>>, piece: seq<Scalar>)
    requires AllStandFor(parts, labels) && StandsFor(part, piece)
    ensures AllStandFor(parts + [part], labels + [piece])
    ensures Dotted(parts + [part]) == Dotted(parts) + part + [DOT]
  {
    assert (parts + [part])[..|parts|] == parts;
  }

  /** What the output must be for the characters of a name. */
  ghost predicate IsName(d: seq<Byte>, cs: seq<Scalar>) {
    |d| > 0 && d[|d| - 1] == 0 && AllStandFor(Fields(d[..|d| - 1]), Labels(cs))
  }

  lemma NameEnds(parts: seq<seq<Byte>>, part: seq<Byte>, cs: seq<Scalar>, labels: seq<seq<Scalar>>, piece: seq<Scalar>)
    requires AllStandFor(parts, labels) && StandsFor(part, piece) && Labels(cs) == labels + [piece]
    ensures IsName(Dotted(parts) + part + [0], cs)
  {
    PartPush(parts, part, labels, piece);
    LabelsHaveNoDot(cs);
    WholeName(parts, part, Labels(cs));
    var d := Dotted(parts) + part;
    assert (d + [0])[..|d|] == d;
  }

  /** Encodes the label between two positions. */
  method EncodePart(s: seq<Byte>, start: nat, end: nat, ghost piece: seq<Scalar>) returns (status: Status, part: seq<Byte>)
    requires |s| < U32 - 1 && start <= end <= |s| && Reads(s, start, end) == Some(piece)
    ensures status != Invalid && (status == Success ==> StandsFor(part, piece))
    ensures status == TooBig ==> U32 <= 0x110000 * (|s| + 1)
  {
    ReadsDecode(s, start, start, end);
    DecodeLength(s[start..end], 0);
    status, part := EncodeLabel(s[start..end]);
  }

  /** Translates a host name: the fields of the output stand for its labels, and a zero ends it. */
  method ToAscii(s: seq<Byte>) returns (status: Status, d: seq<Byte>)
    requires |s| < U32 - 1
    ensures status == Invalid ==> Decode(s, 0).None?
    ensures status == Success ==> Decode(s, 0).Some? && IsName(d, Decode(s, 0).value)
    ensures status == TooBig ==> U32 <= 0x110000 * (|s| + 1)
  {
    var si, start := 0, 0;
    d := [];
    ghost var seen: seq<Scalar> := [];
    ghost var piece: seq<Scalar> := [];
    ghost var done: seq<seq<Scalar>> := [];
    ghost var parts: seq<seq<Byte>> := [];
    var part: seq<Byte> := [];
    assert Decode(s, 0).Some? ==> [] + Decode(s, 0).value == Decode(s, 0).value;
    while si < |s|
      invariant start <= si <= |s| && SeenTo(s, si, seen)
      invariant Reads(s, start, si) == Some(piece) && Labels(seen) == done + [piece]
      invariant AllStandFor(parts, done) && d == Dotted(parts)
    {
      SeenNext(s, si, seen);
      var (c, next) := Decode1(s, si);
      var st := si;
      si := next;
      if c.None? {
        return Invalid, d;
      }
      LabelsPush(seen, done, piece, c.value);
      seen := seen + [c.value];
      if !IsDot(c.value) {
        ReadsNext(s, start, st);
        piece := piece + [c.value];
        continue;
      }
      status, part := EncodePart(s, start, st, piece);
      if status != Success {
        return;
      }
      PartPush(parts, part, done, piece);
      d := d + part + [DOT];
      parts, done, piece := parts + [part], done + [piece], [];
      start := si;
    }
    assert seen + [] == seen;
    part := [];
    if start < |s| {
      status, part := EncodePart(s, start, |s|, piece);
      if status != Success {
        return;
      }
    }
    NameEnds(parts, part, seen, done, piece);
    d := d + part;
    d := d + [0];
    status := Success;
  }
}

/** The constants of the encoder, written out. */
module IdnaLetters {
  import opened Idna

  /** Section 3.1 of RFC 3490 has these four characters as dots. */
  lemma DotsAre(c: nat)
    requires c < 0xD800 || 0xE000 <= c < 0x110000
    ensures IsDot(c) <==> c in {'.' as nat, 0x3002, 0xFF0E, 0xFF61}
  {
  }

  lemma PrefixIs()
    ensures |PREFIX| == |"xn--"| && forall k :: 0 <= k < 4 ==> PREFIX[k] < 128 && PREFIX[k] as char == "xn--"[k]
  {
  }
}
