/** The text of HTTP requests: searching, splitting, and what a header says. */
module HttpText {
  import opened Wrappers
  import opened InetText

  const CRLF: string := "\r\n"

  // ---------- Searching and splitting ----------

  predicate OccursAt(s: string, needle: string, k: nat) {
    k <= |s| && needle <= s[k..]
  }

  /** The first place where `needle` occurs. */
  function Find(s: string, needle: string): (r: Option<nat>)
    ensures r.Some? ==> OccursAt(s, needle, r.value)
  {
    if needle <= s then Some(0)
    else if s == "" then None
    else
      var r := Find(s[1..], needle);
      if r.None? then None else assert s[1..][r.value..] == s[r.value + 1..]; Some(r.value + 1)
  }

  lemma {:induction false} FindIsFirst(s: string, needle: string, k: nat)
    requires OccursAt(s, needle, k)
    ensures Find(s, needle).Some? && Find(s, needle).value <= k
    decreases |s|
  {
    if !(needle <= s) {
      assert s[k..] == s[1..][k - 1..];
      FindIsFirst(s[1..], needle, k - 1);
    }
  }

  /** More text behind an occurrence does not change the first one. */
  lemma {:induction false} FindStable(s: string, t: string, needle: string)
    requires Find(s, needle).Some?
    ensures Find(s + t, needle) == Find(s, needle)
    decreases |s|
  {
    if !(needle <= s) {
      assert (s + t)[1..] == s[1..] + t;
      FindStable(s[1..], t, needle);
      var p := Find(s, needle).value;
      assert needle <= s[p..] && |needle| <= |s|;
      assert (s + t)[..|needle|] == s[..|needle|];
    }
  }

  /** A character that does not fit rules out an occurrence at the start. */
  lemma {:induction false} FindStep(s: string, needle: string, i: nat)
    requires i < |needle| && i < |s| && s[i] != needle[i]
    ensures var r, f := Find(s[1..], needle), Find(s, needle); f.Some? == r.Some? && (r.Some? ==> f.value == r.value + 1)
  {
  }

  /** Text without the needle's first character is passed over. */
  lemma {:induction false} FindSkip(a: string, rest: string, needle: string)
    requires needle != "" && needle[0] !in a
    ensures var r, f := Find(rest, needle), Find(a + rest, needle);
            f.Some? == r.Some? && (r.Some? ==> f.value == |a| + r.value)
  {
    if a == "" {
      assert a + rest == rest;
    } else {
      assert (a + rest)[0] == a[0] && a[0] in a;
      assert (a + rest)[1..] == a[1..] + rest;
      FindSkip(a[1..], rest, needle);
      FindStep(a + rest, needle, 0);
    }
  }

  lemma FindNone(a: string, needle: string)
    requires needle != "" && needle[0] !in a
    ensures Find(a, needle) == None
  {
    FindSkip(a, "", needle);
    assert a + "" == a;
  }

  lemma FindAfter(a: string, rest: string, needle: string)
    requires needle != "" && needle[0] !in a && needle <= rest
    ensures Find(a + rest, needle) == Some(|a|)
  {
    FindSkip(a, rest, needle);
  }

  /** The pieces between separators. An empty piece at the end is dropped, others are kept. */
  function Split(s: string, sep: string): seq<string>
    requires sep != ""
    decreases |s|, 1
  {
    if s == "" then [] else Cut(s, sep, Find(s, sep))
  }

  /** The pieces of a text whose first separator is at `p`. */
  function Cut(s: string, sep: string, p: Option<nat>): seq<string>
    requires sep != "" && (p.Some? ==> p.value + |sep| <= |s|)
    decreases |s|, 0
  {
    if p.None? then [s] else [s[..p.value]] + Split(s[p.value + |sep|..], sep)
  }

  lemma SplitLast(a: string, sep: string)
    requires sep != "" && sep[0] !in a && a != ""
    ensures Split(a, sep) == [a]
  {
    FindNone(a, sep);
  }

  lemma SplitNext(a: string, rest: string, sep: string)
    requires sep != "" && sep[0] !in a
    ensures Split(a + sep + rest, sep) == [a] + Split(rest, sep)
  {
    var s := a + sep + rest;
    assert s == a + (sep + rest);
    FindAfter(a, sep + rest, sep);
    assert s[..|a|] == a && s[|a| + |sep|..] == rest;
  }

  /** What is split off and what is left make up the split of the input. */
  predicate Progress(output: seq<string>, left: seq<string>, total: seq<string>) {
    output + left == total
  }

  lemma ProgressStep(output: seq<string>, segment: string, left: seq<string>, total: seq<string>)
    requires Progress(output, [segment] + left, total)
    ensures Progress(output + [segment], left, total)
  {
    assert output + ([segment] + left) == output + [segment] + left;
  }

  lemma ProgressDone(output: seq<string>, total: seq<string>)
    requires Progress(output, [], total)
    ensures output == total
  {
    assert output + [] == output;
  }

  lemma SplitNone(s: string, sep: string)
    requires sep != "" && s != "" && Find(s, sep).None?
    ensures Split(s, sep) == [s] + []
  {
    assert Split(s, sep) == Cut(s, sep, Find(s, sep)) == [s] == [s] + [];
  }

  lemma {:induction false} SplitSome(s: string, sep: string, p: nat)
    requires sep != "" && s != "" && Find(s, sep).Some? && Find(s, sep).value == p
    ensures p + |sep| <= |s| && Split(s, sep) == [s[..p]] + Split(s[p + |sep|..], sep)
  {
    assert Split(s, sep) == Cut(s, sep, Find(s, sep));
  }

  method StringSplit(input: string, sep: string) returns (output: seq<string>)
    requires sep != ""
    ensures output == Split(input, sep)
  {
    output := [];
    if |input| == 0 {
      return;
    }
    ghost var total := Split(input, sep);
    var temp, more := input, true;
    assert output + total == total;
    while more
      invariant Progress(output, Split(temp, sep), total) && more == (temp != "")
      decreases |temp|
    {
      var pos := Find(temp, sep);
      if pos.None? {
        SplitNone(temp, sep);
        ProgressStep(output, temp, [], total);
        ProgressDone(output + [temp], total);
        output := output + [temp];
        return;
      }
      var segment := temp[..pos.value];
      SplitSome(temp, sep, pos.value);
      temp := temp[pos.value + |sep|..];
      ProgressStep(output, segment, Split(temp, sep), total);
      output := output + [segment];
      more := |temp| > 0;
    }
    ProgressDone(output, total);
  }

  // ---------- Numbers, parameters, headers ----------

  function SkipSpace(s: string): string {
    if s != "" && (s[0] == ' ' || '\t' <= s[0] <= '\r') then SkipSpace(s[1..]) else s
  }

  function Digits(s: string, n: nat): nat {
    if s != "" && DecValue(s[0]).Some? then Digits(s[1..], n * 10 + DecValue(s[0]).value) else n
  }

  /** The leading number of a text, after white space and a sign; zero when there is none. */
  function Atoi(s: string): int {
    var t := SkipSpace(s);
    if t != "" && t[0] == '-' then 0 - Digits(t[1..], 0)
    else if t != "" && t[0] == '+' then Digits(t[1..], 0)
    else Digits(t, 0)
  }

  lemma {:induction false} DigitsDec(n: nat, rest: string)
    ensures Digits(Dec(n) + rest, 0) == Digits(rest, n)
    decreases n
  {
    if n < 10 {
      DigitChars(n, '0');
      assert (Dec(n) + rest)[1..] == rest;
    } else {
      var d := DecChar(n % 10);
      DigitChars(n % 10, d);
      assert Dec(n) + rest == Dec(n / 10) + ([d] + rest);
      DigitsDec(n / 10, [d] + rest);
      assert ([d] + rest)[1..] == rest;
    }
  }

  lemma {:induction false} DecStart(n: nat)
    ensures Dec(n) != "" && '0' <= Dec(n)[0] <= '9'
  {
    if n >= 10 { DecStart(n / 10); }
  }

  /** A printed length is read back. */
  lemma AtoiDec(n: nat)
    ensures Atoi(Dec(n)) == n
  {
    DecStart(n);
    DigitsDec(n, "");
    assert Dec(n) + "" == Dec(n);
  }

  const SPACES: set<char> := {' ', '\t', '\n', '\U{0B}', '\U{0C}', '\r'}

  /** What `atoi` makes of a text: white space, a sign, digits, and anything else behind them. */
  lemma AtoiText(space: string, n: nat, rest: string)
    requires forall k :: 0 <= k < |space| ==> space[k] in SPACES
    requires rest != "" ==> !('0' <= rest[0] <= '9')
    ensures Atoi(space + (Dec(n) + rest)) == n
    ensures Atoi(space + ("+" + (Dec(n) + rest))) == n
    ensures Atoi(space + ("-" + (Dec(n) + rest))) == 0 - n
  {
    var t := Dec(n) + rest;
    DecStart(n);
    DigitsDec(n, rest);
    assert t[0] == Dec(n)[0] && ("+" + t)[1..] == t && ("-" + t)[1..] == t;
    SpaceSkipped(space, t);
    SpaceSkipped(space, "+" + t);
    SpaceSkipped(space, "-" + t);
  }

  lemma {:induction false} SpaceSkipped(space: string, t: string)
    requires forall k :: 0 <= k < |space| ==> space[k] in SPACES
    requires t != "" && t[0] !in SPACES
    ensures SkipSpace(space + t) == t
  {
    if space == "" {
      assert space + t == t;
    } else {
      assert (space + t)[0] == space[0] && (space + t)[1..] == space[1..] + t;
      SpaceSkipped(space[1..], t);
    }
  }

  /** A text without a number counts as zero. */
  lemma AtoiNone(t: string)
    requires t == "" || !('0' <= t[0] <= '9' || t[0] in SPACES + {'+', '-'})
    ensures Atoi(t) == 0
  {
  }

  type Fields = map<string, string>

  /** Each item must be a name and a value; a later one replaces an earlier one of the same name. */
  function Params(items: seq<string>, params: Fields): Option<Fields> {
    if items == [] then Some(params)
    else
      var parts := Split(items[0], "=");
      if |parts| != 2 then None else Params(items[1..], params[parts[0] := parts[1]])
  }

  /** The path and the parameters of a request target. */
  function UriParams(input: string): Option<(string, Fields)> {
    var p := Find(input, "?");
    if p.None? then Some((input, map[]))
    else
      var params := Params(Split(input[p.value + 1..], "&"), map[]);
      if params.None? then None else Some((input[..p.value], params.value))
  }

  type Param = (string, string)

  /** Such a name and such a value are told apart in a query: there is no decoding of reserved characters, and a
      name without a value is refused. */
  predicate Clean(p: Param) {
    '=' !in p.0 && '&' !in p.0 && p.1 != "" && '=' !in p.1 && '&' !in p.1
  }

  predicate AllClean(ps: seq<Param>) {
    forall i :: 0 <= i < |ps| ==> Clean(ps[i])
  }

  function Item(p: Param): string {
    p.0 + "=" + p.1
  }

  function Items(ps: seq<Param>): seq<string> {
    if ps == [] then [] else [Item(ps[0])] + Items(ps[1..])
  }

  function Query(ps: seq<Param>): string {
    if ps == [] then "" else if ps[1..] == [] then Item(ps[0]) else Item(ps[0]) + "&" + Query(ps[1..])
  }

  /** An item is a name and a value exactly when there is one equals sign, with something behind it, or a second one
      at its end. */
  lemma ItemAccepted(a: string, rest: string)
    requires '=' !in a
    ensures |Split(a, "=")| < 2
    ensures |Split(a + "=" + rest, "=")| == 2 <==>
            rest != "" && ('=' !in rest || '=' !in rest[..|rest| - 1])
  {
    if a != "" { SplitLast(a, "="); }
    SplitNext(a, rest, "=");
    PiecesOne(rest);
  }

  lemma PiecesOne(rest: string)
    ensures |Split(rest, "=")| == 1 <==> rest != "" && ('=' !in rest || '=' !in rest[..|rest| - 1])
  {
    if rest != "" && '=' !in rest {
      SplitLast(rest, "=");
    } else if rest != "" {
      var p := FirstSign(rest);
      SplitNext(rest[..p], rest[p + 1..], "=");
      assert rest == rest[..p] + "=" + rest[p + 1..];
      if p + 1 < |rest| {
        SplitSomething(rest[p + 1..]);
        assert rest[..|rest| - 1][p] == '=';
      } else {
        assert rest[..|rest| - 1] == rest[..p] && rest[p + 1..] == "";
      }
    }
  }

  lemma SplitSomething(s: string)
    requires s != ""
    ensures Split(s, "=") != []
  {
  }

  lemma FirstSign(s: string) returns (p: nat)
    requires '=' in s
    ensures p < |s| && s[p] == '=' && '=' !in s[..p]
  {
    p := 0;
    while s[p] != '='
      invariant p < |s| && '=' !in s[..p] && '=' in s[p..]
      decreases |s| - p
    {
      assert s[..p + 1] == s[..p] + [s[p]] && s[p..] == [s[p]] + s[p + 1..];
      p := p + 1;
    }
  }

  /** One item that is not refuses all parameters. */
  lemma {:induction false} ItemRefused(items: seq<string>, i: nat, params: Fields)
    requires i < |items| && |Split(items[i], "=")| != 2
    ensures Params(items, params).None?
    decreases i
  {
    if i > 0 && |Split(items[0], "=")| == 2 {
      var parts := Split(items[0], "=");
      ItemRefused(items[1..], i - 1, params[parts[0] := parts[1]]);
    }
  }

  lemma ItemSplit(p: Param)
    requires Clean(p)
    ensures Split(Item(p), "=") == [p.0, p.1] && Item(p) != "" && '&' !in Item(p)
  {
    SplitNext(p.0, p.1, "=");
    SplitLast(p.1, "=");
  }

  lemma {:induction false} QuerySplit(ps: seq<Param>)
    requires AllClean(ps)
    ensures Split(Query(ps), "&") == Items(ps)
  {
    if ps != [] {
      var item, rest := Item(ps[0]), Query(ps[1..]);
      ItemSplit(ps[0]);
      if ps[1..] == [] {
        SplitLast(item, "&");
      } else {
        SplitNext(item, rest, "&");
        QuerySplit(ps[1..]);
      }
    }
  }

  /** Each name has the last value that is given for it, other names keep theirs. */
  ghost predicate Takes(before: Fields, ps: seq<Param>, after: Fields) {
    && (forall i :: 0 <= i < |ps| && LastOf(ps, i) ==> ps[i].0 in after && after[ps[i].0] == ps[i].1)
    && (forall n :: n in before && !Named(ps, n) ==> n in after && after[n] == before[n])
    && (forall n :: n in after ==> n in before || Named(ps, n))
  }

  ghost predicate Named(ps: seq<Param>, n: string) {
    exists i :: 0 <= i < |ps| && ps[i].0 == n
  }

  predicate LastOf(ps: seq<Param>, i: nat)
    requires i < |ps|
  {
    forall j :: i < j < |ps| ==> ps[j].0 != ps[i].0
  }

  lemma NamedNext(ps: seq<Param>, n: string)
    requires ps != []
    ensures Named(ps, n) <==> n == ps[0].0 || Named(ps[1..], n)
  {
    var rest := ps[1..];
    if i :| 0 <= i < |rest| && rest[i].0 == n { assert ps[i + 1].0 == n; }
    if i :| 0 < i < |ps| && ps[i].0 == n { assert rest[i - 1].0 == n; }
  }

  lemma TakesNext(before: Fields, ps: seq<Param>, after: Fields)
    requires ps != [] && Takes(before[ps[0].0 := ps[0].1], ps[1..], after)
    ensures Takes(before, ps, after)
  {
    var p, rest := ps[0], ps[1..];
    forall n ensures Named(ps, n) <==> n == p.0 || Named(rest, n) {
      NamedNext(ps, n);
    }
    forall i | 0 <= i < |ps| && LastOf(ps, i) ensures ps[i].0 in after && after[ps[i].0] == ps[i].1 {
      if i == 0 {
        assert forall j :: 0 <= j < |rest| ==> rest[j] == ps[j + 1];
        assert !Named(rest, p.0);
      } else {
        assert rest[i - 1] == ps[i] && LastOf(rest, i - 1);
      }
    }
  }

  lemma {:induction false} ParamsHead(ps: seq<Param>, before: Fields)
    requires ps != [] && AllClean(ps)
    ensures Params(Items(ps), before) == Params(Items(ps[1..]), before[ps[0].0 := ps[0].1])
  {
    var p, items := ps[0], Items(ps);
    ItemSplit(p);
    assert items[0] == Item(p) && items[1..] == Items(ps[1..]);
    var parts := Split(items[0], "=");
    assert |parts| == 2 && parts[0] == p.0 && parts[1] == p.1;
  }

  lemma {:induction false} ParamsTaken(ps: seq<Param>, before: Fields)
    requires AllClean(ps)
    ensures var r := Params(Items(ps), before); r.Some? && Takes(before, ps, r.value)
    decreases |ps|
  {
    if ps != [] {
      var next := before[ps[0].0 := ps[0].1];
      ParamsHead(ps, before);
      ParamsTaken(ps[1..], next);
      TakesNext(before, ps, Params(Items(ps[1..]), next).value);
    }
  }

  /** A printed query is read back. */
  lemma QueryRead(path: string, ps: seq<Param>)
    requires '?' !in path && AllClean(ps)
    ensures var r := UriParams(path + "?" + Query(ps)); r.Some? && r.value.0 == path && Takes(map[], ps, r.value.1)
  {
    var q := "?" + Query(ps);
    var target := path + q;
    assert path + "?" + Query(ps) == target;
    FindAfter(path, q, "?");
    assert target[..|path|] == path && target[|path| + 1..] == Query(ps);
    QuerySplit(ps);
    ParamsTaken(ps, map[]);
  }

  method GetUriAndParams(input: string) returns (ok: bool, uri: string, params: Fields)
    ensures if ok then UriParams(input) == Some((uri, params)) else UriParams(input) == None
  {
    params := map[];
    var pos := Find(input, "?");
    if pos.None? {
      return true, input, params;
    }
    uri := input[..pos.value];
    var items := StringSplit(input[pos.value + 1..], "&");
    ghost var result := Params(items, map[]);
    assert items[0..] == items;
    for i := 0 to |items|
      invariant result == Params(items[i..], params)
    {
      ParamsNext(items, i, params);
      var parts := StringSplit(items[i], "=");
      if |parts| != 2 {
        return false, uri, params;
      }
      params := params[parts[0] := parts[1]];
    }
    ok := true;
  }

  lemma ParamsNext(items: seq<string>, i: nat, params: Fields)
    requires i < |items|
    ensures var parts := Split(items[i], "=");
            Params(items[i..], params)
            == if |parts| != 2 then None else Params(items[i + 1..], params[parts[0] := parts[1]])
  {
    assert items[i..][0] == items[i] && items[i..][1..] == items[i + 1..];
  }

  datatype Request = Request(verb: string, uri: string, params: Fields, version: string, headers: Fields, length: int)

  /** The header was understood, or was refused, or made `substr` throw. */
  datatype Parsed = Ok(request: Request) | Malformed | Thrown

  /** Header lines: the first value of a name is kept, the last content length counts. */
  function Headers(lines: seq<string>, r: Request): Parsed {
    if lines == [] then Ok(r)
    else
      var line, p := lines[0], Find(lines[0], ":");
      if p.None? then Malformed
      else if p.value + 2 > |line| then Thrown
      else
        var key, value := line[..p.value], line[p.value + 2..];
        Headers(lines[1..], WithHeader(r, key, value))
  }

  function WithHeader(r: Request, key: string, value: string): Request {
    r.(length := if key == "Content-Length" then Atoi(value) else r.length,
       headers := if key in r.headers then r.headers else r.headers[key := value])
  }

  /** What a header says. */
  function Parse(header: string): Parsed {
    var lines := Split(header, CRLF);
    if lines == [] then Malformed
    else
      var parts := Split(lines[0], " ");
      if |parts| != 3 || UriParams(parts[1]).None? then Malformed
      else
        var (uri, params) := UriParams(parts[1]).value;
        var p := Find(parts[2], "HTTP");
        if p.None? then Malformed
        else if p.value + 5 > |parts[2]| then Thrown
        else Headers(lines[1..], Request(parts[0], uri, params, parts[2][p.value + 5..], map[], 0))
  }

  // ---------- What a connection's first bytes mean ----------

  /** What the server does first: wait for more, refuse, fail, answer a preflight, or call the handler, which
      gets as much of the body as the content length says. */
  datatype Outcome = More | Refused | Crashed | Preflight | Call(request: Request, body: string)

  function Decide(r: Request, content: string): Outcome {
    if r.verb == "OPTIONS" then Preflight
    else if r.verb == "GET" then Call(r, "")
    else if |content| >= r.length then Call(r, if r.length > 0 then content[..r.length] else "")
    else More
  }

  const HEADER_END: string := "\r\n\r\n"

  /** What the server does with a header and the content behind it. */
  function Act(p: Parsed, content: string): Outcome {
    match p
    case Malformed => Refused
    case Thrown => Crashed
    case Ok(r) => Decide(r, content)
  }

  /** The server's first action on the bytes `s`, as if they had come in one piece. */
  function Verdict(s: string): Outcome {
    var p := Find(s, HEADER_END);
    if p.None? then More else Act(Parse(s[..p.value]), s[p.value + 4..])
  }

  lemma ActStable(p: Parsed, content: string, t: string)
    requires Act(p, content) != More
    ensures Act(p, content + t) == Act(p, content)
  {
    if p.Ok? && 0 < p.request.length <= |content| {
      assert (content + t)[..p.request.length] == content[..p.request.length];
    }
  }

  /** The end of the header stays where it is found. */
  lemma FoundStays(s: string, t: string, p: nat)
    requires Find(s, HEADER_END).Some? && Find(s, HEADER_END).value == p
    ensures Find(s + t, HEADER_END).Some? && Find(s + t, HEADER_END).value == p && p + 4 <= |s|
    ensures (s + t)[..p] == s[..p] && (s + t)[p + 4..] == s[p + 4..] + t
  {
    FindStable(s, t, HEADER_END);
  }

  lemma VerdictFound(s: string, p: nat)
    requires Find(s, HEADER_END).Some? && Find(s, HEADER_END).value == p
    ensures p + 4 <= |s| && Verdict(s) == Act(Parse(s[..p]), s[p + 4..])
  {
  }

  /** More bytes do not change what was done. */
  lemma VerdictStable(s: string, t: string)
    requires Verdict(s) != More
    ensures Verdict(s + t) == Verdict(s)
  {
    var p := Find(s, HEADER_END).value;
    FoundStays(s, t, p);
    VerdictFound(s, p);
    VerdictFound(s + t, p);
    ActStable(Parse(s[..p]), s[p + 4..], t);
  }
}

/** The server's side of a connection. */
module HttpServer {
  import opened Wrappers
  import opened InetText
  import opened HttpText

  class HttpSession {
    var headerData: string
    var contentData: string
    var contentStart: int
    var headerIsReady: bool
    var request: Request
    /** All bytes read so far. */
    ghost var stream: string

    /** What the fields hold of the bytes read. */
    ghost predicate Holding()
      reads this
    {
      var p := Find(stream, HEADER_END);
      if p.None? then !headerIsReady && headerData == stream && contentData == "" && request == Blank()
      else headerIsReady && Parse(stream[..p.value]) == Ok(request) && contentData == stream[p.value + 4..]
    }

    /** Nothing was done yet. */
    ghost predicate Waiting()
      reads this
    {
      Verdict(stream) == More && Holding()
    }

    constructor ()
      ensures Waiting() && stream == ""
    {
      headerData, contentData, contentStart, headerIsReady, request := "", "", -1, false, Blank();
      stream := "";
    }

    /** Looks for the end of the header and takes the header apart. */
    method AnalyzeHeader() returns (p: Parsed)
      requires request == Blank()
      modifies this`headerIsReady, this`contentStart, this`request
      ensures var end := Find(headerData, HEADER_END);
              && headerIsReady == end.Some?
              && (end.None? ==> p == Ok(request) && request == Blank())
              && (end.Some? ==> p == Parse(headerData[..end.value]) && contentStart == end.value + 4)
      ensures p.Ok? ==> p.request == request
    {
      var pos := Find(headerData, HEADER_END);
      if pos.None? {
        headerIsReady := false;
        return Ok(request);
      }
      contentStart := pos.value + 4;
      headerIsReady := true;
      var lines := StringSplit(headerData[..pos.value], CRLF);
      if lines == [] {
        return Malformed;
      }
      var parts := StringSplit(lines[0], " ");
      if |parts| != 3 {
        return Malformed;
      }
      request := request.(verb := parts[0]);
      var ok, uri, params := GetUriAndParams(parts[1]);
      if !ok {
        return Malformed;
      }
      request := request.(uri := uri, params := params);
      var at := Find(parts[2], "HTTP");
      if at.None? {
        return Malformed;
      }
      if at.value + 5 > |parts[2]| {
        return Thrown;
      }
      request := request.(version := parts[2][at.value + 5..]);
      p := ReadHeaders(lines);
    }

    /** Reads the header lines after the first line. */
    method ReadHeaders(lines: seq<string>) returns (p: Parsed)
      requires lines != []
      modifies this`request
      ensures p == Headers(lines[1..], old(request)) && (p.Ok? ==> p.request == request)
    {
      for i := 1 to |lines|
        invariant Headers(lines[1..], old(request)) == Headers(lines[i..], request)
      {
        assert lines[i..][1..] == lines[i + 1..];
        var colon := Find(lines[i], ":");
        if colon.None? {
          return Malformed;
        }
        if colon.value + 2 > |lines[i]| {
          return Thrown;
        }
        request := WithHeader(request, lines[i][..colon.value], lines[i][colon.value + 2..]);
      }
      p := Ok(request);
    }

    /** Adds one piece of the stream to the header or to the content. */
    method Absorb(data: string) returns (p: Parsed)
      requires Holding()
      modifies this
      ensures stream == old(stream) + data
      ensures if p.Ok? then Holding() && p.request == request
              else Find(stream, HEADER_END).Some? && p == Parse(stream[..Find(stream, HEADER_END).value])
    {
      if !headerIsReady {
        p := AbsorbHeader(data);
      } else {
        AbsorbContent(data);
        p := Ok(request);
      }
    }

    method AbsorbHeader(data: string) returns (p: Parsed)
      requires Find(stream, HEADER_END).None? && headerData == stream && contentData == "" && request == Blank()
      modifies this
      ensures stream == old(stream) + data
      ensures if p.Ok? then Holding() && p.request == request
              else Find(stream, HEADER_END).Some? && p == Parse(stream[..Find(stream, HEADER_END).value])
    {
      stream := stream + data;
      headerData := headerData + data;
      p := AnalyzeHeader();
      if p.Ok? && headerIsReady {
        assert "" + headerData[contentStart..] == headerData[contentStart..];
        contentData := contentData + headerData[contentStart..];
      }
    }

    method AbsorbContent(data: string)
      requires headerIsReady && Holding()
      modifies this`stream, this`contentData
      ensures stream == old(stream) + data && Holding()
    {
      FoundStays(stream, data, Find(stream, HEADER_END).value);
      stream := stream + data;
      contentData := contentData + data;
    }

    /** Takes in one piece of the stream. The outcome is the one for all bytes so far. */
    method OnRead(data: string) returns (o: Outcome)
      requires Waiting()
      modifies this
      ensures stream == old(stream) + data && o == Verdict(stream)
      ensures o == More ==> Waiting()
    {
      var p := Absorb(data);
      if p.Malformed? {
        return Refused;
      }
      if p.Thrown? {
        return Crashed;
      }
      if !headerIsReady {
        return More;
      }
      o := HandleRequest();
    }

    /** With the header in hand: answers a preflight, calls the handler, or waits for more of the body. */
    method HandleRequest() returns (o: Outcome)
      ensures o == Decide(request, contentData)
    {
      if request.verb == "OPTIONS" {
        return Preflight;
      }
      if request.verb == "GET" {
        return Call(request, "");
      }
      if |contentData| >= request.length {
        return Call(request, if request.length > 0 then contentData[..request.length] else "");
      }
      o := More;
    }
  }

  function Blank(): Request {
    Request("", "", map[], "", map[], 0)
  }

  function Concat(chunks: seq<string>): string {
    if chunks == [] then "" else Concat(chunks[..|chunks| - 1]) + chunks[|chunks| - 1]
  }

  lemma {:induction false} ConcatSplit(chunks: seq<string>, k: nat)
    requires k <= |chunks|
    ensures exists t :: Concat(chunks) == Concat(chunks[..k]) + t
    decreases |chunks|
  {
    if k == |chunks| {
      assert chunks[..k] == chunks;
      assert Concat(chunks) == Concat(chunks[..k]) + "";
    } else {
      var n := |chunks| - 1;
      assert chunks[..n][..k] == chunks[..k];
      ConcatSplit(chunks[..n], k);
      var t :| Concat(chunks[..n]) == Concat(chunks[..k]) + t;
      assert Concat(chunks) == Concat(chunks[..k]) + (t + chunks[n]);
    }
  }

  /** What was done after some pieces is what would be done for all of them at once. */
  lemma ConcatPrefix(chunks: seq<string>, k: nat)
    requires k <= |chunks| && Verdict(Concat(chunks[..k])) != More
    ensures Verdict(Concat(chunks)) == Verdict(Concat(chunks[..k]))
  {
    ConcatSplit(chunks, k);
    var t :| Concat(chunks) == Concat(chunks[..k]) + t;
    VerdictStable(Concat(chunks[..k]), t);
  }

  /** However the stream is cut into pieces, a connection's first action is the one for the whole stream. */
  method Serve(chunks: seq<string>) returns (o: Outcome)
    ensures o == Verdict(Concat(chunks))
  {
    var session := new HttpSession();
    o := More;
    assert chunks[..0] == [];
    for i := 0 to |chunks|
      invariant session.Waiting() && session.stream == Concat(chunks[..i]) && o == More && fresh(session)
    {
      assert chunks[..i + 1][..i] == chunks[..i];
      o := session.OnRead(chunks[i]);
      if o != More {
        ConcatPrefix(chunks, i + 1);
        return;
      }
    }
    assert chunks[..|chunks|] == chunks;
  }

  /** In particular two ways of cutting one stream cannot be told apart. */
  lemma CutsAgree(chunks: seq<string>, other: seq<string>, k: nat, j: nat)
    requires Concat(chunks) == Concat(other) && k <= |chunks| && j <= |other|
    requires Verdict(Concat(chunks[..k])) != More && Verdict(Concat(other[..j])) != More
    ensures Verdict(Concat(chunks[..k])) == Verdict(Concat(other[..j]))
  {
    ConcatPrefix(chunks, k);
    ConcatPrefix(other, j);
  }
}

/** The client's side: printing a request, and that the server reads what was printed. */
module HttpClient {
  import opened Wrappers
  import opened InetText
  import opened HttpText
  import opened HttpServer
  import opened HttpRequests

  /** Lines, each with its end. */
  function Join(lines: seq<string>): string {
    if lines == [] then "" else lines[0] + CRLF + Join(lines[1..])
  }

  datatype Verb = Get | Post

  function VerbText(v: Verb): string {
    if v == Get then "GET" else "POST"
  }

  function FirstLine(v: Verb, target: string): string {
    VerbText(v) + " " + target + " HTTP/1.1"
  }

  /** All headers of a request: two of the client's own, the caller's, and the length of a posted body. */
  function AllHeaders(v: Verb, host: string, hs: seq<Header>, body: string): seq<Header> {
    [("Accept", "*/*"), ("Host", host)] + hs + LengthHeader(v, body)
  }

  function LengthHeader(v: Verb, body: string): seq<Header> {
    if v == Post then [("Content-Length", Dec(|body|))] else []
  }

  function Printed(v: Verb, target: string, host: string, hs: seq<Header>, body: string): string {
    Join([FirstLine(v, target)] + Lines(AllHeaders(v, host, hs, body))) + CRLF + if v == Post then body else ""
  }

  lemma {:induction false} JoinConcat(a: seq<string>, b: seq<string>)
    ensures Join(a + b) == Join(a) + Join(b)
  {
    if a == [] {
      assert a + b == b;
    } else {
      assert (a + b)[1..] == a[1..] + b;
      JoinConcat(a[1..], b);
      Assoc(a[0] + CRLF, Join(a[1..]), Join(b));
    }
  }

  lemma {:induction false} LinesConcat(a: seq<Header>, b: seq<Header>)
    ensures Lines(a + b) == Lines(a) + Lines(b)
  {
    if a == [] {
      assert a + b == b;
    } else {
      assert (a + b)[1..] == a[1..] + b;
      LinesConcat(a[1..], b);
    }
  }

  /** What is in the stream once some headers are printed. */
  function Head(v: Verb, target: string, hs: seq<Header>): string {
    Join([FirstLine(v, target)] + Lines(hs))
  }

  lemma HeadNext(v: Verb, target: string, hs: seq<Header>, h: Header)
    ensures Head(v, target, hs + [h]) == Head(v, target, hs) + Line(h) + CRLF
  {
    var first := [FirstLine(v, target)];
    LinesConcat(hs, [h]);
    assert Lines([h]) == [Line(h)];
    assert first + (Lines(hs) + [Line(h)]) == (first + Lines(hs)) + [Line(h)];
    JoinConcat(first + Lines(hs), [Line(h)]);
    assert Join([Line(h)]) == Line(h) + CRLF + "";
    Assoc(Head(v, target, hs), Line(h), CRLF);
  }

  /** Prints the request when the connection is up. */
  method OnConnect(v: Verb, target: string, host: string, hs: seq<Header>, body: string) returns (stream: string)
    ensures stream == Printed(v, target, host, hs, body)
  {
    ghost var own := [("Accept", "*/*"), ("Host", host)];
    if v == Get {
      stream := "GET " + target + " HTTP/1.1\r\n";
    } else {
      stream := "POST " + target + " HTTP/1.1\r\n";
    }
    FirstPrinted(v, target);
    HeadNext(v, target, [], ("Accept", "*/*"));
    HeadNext(v, target, [("Accept", "*/*")], ("Host", host));
    assert [] + [("Accept", "*/*")] == [("Accept", "*/*")] && [("Accept", "*/*")] + [("Host", host)] == own;
    stream := stream + "Accept: */*" + CRLF;
    stream := stream + ("Host: " + host) + CRLF;
    assert Line(("Accept", "*/*")) == "Accept: */*" && Line(("Host", host)) == "Host: " + host;
    assert own + hs[..0] == own;
    for i := 0 to |hs|
      invariant stream == Head(v, target, own + hs[..i])
    {
      HeadNext(v, target, own + hs[..i], hs[i]);
      assert own + hs[..i + 1] == own + hs[..i] + [hs[i]];
      stream := stream + (hs[i].0 + ": " + hs[i].1) + CRLF;
    }
    assert own + hs[..|hs|] == own + hs;
    if v == Post {
      HeadNext(v, target, own + hs, ("Content-Length", Dec(|body|)));
      stream := stream + ("Content-Length: " + Dec(|body|)) + CRLF;
      assert Line(("Content-Length", Dec(|body|))) == "Content-Length: " + Dec(|body|);
    } else {
      assert own + hs + [] == own + hs;
    }
    assert stream == Head(v, target, AllHeaders(v, host, hs, body));
    stream := stream + CRLF;
    stream := stream + if v == Post then body else "";
  }

  lemma FirstPrinted(v: Verb, target: string)
    ensures Head(v, target, []) == FirstLine(v, target) + CRLF
    ensures Head(v, target, []) == if v == Get then "GET " + target + " HTTP/1.1\r\n" else "POST " + target + " HTTP/1.1\r\n"
  {
    var first := FirstLine(v, target);
    assert [first] + [] == [first] && [first][1..] == [];
    assert Join([first]) == first + CRLF + Join([]);
    assert first + CRLF + "" == first + CRLF;
    assert "GET " == "GET" + " " && "POST " == "POST" + " " && " HTTP/1.1\r\n" == " HTTP/1.1" + CRLF;
  }

  // ---------- Reading what was printed ----------

  lemma {:induction false} JoinInner(lines: seq<string>)
    requires lines != []
    ensures Join(lines) == Inner(lines) + CRLF
  {
    if |lines| == 1 {
      assert lines[1..] == [];
      assert lines[0] + CRLF + "" == lines[0] + CRLF;
    } else {
      JoinInner(lines[1..]);
      Assoc(lines[0] + CRLF, Inner(lines[1..]), CRLF);
    }
  }

  lemma ThreeParts(v: Verb, target: string)
    requires target != "" && ' ' !in target
    ensures Split(FirstLine(v, target), " ") == [VerbText(v), target, "HTTP/1.1"]
  {
    var verb, version := VerbText(v), "HTTP/1.1";
    assert " HTTP/1.1" == " " + version;
    assert FirstLine(v, target) == verb + " " + target + (" " + version);
    FirstRegroup(verb, target, version);
    ThreePieces(verb, target, version);
  }

  /** The header names that a request may use beside the client's own. */
  ghost predicate Names(hs: seq<Header>) {
    Texts(hs) && (forall i, j :: 0 <= i < j < |hs| ==> hs[i].0 != hs[j].0)
  }

  /** What the caller of the client may ask for. */
  ghost predicate Sendable(target: string, host: string, hs: seq<Header>) {
    && target != "" && ' ' !in target && '\r' !in target && '\r' !in host
    && Names(hs) && forall i :: 0 <= i < |hs| ==> hs[i].0 !in {"Accept", "Host", "Content-Length"}
  }

  lemma {:induction false} DigitsOnly(n: nat)
    ensures '\r' !in Dec(n)
  {
    if n >= 10 { DigitsOnly(n / 10); }
  }

  lemma AllNames(v: Verb, target: string, host: string, hs: seq<Header>, body: string)
    requires Sendable(target, host, hs)
    ensures Names(AllHeaders(v, host, hs, body))
  {
    DigitsOnly(|body|);
    var all := AllHeaders(v, host, hs, body);
    assert all[0].0 == "Accept" && all[1].0 == "Host";
    assert forall i :: 2 <= i < 2 + |hs| ==> all[i] == hs[i - 2];
  }

  /** What the server makes of the printed request. */
  function Understood(v: Verb, uri: string, params: Fields, host: string, hs: seq<Header>, body: string): Request {
    Fill(Request(VerbText(v), uri, params, "1.1", map[], 0), AllHeaders(v, host, hs, body))
  }

  lemma AllPlain(v: Verb, target: string, host: string, hs: seq<Header>, body: string)
    requires Sendable(target, host, hs)
    ensures PlainLines([FirstLine(v, target)] + Lines(AllHeaders(v, host, hs, body)))
  {
    var all := AllHeaders(v, host, hs, body);
    AllNames(v, target, host, hs, body);
    LinesPlain(all);
    var first := FirstLine(v, target);
    assert '\r' !in first && first != "";
  }

  lemma HeaderParsed(v: Verb, target: string, host: string, hs: seq<Header>, body: string)
    requires Sendable(target, host, hs)
    ensures var u := UriParams(target);
            Parse(Inner([FirstLine(v, target)] + Lines(AllHeaders(v, host, hs, body))))
            == if u.None? then Malformed else Ok(Understood(v, u.value.0, u.value.1, host, hs, body))
  {
    var all := AllHeaders(v, host, hs, body);
    AllPlain(v, target, host, hs, body);
    AllNames(v, target, host, hs, body);
    ThreeParts(v, target);
    assert "HTTP/1.1" == "HTTP/" + "1.1";
    ParseLines(FirstLine(v, target), Lines(all), [VerbText(v), target, "HTTP/1.1"], "1.1");
    var u := UriParams(target);
    if u.Some? {
      HeadersRead(Request(VerbText(v), u.value.0, u.value.1, "1.1", map[], 0), all, []);
      assert Lines(all) + [] == Lines(all);
    }
  }

  /** The fields are those of the headers. */
  ghost predicate Reads(f: Fields, all: seq<Header>) {
    && (forall i :: 0 <= i < |all| ==> all[i].0 in f && f[all[i].0] == all[i].1)
    && (forall n :: n in f ==> exists i :: 0 <= i < |all| && all[i].0 == n)
  }

  lemma {:induction false} Placed(all: seq<Header>, first: Header, second: Header, hs: seq<Header>, last: seq<Header>)
    requires all == [first, second] + hs + last
    ensures |all| == 2 + |hs| + |last| && all[0] == first && all[1] == second
    ensures forall k :: 2 <= k < 2 + |hs| ==> all[k] == hs[k - 2]
    ensures last != [] ==> all[2 + |hs|] == last[0]
  {
  }

  lemma ReadsSome(f: Fields, all: seq<Header>, first: Header, second: Header, hs: seq<Header>, last: seq<Header>)
    requires Reads(f, all) && all == [first, second] + hs + last && |last| <= 1
    ensures first.0 in f && f[first.0] == first.1 && second.0 in f && f[second.0] == second.1
    ensures forall i :: 0 <= i < |hs| ==> hs[i].0 in f && f[hs[i].0] == hs[i].1
    ensures last != [] ==> last[0].0 in f && f[last[0].0] == last[0].1
    ensures forall n :: n in f ==>
              n in {first.0, second.0} || (last != [] && n == last[0].0) || exists i :: 0 <= i < |hs| && hs[i].0 == n
  {
    Placed(all, first, second, hs, last);
    forall i | 0 <= i < |hs| ensures hs[i].0 in f && f[hs[i].0] == hs[i].1 {
      assert all[i + 2] == hs[i];
    }
    forall n | n in f
      ensures n in {first.0, second.0} || (last != [] && n == last[0].0) || exists i :: 0 <= i < |hs| && hs[i].0 == n
    {
      var k :| 0 <= k < |all| && all[k].0 == n;
      if 2 <= k < 2 + |hs| { assert hs[k - 2].0 == n; }
    }
  }

  lemma UnderstoodReads(v: Verb, uri: string, params: Fields, target: string, host: string, hs: seq<Header>, body: string)
    requires Sendable(target, host, hs)
    ensures Reads(Understood(v, uri, params, host, hs, body).headers, AllHeaders(v, host, hs, body))
  {
    AllNames(v, target, host, hs, body);
    FillHeaders(Request(VerbText(v), uri, params, "1.1", map[], 0), AllHeaders(v, host, hs, body));
  }

  /** Each header has the value it was given, the client's own are there, and there are no others. */
  lemma UnderstoodHeaders(v: Verb, uri: string, params: Fields, target: string, host: string, hs: seq<Header>, body: string)
    requires Sendable(target, host, hs)
    ensures var f := Understood(v, uri, params, host, hs, body).headers;
            && (forall i :: 0 <= i < |hs| ==> hs[i].0 in f && f[hs[i].0] == hs[i].1)
            && "Accept" in f && f["Accept"] == "*/*" && "Host" in f && f["Host"] == host
            && (v == Post ==> "Content-Length" in f && f["Content-Length"] == Dec(|body|))
            && (v == Get ==> "Content-Length" !in f)
            && (forall n :: n in f ==> n in {"Accept", "Host", "Content-Length"} || exists i :: 0 <= i < |hs| && hs[i].0 == n)
  {
    var all := AllHeaders(v, host, hs, body);
    UnderstoodReads(v, uri, params, target, host, hs, body);
    ReadsSome(Understood(v, uri, params, host, hs, body).headers, all, ("Accept", "*/*"), ("Host", host), hs, LengthHeader(v, body));
    assert "Content-Length" != "Accept" && "Content-Length" != "Host";
  }

  /** The length taken from the printed headers is that of the posted body, and zero when nothing is posted. */
  lemma UnderstoodRest(v: Verb, uri: string, params: Fields, target: string, host: string, hs: seq<Header>, body: string)
    requires Sendable(target, host, hs)
    ensures var r := Understood(v, uri, params, host, hs, body);
            && r.verb == VerbText(v) && r.uri == uri && r.params == params && r.version == "1.1"
            && r.length == if v == Post then |body| else 0
  {
    var all := AllHeaders(v, host, hs, body);
    FillRest(Request(VerbText(v), uri, params, "1.1", map[], 0), all);
    AtoiDec(|body|);
    if v == Get {
      forall i | 0 <= i < |all| ensures all[i].0 != "Content-Length" {
        if i >= 2 { assert all[i] == hs[i - 2]; }
      }
      assert !Named(all, "Content-Length");
    } else {
      assert LastOf(all, |all| - 1) && all[|all| - 1] == ("Content-Length", Dec(|body|));
    }
  }

  /** The server does with the printed request what the client asked for: it calls the handler with the
      understood request and the whole body, unless the target's parameters are refused. */
  lemma PrintedUnderstood(v: Verb, target: string, host: string, hs: seq<Header>, body: string)
    requires Sendable(target, host, hs)
    ensures var u := UriParams(target);
            Verdict(Printed(v, target, host, hs, body))
            == if u.None? then Refused
               else Call(Understood(v, u.value.0, u.value.1, host, hs, body), if v == Post then body else "")
  {
    var lines := [FirstLine(v, target)] + Lines(AllHeaders(v, host, hs, body));
    var rest := if v == Post then body else "";
    AllPlain(v, target, host, hs, body);
    HeaderParsed(v, target, host, hs, body);
    JoinInner(lines);
    Ends(Inner(lines), rest);
    EndFound(lines, rest);
    VerdictAt(Inner(lines), rest);
    var u := UriParams(target);
    if u.Some? {
      UnderstoodRest(v, u.value.0, u.value.1, target, host, hs, body);
      assert body[..|body|] == body;
    }
  }

  lemma Ends(inner: string, rest: string)
    ensures inner + CRLF + CRLF + rest == inner + HEADER_END + rest
  {
  }

  /** From client to server, in whatever pieces the bytes arrive. */
  method Deliver(v: Verb, target: string, host: string, hs: seq<Header>, body: string, chunks: seq<string>)
    returns (o: Outcome)
    requires Sendable(target, host, hs) && Concat(chunks) == Printed(v, target, host, hs, body)
    ensures var u := UriParams(target);
            o == if u.None? then Refused
                 else Call(Understood(v, u.value.0, u.value.1, host, hs, body), if v == Post then body else "")
  {
    PrintedUnderstood(v, target, host, hs, body);
    o := Serve(chunks);
  }
}
