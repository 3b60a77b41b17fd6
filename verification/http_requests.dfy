/** Requests as texts, with any verb and any headers: what the server makes of them. */
module HttpRequests {
  import opened Wrappers
  import opened InetText
  import opened HttpText

  type Header = (string, string)

  // ---------- Texts made of lines ----------

  function Line(h: Header): string {
    h.0 + ": " + h.1
  }

  function Lines(hs: seq<Header>): seq<string> {
    if hs == [] then [] else [Line(hs[0])] + Lines(hs[1..])
  }

  predicate Plain(line: string) {
    line != "" && '\r' !in line
  }

  ghost predicate PlainLines(lines: seq<string>) {
    forall i :: 0 <= i < |lines| ==> Plain(lines[i])
  }

  /** Lines with ends between them only. */
  function Inner(lines: seq<string>): string
    requires lines != []
  {
    if |lines| == 1 then lines[0] else lines[0] + CRLF + Inner(lines[1..])
  }

  /** The lines are split off again. */
  lemma {:induction false} SplitInner(lines: seq<string>)
    requires lines != [] && PlainLines(lines)
    ensures Split(Inner(lines), CRLF) == lines
  {
    if |lines| == 1 {
      SplitLast(lines[0], CRLF);
    } else {
      SplitNext(lines[0], Inner(lines[1..]), CRLF);
      SplitInner(lines[1..]);
      assert [lines[0]] + lines[1..] == lines;
    }
  }

  lemma Assoc(a: string, b: string, c: string)
    ensures a + (b + c) == a + b + c
  {
  }

  lemma InnerStart(lines: seq<string>)
    requires lines != [] && Plain(lines[0])
    ensures Inner(lines) != "" && Inner(lines)[0] != '\r'
  {
    assert lines[0][0] in lines[0];
  }

  /** The end of the header is found behind the last line. */
  lemma {:induction false} EndFound(lines: seq<string>, rest: string)
    requires lines != [] && PlainLines(lines)
    ensures EndAt(Inner(lines) + HEADER_END + rest, |Inner(lines)|)
  {
    if |lines| == 1 {
      Assoc(lines[0], HEADER_END, rest);
      EndAtStart(rest);
      BehindLine(lines[0], HEADER_END + rest, 0);
    } else {
      var more := lines[1..];
      var inner := Inner(more);
      EndFound(more, rest);
      InnerStart(more);
      StartOf(inner, HEADER_END + rest);
      Assoc(inner, HEADER_END, rest);
      EndStep(lines[0], inner + HEADER_END + rest, |inner|);
      Regroup(lines[0], inner, rest);
      assert Inner(lines) == lines[0] + CRLF + inner;
    }
  }

  lemma EndAtStart(rest: string)
    ensures EndAt(HEADER_END + rest, 0)
  {
  }

  /** The end is `k` characters on. */
  ghost predicate EndAt(s: string, k: int) {
    var r := Find(s, HEADER_END);
    r.Some? && r.value == k
  }

  lemma EndStep(line: string, more: string, k: nat)
    requires Plain(line) && more != "" && more[0] != '\r' && EndAt(more, k)
    ensures EndAt(line + (CRLF + more), |line| + 2 + k)
  {
    PassEnd(more, k);
    BehindLine(line, CRLF + more, 2 + k);
  }

  lemma StartOf(a: string, b: string)
    requires a != ""
    ensures a + b != "" && (a + b)[0] == a[0]
  {
  }

  lemma BehindLine(line: string, tail: string, k: nat)
    requires Plain(line) && EndAt(tail, k)
    ensures EndAt(line + tail, |line| + k)
  {
    FindSkip(line, tail, HEADER_END);
  }

  lemma Regroup(line: string, inner: string, rest: string)
    ensures line + CRLF + inner + HEADER_END + rest == line + (CRLF + (inner + HEADER_END + rest))
  {
  }

  /** One line end alone is not the end of the header. */
  lemma PassEnd(more: string, k: nat)
    requires more != "" && more[0] != '\r' && EndAt(more, k)
    ensures EndAt(CRLF + more, 2 + k)
  {
    var s := CRLF + more;
    var s' := s[1..];
    assert s[2] == more[0] && s'[0] == '\n' && s'[1..] == more;
    FindStep(s, HEADER_END, 2);
    FindStep(s', HEADER_END, 0);
  }

  lemma ThreePieces(a: string, b: string, c: string)
    requires ' ' !in a && ' ' !in b && ' ' !in c && c != ""
    ensures Split(a + " " + (b + " " + c), " ") == [a, b, c]
  {
    SplitNext(a, b + " " + c, " ");
    SplitNext(b, c, " ");
    SplitLast(c, " ");
  }

  lemma FirstRegroup(a: string, b: string, c: string)
    ensures a + " " + b + (" " + c) == a + " " + (b + " " + c)
  {
  }

  lemma {:induction false} LinesPlain(hs: seq<Header>)
    requires Texts(hs)
    ensures |Lines(hs)| == |hs| && forall i :: 0 <= i < |hs| ==> Plain(Lines(hs)[i])
  {
    if hs != [] { LinesPlain(hs[1..]); }
  }

  lemma VerdictAt(head: string, rest: string)
    requires EndAt(head + HEADER_END + rest, |head|)
    ensures Verdict(head + HEADER_END + rest) == Act(Parse(head), rest)
  {
    var s := head + HEADER_END + rest;
    assert s[..|head|] == head && s[|head| + 4..] == rest;
  }

  /** Taking a header apart whose lines are known. */
  lemma ParseLines(first: string, more: seq<string>, parts: seq<string>, version: string)
    requires PlainLines([first] + more)
    requires Split(first, " ") == parts && |parts| == 3 && parts[2] == "HTTP/" + version
    ensures var u := UriParams(parts[1]);
            Parse(Inner([first] + more))
            == if u.None? then Malformed
               else Headers(more, Request(parts[0], u.value.0, u.value.1, version, map[], 0))
  {
    var lines := [first] + more;
    SplitInner(lines);
    assert lines[0] == first && lines[1..] == more;
    assert "HTTP/" == "HTTP" + "/";
    assert "HTTP" <= parts[2] && parts[2][5..] == version;
    assert Find(parts[2], "HTTP") == Some(0);
  }

  // ---------- Headers ----------

  /** Names and values that a header line can hold; a name may occur again. */
  predicate Texts(hs: seq<Header>) {
    forall i :: 0 <= i < |hs| ==> ':' !in hs[i].0 && '\r' !in hs[i].0 && '\r' !in hs[i].1
  }

  /** The headers added one by one. */
  function Fill(r: Request, hs: seq<Header>): Request
    decreases hs
  {
    if hs == [] then r else Fill(WithHeader(r, hs[0].0, hs[0].1), hs[1..])
  }

  lemma {:induction false} HeadersRead(r: Request, hs: seq<Header>, more: seq<string>)
    requires Texts(hs)
    ensures Headers(Lines(hs) + more, r) == Headers(more, Fill(r, hs))
    decreases hs
  {
    if hs == [] {
      assert Lines(hs) + more == more;
    } else {
      var rest := Lines(hs[1..]) + more;
      assert Lines(hs) + more == [Line(hs[0])] + rest;
      HeaderRead(r, hs[0], rest);
      HeadersRead(WithHeader(r, hs[0].0, hs[0].1), hs[1..], more);
    }
  }

  lemma {:induction false} HeaderRead(r: Request, h: Header, rest: seq<string>)
    requires ':' !in h.0
    ensures Headers([Line(h)] + rest, r) == Headers(rest, WithHeader(r, h.0, h.1))
  {
    var line, all := Line(h), [Line(h)] + rest;
    assert line == h.0 + (": " + h.1);
    FindAfter(h.0, ": " + h.1, ":");
    assert line[..|h.0|] == h.0 && line[|h.0| + 2..] == h.1;
    assert all[0] == line && all[1..] == rest;
  }

  predicate FirstOf(hs: seq<Header>, i: nat)
    requires i < |hs|
  {
    forall j :: 0 <= j < i ==> hs[j].0 != hs[i].0
  }

  /** The first value of every name is kept, unless there was one before, and nothing else is added. */
  lemma {:induction false} FillHeaders(r: Request, hs: seq<Header>)
    ensures var f := Fill(r, hs).headers;
            && (forall i :: 0 <= i < |hs| && FirstOf(hs, i) && hs[i].0 !in r.headers ==> hs[i].0 in f && f[hs[i].0] == hs[i].1)
            && (forall n :: n in r.headers ==> n in f && f[n] == r.headers[n])
            && (forall n :: n in f ==> n in r.headers || Named(hs, n))
    decreases hs
  {
    if hs != [] {
      var q, rest := WithHeader(r, hs[0].0, hs[0].1), hs[1..];
      FillHeaders(q, rest);
      var f := Fill(r, hs).headers;
      forall i | 0 <= i < |hs| && FirstOf(hs, i) && hs[i].0 !in r.headers ensures hs[i].0 in f && f[hs[i].0] == hs[i].1 {
        if i > 0 {
          assert hs[i] == rest[i - 1] && hs[0].0 != hs[i].0;
          assert FirstOf(rest, i - 1) by {
            forall j | 0 <= j < i - 1 ensures rest[j].0 != rest[i - 1].0 { assert rest[j] == hs[j + 1]; }
          }
        }
      }
      forall n | n in f ensures n in r.headers || Named(hs, n) {
        NamedNext(hs, n);
      }
    }
  }

  /** The other parts of the request stay, and the length is that of the last content length. */
  lemma {:induction false} FillRest(r: Request, hs: seq<Header>)
    ensures var f := Fill(r, hs); f == r.(headers := f.headers, length := f.length)
    ensures forall i :: 0 <= i < |hs| && LastOf(hs, i) && hs[i].0 == "Content-Length" ==> Fill(r, hs).length == Atoi(hs[i].1)
    ensures !Named(hs, "Content-Length") ==> Fill(r, hs).length == r.length
    decreases hs
  {
    if hs != [] {
      var q, rest := WithHeader(r, hs[0].0, hs[0].1), hs[1..];
      FillRest(q, rest);
      NamedNext(hs, "Content-Length");
      forall i | 0 <= i < |hs| && LastOf(hs, i) && hs[i].0 == "Content-Length" ensures Fill(r, hs).length == Atoi(hs[i].1) {
        if i > 0 {
          assert rest[i - 1] == hs[i] && LastOf(rest, i - 1);
        } else {
          assert forall j :: 0 <= j < |rest| ==> rest[j] == hs[j + 1];
        }
      }
    }
  }

  // ---------- Requests with any verb ----------

  function FirstText(verb: string, target: string, version: string): string {
    verb + " " + target + " HTTP/" + version
  }

  function RequestText(verb: string, target: string, version: string, hs: seq<Header>): string {
    Inner([FirstText(verb, target, version)] + Lines(hs)) + HEADER_END
  }

  /** The parts of a request can be told apart in its text. */
  predicate Writable(verb: string, target: string, version: string, hs: seq<Header>) {
    && ' ' !in verb && '\r' !in verb && ' ' !in target && '\r' !in target && ' ' !in version && '\r' !in version
    && Texts(hs)
  }

  /** Of a name that occurs again the first value is kept, but the last content length counts. */
  ghost predicate ReadFrom(r: Request, hs: seq<Header>) {
    && (forall i :: 0 <= i < |hs| && FirstOf(hs, i) ==> hs[i].0 in r.headers && r.headers[hs[i].0] == hs[i].1)
    && (forall n :: n in r.headers ==> Named(hs, n))
    && (forall i :: 0 <= i < |hs| && LastOf(hs, i) && hs[i].0 == "Content-Length" ==> r.length == Atoi(hs[i].1))
    && (!Named(hs, "Content-Length") ==> r.length == 0)
  }

  lemma Filled(verb: string, uri: string, params: Fields, version: string, hs: seq<Header>) returns (r: Request)
    ensures r == Fill(Request(verb, uri, params, version, map[], 0), hs)
    ensures r.verb == verb && r.uri == uri && r.params == params && r.version == version && ReadFrom(r, hs)
  {
    var blank := Request(verb, uri, params, version, map[], 0);
    FillHeaders(blank, hs);
    FillRest(blank, hs);
    r := Fill(blank, hs);
  }

  lemma FirstParts(verb: string, target: string, version: string)
    requires ' ' !in verb && ' ' !in target && ' ' !in version
    ensures Split(FirstText(verb, target, version), " ") == [verb, target, "HTTP/" + version]
  {
    var third := "HTTP/" + version;
    assert " HTTP/" + version == " " + third by { assert " HTTP/" == " " + "HTTP/"; }
    assert FirstText(verb, target, version) == verb + " " + target + (" " + third);
    FirstRegroup(verb, target, third);
    ThreePieces(verb, target, third);
  }

  lemma WritableLines(verb: string, target: string, version: string, hs: seq<Header>)
    requires Writable(verb, target, version, hs)
    ensures PlainLines([FirstText(verb, target, version)] + Lines(hs))
  {
    LinesPlain(hs);
    var first := FirstText(verb, target, version);
    assert first[|verb|] == ' ';
    assert '\r' !in first;
  }

  lemma TextVerdict(lines: seq<string>, content: string)
    requires lines != [] && PlainLines(lines)
    ensures Verdict(Inner(lines) + HEADER_END + content) == Act(Parse(Inner(lines)), content)
  {
    EndFound(lines, content);
    VerdictAt(Inner(lines), content);
  }

  /** The first action on any request with any verb and whatever has come of its body: a preflight is answered, a
      `GET` calls the handler at once and without a body, and any other verb calls it when as many bytes are there as
      the content length says, with exactly these. */
  lemma AnyRequest(verb: string, target: string, version: string, hs: seq<Header>, content: string) returns (r: Request)
    requires Writable(verb, target, version, hs)
    ensures var u, v := UriParams(target), Verdict(RequestText(verb, target, version, hs) + content);
            if u.None? then v == Refused
            else
              && r.verb == verb && r.uri == u.value.0 && r.params == u.value.1 && r.version == version && ReadFrom(r, hs)
              && (verb == "OPTIONS" ==> v == Preflight)
              && (verb == "GET" ==> v == Call(r, ""))
              && (verb != "OPTIONS" && verb != "GET" && |content| < r.length ==> v == More)
              && (verb != "OPTIONS" && verb != "GET" && 0 <= r.length <= |content| ==> v == Call(r, content[..r.length]))
              && (verb != "OPTIONS" && verb != "GET" && r.length < 0 ==> v == Call(r, ""))
  {
    var first, u := FirstText(verb, target, version), UriParams(target);
    WritableLines(verb, target, version, hs);
    FirstParts(verb, target, version);
    ParseLines(first, Lines(hs), [verb, target, "HTTP/" + version], version);
    TextVerdict([first] + Lines(hs), content);
    if u.Some? {
      r := Filled(verb, u.value.0, u.value.1, version, hs);
      HeadersRead(Request(verb, u.value.0, u.value.1, version, map[], 0), hs, []);
      assert Lines(hs) + [] == Lines(hs);
      Answered(r, content);
    } else {
      r := Request("", "", map[], "", map[], 0);
    }
  }

  /** What follows on an understood header. */
  lemma Answered(r: Request, content: string)
    ensures var v := Act(Ok(r), content);
            && (r.verb == "OPTIONS" ==> v == Preflight)
            && (r.verb == "GET" ==> v == Call(r, ""))
            && (r.verb != "OPTIONS" && r.verb != "GET" && |content| < r.length ==> v == More)
            && (r.verb != "OPTIONS" && r.verb != "GET" && 0 <= r.length <= |content| ==> v == Call(r, content[..r.length]))
            && (r.verb != "OPTIONS" && r.verb != "GET" && r.length < 0 ==> v == Call(r, ""))
  {
    if r.length == 0 { assert content[..r.length] == ""; }
  }

  /** In particular the body of a verb that is neither is waited for. */
  lemma BodyAwaited(verb: string, target: string, version: string, hs: seq<Header>, i: nat, n: nat, content: string)
    requires Writable(verb, target, version, hs) && UriParams(target).Some?
    requires verb != "GET" && verb != "OPTIONS"
    requires i < |hs| && hs[i] == ("Content-Length", Dec(n)) && LastOf(hs, i) && n > 0
    ensures var v := Verdict(RequestText(verb, target, version, hs) + content);
            if |content| < n then v == More
            else v.Call? && v.body == content[..n] && v.request.verb == verb && v.request.length == n
  {
    var r := AnyRequest(verb, target, version, hs, content);
    AtoiDec(n);
  }

  // ---------- What is refused ----------

  /** A first line that has not three parts is refused, and so is one whose third part does not name the protocol;
      one that ends with the protocol's name makes taking the version throw. */
  lemma BadFirstLine(lines: seq<string>, content: string)
    requires lines != [] && PlainLines(lines)
    ensures var parts, v := Split(lines[0], " "), Verdict(Inner(lines) + HEADER_END + content);
            if |parts| != 3 || UriParams(parts[1]).None? || Find(parts[2], "HTTP").None? then v == Refused
            else Find(parts[2], "HTTP").value + 4 == |parts[2]| ==> v == Crashed
  {
    SplitInner(lines);
    TextVerdict(lines, content);
  }

  /** A header line without a colon is refused; one with nothing behind its colon makes taking the value throw. */
  lemma BadHeaderLine(verb: string, target: string, version: string, hs: seq<Header>, bad: string, more: seq<string>, content: string)
    requires Writable(verb, target, version, hs) && UriParams(target).Some? && Plain(bad) && PlainLines(more)
    ensures var v := Verdict(Inner([FirstText(verb, target, version)] + (Lines(hs) + ([bad] + more))) + HEADER_END + content);
            && (':' !in bad ==> v == Refused)
            && (':' !in bad[..|bad| - 1] && bad[|bad| - 1] == ':' ==> v == Crashed)
  {
    var first, u, rest := FirstText(verb, target, version), UriParams(target).value, [bad] + more;
    var lines := Lines(hs) + rest;
    WritableLines(verb, target, version, hs);
    assert PlainLines([first] + lines) by {
      LinesPlain(hs);
      assert Plain(([first] + Lines(hs))[0]);
    }
    FirstParts(verb, target, version);
    ParseLines(first, lines, [verb, target, "HTTP/" + version], version);
    TextVerdict([first] + lines, content);
    HeadersRead(Request(verb, u.0, u.1, version, map[], 0), hs, rest);
    if ':' !in bad {
      FindNone(bad, ":");
    } else if ':' !in bad[..|bad| - 1] && bad[|bad| - 1] == ':' {
      assert bad == bad[..|bad| - 1] + ":";
      FindAfter(bad[..|bad| - 1], ":", ":");
    }
    assert rest[0] == bad;
  }
}
