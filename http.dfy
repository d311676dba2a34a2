/**
 * The request side of the server: the four supported methods and the parser
 * that turns a raw request string into an `HttpRequest` (`src/http.rs`).
 *
 * The parser reads a loose subset of the HTTP/1.1 message syntax of RFC 9112:
 * a request line of exactly three whitespace-separated tokens (section 3),
 * `name: value` field lines up to the first empty line (section 5), and
 * everything after that line as the body (section 6). Every failure is `None`.
 */
module Http {
  import opened Wrappers
  import opened Text

  datatype HttpMethod = GET | POST | PUT | DELETE

  /** The token a method is written as on a request line. */
  function MethodName(m: HttpMethod): string {
    match m
    case GET => "GET"
    case POST => "POST"
    case PUT => "PUT"
    case DELETE => "DELETE"
  }

  /**
   * The method a request-line token names. Only the four upper-case names
   * are recognised; anything else, "get" included, is `None`.
   */
  function FromStr(s: string): (r: Option<HttpMethod>)
    ensures r.Some? <==> s in {"GET", "POST", "PUT", "DELETE"}
    ensures r.Some? ==> s == MethodName(r.value)
  {
    if s == "GET" then Some(GET)
    else if s == "POST" then Some(POST)
    else if s == "PUT" then Some(PUT)
    else if s == "DELETE" then Some(DELETE)
    else None
  }

  /** Reading back a method's name gives the method. */
  lemma MethodNameRoundTrip(m: HttpMethod)
    ensures FromStr(MethodName(m)) == Some(m)
  {
  }

  /** A parsed request; header names are trimmed and lower-cased. */
  datatype HttpRequest = HttpRequest(
    httpMethod: HttpMethod,
    path: string,
    headers: map<string, string>,
    body: string)

  // ---------------------------------------------------------------------------
  // Field lines
  // ---------------------------------------------------------------------------

  /** A line is read as a field line when it holds a colon; other lines are skipped. */
  predicate IsHeaderLine(line: string) {
    ':' in line
  }

  /** The part before the first colon, trimmed and lower-cased. */
  function HeaderKey(line: string): (k: string)
    requires IsHeaderLine(line)
    ensures IsLowercase(k) && IsTrimmed(k)
  {
    var colon := Find(line, ':').value;
    var k := Trim(line[..colon]);
    ToLowerKeepsTrimmed(k);
    ToLower(k)
  }

  /** The part after the first colon, trimmed; it may itself contain colons. */
  function HeaderValue(line: string): (v: string)
    requires IsHeaderLine(line)
    ensures IsTrimmed(v)
  {
    var colon := Find(line, ':').value;
    Trim(line[colon + 1..])
  }

  /**
   * The header map the field lines build when inserted in order: each line
   * with a colon sets its key, overwriting an earlier value.
   */
  function HeaderMap(lines: seq<string>): map<string, string>
  {
    if lines == [] then map[]
    else
      var h := HeaderMap(lines[..|lines| - 1]);
      var line := lines[|lines| - 1];
      if IsHeaderLine(line) then h[HeaderKey(line) := HeaderValue(line)] else h
  }

  /** Every stored key is trimmed and lower-cased, and every stored value trimmed. */
  lemma {:induction false} HeaderMapNormalised(lines: seq<string>)
    ensures forall k :: k in HeaderMap(lines) ==>
              IsLowercase(k) && IsTrimmed(k) && IsTrimmed(HeaderMap(lines)[k])
  {
    if lines != [] {
      HeaderMapNormalised(lines[..|lines| - 1]);
    }
  }

  /** Reading one more line updates the map the way one loop step of `parse` does. */
  lemma HeaderMapAppend(lines: seq<string>, line: string)
    ensures HeaderMap(lines + [line])
         == if IsHeaderLine(line) then HeaderMap(lines)[HeaderKey(line) := HeaderValue(line)]
            else HeaderMap(lines)
  {
    assert (lines + [line])[..|lines|] == lines;
  }

  /** One more line of the field section, as one iteration of the parser's loop reads it. */
  lemma HeaderMapStep(lines: seq<string>, i: nat)
    requires 1 <= i < |lines|
    ensures HeaderMap(lines[1..i + 1])
         == if IsHeaderLine(lines[i]) then HeaderMap(lines[1..i])[HeaderKey(lines[i]) := HeaderValue(lines[i])]
            else HeaderMap(lines[1..i])
  {
    assert lines[1..i + 1] == lines[1..i] + [lines[i]];
    HeaderMapAppend(lines[1..i], lines[i]);
  }

  /** The map of the first `j + 1` lines is the map of the first `j` with line `j` read. */
  lemma HeaderMapPrefixStep(lines: seq<string>, j: nat)
    requires j < |lines|
    ensures HeaderMap(lines[..j + 1])
         == if IsHeaderLine(lines[j]) then HeaderMap(lines[..j])[HeaderKey(lines[j]) := HeaderValue(lines[j])]
            else HeaderMap(lines[..j])
  {
    assert lines[..j + 1] == lines[..j] + [lines[j]];
    HeaderMapAppend(lines[..j], lines[j]);
  }

  /** The index of the first empty line at or after `from`, or `|lines|`. */
  function FirstEmptyLine(lines: seq<string>, from: nat): (k: nat)
    requires from <= |lines|
    ensures from <= k <= |lines|
    ensures k < |lines| ==> lines[k] == ""
    ensures forall j :: from <= j < k ==> lines[j] != ""
    decreases |lines| - from
  {
    if from == |lines| || lines[from] == "" then from else FirstEmptyLine(lines, from + 1)
  }

  // ---------------------------------------------------------------------------
  // HttpRequest::parse
  // ---------------------------------------------------------------------------

  /**
   * What `parse` returns for `request`: the request line (the first
   * "\r\n"-separated line) must have exactly three tokens, the first naming
   * a method; the lines after it up to the first empty one are field lines;
   * the lines after the empty one, joined again with "\r\n", are the body.
   * When there is no empty line the body starts at line 0.
   */
  function Parsed(request: string): (r: Option<HttpRequest>)
    ensures r.Some? ==> r.value.path != "" && NoWhitespace(r.value.path)
  {
    var lines := SplitCrlf(request);
    var r := ParsedLines(lines);
    assert r.Some? ==> Tokens(lines[0])[1] in Tokens(lines[0]);
    r
  }

  /** `Parsed` once the request is split into its lines. */
  function ParsedLines(lines: seq<string>): (r: Option<HttpRequest>)
    requires |lines| >= 1
  {
    var parts := Tokens(lines[0]);
    if |parts| != 3 then None
    else
      match FromStr(parts[0])
      case None => None
      case Some(m) =>
        var k := FirstEmptyLine(lines, 1);
        Some(HttpRequest(m, parts[1], HeaderMap(lines[1..k]), Body(lines, k)))
  }

  /**
   * The body, given the index `k` of the first empty line (`|lines|` when
   * there is none): the lines after it joined with "\r\n", or, with no empty
   * line, all the lines from the request line on.
   */
  function Body(lines: seq<string>, k: nat): (body: string)
    requires k <= |lines|
    ensures k == |lines| ==> body == JoinCrlf(lines)
    ensures k + 1 == |lines| ==> body == ""
  {
    assert lines[0..] == lines;
    var bodyStart := if k < |lines| then k + 1 else 0;
    if bodyStart < |lines| then JoinCrlf(lines[bodyStart..]) else ""
  }

  /** A line whose first colon is at `colon` is a field line cut there. */
  lemma FieldLineAt(line: string, colon: nat)
    requires Find(line, ':') == Some(colon)
    ensures IsHeaderLine(line)
    ensures HeaderKey(line) == ToLower(Trim(line[..colon]))
    ensures HeaderValue(line) == Trim(line[colon + 1..])
  {
    assert Find(line, ':').value == colon;
  }

  /**
   * One iteration of the field loop: a line with a colon is cut at its
   * first colon and inserted, trimmed, with its name lower-cased; a line
   * without one is skipped.
   */
  method ReadField(headers: map<string, string>, line: string) returns (h: map<string, string>)
    ensures IsHeaderLine(line) ==> h == headers[HeaderKey(line) := HeaderValue(line)]
    ensures !IsHeaderLine(line) ==> h == headers
  {
    match Find(line, ':') {
      case Some(colon) =>
        var key := ToLower(Trim(line[..colon]));
        var value := Trim(line[colon + 1..]);
        FieldLineAt(line, colon);
        h := headers[key := value];
      case None =>
        h := headers;
    }
  }

  /**
   * The parser: split into lines, check the request line, then read field
   * lines one at a time into a header map until the first empty line.
   * The split always yields at least one line, so the source's check for an
   * empty line list can never fire and is not repeated here.
   */
  method Parse(request: string) returns (r: Option<HttpRequest>)
    ensures r == Parsed(request)
  {
    var lines := SplitCrlf(request);
    var parts := Tokens(lines[0]);
    if |parts| != 3 {
      return None;
    }
    var httpMethod := FromStr(parts[0]);
    if httpMethod.None? {
      return None;
    }
    var path := parts[1];

    var headers: map<string, string> := map[];
    var bodyStart := 0;
    var i := 1;
    while i < |lines|
      invariant 1 <= i <= |lines|
      invariant FirstEmptyLine(lines, 1) == FirstEmptyLine(lines, i)
      invariant headers == HeaderMap(lines[1..i])
      invariant bodyStart == 0
    {
      var line := lines[i];
      if line == "" {
        bodyStart := i + 1;
        break;
      }
      HeaderMapStep(lines, i);
      headers := ReadField(headers, line);
      i := i + 1;
    }

    ghost var k := FirstEmptyLine(lines, 1);
    assert bodyStart == (if k < |lines| then k + 1 else 0) && headers == HeaderMap(lines[1..k]);
    var body := if bodyStart < |lines| then JoinCrlf(lines[bodyStart..]) else "";
    assert body == Body(lines, k);
    r := Some(HttpRequest(httpMethod.value, path, headers, body));
    assert r == ParsedLines(lines);
  }

  // ---------------------------------------------------------------------------
  // Properties of the parser
  // ---------------------------------------------------------------------------

  /** The first line of the split is the text before the first "\r\n". */
  lemma FirstLine(s: string)
    ensures SplitCrlf(s)[0] == s[..FindCrlf(s)]
  {
    if FindCrlf(s) == |s| {
      assert s[..|s|] == s;
    }
  }

  /**
   * Parsing succeeds exactly when the request line has three tokens and the
   * first names a method; the method and path are then the first two tokens,
   * verbatim, and the third token is never looked at.
   */
  lemma ParsedRequestLine(request: string)
    ensures var parts := Tokens(request[..FindCrlf(request)]);
      && (Parsed(request).Some? <==> |parts| == 3 && FromStr(parts[0]).Some?)
      && (Parsed(request).Some? ==>
            MethodName(Parsed(request).value.httpMethod) == parts[0]
            && Parsed(request).value.path == parts[1])
  {
    FirstLine(request);
  }

  /** The keys of the header map are exactly the keys of the lines that have a colon. */
  lemma {:induction false} HeaderMapKeys(lines: seq<string>, k: string)
    ensures k in HeaderMap(lines) <==>
            exists i :: 0 <= i < |lines| && IsHeaderLine(lines[i]) && HeaderKey(lines[i]) == k
  {
    if lines != [] {
      var n := |lines| - 1;
      var init, last := lines[..n], lines[n];
      assert lines == init + [last];
      HeaderMapAppend(init, last);
      HeaderMapKeys(init, k);
      if IsHeaderLine(last) && HeaderKey(last) == k {
        assert k in HeaderMap(lines);
      } else {
        assert k in HeaderMap(lines) <==> k in HeaderMap(init);
        assert forall i :: 0 <= i < n ==> init[i] == lines[i];
      }
    }
  }

  /** Lines from `from` on, none of which has key `k`, leave the entry for `k` as it was. */
  lemma {:induction false} HeaderMapKeepsKey(lines: seq<string>, from: nat, k: string)
    requires from <= |lines|
    requires forall i :: from <= i < |lines| && IsHeaderLine(lines[i]) ==> HeaderKey(lines[i]) != k
    ensures k in HeaderMap(lines) <==> k in HeaderMap(lines[..from])
    ensures k in HeaderMap(lines) ==> HeaderMap(lines)[k] == HeaderMap(lines[..from])[k]
    decreases |lines|
  {
    if |lines| == from {
      assert lines[..from] == lines;
    } else {
      var init := lines[..|lines| - 1];
      var last := lines[|lines| - 1];
      assert lines == init + [last];
      HeaderMapAppend(init, last);
      assert init[..from] == lines[..from];
      HeaderMapKeepsKey(init, from, k);
    }
  }

  /**
   * A repeated key keeps the value of its last line: if no later field line
   * has the same key as line `j`, the map holds line `j`'s value.
   */
  lemma HeaderMapLastWins(lines: seq<string>, j: nat)
    requires j < |lines| && IsHeaderLine(lines[j])
    requires forall i :: j < i < |lines| && IsHeaderLine(lines[i]) ==> HeaderKey(lines[i]) != HeaderKey(lines[j])
    ensures HeaderKey(lines[j]) in HeaderMap(lines)
    ensures HeaderMap(lines)[HeaderKey(lines[j])] == HeaderValue(lines[j])
  {
    HeaderMapPrefixStep(lines, j);
    HeaderMapKeepsKey(lines, j + 1, HeaderKey(lines[j]));
  }

  /**
   * A field line is cut at its first colon: for a name without a colon,
   * `name:value` has key `name` trimmed and lower-cased and value `value`
   * trimmed, whatever colons `value` holds.
   */
  lemma HeaderLineSplit(name: string, value: string)
    requires ':' !in name
    ensures IsHeaderLine(name + ":" + value)
    ensures HeaderKey(name + ":" + value) == ToLower(Trim(name))
    ensures HeaderValue(name + ":" + value) == Trim(value)
  {
    var line := name + ":" + value;
    assert line[|name|] == ':';
    var colon := Find(line, ':').value;
    assert line[..|name|] == name;
    assert colon == |name|;
    assert line[|name| + 1..] == value;
  }

  /** The first empty line at or after `from` is determined by its defining property. */
  lemma FirstEmptyLineIs(lines: seq<string>, from: nat, k: nat)
    requires from <= k < |lines| && lines[k] == ""
    requires forall j :: from <= j < k ==> lines[j] != ""
    ensures FirstEmptyLine(lines, from) == k
  {
  }

  /** The whitespace-free pieces of a request line contain no carriage return. */
  lemma NoCarriageReturnInWord(s: string)
    requires NoWhitespace(s)
    ensures '\r' !in s
  {
  }

  /** `ParsedLines` on the lines of such a message. */
  lemma ParsedMessageLines(m: HttpMethod, path: string, line: string,
                           fields: seq<string>, rest: seq<string>)
    requires |Tokens(line)| == 3 && Tokens(line)[0] == MethodName(m) && Tokens(line)[1] == path
    requires forall f :: f in fields ==> f != ""
    requires |rest| >= 1
    ensures ParsedLines(([line] + fields) + ([""] + rest))
         == Some(HttpRequest(m, path, HeaderMap(fields), JoinCrlf(rest)))
  {
    var lines := ([line] + fields) + ([""] + rest);
    var n := |fields|;
    assert lines[0] == line;
    assert lines[1..n + 1] == fields;
    assert lines[n + 1] == "";
    assert lines[n + 2..] == rest;
    forall j | 1 <= j < n + 1 ensures lines[j] != "" {
      assert lines[j] == fields[j - 1] && fields[j - 1] in fields;
    }
    FirstEmptyLineIs(lines, 1, n + 1);
    MethodNameRoundTrip(m);
  }

  /**
   * The message round trip for any request line the parser accepts: a line
   * that whitespace splits into three tokens, the first naming a method
   * (tabs, runs of spaces and surrounding whitespace included), field lines
   * that are neither empty nor contain "\r\n", an empty line and any body
   * parse to that method, the second token as path, the header map of those
   * field lines and exactly that body.
   */
  lemma ParsedMessageAnyLine(line: string, fields: seq<string>, body: string)
    requires NoCrlf(line)
    requires |Tokens(line)| == 3 && FromStr(Tokens(line)[0]).Some?
    requires forall f :: f in fields ==> f != "" && NoCrlf(f)
    ensures Parsed(JoinCrlf([line] + fields) + CRLF + CRLF + body)
         == Some(HttpRequest(FromStr(Tokens(line)[0]).value, Tokens(line)[1], HeaderMap(fields), body))
  {
    SplitCrlfMessage(line, fields, body);
    ParsedMessageLines(FromStr(Tokens(line)[0]).value, Tokens(line)[1], line, fields, SplitCrlf(body));
    JoinSplitCrlf(body);
  }

  /**
   * The canonical case: a request line `METHOD path version` with single
   * spaces, field lines, an empty line and any body parse to that method,
   * that path, the header map of those field lines and exactly that body.
   * Lines of the body are never read as fields, and the version may be any
   * token.
   */
  lemma ParsedMessage(m: HttpMethod, path: string, version: string,
                      fields: seq<string>, body: string)
    requires path != "" && NoWhitespace(path)
    requires version != "" && NoWhitespace(version)
    requires forall f :: f in fields ==> f != "" && NoCrlf(f)
    ensures Parsed(JoinCrlf([MethodName(m) + " " + path + " " + version] + fields)
                   + CRLF + CRLF + body)
         == Some(HttpRequest(m, path, HeaderMap(fields), body))
  {
    var name := MethodName(m);
    var line := name + " " + path + " " + version;
    assert name != "" && NoWhitespace(name) && '\r' !in name;
    TokensOfThreeWords(name, path, version);
    NoCarriageReturnInWord(path);
    NoCarriageReturnInWord(version);
    assert '\r' !in line;
    NoCrlfWithoutCarriageReturn(line);
    MethodNameRoundTrip(m);
    ParsedMessageAnyLine(line, fields, body);
  }

  /** Without an empty line from `from` on, the loop runs to the end. */
  lemma FirstEmptyLineNone(lines: seq<string>, from: nat)
    requires from <= |lines|
    requires forall j :: from <= j < |lines| ==> lines[j] != ""
    ensures FirstEmptyLine(lines, from) == |lines|
  {
  }

  /** The header map and the body of a parsed request, given the first empty line. */
  lemma ParsedLinesParts(lines: seq<string>, k: nat)
    requires |lines| >= 1 && ParsedLines(lines).Some? && k == FirstEmptyLine(lines, 1)
    ensures ParsedLines(lines).value.headers == HeaderMap(lines[1..k])
    ensures ParsedLines(lines).value.body == Body(lines, k)
  {
  }

  lemma SliceToEnd<T>(s: seq<T>, i: nat)
    requires i <= |s|
    ensures s[i..|s|] == s[i..]
  {
  }

  /** `ParsedLines` when the loop finds no empty line after the request line. */
  lemma ParsedLinesWithoutEmptyLine(lines: seq<string>)
    requires |lines| >= 1 && ParsedLines(lines).Some?
    requires FirstEmptyLine(lines, 1) == |lines|
    ensures ParsedLines(lines).value.body == JoinCrlf(lines)
    ensures ParsedLines(lines).value.headers == HeaderMap(lines[1..])
  {
    ParsedLinesParts(lines, |lines|);
    SliceToEnd(lines, 1);
  }

  /**
   * Without an empty line after the request line, every line after it is a
   * field line and the body is the whole request, request line included.
   */
  lemma ParsedWithoutEmptyLine(request: string)
    requires Parsed(request).Some?
    requires forall j :: 1 <= j < |SplitCrlf(request)| ==> SplitCrlf(request)[j] != ""
    ensures Parsed(request).value.body == request
    ensures Parsed(request).value.headers == HeaderMap(SplitCrlf(request)[1..])
  {
    FirstEmptyLineNone(SplitCrlf(request), 1);
    ParsedLinesWithoutEmptyLine(SplitCrlf(request));
    JoinSplitCrlf(request);
  }

  // ---------------------------------------------------------------------------
  // The health-check request, worked through one small fact at a time
  // ---------------------------------------------------------------------------

  lemma TrimHost()
    ensures Trim("Host") == "Host"
  {
    TrimSurrounded("", "Host", "");
    assert "" + "Host" + "" == "Host";
  }

  lemma TrimSpaceX()
    ensures Trim(" x") == "x"
  {
    TrimSurrounded(" ", "x", "");
    assert " " + "x" + "" == " x";
  }

  lemma LowerHost()
    ensures ToLower("Host") == "host"
  {
  }

  lemma HostFieldText()
    ensures "Host" + ":" + " x" == "Host: x"
  {
  }

  lemma HostFieldSplit()
    ensures IsHeaderLine("Host: x")
    ensures HeaderKey("Host: x") == ToLower(Trim("Host"))
    ensures HeaderValue("Host: x") == Trim(" x")
  {
    HeaderLineSplit("Host", " x");
    HostFieldText();
  }

  lemma HostKey()
    ensures ToLower(Trim("Host")) == "host"
  {
    TrimHost();
    LowerHost();
  }

  /** The field line `Host: x` is stored under `host` with value `x`. */
  lemma HostHeader()
    ensures HeaderMap(["Host: x"]) == map["host" := "x"]
  {
    HostFieldSplit();
    HostKey();
    TrimSpaceX();
    HeaderMapAppend([], "Host: x");
    assert [] + ["Host: x"] == ["Host: x"];
  }

  lemma JoinCrlfTwo(a: string, b: string)
    ensures JoinCrlf([a] + [b]) == a + CRLF + b
  {
    assert ([a] + [b])[1..] == [b];
  }

  lemma HealthCheckWords()
    ensures "/api/health" != "" && NoWhitespace("/api/health")
    ensures "HTTP/1.1" != "" && NoWhitespace("HTTP/1.1")
    ensures "Host: x" != "" && NoCrlf("Host: x")
  {
  }

  lemma HealthCheckRequestLine()
    ensures MethodName(GET) + " " + "/api/health" + " " + "HTTP/1.1" == "GET /api/health HTTP/1.1"
  {
  }

  lemma HealthCheckText()
    ensures JoinCrlf(["GET /api/health HTTP/1.1"] + ["Host: x"]) + CRLF + CRLF + ""
         == "GET /api/health HTTP/1.1\r\nHost: x\r\n\r\n"
  {
    JoinCrlfTwo("GET /api/health HTTP/1.1", "Host: x");
  }

  lemma HealthCheckMessage()
    ensures Parsed(JoinCrlf(["GET /api/health HTTP/1.1"] + ["Host: x"]) + CRLF + CRLF + "")
         == Some(HttpRequest(GET, "/api/health", HeaderMap(["Host: x"]), ""))
  {
    HealthCheckWords();
    HealthCheckRequestLine();
    forall f | f in ["Host: x"] ensures f != "" && NoCrlf(f) { }
    ParsedMessage(GET, "/api/health", "HTTP/1.1", ["Host: x"], "");
  }

  /** The health-check request of the server's endpoint list. */
  lemma ParsedHealthCheck()
    ensures Parsed("GET /api/health HTTP/1.1\r\nHost: x\r\n\r\n")
         == Some(HttpRequest(GET, "/api/health", map["host" := "x"], ""))
  {
    HealthCheckMessage();
    HealthCheckText();
    HostHeader();
  }
}
