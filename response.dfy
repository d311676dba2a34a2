/**
 * The response side: `HttpResponse`, its stock constructors, the two builder
 * steps and the serialiser.
 *
 * The builder steps take the response by value (`mut self`) and hand it
 * back, so no other reference can observe the change; a response is
 * therefore a value here and each builder step a function from the old value
 * to the new one.
 */
module Response {
  import opened Wrappers
  import opened Text

  /** A `u16` status code. */
  type StatusCode = c: int | 0 <= c < 0x1_0000

  const ContentType: string := "Content-Type"
  const ContentLength: string := "Content-Length"

  /** The text of one header line, without its line terminator. */
  function HeaderLine(key: string, value: string): string {
    key + ": " + value
  }

  /** `order` lists every key of `keys` exactly once. */
  ghost predicate IsEnumeration(order: seq<string>, keys: set<string>) {
    (forall i, j :: 0 <= i < j < |order| ==> order[i] != order[j])
    && (forall k :: k in order <==> k in keys)
  }

  datatype HttpResponse = HttpResponse(
    statusCode: StatusCode,
    statusText: string,
    headers: map<string, string>,
    body: string)
  {
    // -------------------------------------------------------------------------
    // Constructors
    // -------------------------------------------------------------------------

    /** A response with the given status, no body and an HTML content type. */
    static function New(statusCode: StatusCode, statusText: string): (r: HttpResponse)
      ensures r.statusCode == statusCode && r.statusText == statusText
      ensures r.headers.Keys == {ContentType} && r.headers[ContentType] == "text/html"
      ensures r.body == ""
    {
      HttpResponse(statusCode, statusText, map[ContentType := "text/html"], "")
    }

    static function Ok(): (r: HttpResponse)
      ensures r.statusCode == 200 && r.statusText == "OK"
      ensures r.headers == map[ContentType := "text/html"] && r.body == ""
    {
      New(200, "OK")
    }

    static function NotFound(): (r: HttpResponse)
      ensures r.statusCode == 404 && r.statusText == "NOT FOUND"
      ensures r.headers == map[ContentType := "text/html"] && r.body == ""
    {
      New(404, "NOT FOUND")
    }

    static function BadRequest(): (r: HttpResponse)
      ensures r.statusCode == 400 && r.statusText == "BAD REQUEST"
      ensures r.headers == map[ContentType := "text/html"] && r.body == ""
    {
      New(400, "BAD REQUEST")
    }

    /** Like `New`, but the one header announces JSON. */
    static function Json(statusCode: StatusCode, statusText: string): (r: HttpResponse)
      ensures r.statusCode == statusCode && r.statusText == statusText && r.body == ""
      ensures r.headers.Keys == {ContentType} && r.headers[ContentType] == "application/json"
    {
      var response := New(statusCode, statusText);
      response.(headers := response.headers[ContentType := "application/json"])
    }

    // -------------------------------------------------------------------------
    // Builder steps
    // -------------------------------------------------------------------------

    /**
     * Sets the body and a `Content-Length` header holding the body's length
     * in UTF-8 bytes as a plain decimal numeral (no sign, no leading zero);
     * the status and every other header are kept.
     */
    function WithBody(newBody: string): (r: HttpResponse)
      ensures r.statusCode == statusCode && r.statusText == statusText
      ensures r.body == newBody
      ensures r.headers.Keys == headers.Keys + {ContentLength}
      ensures forall k :: k in headers && k != ContentLength ==> r.headers[k] == headers[k]
      ensures ParseDecimal(r.headers[ContentLength]) == Some(Utf8Length(newBody))
      ensures r.headers[ContentLength] == Decimal(Utf8Length(newBody))
    {
      this.(body := newBody, headers := headers[ContentLength := Decimal(Utf8Length(newBody))])
    }

    /**
     * Sets one header, overwriting any earlier value under that key
     * (`Content-Length` and `Content-Type` included); nothing else changes.
     */
    function WithHeader(key: string, value: string): (r: HttpResponse)
      ensures r.statusCode == statusCode && r.statusText == statusText && r.body == body
      ensures r.headers.Keys == headers.Keys + {key} && r.headers[key] == value
      ensures forall k :: k in headers && k != key ==> r.headers[k] == headers[k]
    {
      this.(headers := headers[key := value])
    }

    // -------------------------------------------------------------------------
    // Serialisation
    // -------------------------------------------------------------------------

    /**
     * The status line, without its line terminator: it starts with the
     * version, ends with the reason phrase, and holds a carriage return only
     * if the reason phrase does.
     */
    function StatusLine(): (line: string)
      ensures |line| > 9 + |statusText| && line[..9] == "HTTP/1.1 "
      ensures line[|line| - |statusText|..] == statusText
      ensures line[9..|line| - |statusText| - 1] == Decimal(statusCode)
      ensures line[|line| - |statusText| - 1] == ' '
      ensures '\r' in line ==> '\r' in statusText
    {
      var code := Decimal(statusCode);
      assert '\r' !in code by {
        assert forall i :: 0 <= i < |code| ==> IsDigit(code[i]);
      }
      var line := "HTTP/1.1 " + code + " " + statusText;
      assert line[..9] == "HTTP/1.1 ";
      assert line[|line| - |statusText|..] == statusText;
      assert line[9..|line| - |statusText| - 1] == code;
      line
    }

    /** The header lines for the keys of `order`, in that order. */
    function HeaderLines(order: seq<string>): (lines: seq<string>)
      requires forall k :: k in order ==> k in headers
      ensures |lines| == |order|
      ensures forall i :: 0 <= i < |order| ==> lines[i] == HeaderLine(order[i], headers[order[i]])
    {
      seq(|order|, i requires 0 <= i < |order| => HeaderLine(order[i], headers[order[i]]))
    }

    /** The header block for the keys of `order`: each line followed by "\r\n". */
    function HeaderBlock(order: seq<string>): string
      requires forall k :: k in order ==> k in headers
    {
      if order == [] then ""
      else
        var key := order[|order| - 1];
        HeaderBlock(order[..|order| - 1]) + HeaderLine(key, headers[key]) + CRLF
    }

    /**
     * The text `to_string` produces when the header map is walked in the
     * order `order`: the status line, one line per header, an empty line and
     * the body.
     */
    function Serialization(order: seq<string>): (s: string)
      requires forall k :: k in order ==> k in headers
      ensures |s| >= |StatusLine()| + 4 + |body|
      ensures s[..|StatusLine()| + 2] == StatusLine() + CRLF
      ensures s[|s| - |body| - 2..] == CRLF + body
    {
      var head := StatusLine() + CRLF;
      var s := head + HeaderBlock(order) + CRLF + body;
      assert s[..|head|] == head;
      assert s[|s| - |body| - 2..] == CRLF + body;
      s
    }

    /**
     * The serialiser. The map is walked in an order it does not promise, so
     * the result is the serialisation for some enumeration of the keys,
     * returned alongside as a ghost value.
     */
    method ToString() returns (s: string, ghost order: seq<string>)
      ensures IsEnumeration(order, headers.Keys)
      ensures s == Serialization(order)
    {
      s := StatusLine() + CRLF;
      order := [];
      var remaining := headers.Keys;
      while remaining != {}
        invariant remaining <= headers.Keys
        invariant IsEnumeration(order, headers.Keys - remaining)
        invariant s == StatusLine() + CRLF + HeaderBlock(order)
        decreases |remaining|
      {
        var key :| key in remaining;
        s := s + HeaderLine(key, headers[key]) + CRLF;
        assert (order + [key])[..|order|] == order;
        order := order + [key];
        remaining := remaining - {key};
      }
      s := s + CRLF;
      s := s + body;
    }
  }

  // ---------------------------------------------------------------------------
  // Properties of the builder
  // ---------------------------------------------------------------------------

  /** `json` is `new` with its content type replaced. */
  lemma JsonIsNewWithHeader(statusCode: StatusCode, statusText: string)
    ensures HttpResponse.Json(statusCode, statusText)
         == HttpResponse.New(statusCode, statusText).WithHeader(ContentType, "application/json")
  {
  }

  /** A second `with_body` replaces everything the first one set. */
  lemma WithBodyTwice(r: HttpResponse, first: string, second: string)
    ensures r.WithBody(first).WithBody(second) == r.WithBody(second)
  {
    var a := r.WithBody(first).WithBody(second);
    var b := r.WithBody(second);
    assert a.headers == b.headers;
  }

  /** Setting the same header twice keeps only the second value. */
  lemma WithHeaderTwice(r: HttpResponse, key: string, first: string, second: string)
    ensures r.WithHeader(key, first).WithHeader(key, second) == r.WithHeader(key, second)
  {
    var a := r.WithHeader(key, first).WithHeader(key, second);
    var b := r.WithHeader(key, second);
    assert a.headers == b.headers;
  }

  /** Headers with different keys can be set in either order. */
  lemma WithHeaderCommutes(r: HttpResponse, k1: string, v1: string, k2: string, v2: string)
    requires k1 != k2
    ensures r.WithHeader(k1, v1).WithHeader(k2, v2) == r.WithHeader(k2, v2).WithHeader(k1, v1)
  {
    var a := r.WithHeader(k1, v1).WithHeader(k2, v2);
    var b := r.WithHeader(k2, v2).WithHeader(k1, v1);
    assert a.headers == b.headers;
  }

  // ---------------------------------------------------------------------------
  // Properties of the serialiser
  // ---------------------------------------------------------------------------

  /** A list without repetitions is as long as the set of its elements. */
  lemma {:induction false} EnumerationLength(order: seq<string>, keys: set<string>)
    requires IsEnumeration(order, keys)
    ensures |order| == |keys|
  {
    if order != [] {
      var last := order[|order| - 1];
      var init := order[..|order| - 1];
      assert forall k :: k in init ==> k in order;
      assert last !in init by {
        forall i | 0 <= i < |init| ensures init[i] != last {
          assert init[i] == order[i];
        }
      }
      assert forall k :: k in order ==> k in init || k == last by {
        forall k | k in order ensures k in init || k == last {
          var i :| 0 <= i < |order| && order[i] == k;
          if i < |order| - 1 { assert init[i] == k; }
        }
      }
      assert IsEnumeration(init, keys - {last});
      EnumerationLength(init, keys - {last});
    }
  }

  /**
   * Whatever order the map is walked in, the header lines are exactly one
   * `key: value` line per header: every header has its line and every line
   * comes from a header, and there are as many lines as headers.
   */
  lemma HeaderLinesOfEnumeration(r: HttpResponse, order: seq<string>)
    requires IsEnumeration(order, r.headers.Keys)
    ensures |r.HeaderLines(order)| == |r.headers|
    ensures forall line :: line in r.HeaderLines(order) <==>
              exists k :: k in r.headers && line == HeaderLine(k, r.headers[k])
  {
    EnumerationLength(order, r.headers.Keys);
    var lines := r.HeaderLines(order);
    forall line | line in lines
      ensures exists k :: k in r.headers && line == HeaderLine(k, r.headers[k])
    {
      var i :| 0 <= i < |lines| && lines[i] == line;
      assert order[i] in order;
    }
    forall k | k in r.headers
      ensures HeaderLine(k, r.headers[k]) in lines
    {
      var i :| 0 <= i < |order| && order[i] == k;
      assert lines[i] == HeaderLine(k, r.headers[k]);
    }
  }

  /** The header block is the header lines joined after the status line. */
  lemma {:induction false} HeaderBlockJoined(r: HttpResponse, order: seq<string>)
    requires forall k :: k in order ==> k in r.headers
    ensures r.StatusLine() + CRLF + r.HeaderBlock(order)
         == JoinCrlf([r.StatusLine()] + r.HeaderLines(order)) + CRLF
  {
    if order != [] {
      var init := order[..|order| - 1];
      var key := order[|order| - 1];
      var line := HeaderLine(key, r.headers[key]);
      HeaderBlockJoined(r, init);
      assert r.HeaderLines(order) == r.HeaderLines(init) + [line];
      assert [r.StatusLine()] + r.HeaderLines(order) == ([r.StatusLine()] + r.HeaderLines(init)) + [line];
      JoinCrlfSnoc([r.StatusLine()] + r.HeaderLines(init), line);
      ConcatAssociative(r.StatusLine() + CRLF, r.HeaderBlock(init), line + CRLF);
      ConcatAssociative(JoinCrlf([r.StatusLine()] + r.HeaderLines(init)) + CRLF, line, CRLF);
    } else {
      assert r.HeaderLines(order) == [];
      assert [r.StatusLine()] + r.HeaderLines(order) == [r.StatusLine()];
    }
  }

  /**
   * Read back line by line, a serialised response is its status line, one
   * line per header, an empty line, and then the body's own lines, provided
   * no reason phrase, key or value holds a carriage return.
   */
  lemma SerializationLines(r: HttpResponse, order: seq<string>)
    requires IsEnumeration(order, r.headers.Keys)
    requires '\r' !in r.statusText
    requires forall k :: k in r.headers ==> '\r' !in k && '\r' !in r.headers[k]
    ensures SplitCrlf(r.Serialization(order))
         == ([r.StatusLine()] + r.HeaderLines(order)) + ([""] + SplitCrlf(r.body))
  {
    var status := r.StatusLine();
    var lines := r.HeaderLines(order);
    NoCrlfWithoutCarriageReturn(status);
    forall line | line in lines ensures NoCrlf(line) {
      var i :| 0 <= i < |lines| && lines[i] == line;
      assert order[i] in order;
      NoCrlfWithoutCarriageReturn(line);
    }
    HeaderBlockJoined(r, order);
    SplitCrlfMessage(status, lines, r.body);
  }

  /** The status line, written out field by field. */
  lemma StatusLineText(r: HttpResponse)
    ensures r.StatusLine() == "HTTP/1.1 " + Decimal(r.statusCode) + " " + r.statusText
  {
  }

  /**
   * With a single header there is one enumeration only, so the text is
   * fixed: a fresh response always serialises to its status line, its
   * content type line, an empty line and nothing else.
   */
  lemma NewSerialization(statusCode: StatusCode, statusText: string, order: seq<string>)
    requires IsEnumeration(order, HttpResponse.New(statusCode, statusText).headers.Keys)
    ensures HttpResponse.New(statusCode, statusText).Serialization(order)
         == "HTTP/1.1 " + Decimal(statusCode) + " " + statusText + CRLF
            + "Content-Type: text/html" + CRLF + CRLF
  {
    var r := HttpResponse.New(statusCode, statusText);
    EnumerationLength(order, r.headers.Keys);
    assert order == [ContentType] by {
      assert |order| == 1 && order[0] in r.headers.Keys;
    }
    assert order[..0] == [];
    var status := "HTTP/1.1 " + Decimal(statusCode) + " " + statusText;
    StatusLineText(r);
    var field := "Content-Type: text/html";
    assert HeaderLine(ContentType, "text/html") == field;
    assert r.HeaderBlock(order) == "" + field + CRLF;
    assert "" + field + CRLF == field + CRLF;
    assert r.Serialization(order) == status + CRLF + (field + CRLF) + CRLF + "";
  }

  // ---------------------------------------------------------------------------
  // The JSON example: `json(200, "OK").with_body("{\"a\":1}")`
  // ---------------------------------------------------------------------------

  /** The example body is seven ASCII characters, hence seven bytes. */
  lemma JsonExampleLength()
    ensures Decimal(Utf8Length("{\"a\":1}")) == "7"
  {
    assert IsAscii("{\"a\":1}");
  }

  lemma JsonExampleHeaders()
    ensures HttpResponse.Json(200, "OK").WithBody("{\"a\":1}").headers
         == map[ContentType := "application/json", ContentLength := "7"]
  {
    JsonExampleLength();
  }

  /** With two headers, the two enumerations give the two orders of their lines. */
  lemma TwoHeaderLines(r: HttpResponse, order: seq<string>, k1: string, k2: string)
    requires k1 != k2 && r.headers.Keys == {k1, k2}
    requires IsEnumeration(order, r.headers.Keys)
    ensures var a := HeaderLine(k1, r.headers[k1]); var b := HeaderLine(k2, r.headers[k2]);
      r.HeaderLines(order) == [a, b] || r.HeaderLines(order) == [b, a]
  {
    EnumerationLength(order, r.headers.Keys);
    assert order[0] in order && order[1] in order;
  }

  lemma JsonExampleFieldLines()
    ensures HeaderLine(ContentLength, "7") == "Content-Length: 7"
    ensures HeaderLine(ContentType, "application/json") == "Content-Type: application/json"
  {
  }

  /**
   * The example serialises with exactly the header lines `Content-Length: 7`
   * and `Content-Type: application/json`, in one order or the other.
   */
  lemma JsonExampleLines(order: seq<string>)
    requires IsEnumeration(order, HttpResponse.Json(200, "OK").WithBody("{\"a\":1}").headers.Keys)
    ensures var lines := HttpResponse.Json(200, "OK").WithBody("{\"a\":1}").HeaderLines(order);
      lines == ["Content-Length: 7", "Content-Type: application/json"]
      || lines == ["Content-Type: application/json", "Content-Length: 7"]
  {
    var r := HttpResponse.Json(200, "OK").WithBody("{\"a\":1}");
    JsonExampleHeaders();
    TwoHeaderLines(r, order, ContentLength, ContentType);
    JsonExampleFieldLines();
  }
}
