/** The request parser's own test cases (`src/request/parser.rs`), as
    instances of the general round-trip and error lemmas. */
module ParserExamples {
  import opened Base
  import opened Text
  import opened Utf8
  import opened Headers
  import opened Requests
  import opened Parser
  import opened ParserRoundTrip
  import opened RequestRoundTrip
  import opened ParamsProps

  /** `GET /path?p1=v1&p2=v2#fragment HTTP/1.1` */
  const GetLine: RequestLine := RequestLine(GET, "/path", "p1=v1&p2=v2", "fragment")

  /** `Host: localhost` */
  const HostOnly: seq<(string, string)> := [("Host", "localhost")]

  /** `Host: localhost` then `Content-Length: n` */
  function HostAndLength(n: nat): seq<(string, string)> {
    [("Host", "localhost"), ("Content-Length", NatToString(n))]
  }

  lemma HostIsNotLength()
    ensures !SameName("Host", "content-length")
  {
    assert |Lower("Host")| != |Lower("content-length")|;
  }

  /** A header list that only names the host declares length 0. */
  lemma HostOnlyDeclaresNothing()
    ensures WellFormedHeaders(HostOnly)
    ensures DeclaredLength(HeaderMapOf(HostOnly)) == Some(0)
  {
    HeaderMapOfLastWins(HostOnly, "content-length");
    HostIsNotLength();
    assert HostOnly[..0] == [];
  }

  /** A printed `Content-Length` after the host declares exactly `n`. */
  lemma HostAndLengthDeclares(n: nat)
    requires n <= USIZE_MAX
    ensures WellFormedHeaders(HostAndLength(n))
    ensures DeclaredLength(HeaderMapOf(HostAndLength(n))) == Some(n)
  {
    var hs := HostAndLength(n);
    HeaderMapOfLastWins(hs, "content-length");
    assert Lower("Content-Length") == Lower("content-length");
    ParseUsizeOfNatToString(n);
    assert '\r' !in NatToString(n) by {
      forall i | 0 <= i < |NatToString(n)| ensures NatToString(n)[i] != '\r' {
        assert IsDigit(NatToString(n)[i]);
      }
    }
  }

  /** The header line of an ASCII header is four bytes longer than its name
      and value together. */
  lemma AsciiHeaderLineLength(h: (string, string))
    requires IsAscii(h.0) && IsAscii(h.1)
    ensures |HeaderLine(h)| == |h.0| + |h.1| + 4
  {
    EncodeAscii(h.0);
    EncodeAscii(h.1);
  }

  /** Adding parameters leaves every other field as the request line, the
      headers and the payload set it. */
  lemma AssembledFields(line: RequestLine, hs: seq<(string, string)>, payload: Option<seq<byte>>, n: nat)
    ensures var r := Assembled(line, hs, payload, n);
      && r.verb == line.verb && r.path == line.path
      && r.query == line.query && r.fragment == line.fragment
      && r.headers == HeaderMapOf(hs) && r.payload == payload && r.contentLength == n
  {
    var req := Request(line.verb, line.path, line.query, line.fragment, HeaderMapOf(hs), payload, n, map[]);
    BodyParamsCondition(WithQueryParams(req));
  }

  /** The fields of a parsed well-formed request: the request line's, the
      collected headers, and the body as payload. */
  lemma ParsedFields(line: RequestLine, hs: seq<(string, string)>, body: seq<byte>)
    requires WellFormedLine(line) && WellFormedHeaders(hs)
    requires DeclaredLength(HeaderMapOf(hs)) == Some(|body|)
    ensures var r := Parse(WireRequest(line, hs, body));
      && r.Ok?
      && r.value.verb == line.verb && r.value.path == line.path
      && r.value.query == line.query && r.value.fragment == line.fragment
      && r.value.headers == HeaderMapOf(hs)
      && r.value.payload == (if body == [] then None else Some(body)) && r.value.contentLength == |body|
      && r.value.params == Assembled(line, hs, if body == [] then None else Some(body), |body|).params
  {
    var input := WireRequest(line, hs, body);
    var payload := if body == [] then None else Some(body);
    ParseWire(line, hs, body, []);
    assert input + [] == input;
    assert Parse(input) == Ok(Assembled(line, hs, payload, |body|));
    AssembledFields(line, hs, payload, |body|);
  }

  lemma GetLineWellFormed()
    ensures WellFormedLine(GetLine)
  {
  }

  /** The one header of `HostOnly`, under its lower-cased name. */
  lemma HostOnlyMap()
    ensures HeaderMapOf(HostOnly) == map["host" := "localhost"]
  {
    assert HostOnly[..0] == [];
    assert Lower("Host") == "host";
  }

  /** The two headers of `HostAndLength(n)`, under their lower-cased
      names. */
  lemma HostAndLengthMap(n: nat, hs: seq<(string, string)>)
    requires hs == HostAndLength(n)
    ensures HeaderMapOf(hs) == map["host" := "localhost", "content-length" := NatToString(n)]
  {
    assert hs[..1] == HostOnly;
    HostOnlyMap();
    assert Lower("Content-Length") == "content-length";
  }

  /** The query of `test_parser_get` as pairs. */
  const GetPairs: seq<(string, string)> := [("p1", "v1"), ("p2", "v2")]

  /** `p1=v1&p2=v2` is the `&`-join of the texts of `GetPairs`. */
  lemma GetQueryIsJoin(q: string)
    requires q == "p1=v1&p2=v2"
    ensures PlainPairs(GetPairs)
    ensures Join(PairTexts(GetPairs), '&') == q
  {
    assert PairText(GetPairs[0]) == "p1=v1";
    assert PairText(GetPairs[1]) == "p2=v2";
    assert PairTexts(GetPairs) == ["p1=v1", "p2=v2"];
    assert Join(["p1=v1", "p2=v2"][1..], '&') == "p2=v2";
  }

  /** `parse_params` reads `p1=v1&p2=v2` as two pairs, in order. */
  lemma GetQueryPairs(q: string)
    requires q == "p1=v1&p2=v2"
    ensures ParseParams(q) == GetPairs
  {
    GetQueryIsJoin(q);
    ParseParamsOfJoin(GetPairs);
  }

  /** Adding the two pairs under `Query` gives one list per name. */
  lemma GetPairsAdded(pairs: seq<(string, string)>)
    requires pairs == GetPairs
    ensures AddParams(map[], pairs, n => Query(n)) == map[Query("p1") := ["v1"], Query("p2") := ["v2"]]
  {
    var none: Params := map[];
    var one := ParamsAdd(none, Query("p1"), "v1");
    assert Query("p1") !in none;
    assert [] + ["v1"] == ["v1"];
    assert one == map[Query("p1") := ["v1"]];
    assert AddParams(none, pairs, n => Query(n)) == AddParams(one, pairs[1..], n => Query(n));
    assert pairs[1..][1..] == [];
    assert AddParams(one, pairs[1..], n => Query(n)) == ParamsAdd(one, Query("p2"), "v2");
    assert Query("p2") !in one;
    assert [] + ["v2"] == ["v2"];
    assert ParamsAdd(one, Query("p2"), "v2") == one[Query("p2") := ["v2"]];
  }

  /** Without a payload, only the query adds parameters. */
  lemma QueryOnlyParams(line: RequestLine, hs: seq<(string, string)>, n: nat)
    ensures Assembled(line, hs, None, n).params == AddParams(map[], ParseParams(line.query), n => Query(n))
  {
  }

  /** `test_parser_get`: the request line is split into path `/path`, query
      `p1=v1&p2=v2` and fragment `fragment`; the only header is `host`;
      there is no payload; the query gives `p1` and `p2` one value each. */
  lemma ParserGetExample()
    ensures WellFormedLine(GetLine)
    ensures var r := Parse(WireRequest(GetLine, HostOnly, []));
      && r.Ok?
      && r.value.verb == GET && r.value.path == "/path"
      && r.value.query == "p1=v1&p2=v2" && r.value.fragment == "fragment"
      && r.value.headers == map["host" := "localhost"]
      && r.value.payload == None && r.value.contentLength == 0
      && r.value.params == map[Query("p1") := ["v1"], Query("p2") := ["v2"]]
  {
    GetLineWellFormed();
    HostOnlyDeclaresNothing();
    ParsedFields(GetLine, HostOnly, []);
    HostOnlyMap();
    QueryOnlyParams(GetLine, HostOnly, 0);
    GetQueryPairs(GetLine.query);
    GetPairsAdded(GetPairs);
  }

  /** `POST /` and `GET /`: no query, no fragment. */
  lemma RootLineWellFormed(line: RequestLine)
    requires line.path == "/" && line.query == "" && line.fragment == ""
    ensures WellFormedLine(line)
    ensures |LineBytes(line)| == |MethodName(line.verb)| + 13
  {
  }

  /** The body `foo`. */
  const Foo: seq<byte> := [102, 111, 111]

  /** `HostAndLength(n)` has no `content-type` header. */
  lemma HostAndLengthNoContentType(n: nat, hs: seq<(string, string)>)
    requires hs == HostAndLength(n)
    ensures HeaderGet(HeaderMapOf(hs), "content-type") == None
  {
    HostAndLengthMap(n, hs);
    assert Lower("content-type") == "content-type";
  }

  /** An empty query gives no pairs. */
  lemma EmptyQueryPairs(q: string)
    requires q == ""
    ensures ParseParams(q) == []
  {
    assert Split(q, '&') == [[]];
    assert Split(q, '&')[1..] == [];
  }

  /** With an empty query and no `content-type` header, the request
      carries no parameters. */
  lemma NoParams(line: RequestLine, hs: seq<(string, string)>, payload: Option<seq<byte>>, n: nat)
    requires line.query == "" && HeaderGet(HeaderMapOf(hs), "content-type") == None
    ensures Assembled(line, hs, payload, n).params == map[]
  {
    EmptyQueryPairs(line.query);
  }

  /** `test_parser_post`: `POST /` with no query or fragment, exactly the
      headers `host` and `content-length: 3`, the body `foo` as its payload,
      and no parameters, since the content type is not a form. */
  lemma ParserPostExample(line: RequestLine, hs: seq<(string, string)>, body: seq<byte>)
    requires line == RequestLine(POST, "/", "", "") && hs == HostAndLength(3) && body == Foo
    ensures WellFormedLine(line)
    ensures var r := Parse(WireRequest(line, hs, body));
      && r.Ok?
      && r.value.verb == POST && r.value.path == "/"
      && r.value.query == "" && r.value.fragment == ""
      && r.value.payload == Some(Foo) && r.value.contentLength == 3
      && r.value.headers == map["host" := "localhost", "content-length" := "3"]
      && r.value.params == map[]
  {
    RootLineWellFormed(line);
    HostAndLengthDeclares(3);
    ParsedFields(line, hs, body);
    HostAndLengthMap(3, hs);
    assert NatToString(3) == "3";
    HostAndLengthNoContentType(3, hs);
    NoParams(line, hs, Some(body), 3);
  }

  /** `test_parser_nonsense`: `FOO` fails at position 0. */
  lemma ParserNonsenseExample()
    ensures Parse(AsciiBytes("FOO")) == Err(ParseError(0, "invalid HTTP method"))
  {
    assert ClassText("FOO", IsUpperByte);
    ParseUnknownMethod("FOO", []);
    assert AsciiBytes("FOO") + [] == AsciiBytes("FOO");
  }

  lemma TwoHeaderLines(a: (string, string), b: (string, string))
    ensures HeaderLines([a, b]) == HeaderLine(a) + HeaderLine(b)
  {
    assert [a, b][1..] == [b];
    assert [b][1..] == [];
    assert HeaderLines([b]) == HeaderLine(b) + HeaderLines([]);
  }

  /** Two ASCII header lines take eight bytes besides their text. */
  lemma TwoAsciiHeadersLength(a: (string, string), b: (string, string))
    requires IsAscii(a.0) && IsAscii(a.1) && IsAscii(b.0) && IsAscii(b.1)
    ensures |HeaderLines([a, b])| == |a.0| + |a.1| + |b.0| + |b.1| + 8
  {
    AsciiHeaderLineLength(a);
    AsciiHeaderLineLength(b);
    TwoHeaderLines(a, b);
  }

  /** Printed numbers are ASCII. */
  lemma DigitsAscii(n: nat)
    ensures IsAscii(NatToString(n))
  {
    var d := NatToString(n);
    forall i | 0 <= i < |d| ensures d[i] as int < 0x80 {
      assert IsDigit(d[i]);
    }
  }

  lemma HostAndLengthShape(n: nat, hs: seq<(string, string)>)
    requires hs == HostAndLength(n)
    ensures hs == [hs[0], hs[1]]
    ensures IsAscii(hs[0].0) && IsAscii(hs[0].1) && IsAscii(hs[1].0) && IsAscii(hs[1].1)
    ensures |hs[0].0| + |hs[0].1| + |hs[1].0| + |hs[1].1| == 27 + |NatToString(n)|
  {
    DigitsAscii(n);
    assert IsAscii("Host");
    assert IsAscii("localhost");
    assert IsAscii("Content-Length");
  }

  /** The two header lines of `HostAndLength(n)`: 35 bytes and the
      digits. */
  lemma HostAndLengthBytes(n: nat, hs: seq<(string, string)>)
    requires hs == HostAndLength(n)
    ensures |HeaderLines(hs)| == 35 + |NatToString(n)|
  {
    HostAndLengthShape(n, hs);
    TwoAsciiHeadersLength(hs[0], hs[1]);
  }

  /** A body short of the declared length: the error sits at the input's
      end and names the shortfall. */
  lemma ShortFields(line: RequestLine, hs: seq<(string, string)>, body: seq<byte>, n: nat)
    requires WellFormedLine(line) && WellFormedHeaders(hs)
    requires DeclaredLength(HeaderMapOf(hs)) == Some(n) && n > |body|
    ensures var input := WireRequest(line, hs, body);
      && |input| == |LineBytes(line)| + |HeaderLines(hs)| + 2 + |body|
      && Parse(input).Err?
      && Parse(input).error.position == |input|
      && Parse(input).error.reason == "expected " + NatToString(n - |body|) + " more bytes"
  {
    ParseShortPayload(line, hs, body, n);
  }

  lemma PrintedSmall()
    ensures NatToString(10) == "10" && NatToString(7) == "7"
  {
  }

  /** The shortfall message for seven missing bytes. */
  lemma SevenMoreBytes(d: string)
    requires d == "7"
    ensures "expected " + d + " more bytes" == "expected 7 more bytes"
  {
  }

  /** The request of the too-long test: well formed, declaring 10, and
      58 bytes on the wire. */
  lemma TooLongInput(line: RequestLine, hs: seq<(string, string)>, body: seq<byte>)
    requires line == RequestLine(GET, "/", "", "") && hs == HostAndLength(10) && body == Foo
    ensures WellFormedLine(line) && WellFormedHeaders(hs)
    ensures DeclaredLength(HeaderMapOf(hs)) == Some(10) && |body| == 3
    ensures |LineBytes(line)| + |HeaderLines(hs)| + 2 + |body| == 58
  {
    RootLineWellFormed(line);
    HostAndLengthDeclares(10);
    HostAndLengthBytes(10, hs);
    PrintedSmall();
  }

  /** `test_parser_content_length_too_long`: a `GET /` declaring 10 bytes
      but carrying `foo` is 58 bytes long and fails at position 58, 7 bytes
      short. */
  lemma ParserTooLongExample(line: RequestLine, hs: seq<(string, string)>, body: seq<byte>)
    requires line == RequestLine(GET, "/", "", "") && hs == HostAndLength(10) && body == Foo
    ensures WellFormedLine(line)
    ensures var input := WireRequest(line, hs, body);
      && |input| == 58
      && Parse(input).Err?
      && Parse(input).error.position == 58
      && Parse(input).error.reason == "expected 7 more bytes"
  {
    TooLongInput(line, hs, body);
    ShortFields(line, hs, body, 10);
    PrintedSmall();
    SevenMoreBytes(NatToString(7));
  }
}
