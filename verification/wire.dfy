/** Header lines on the wire, and the round trip of a whole request through
    `parse`. */
module RequestRoundTrip {
  import opened Base
  import opened Text
  import opened Utf8
  import opened Headers
  import opened Requests
  import opened Parser
  import opened ParserProps
  import opened ParserRoundTrip

  /** A header the parser can read back: no `:` in the name, a name that
      does not start with `\r` (which would end the header block), no `\r`
      in the value, and a value that does not start with a blank (blanks
      after the colon are skipped). */
  predicate WellFormedHeader(h: (string, string)) {
    && ':' !in h.0 && (h.0 == [] || h.0[0] != '\r')
    && '\r' !in h.1 && (h.1 == [] || (h.1[0] != ' ' && h.1[0] != '\t'))
  }

  /** `name: value CRLF` */
  function HeaderLine(h: (string, string)): seq<byte> {
    Encode(h.0) + [':' as int, SP] + Encode(h.1) + CRLF
  }

  function HeaderLines(hs: seq<(string, string)>): seq<byte> {
    if hs == [] then [] else HeaderLine(hs[0]) + HeaderLines(hs[1..])
  }

  /** Where the parts of `nb : SP vb CRLF` sit, at the given positions. */
  lemma HeaderLayout(input: seq<byte>, k: nat, nb: seq<byte>, vb: seq<byte>, a1: nat, c: nat, a2: nat, a3: nat, end: nat)
    requires SegAt(input, k, nb + [':' as int, SP] + vb + CRLF)
    requires a1 == k + |nb| && c == a1 + 1 && a2 == c + 1 && a3 == a2 + |vb| && end == a3 + 2
    ensures SegAt(input, k, nb) && SegAt(input, a2, vb) && end <= |input|
    ensures input[a1] == ':' as int && input[c] == SP && input[a3] == CR && SegAt(input, a3, CRLF)
    ensures input[a2] == (if vb != [] then vb[0] else CR)
    ensures nb != [] ==> input[k] == nb[0]
  {
    SegSplit(input, k, nb + [':' as int, SP] + vb, CRLF);
    SegSplit(input, k, nb + [':' as int, SP], vb);
    SegSplit(input, k, nb, [':' as int, SP]);
    SegIndex(input, a1, [':' as int, SP], 0);
    SegIndex(input, a1, [':' as int, SP], 1);
    SegIndex(input, a3, CRLF, 0);
    if vb != [] { SegIndex(input, a2, vb, 0); }
    if nb != [] { SegIndex(input, k, nb, 0); }
  }

  /** `until` over a run of bytes without the stop byte. */
  lemma UntilSegAt(input: seq<byte>, k: nat, bs: seq<byte>, b: byte, e: nat)
    requires SegAt(input, k, bs) && b !in bs && e == k + |bs| && e < |input| && input[e] == b
    ensures Until(input, At(input, k), b) == Ok(Parsed(bs, At(input, e)))
  {
    forall i | k <= i < e
      ensures input[i] != b
    {
      SegIndex(input, k, bs, i - k);
    }
    UntilAt(input, k, e, b);
    SegSlice(input, k, bs);
  }

  /** `expects` over bytes the input holds. */
  lemma ExpectsSegAt(input: seq<byte>, k: nat, bs: seq<byte>, e: nat)
    requires SegAt(input, k, bs) && e == k + |bs|
    ensures Expects(input, At(input, k), bs) == Ok(Parsed((), At(input, e)))
  {
    SegSlice(input, k, bs);
    ExpectsAt(input, k, bs);
  }

  /** The colon after the name. */
  lemma ColonAt(input: seq<byte>, a1: nat, c: nat)
    requires c == a1 + 1 && a1 < |input| && input[a1] == ':' as int
    ensures Expects(input, At(input, a1), [':' as int]) == Ok(Parsed((), At(input, c)))
  {
    ExpectsSegAt(input, a1, [':' as int], c);
  }

  /** The blank after the colon. */
  lemma BlankAt(input: seq<byte>, c: nat, a2: nat)
    requires a2 == c + 1 && a2 < |input| && input[c] == SP && !IsWhitespaceByte(input[a2])
    ensures Star(input, At(input, c), IsWhitespaceByte).st == At(input, a2)
  {
    StarAt(input, c, a2, IsWhitespaceByte);
  }

  /** How `ParseHeader` composes its stages. */
  lemma HeaderSteps(input: seq<byte>, k: nat, h: (string, string), nb: seq<byte>, vb: seq<byte>, a1: nat, c: nat, a2: nat, a3: nat, end: nat)
    requires k <= |input| && a1 <= |input| && c <= |input| && a2 <= |input| && a3 <= |input| && end <= |input|
    requires Until(input, At(input, k), ':' as int) == Ok(Parsed(nb, At(input, a1)))
    requires Expects(input, At(input, a1), [':' as int]) == Ok(Parsed((), At(input, c)))
    requires Star(input, At(input, c), IsWhitespaceByte).st == At(input, a2)
    requires Until(input, At(input, a2), CR) == Ok(Parsed(vb, At(input, a3)))
    requires Expects(input, At(input, a3), CRLF) == Ok(Parsed((), At(input, end)))
    requires Utf8Text(nb) == Ok(h.0) && Utf8Text(vb) == Ok(h.1)
    ensures ParseHeader(input, At(input, k)) == Ok(Parsed(h, At(input, end)))
  {
  }

  /** The bytes of a text decode back to it. */
  lemma TextOfEncode(s: string)
    ensures Utf8Text(Encode(s)) == Ok(s)
  {
    DecodeEncode(s);
  }

  /** What a well-formed header's name and value look like as bytes. */
  predicate HeaderBytes(h: (string, string), nb: seq<byte>, vb: seq<byte>) {
    && Utf8Text(nb) == Ok(h.0) && Utf8Text(vb) == Ok(h.1)
    && ':' as int !in nb && (nb == [] || nb[0] != CR)
    && CR !in vb && (vb == [] || !IsWhitespaceByte(vb[0]))
  }

  lemma HeaderBytesOf(h: (string, string))
    requires WellFormedHeader(h)
    ensures HeaderBytes(h, Encode(h.0), Encode(h.1))
  {
    AsciiByteInEncode(h.0, ':');
    AsciiByteInEncode(h.1, '\r');
    if h.0 != [] { EncodeHead(h.0); }
    if h.1 != [] { EncodeHead(h.1); }
    TextOfEncode(h.0);
    TextOfEncode(h.1);
  }

  lemma HeaderBytesAt(input: seq<byte>, k: nat, h: (string, string), nb: seq<byte>, vb: seq<byte>, end: nat)
    requires HeaderBytes(h, nb, vb) && SegAt(input, k, nb + [':' as int, SP] + vb + CRLF)
    requires end == k + |nb| + 2 + |vb| + 2
    ensures ParseHeader(input, At(input, k)) == Ok(Parsed(h, At(input, end)))
    ensures input[k] != CR
  {
    var a1 := k + |nb|;
    var c := a1 + 1;
    var a2 := c + 1;
    var a3 := a2 + |vb|;
    HeaderLayout(input, k, nb, vb, a1, c, a2, a3, end);
    UntilSegAt(input, k, nb, ':' as int, a1);
    ColonAt(input, a1, c);
    BlankAt(input, c, a2);
    UntilSegAt(input, a2, vb, CR, a3);
    ExpectsSegAt(input, a3, CRLF, end);
    HeaderSteps(input, k, h, nb, vb, a1, c, a2, a3, end);
  }

  /** A well-formed header line parses back to its header. */
  lemma HeaderAt(input: seq<byte>, k: nat, h: (string, string), end: nat)
    requires WellFormedHeader(h) && SegAt(input, k, HeaderLine(h)) && end == k + |HeaderLine(h)|
    ensures ParseHeader(input, At(input, k)) == Ok(Parsed(h, At(input, end)))
    ensures input[k] != CR
  {
    HeaderBytesOf(h);
    HeaderBytesAt(input, k, h, Encode(h.0), Encode(h.1), end);
  }

  predicate WellFormedHeaders(hs: seq<(string, string)>) {
    forall i :: 0 <= i < |hs| ==> WellFormedHeader(hs[i])
  }

  /** How `ParseHeaders` takes one header line. */
  lemma HeadersStep(input: seq<byte>, k: nat, m: nat, end: nat, h: (string, string), rest: seq<(string, string)>)
    requires k < |input| && m <= |input| && end <= |input| && input[k] != CR
    requires ParseHeader(input, At(input, k)) == Ok(Parsed(h, At(input, m)))
    requires ParseHeaders(input, At(input, m)) == Ok(Parsed(rest, At(input, end)))
    ensures ParseHeaders(input, At(input, k)) == Ok(Parsed([h] + rest, At(input, end)))
  {
  }

  /** Well-formed header lines followed by `\r` parse back to the same
      headers, in order. */
  lemma {:induction false} HeadersAt(input: seq<byte>, k: nat, hs: seq<(string, string)>, end: nat)
    requires WellFormedHeaders(hs)
    requires SegAt(input, k, HeaderLines(hs)) && end == k + |HeaderLines(hs)| && end < |input| && input[end] == CR
    ensures ParseHeaders(input, At(input, k)) == Ok(Parsed(hs, At(input, end)))
    decreases |hs|
  {
    if hs != [] {
      var line := HeaderLine(hs[0]);
      var m := k + |line|;
      SegSplit(input, k, line, HeaderLines(hs[1..]));
      HeaderAt(input, k, hs[0], m);
      HeadersAt(input, m, hs[1..], end);
      HeadersStep(input, k, m, end, hs[0], hs[1..]);
      assert [hs[0]] + hs[1..] == hs;
    }
  }

  /** A request on the wire: request line, header lines, the blank line,
      the payload. */
  function WireRequest(line: RequestLine, hs: seq<(string, string)>, body: seq<byte>): seq<byte>
    requires WellFormedLine(line)
  {
    LineBytes(line) + HeaderLines(hs) + CRLF + body
  }

  /** The request `parse` assembles from a request line, headers and a
      payload: query parameters first, then body parameters. */
  function Assembled(line: RequestLine, hs: seq<(string, string)>, payload: Option<seq<byte>>, n: nat): Request<seq<byte>> {
    var req := Request(line.verb, line.path, line.query, line.fragment, HeaderMapOf(hs), payload, n, map[]);
    WithBodyParams(WithQueryParams(req))
  }

  /** Where the parts of `a b CRLF d t` sit, at the given positions. */
  lemma WireLayout(input: seq<byte>, a: seq<byte>, b: seq<byte>, d: seq<byte>, t: seq<byte>, l: nat, h: nat)
    requires input == a + b + CRLF + d + t && l == |a| && h == l + |b|
    ensures SegAt(input, 0, a) && SegAt(input, l, b)
    ensures h + 2 <= |input| && input[h] == CR && input[h + 1] == LF && input[h..h + 2] == CRLF
    ensures h + 2 + |d| <= |input| && input[h + 2..h + 2 + |d|] == d
  {
    assert input[h..h + 2] == CRLF;
    assert input[h + 2..h + 2 + |d|] == d;
  }

  /** How `parse` composes its stages. */
  lemma ParseSteps(input: seq<byte>, line: RequestLine, hs: seq<(string, string)>, l: nat, h: nat, n: nat, payload: Option<seq<byte>>)
    requires l <= |input| && h < |input|
    requires ParseRequestLine(input, At(input, 0)) == Ok(Parsed(line, At(input, l)))
    requires ParseHeaders(input, At(input, l)) == Ok(Parsed(hs, At(input, h)))
    requires DeclaredLength(HeaderMapOf(hs)) == Some(n)
    requires ParsePayload(input, At(input, h), n) == Ok(payload)
    ensures Parse(input) == Ok(Assembled(line, hs, payload, n))
  {
    StartAt(input);
  }

  /** The round trip: a well-formed request line, well-formed headers whose
      `Content-Length` (absent meaning 0) is the payload's length, and the
      payload, parse back to that request whatever bytes follow; an empty
      payload comes back as no payload. */
  lemma ParseWire(line: RequestLine, hs: seq<(string, string)>, body: seq<byte>, trailing: seq<byte>)
    requires WellFormedLine(line) && WellFormedHeaders(hs)
    requires DeclaredLength(HeaderMapOf(hs)) == Some(|body|)
    ensures Parse(WireRequest(line, hs, body) + trailing) == Ok(Assembled(line, hs, if body == [] then None else Some(body), |body|))
  {
    var input := WireRequest(line, hs, body) + trailing;
    var lb := LineBytes(line);
    var l := |lb|;
    var h := l + |HeaderLines(hs)|;
    WireLayout(input, lb, HeaderLines(hs), body, trailing, l, h);
    RequestLineAt(input, 0, line, l);
    HeadersAt(input, l, hs, h);
    if body == [] {
      PayloadEmptyAt(input, h);
    } else {
      PayloadAt(input, h, |body|);
    }
    ParseSteps(input, line, hs, l, h, |body|, if body == [] then None else Some(body));
  }

  /** How `parse` fails when the payload does. */
  lemma ParsePayloadFails(input: seq<byte>, line: RequestLine, hs: seq<(string, string)>, l: nat, h: nat, n: nat, e: ParseError)
    requires l <= |input| && h < |input|
    requires ParseRequestLine(input, At(input, 0)) == Ok(Parsed(line, At(input, l)))
    requires ParseHeaders(input, At(input, l)) == Ok(Parsed(hs, At(input, h)))
    requires DeclaredLength(HeaderMapOf(hs)) == Some(n)
    requires ParsePayload(input, At(input, h), n) == Err(e)
    ensures Parse(input) == Err(e)
  {
    StartAt(input);
  }

  /** A payload shorter than the declared length fails at the end of the
      input, naming how many bytes are missing. */
  lemma ParseShortPayload(line: RequestLine, hs: seq<(string, string)>, body: seq<byte>, n: nat)
    requires WellFormedLine(line) && WellFormedHeaders(hs)
    requires DeclaredLength(HeaderMapOf(hs)) == Some(n) && n > |body|
    ensures Parse(WireRequest(line, hs, body)) == Err(ParseError(|WireRequest(line, hs, body)|, "expected " + NatToString(n - |body|) + " more bytes"))
  {
    var input := WireRequest(line, hs, body);
    var lb := LineBytes(line);
    var l := |lb|;
    var h := l + |HeaderLines(hs)|;
    WireLayout(input, lb, HeaderLines(hs), body, [], l, h);
    RequestLineAt(input, 0, line, l);
    HeadersAt(input, l, hs, h);
    PayloadShort(input, h, n);
    assert h + 2 + n - |input| == n - |body|;
    ParsePayloadFails(input, line, hs, l, h, n, ParseError(|input|, "expected " + NatToString(n - |body|) + " more bytes"));
  }

  /** How `parse` fails on the declared length. */
  lemma ParseLengthFails(input: seq<byte>, line: RequestLine, hs: seq<(string, string)>, l: nat, h: nat, pos: nat)
    requires l <= |input| && h < |input| && pos == h + 1
    requires ParseRequestLine(input, At(input, 0)) == Ok(Parsed(line, At(input, l)))
    requires ParseHeaders(input, At(input, l)) == Ok(Parsed(hs, At(input, h)))
    requires DeclaredLength(HeaderMapOf(hs)).None?
    ensures Parse(input).Err?
    ensures Parse(input).error.position == pos
    ensures Parse(input).error.reason == "invalid content-length"
  {
    StartAt(input);
  }

  /** A `Content-Length` that is not a `usize` fails once the header block
      has been read, at the position just past its closing `\r`, whatever
      follows. */
  lemma ParseInvalidLength(line: RequestLine, hs: seq<(string, string)>, rest: seq<byte>)
    requires WellFormedLine(line) && WellFormedHeaders(hs)
    requires DeclaredLength(HeaderMapOf(hs)).None?
    ensures Parse(WireRequest(line, hs, rest)).Err?
    ensures Parse(WireRequest(line, hs, rest)).error.position == |LineBytes(line)| + |HeaderLines(hs)| + 1
    ensures Parse(WireRequest(line, hs, rest)).error.reason == "invalid content-length"
  {
    var input := WireRequest(line, hs, rest);
    var lb := LineBytes(line);
    var l := |lb|;
    var h := l + |HeaderLines(hs)|;
    WireLayout(input, lb, HeaderLines(hs), rest, [], l, h);
    RequestLineAt(input, 0, line, l);
    HeadersAt(input, l, hs, h);
    var pos := |LineBytes(line)| + |HeaderLines(hs)| + 1;
    ParseLengthFails(input, line, hs, l, h, pos);
  }

  /** An upper-case word that names none of the nine methods is rejected
      at position 0, whatever follows it. */
  lemma ParseUnknownMethod(s: string, rest: seq<byte>)
    requires s != [] && ClassText(s, IsUpperByte) && MethodFromStr(s).Err?
    requires rest == [] || !IsUpperByte(rest[0])
    ensures Parse(AsciiBytes(s) + rest) == Err(ParseError(0, "invalid HTTP method"))
  {
    var input := AsciiBytes(s) + rest;
    var j := |s|;
    assert input[..j] == AsciiBytes(s);
    assert j < |input| ==> input[j] == rest[0];
    PlusAt(input, 0, j, IsUpperByte);
    TextOfAscii(s);
    StartAt(input);
  }
}
