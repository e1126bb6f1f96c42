/** The HTTP/1.x request parser (`src/request/parser.rs`): a recursive
    descent over a finite byte sequence with one byte of lookahead.

    The source reads its stream through a 1024-byte buffer; here the stream
    is the whole input and the buffer is gone. The state keeps exactly the
    fields the grammar observes: the lookahead byte, how many bytes have
    been taken from the stream (the position errors report) and the `eof`
    flag that stops further reads. */
module Parser {
  import opened Base
  import opened Text
  import opened Utf8
  import opened Headers
  import opened Requests

  /** `RequestParserError`: the stream position and a reason. */
  datatype ParseError = ParseError(position: nat, reason: string)

  /** The verb as it is spelled on the wire. */
  function MethodName(m: Method): string {
    match m
    case GET => "GET"
    case HEAD => "HEAD"
    case POST => "POST"
    case PUT => "PUT"
    case PATCH => "PATCH"
    case DELETE => "DELETE"
    case CONNECT => "CONNECT"
    case OPTIONS => "OPTIONS"
    case TRACE => "TRACE"
  }

  /** `Method::from_str`: exactly the nine upper-case verbs; anything else
      fails at position 0. */
  function MethodFromStr(s: string): (r: Result<Method, ParseError>)
    ensures r.Ok? ==> MethodName(r.value) == s
    ensures r.Err? ==> r.error == ParseError(0, "invalid HTTP method")
  {
    match s
    case "GET" => Ok(GET)
    case "HEAD" => Ok(HEAD)
    case "POST" => Ok(POST)
    case "PUT" => Ok(PUT)
    case "PATCH" => Ok(PATCH)
    case "DELETE" => Ok(DELETE)
    case "CONNECT" => Ok(CONNECT)
    case "OPTIONS" => Ok(OPTIONS)
    case "TRACE" => Ok(TRACE)
    case _ => Err(ParseError(0, "invalid HTTP method"))
  }

  /** Every verb parses back from its name, so `MethodFromStr` succeeds on
      exactly the nine names. */
  lemma MethodRoundTrip(m: Method)
    ensures MethodFromStr(MethodName(m)) == Ok(m)
  {
  }

  lemma MethodFromStrExactly(s: string)
    ensures MethodFromStr(s).Ok? <==> exists m: Method :: MethodName(m) == s
  {
    if exists m: Method :: MethodName(m) == s {
      var m: Method :| MethodName(m) == s;
      MethodRoundTrip(m);
    }
  }

  // Byte classes of the grammar. The source lists them as byte strings;
  // these are the same sets written as ranges.

  predicate IsWhitespaceByte(b: byte) { b == ' ' as int || b == '\t' as int }

  predicate IsUpperByte(b: byte) { 'A' as int <= b <= 'Z' as int }

  predicate IsUnreservedByte(b: byte) {
    || 'A' as int <= b <= 'Z' as int || 'a' as int <= b <= 'z' as int || '0' as int <= b <= '9' as int
    || b == '-' as int || b == '.' as int || b == '_' as int || b == '~' as int
  }

  /** `PATH`: `/`, letters, digits and `-._~`. */
  predicate IsPathByte(b: byte) { b == '/' as int || IsUnreservedByte(b) }

  /** `QUERY`: letters, digits, `-._~` and `!$&'()*+,;=`. */
  predicate IsQueryByte(b: byte) {
    || IsUnreservedByte(b)
    || b == '!' as int || b == '$' as int || b == '&' as int || b == '\'' as int || b == '(' as int
    || b == ')' as int || b == '*' as int || b == '+' as int || b == ',' as int || b == ';' as int
    || b == '=' as int
  }

  /** `FRAGMENT`: the query bytes and `?/:@`. */
  predicate IsFragmentByte(b: byte) {
    IsQueryByte(b) || b == '?' as int || b == '/' as int || b == ':' as int || b == '@' as int
  }

  predicate IsVersionDigit(b: byte) { b == '0' as int || b == '1' as int }

  const CR: byte := 13
  const LF: byte := 10
  const CRLF: seq<byte> := [CR, LF]

  /** The parser's state: the lookahead byte, the number of bytes taken
      from the stream so far, and whether further reads are forbidden. */
  datatype PState = PState(peek: Option<byte>, position: nat, eof: bool)

  /** A measure every successful step keeps or lowers. */
  function Fuel(input: seq<byte>, st: PState): nat {
    2 * (if st.position <= |input| then |input| - st.position else 0) + (if st.peek.Some? then 1 else 0)
  }

  datatype Parsed<T> = Parsed(value: T, st: PState)

  type PResult<T> = Result<Parsed<T>, ParseError>

  /** `next`: hands out the lookahead byte and loads the following one,
      unless `eof` is set or the input is used up. */
  function Next(input: seq<byte>, st: PState): (r: (Option<byte>, PState))
    ensures r.0 == st.peek
    ensures Fuel(input, r.1) <= Fuel(input, st)
    ensures r.0.Some? ==> Fuel(input, r.1) < Fuel(input, st)
    ensures r.1.eof == st.eof
  {
    if st.eof then (st.peek, st.(peek := None))
    else if st.position < |input| then (st.peek, PState(Some(input[st.position]), st.position + 1, false))
    else (st.peek, st.(peek := None))
  }

  /** `expect`: the next byte must be `b`. */
  function Expect(input: seq<byte>, st: PState, b: byte): (r: PResult<()>)
    ensures r.Ok? <==> st.peek == Some(b)
    ensures r.Ok? ==> Fuel(input, r.value.st) < Fuel(input, st)
  {
    var (c, st') := Next(input, st);
    if c == Some(b) then Ok(Parsed((), st'))
    else Err(ParseError(st'.position, "expected '" + [b as char] + "'"))
  }

  /** `expects`: each byte of `bs` in turn. */
  function Expects(input: seq<byte>, st: PState, bs: seq<byte>): (r: PResult<()>)
    ensures r.Ok? ==> Fuel(input, r.value.st) <= Fuel(input, st)
    ensures r.Ok? && bs != [] ==> Fuel(input, r.value.st) < Fuel(input, st)
    decreases |bs|
  {
    if bs == [] then Ok(Parsed((), st))
    else
      var first :- Expect(input, st, bs[0]);
      Expects(input, first.st, bs[1..])
  }

  /** `one`: a single byte of the class. */
  function One(input: seq<byte>, st: PState, pred: byte -> bool): (r: PResult<seq<byte>>)
    ensures r.Ok? <==> st.peek.Some? && pred(st.peek.value)
    ensures r.Ok? ==> r.value.value == [st.peek.value] && Fuel(input, r.value.st) < Fuel(input, st)
    ensures r.Err? ==> r.error == ParseError(st.position, "unexpected character")
  {
    match st.peek
    case Some(p) =>
      if pred(p) then Ok(Parsed([p], Next(input, st).1))
      else Err(ParseError(st.position, "unexpected character"))
    case None => Err(ParseError(st.position, "unexpected character"))
  }

  /** `star`: the longest run of bytes of the class; never fails. */
  function Star(input: seq<byte>, st: PState, pred: byte -> bool): (r: Parsed<seq<byte>>)
    ensures forall i :: 0 <= i < |r.value| ==> pred(r.value[i])
    ensures r.st.peek.None? || !pred(r.st.peek.value)
    ensures Fuel(input, r.st) <= Fuel(input, st)
    decreases Fuel(input, st)
  {
    match st.peek
    case Some(p) =>
      if pred(p) then
        var rest := Star(input, Next(input, st).1, pred);
        Parsed([p] + rest.value, rest.st)
      else Parsed([], st)
    case None => Parsed([], st)
  }

  /** `plus`: one byte of the class, then `star`. */
  function Plus(input: seq<byte>, st: PState, pred: byte -> bool): (r: PResult<seq<byte>>)
    ensures r.Ok? <==> st.peek.Some? && pred(st.peek.value)
    ensures r.Ok? ==> r.value.value != [] && forall i :: 0 <= i < |r.value.value| ==> pred(r.value.value[i])
    ensures r.Ok? ==> Fuel(input, r.value.st) < Fuel(input, st)
    ensures r.Err? ==> r.error == ParseError(st.position, "unexpected character")
  {
    var first :- One(input, st, pred);
    var rest := Star(input, first.st, pred);
    Ok(Parsed(first.value + rest.value, rest.st))
  }

  /** `until`: every byte before the first `b`, which is left as the
      lookahead; fails instead of waiting when the input runs out. */
  function Until(input: seq<byte>, st: PState, b: byte): (r: PResult<seq<byte>>)
    ensures r.Ok? ==> b !in r.value.value && r.value.st.peek == Some(b)
    ensures r.Ok? ==> Fuel(input, r.value.st) <= Fuel(input, st)
    ensures r.Err? ==> r.error.reason == "unexpected end of input"
    decreases Fuel(input, st)
  {
    if st.peek == Some(b) then Ok(Parsed([], st))
    else
      var (c, st') := Next(input, st);
      match c
      case None => Err(ParseError(st'.position, "unexpected end of input"))
      case Some(x) =>
        var rest :- Until(input, st', b);
        Ok(Parsed([x] + rest.value, rest.st))
  }

  /** Text the source turns into a `String` with `from_utf8(..)?`; a
      failure becomes an error at position 0. */
  function Utf8Text(bytes: seq<byte>): (r: Result<string, ParseError>)
    ensures r.Ok? ==> Encode(r.value) == bytes
    ensures r.Ok? <==> Decode(bytes).Some?
  {
    match Decode(bytes)
    case Some(s) => EncodeDecode(bytes); Ok(s)
    case None => Err(ParseError(0, "invalid utf-8"))
  }

  /** `method`: a run of upper-case letters naming one of the nine verbs. */
  function ParseMethod(input: seq<byte>, st: PState): (r: PResult<Method>)
    ensures r.Ok? ==> Fuel(input, r.value.st) < Fuel(input, st)
  {
    var letters :- Plus(input, st, IsUpperByte);
    var name :- Utf8Text(letters.value);
    var m :- MethodFromStr(name);
    Ok(Parsed(m, letters.st))
  }

  /** `path`: a `/` followed by path bytes. */
  function ParsePath(input: seq<byte>, st: PState): (r: PResult<string>)
    ensures r.Ok? ==> Fuel(input, r.value.st) < Fuel(input, st)
    ensures r.Ok? ==> r.value.value != [] && r.value.value[0] == '/'
  {
    if st.peek != Some('/' as int) then Err(ParseError(st.position, "expected path starting with /"))
    else
      var bytes :- Plus(input, st, IsPathByte);
      var path :- Utf8Text(bytes.value);
      assert Encode(path)[0] == '/' as int;
      Ok(Parsed(path, bytes.st))
  }

  /** `query`: after a `?`, a non-empty run of query bytes; otherwise empty. */
  function ParseQuery(input: seq<byte>, st: PState): (r: PResult<string>)
    ensures r.Ok? ==> Fuel(input, r.value.st) <= Fuel(input, st)
  {
    if st.peek == Some('?' as int) then
      var mark := Expect(input, st, '?' as int).value;
      var bytes :- Plus(input, mark.st, IsQueryByte);
      var query :- Utf8Text(bytes.value);
      Ok(Parsed(query, bytes.st))
    else Ok(Parsed("", st))
  }

  /** `fragment`: after a `#`, a non-empty run of fragment bytes; otherwise
      empty. */
  function ParseFragment(input: seq<byte>, st: PState): (r: PResult<string>)
    ensures r.Ok? ==> Fuel(input, r.value.st) <= Fuel(input, st)
  {
    if st.peek == Some('#' as int) then
      var mark := Expect(input, st, '#' as int).value;
      var bytes :- Plus(input, mark.st, IsFragmentByte);
      var fragment :- Utf8Text(bytes.value);
      Ok(Parsed(fragment, bytes.st))
    else Ok(Parsed("", st))
  }

  /** `uri`: path, query and fragment in turn. */
  function ParseUri(input: seq<byte>, st: PState): (r: PResult<(string, string, string)>)
    ensures r.Ok? ==> Fuel(input, r.value.st) < Fuel(input, st)
    ensures r.Ok? ==> r.value.value.0 != [] && r.value.value.0[0] == '/'
  {
    var path :- ParsePath(input, st);
    var query :- ParseQuery(input, path.st);
    var fragment :- ParseFragment(input, query.st);
    Ok(Parsed((path.value, query.value, fragment.value), fragment.st))
  }

  /** The end of the request line: blanks, `HTTP/1.`, the digit `0` or
      `1`, and CRLF. */
  function ParseVersion(input: seq<byte>, st: PState): (r: PResult<()>)
    ensures r.Ok? ==> Fuel(input, r.value.st) < Fuel(input, st)
  {
    var gap :- Plus(input, st, IsWhitespaceByte);
    var version :- Expects(input, gap.st, [72, 84, 84, 80, 47, 49, 46]);   // "HTTP/1."
    var digit :- One(input, version.st, IsVersionDigit);
    Expects(input, digit.st, CRLF)
  }

  /** The request line's fields. */
  datatype RequestLine = RequestLine(verb: Method, path: string, query: string, fragment: string)

  /** The request line up to and including its CRLF. */
  function ParseRequestLine(input: seq<byte>, st: PState): (r: PResult<RequestLine>)
    ensures r.Ok? ==> Fuel(input, r.value.st) < Fuel(input, st)
    ensures r.Ok? ==> r.value.value.path != [] && r.value.value.path[0] == '/'
  {
    var m :- ParseMethod(input, st);
    var gap :- Plus(input, m.st, IsWhitespaceByte);
    var uri :- ParseUri(input, gap.st);
    var end :- ParseVersion(input, uri.st);
    Ok(Parsed(RequestLine(m.value, uri.value.0, uri.value.1, uri.value.2), end.st))
  }

  /** `header`: the name is every byte before the first `:`; blanks after
      the colon are skipped; the value runs to the `\r`, trailing blanks
      included; then CRLF. */
  function ParseHeader(input: seq<byte>, st: PState): (r: PResult<(string, string)>)
    ensures r.Ok? ==> Fuel(input, r.value.st) < Fuel(input, st)
    ensures r.Ok? ==> ':' !in r.value.value.0 && '\r' !in r.value.value.1
  {
    var name :- Until(input, st, ':' as int);
    var colon :- Expects(input, name.st, [':' as int]);
    var blanks := Star(input, colon.st, IsWhitespaceByte);
    var value :- Until(input, blanks.st, CR);
    var end :- Expects(input, value.st, CRLF);
    var nameText :- Utf8Text(name.value);
    var valueText :- Utf8Text(value.value);
    AsciiByteInEncode(nameText, ':');
    AsciiByteInEncode(valueText, '\r');
    Ok(Parsed((nameText, valueText), end.st))
  }

  /** `headers`: header lines until the lookahead is `\r`. */
  function ParseHeaders(input: seq<byte>, st: PState): (r: PResult<seq<(string, string)>>)
    ensures r.Ok? ==> Fuel(input, r.value.st) <= Fuel(input, st) && r.value.st.peek == Some(CR)
    decreases Fuel(input, st)
  {
    if st.peek == Some(CR) then Ok(Parsed([], st))
    else
      var h :- ParseHeader(input, st);
      var rest :- ParseHeaders(input, h.st);
      Ok(Parsed([h.value] + rest.value, rest.st))
  }

  /** `body`: the loop `for i in 0..n`, with `eof` set before the last read
      so that nothing past the body is ever requested from the stream. */
  function BodyFrom(input: seq<byte>, st: PState, n: nat, i: nat, acc: seq<byte>): (r: PResult<seq<byte>>)
    requires i <= n
    ensures r.Ok? ==> |r.value.value| == |acc| + n - i
    decreases n - i
  {
    if i == n then Ok(Parsed(acc, st))
    else
      var st1 := if i == n - 1 then st.(eof := true) else st;
      var (c, st2) := Next(input, st1);
      match c
      case Some(b) => BodyFrom(input, st2, n, i + 1, acc + [b])
      case None => Err(ParseError(st2.position, "expected " + NatToString(n - i) + " more bytes"))
  }

  function ParseBody(input: seq<byte>, st: PState, n: nat): (r: PResult<seq<byte>>)
    ensures r.Ok? ==> |r.value.value| == n
  {
    BodyFrom(input, st, n, 0, [])
  }

  /** `parse_params`: the `&`-separated pieces that contain a `=`, cut at
      their first `=`, in order. */
  function ParseParams(s: string): (r: seq<(string, string)>)
    ensures forall i :: 0 <= i < |r| ==> '=' !in r[i].0 && '&' !in r[i].0 && '&' !in r[i].1
  {
    PairsOf(Split(s, '&'))
  }

  function PairsOf(pieces: seq<string>): (r: seq<(string, string)>)
    requires forall i :: 0 <= i < |pieces| ==> '&' !in pieces[i]
    ensures forall i :: 0 <= i < |r| ==> '=' !in r[i].0 && '&' !in r[i].0 && '&' !in r[i].1
    ensures |r| <= |pieces|
  {
    if pieces == [] then []
    else
      var rest := PairsOf(pieces[1..]);
      match SplitOnce(pieces[0], '=')
      case Some((name, value)) => [(name, value)] + rest
      case None => rest
  }

  /** Adds each pair as a parameter of the given kind, in order. */
  function AddParams(ps: Params, pairs: seq<(string, string)>, kind: string -> Param): Params
    decreases |pairs|
  {
    if pairs == [] then ps
    else AddParams(ParamsAdd(ps, kind(pairs[0].0), pairs[0].1), pairs[1..], kind)
  }

  const FORM_URLENCODED: string := "application/www-form-urlencoded"

  /** `parse_query_params`. */
  function WithQueryParams<T>(req: Request<T>): Request<T> {
    req.(params := AddParams(req.params, ParseParams(req.query), n => Query(n)))
  }

  /** `parse_body_params`: only with a payload, the exact content type
      `application/www-form-urlencoded`, and a UTF-8 payload. */
  function WithBodyParams(req: Request<seq<byte>>): Request<seq<byte>> {
    if req.payload.Some? && HeaderGet(req.headers, "content-type") == Some(FORM_URLENCODED) then
      match Decode(req.payload.value)
      case Some(text) => req.(params := AddParams(req.params, ParseParams(text), n => Body(n)))
      case None => req
    else req
  }

  /** The length the `Content-Length` header declares: 0 without the
      header, the value as a `usize` otherwise, and nothing when the value
      is not one. */
  function DeclaredLength(headers: HeaderMap): (r: Option<nat>)
    ensures r.Some? ==> r.value <= USIZE_MAX
    ensures HeaderGet(headers, "content-length").None? ==> r == Some(0)
  {
    match HeaderGet(headers, "content-length")
    case None => Some(0)
    case Some(text) => ParseUsize(text)
  }

  /** `DeclaredLength`, or "invalid content-length" at the position after
      the header block. */
  function ContentLength(headers: HeaderMap, position: nat): (r: Result<nat, ParseError>)
    ensures r.Ok? <==> DeclaredLength(headers).Some?
    ensures r.Ok? ==> r.value == DeclaredLength(headers).value
    ensures r.Err? ==> r.error == ParseError(position, "invalid content-length")
  {
    match DeclaredLength(headers)
    case Some(n) => Ok(n)
    case None => Err(ParseError(position, "invalid content-length"))
  }

  /** What follows the header block: with no declared length, exactly one
      CRLF and no payload (and `eof` is set before the `\n` is taken, so
      nothing after it is read); otherwise a CRLF and exactly `n` bytes. */
  function ParsePayload(input: seq<byte>, st: PState, n: nat): (r: Result<Option<seq<byte>>, ParseError>)
    ensures r.Ok? ==> (r.value.None? <==> n == 0)
    ensures r.Ok? && r.value.Some? ==> |r.value.value| == n
  {
    if n == 0 then
      var cr :- Expect(input, st, CR);
      var lf :- Expect(input, cr.st.(eof := true), LF);
      Ok(None)
    else
      var end :- Expects(input, st, CRLF);
      var body :- ParseBody(input, end.st, n);
      Ok(Some(body.value))
  }

  /** The state `parse` starts from, before its first `next`. */
  const START: PState := PState(None, 0, false)

  /** Everything after the request line: headers, the declared length,
      the payload, then the query and body parameters. */
  function ParseRest(input: seq<byte>, line: Parsed<RequestLine>): (r: Result<Request<seq<byte>>, ParseError>)
    ensures r.Ok? ==> r.value.verb == line.value.verb && r.value.path == line.value.path
    ensures r.Ok? ==> (r.value.payload.None? <==> r.value.contentLength == 0)
    ensures r.Ok? && r.value.payload.Some? ==> |r.value.payload.value| == r.value.contentLength
  {
    var hs :- ParseHeaders(input, line.st);
    var headers := HeaderMapOf(hs.value);
    var n :- ContentLength(headers, hs.st.position);
    var payload :- ParsePayload(input, hs.st, n);
    var req := Request(line.value.verb, line.value.path, line.value.query, line.value.fragment, headers, payload, n, map[]);
    Ok(WithBodyParams(WithQueryParams(req)))
  }

  /** `RequestParser::parse`. */
  function Parse(input: seq<byte>): (r: Result<Request<seq<byte>>, ParseError>)
    ensures r.Ok? ==> r.value.path != [] && r.value.path[0] == '/'
    ensures r.Ok? ==> (r.value.payload.None? <==> r.value.contentLength == 0)
    ensures r.Ok? && r.value.payload.Some? ==> |r.value.payload.value| == r.value.contentLength
  {
    var first := Next(input, START).1;
    var line :- ParseRequestLine(input, first);
    ParseRest(input, line)
  }
}
