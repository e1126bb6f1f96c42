/** The response value type and its wire form (`src/response/mod.rs`). */
module Responses {
  import opened Base
  import opened Text
  import opened Utf8

  /** `Response<T>`: the headers are a list, kept in insertion order. */
  datatype Response<T> = Response(statusCode: u16, status: string, headers: seq<(string, string)>, payload: Option<T>)

  /** The reason phrases of `status::default` for the codes this library
      produces itself. "OK" and "Internal Server Error" are the ones the
      code shows; the others are the standard phrases of section 15 of
      RFC 9110. The table's other entries are not part of this model and
      read as "". */
  function DefaultReason(code: u16): (r: string)
    ensures code == 200 ==> r == "OK"
    ensures code == 500 ==> r == "Internal Server Error"
  {
    match code
    case 200 => "OK"
    case 400 => "Bad Request"
    case 401 => "Unauthorized"
    case 404 => "Not Found"
    case 405 => "Method Not Allowed"
    case 406 => "Not Acceptable"
    case 415 => "Unsupported Media Type"
    case 500 => "Internal Server Error"
    case _ => ""
  }

  /** `Response::new`: the default reason, no headers, no payload. */
  function New<T>(code: u16): (r: Response<T>)
    ensures r.statusCode == code && r.status == DefaultReason(code)
    ensures r.headers == [] && r.payload == None
  {
    Response(code, DefaultReason(code), [], None)
  }

  /** `Response::with_status_code`: the reason is left as it was. */
  function WithStatusCode<T>(resp: Response<T>, code: u16): (r: Response<T>)
    ensures r.statusCode == code && r.(statusCode := resp.statusCode) == resp
  {
    resp.(statusCode := code)
  }

  /** `Response::with_status`: only the reason changes. */
  function WithStatus<T>(resp: Response<T>, status: string): (r: Response<T>)
    ensures r.status == status && r.(status := resp.status) == resp
  {
    resp.(status := status)
  }

  /** `Response::with_header`: appends, so an earlier header of the same
      name stays in the list. */
  function WithHeader<T>(resp: Response<T>, name: string, value: string): (r: Response<T>)
    ensures |r.headers| == |resp.headers| + 1 && r.headers[..|resp.headers|] == resp.headers
    ensures r.headers[|resp.headers|] == (name, value)
    ensures r.(headers := resp.headers) == resp
  {
    resp.(headers := resp.headers + [(name, value)])
  }

  /** `Response::with_payload`. */
  function WithPayload<T>(resp: Response<T>, payload: T): (r: Response<T>)
    ensures r.payload == Some(payload) && r.(payload := resp.payload) == resp
  {
    resp.(payload := Some(payload))
  }

  /** `Response::into_type`: the same response without its payload. */
  function IntoType<T, S>(resp: Response<T>): (r: Response<S>)
    ensures r.statusCode == resp.statusCode && r.status == resp.status && r.headers == resp.headers
    ensures r.payload == None
  {
    Response(resp.statusCode, resp.status, resp.headers, None)
  }

  /** `HashMap` collection of `(String, String)` pairs: names compare
      exactly, and a later pair replaces an earlier one. */
  function PairsMap(pairs: seq<(string, string)>): (m: map<string, string>)
    ensures forall n :: n in m <==> exists i :: 0 <= i < |pairs| && pairs[i].0 == n
    decreases |pairs|
  {
    if pairs == [] then map[]
    else
      var init := pairs[..|pairs| - 1];
      var m := PairsMap(init)[pairs[|pairs| - 1].0 := pairs[|pairs| - 1].1];
      assert forall i :: 0 <= i < |init| ==> init[i] == pairs[i];
      m
  }

  /** `Response::headers`. */
  function HeadersMap<T>(resp: Response<T>): map<string, string> {
    PairsMap(resp.headers)
  }

  /** In the collected map each name holds the value of its last pair. */
  lemma {:induction false} PairsMapLastWins(pairs: seq<(string, string)>, i: nat)
    requires i < |pairs|
    requires forall j :: i < j < |pairs| ==> pairs[j].0 != pairs[i].0
    ensures pairs[i].0 in PairsMap(pairs) && PairsMap(pairs)[pairs[i].0] == pairs[i].1
    decreases |pairs|
  {
    if i < |pairs| - 1 {
      var init := pairs[..|pairs| - 1];
      assert forall j :: i < j < |init| ==> init[j] == pairs[j];
      PairsMapLastWins(init, i);
    }
  }

  /** `Response::content_length`. */
  function ContentLength(resp: Response<seq<byte>>): (n: nat)
    ensures resp.payload.None? ==> n == 0
    ensures resp.payload.Some? ==> n == |resp.payload.value|
  {
    match resp.payload
    case Some(body) => |body|
    case None => 0
  }

  /** `HTTP/1.1 {code} {reason}\r\n` */
  function StatusLine(code: u16, reason: string): string {
    "HTTP/1.1 " + NatToString(code) + " " + reason + "\r\n"
  }

  /** `{name}: {value}\r\n` */
  function HeaderText(h: (string, string)): string {
    h.0 + ": " + h.1 + "\r\n"
  }

  function HeadersBytes(hs: seq<(string, string)>): seq<byte> {
    if hs == [] then [] else Encode(HeaderText(hs[0])) + HeadersBytes(hs[1..])
  }

  /** The headers `into_bytes` writes: the response's own, then
      `Content-Length` when the payload is not empty. */
  function SentHeaders(resp: Response<seq<byte>>): seq<(string, string)> {
    var n := ContentLength(resp);
    if n > 0 then resp.headers + [("Content-Length", NatToString(n))] else resp.headers
  }

  /** `Response::into_bytes`. */
  function IntoBytes(resp: Response<seq<byte>>): seq<byte> {
    var payload := if resp.payload.Some? then resp.payload.value else [];
    Encode(StatusLine(resp.statusCode, resp.status)) + HeadersBytes(SentHeaders(resp)) + [13, 10] + payload
  }

  /** What `into_bytes` writes, part by part: the status line, the
      response's headers in insertion order, `Content-Length` last and only
      for a non-empty payload, the blank line, the payload. */
  lemma IntoBytesLayout(resp: Response<seq<byte>>)
    ensures var n := ContentLength(resp);
      IntoBytes(resp) ==
        Encode(StatusLine(resp.statusCode, resp.status))
        + HeadersBytes(resp.headers)
        + (if n > 0 then Encode(HeaderText(("Content-Length", NatToString(n)))) else [])
        + [13, 10]
        + (if resp.payload.Some? then resp.payload.value else [])
  {
    var n := ContentLength(resp);
    if n > 0 {
      HeadersBytesAppend(resp.headers, [("Content-Length", NatToString(n))]);
      assert HeadersBytes([("Content-Length", NatToString(n))]) == Encode(HeaderText(("Content-Length", NatToString(n)))) + [];
    }
  }

  lemma {:induction false} HeadersBytesAppend(a: seq<(string, string)>, b: seq<(string, string)>)
    ensures HeadersBytes(a + b) == HeadersBytes(a) + HeadersBytes(b)
    decreases |a|
  {
    if a != [] {
      assert (a + b)[1..] == a[1..] + b;
      HeadersBytesAppend(a[1..], b);
    } else {
      assert a + b == b;
    }
  }

  /** The payload is the tail of the bytes, exactly `content_length` of
      them. */
  lemma PayloadIsTail(resp: Response<seq<byte>>)
    ensures |IntoBytes(resp)| >= ContentLength(resp)
    ensures IntoBytes(resp)[|IntoBytes(resp)| - ContentLength(resp)..] == if resp.payload.Some? then resp.payload.value else []
  {
  }

  /** A 500 response with one header and a seven-byte payload: the reason
      is "Internal Server Error", and the headers written are its own
      followed by `Content-Length: 7`. */
  lemma IntoBytesExample(body: seq<byte>)
    requires |body| == 7
    ensures var resp := WithPayload(WithHeader(New(500), "Connection", "closed"), body);
      && resp.status == "Internal Server Error"
      && SentHeaders(resp) == [("Connection", "closed"), ("Content-Length", "7")]
      && IntoBytes(resp) == Encode(StatusLine(500, resp.status)) + HeadersBytes(SentHeaders(resp)) + [13, 10] + body
  {
    assert NatToString(7) == "7";
  }
}
