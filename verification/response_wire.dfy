/** The header block `into_bytes` writes, read back with the request
    parser's own header grammar. */
module ResponseWire {
  import opened Base
  import opened Text
  import opened Utf8
  import opened Headers
  import opened Parser
  import opened ParserProps
  import opened ParserRoundTrip
  import opened RequestRoundTrip
  import opened Responses

  /** `format!("{}: {}\r\n", ..)` writes the same bytes as a header line of
      a request. */
  lemma HeaderTextIsHeaderLine(h: (string, string))
    ensures Encode(HeaderText(h)) == HeaderLine(h)
  {
    EncodeAppend(h.0 + ": " + h.1, "\r\n");
    EncodeAppend(h.0 + ": ", h.1);
    EncodeAppend(h.0, ": ");
    assert Encode(": ") == [':' as int, SP];
    assert Encode("\r\n") == CRLF;
  }

  lemma {:induction false} HeadersBytesAreHeaderLines(hs: seq<(string, string)>)
    ensures HeadersBytes(hs) == HeaderLines(hs)
    decreases |hs|
  {
    if hs != [] {
      HeaderTextIsHeaderLine(hs[0]);
      HeadersBytesAreHeaderLines(hs[1..]);
    }
  }

  /** The `Content-Length` header `into_bytes` adds is a well-formed
      header. */
  lemma LengthHeaderWellFormed(n: nat)
    ensures WellFormedHeader(("Content-Length", NatToString(n)))
  {
    var s := NatToString(n);
    assert forall i :: 0 <= i < |s| ==> IsDigit(s[i]);
  }

  lemma SentHeadersWellFormed(resp: Response<seq<byte>>)
    requires WellFormedHeaders(resp.headers)
    ensures WellFormedHeaders(SentHeaders(resp))
  {
    var n := Responses.ContentLength(resp);
    if n > 0 {
      LengthHeaderWellFormed(n);
      var hs := resp.headers + [("Content-Length", NatToString(n))];
      assert forall i :: 0 <= i < |resp.headers| ==> hs[i] == resp.headers[i];
    }
  }

  /** Where `b` sits in `a b t`, with `t` starting with CRLF. */
  lemma BlockLayout(bytes: seq<byte>, a: seq<byte>, b: seq<byte>, t: seq<byte>, s: nat, e: nat)
    requires bytes == a + b + t && s == |a| && e == s + |b| && |t| >= 2 && t[0] == CR && t[1] == LF
    ensures SegAt(bytes, s, b) && e + 1 < |bytes| && bytes[e] == CR && bytes[e + 1] == LF
  {
    forall i | 0 <= i < |b|
      ensures bytes[s + i] == b[i]
    {
      assert (a + b + t)[s + i] == b[i];
    }
    assert (a + b + t)[e] == t[0];
    assert (a + b + t)[e + 1] == t[1];
  }

  /** Where the header block of `into_bytes` starts and ends. */
  lemma ResponseLayout(resp: Response<seq<byte>>, s: nat, e: nat)
    requires s == |Encode(StatusLine(resp.statusCode, resp.status))| && e == s + |HeaderLines(SentHeaders(resp))|
    ensures SegAt(IntoBytes(resp), s, HeaderLines(SentHeaders(resp)))
    ensures e + 1 < |IntoBytes(resp)| && IntoBytes(resp)[e] == CR && IntoBytes(resp)[e + 1] == LF
  {
    HeadersBytesAreHeaderLines(SentHeaders(resp));
    var sl := Encode(StatusLine(resp.statusCode, resp.status));
    var hl := HeaderLines(SentHeaders(resp));
    var tail := [13, 10] + (if resp.payload.Some? then resp.payload.value else []);
    assert IntoBytes(resp) == sl + hl + tail;
    BlockLayout(IntoBytes(resp), sl, hl, tail, s, e);
  }

  /** Framing, first half: the header block of a response, read with the
      request parser's header grammar, gives back the response's headers
      followed by the `Content-Length` it added. */
  lemma ResponseHeadersParse(resp: Response<seq<byte>>, s: nat, e: nat)
    requires WellFormedHeaders(resp.headers)
    requires s == |Encode(StatusLine(resp.statusCode, resp.status))| && e == s + |HeaderLines(SentHeaders(resp))|
    ensures s <= e < |IntoBytes(resp)|
    ensures ParseHeaders(IntoBytes(resp), At(IntoBytes(resp), s)) == Ok(Parsed(SentHeaders(resp), At(IntoBytes(resp), e)))
  {
    SentHeadersWellFormed(resp);
    ResponseLayout(resp, s, e);
    HeadersAt(IntoBytes(resp), s, SentHeaders(resp), e);
  }

  /** Framing, second half: when the response did not set its own
      `Content-Length`, the length a reader takes from the headers
      `into_bytes` writes is exactly the payload's. */
  lemma SentLength(resp: Response<seq<byte>>)
    requires forall i :: 0 <= i < |resp.headers| ==> !SameName(resp.headers[i].0, "Content-Length")
    requires Responses.ContentLength(resp) <= USIZE_MAX
    ensures DeclaredLength(HeaderMapOf(SentHeaders(resp))) == Some(Responses.ContentLength(resp))
  {
    NoLengthHeader(resp.headers);
    var n := Responses.ContentLength(resp);
    HeaderMapOfLastWins(SentHeaders(resp), "content-length");
    if n > 0 {
      var hs := SentHeaders(resp);
      assert hs[..|hs| - 1] == resp.headers;
      LengthNameCase();
      ParseUsizeOfNatToString(n);
    }
  }

  /** The name `into_bytes` writes is the one the parser looks up. */
  lemma LengthNameCase()
    ensures Lower("Content-Length") == Lower("content-length")
  {
  }

  /** Headers none of which is a `Content-Length` have no last value for
      it. */
  lemma {:induction false} NoLengthHeader(hs: seq<(string, string)>)
    requires forall i :: 0 <= i < |hs| ==> !SameName(hs[i].0, "Content-Length")
    ensures LastValue(hs, "content-length") == None
    decreases |hs|
  {
    if hs != [] {
      LengthNameCase();
      NoLengthHeader(hs[..|hs| - 1]);
    }
  }
}
