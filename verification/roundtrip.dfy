/** The wire form of a request, and the parser's round trip over it. */
module ParserRoundTrip {
  import opened Base
  import opened Text
  import opened Utf8
  import opened Headers
  import opened Requests
  import opened Parser
  import opened ParserProps

  const SP: byte := 32
  /** "HTTP/1.1" */
  const HTTP11: seq<byte> := [72, 84, 84, 80, 47, 49, 46, 49]

  /** `input` holds `x` from byte `k` on. */
  predicate SegAt(input: seq<byte>, k: nat, x: seq<byte>) {
    k + |x| <= |input| && forall i :: 0 <= i < |x| ==> input[k + i] == x[i]
  }

  lemma SegSplit(input: seq<byte>, k: nat, x: seq<byte>, y: seq<byte>)
    requires SegAt(input, k, x + y)
    ensures SegAt(input, k, x) && SegAt(input, k + |x|, y)
  {
    forall i | 0 <= i < |x|
      ensures input[k + i] == x[i]
    {
      assert (x + y)[i] == x[i];
    }
    forall i | 0 <= i < |y|
      ensures input[k + |x| + i] == y[i]
    {
      assert (x + y)[|x| + i] == y[i];
    }
  }

  lemma SegIndex(input: seq<byte>, k: nat, x: seq<byte>, i: nat)
    requires SegAt(input, k, x) && i < |x|
    ensures input[k + i] == x[i]
  {
  }

  lemma SegSlice(input: seq<byte>, k: nat, x: seq<byte>)
    requires SegAt(input, k, x)
    ensures input[k..k + |x|] == x
  {
  }

  /** Every character is an ASCII byte of the class. */
  predicate ClassText(s: string, pred: byte -> bool) {
    IsAscii(s) && forall i :: 0 <= i < |s| ==> pred(s[i] as int)
  }

  /** Decoding the bytes of an ASCII text gives the text back. */
  lemma TextOfAscii(s: string)
    requires IsAscii(s)
    ensures Utf8Text(AsciiBytes(s)) == Ok(s)
  {
    EncodeAscii(s);
    DecodeEncode(s);
  }

  /** `plus` over a non-empty class text, then decoding it, gives the text
      back. */
  lemma ClassTextAt(input: seq<byte>, k: nat, s: string, pred: byte -> bool)
    requires s != [] && ClassText(s, pred)
    requires SegAt(input, k, AsciiBytes(s)) && k + |s| < |input| && !pred(input[k + |s|])
    ensures Plus(input, At(input, k), pred) == Ok(Parsed(AsciiBytes(s), At(input, k + |s|)))
    ensures Utf8Text(AsciiBytes(s)) == Ok(s)
  {
    forall i | k <= i < k + |s|
      ensures pred(input[i])
    {
      SegIndex(input, k, AsciiBytes(s), i - k);
    }
    PlusAt(input, k, k + |s|, pred);
    SegSlice(input, k, AsciiBytes(s));
    TextOfAscii(s);
  }

  // ---- The request line

  predicate WellFormedLine(line: RequestLine) {
    && line.path != [] && line.path[0] == '/' && ClassText(line.path, IsPathByte)
    && ClassText(line.query, IsQueryByte)
    && ClassText(line.fragment, IsFragmentByte)
  }

  /** An optional URI component on the wire: nothing when the text is
      empty, and otherwise the mark byte (`?` or `#`) followed by it. */
  function MarkedPart(mark: byte, text: string): (r: seq<byte>)
    requires IsAscii(text)
    ensures |r| == if text == "" then 0 else 1 + |text|
  {
    if text == "" then [] else [mark] + AsciiBytes(text)
  }

  lemma MethodNameUpper(m: Method)
    ensures MethodName(m) != [] && ClassText(MethodName(m), IsUpperByte)
  {
  }

  function MethodBytes(m: Method): (r: seq<byte>)
    ensures |r| == |MethodName(m)|
  {
    MethodNameUpper(m);
    AsciiBytes(MethodName(m))
  }

  /** `METHOD SP path[?query][#fragment] SP HTTP/1.1 CRLF` */
  function LineBytes(line: RequestLine): seq<byte>
    requires WellFormedLine(line)
  {
    MethodBytes(line.verb) + [SP] + UriBytes(line) + ([SP] + (HTTP11 + CRLF))
  }

  /** `path[?query][#fragment]` */
  function UriBytes(line: RequestLine): seq<byte>
    requires WellFormedLine(line)
  {
    AsciiBytes(line.path) + MarkedPart('?' as int, line.query) + MarkedPart('#' as int, line.fragment)
  }

  /** How `ParseMethod` composes its three stages. */
  lemma MethodSteps(input: seq<byte>, k: nat, bs: seq<byte>, s: string, m: Method, e: nat)
    requires k <= |input| && e <= |input|
    requires Plus(input, At(input, k), IsUpperByte) == Ok(Parsed(bs, At(input, e)))
    requires Utf8Text(bs) == Ok(s) && MethodFromStr(s) == Ok(m)
    ensures ParseMethod(input, At(input, k)) == Ok(Parsed(m, At(input, e)))
  {
  }

  lemma UpperWordAt(input: seq<byte>, k: nat, s: string, bs: seq<byte>, m: Method, e: nat)
    requires s != [] && ClassText(s, IsUpperByte) && MethodFromStr(s) == Ok(m)
    requires bs == AsciiBytes(s) && SegAt(input, k, bs + [SP]) && e == k + |s|
    ensures ParseMethod(input, At(input, k)) == Ok(Parsed(m, At(input, e)))
  {
    SegSplit(input, k, bs, [SP]);
    SegIndex(input, e, [SP], 0);
    ClassTextAt(input, k, s, IsUpperByte);
    MethodSteps(input, k, bs, s, m, e);
  }

  lemma MethodAt(input: seq<byte>, k: nat, m: Method, e: nat)
    requires SegAt(input, k, MethodBytes(m) + [SP]) && e == k + |MethodName(m)|
    ensures ParseMethod(input, At(input, k)) == Ok(Parsed(m, At(input, e)))
  {
    MethodNameUpper(m);
    MethodRoundTrip(m);
    UpperWordAt(input, k, MethodName(m), MethodBytes(m), m, e);
  }

  /** What `PathAt` needs: the path's bytes at `k`, then a non-path byte. */
  predicate PathReady(input: seq<byte>, k: nat, path: string) {
    && path != [] && path[0] == '/' && ClassText(path, IsPathByte)
    && SegAt(input, k, AsciiBytes(path)) && k + |path| < |input| && !IsPathByte(input[k + |path|])
  }

  lemma PathAt(input: seq<byte>, k: nat, path: string, e: nat)
    requires PathReady(input, k, path) && e == k + |path|
    ensures ParsePath(input, At(input, k)) == Ok(Parsed(path, At(input, e)))
  {
    SegIndex(input, k, AsciiBytes(path), 0);
    ClassTextAt(input, k, path, IsPathByte);
  }

  /** A mark byte and a non-empty class text: the shape shared by the query
      and the fragment. */
  lemma MarkedTextAt(input: seq<byte>, k: nat, mark: byte, s: string, pred: byte -> bool)
    requires s != [] && ClassText(s, pred)
    requires SegAt(input, k, [mark] + AsciiBytes(s)) && k + 1 + |s| < |input| && !pred(input[k + 1 + |s|])
    ensures Expect(input, At(input, k), mark) == Ok(Parsed((), At(input, k + 1)))
    ensures Plus(input, At(input, k + 1), pred) == Ok(Parsed(AsciiBytes(s), At(input, k + 1 + |s|)))
    ensures Utf8Text(AsciiBytes(s)) == Ok(s)
  {
    SegSplit(input, k, [mark], AsciiBytes(s));
    SegIndex(input, k, [mark], 0);
    NextAt(input, k);
    ClassTextAt(input, k + 1, s, pred);
  }

  /** What `QueryAt` needs: the query part at `k`, then a byte that can
      neither start nor continue a query. */
  predicate QueryReady(input: seq<byte>, k: nat, query: string, e: nat) {
    && ClassText(query, IsQueryByte)
    && SegAt(input, k, MarkedPart('?' as int, query)) && e == k + |MarkedPart('?' as int, query)| && e < |input|
    && input[e] != '?' as int && !IsQueryByte(input[e])
  }

  lemma QueryAt(input: seq<byte>, k: nat, query: string, e: nat)
    requires QueryReady(input, k, query, e)
    ensures ParseQuery(input, At(input, k)) == Ok(Parsed(query, At(input, e)))
  {
    if query != "" {
      MarkedTextAt(input, k, '?' as int, query, IsQueryByte);
    }
  }

  /** What `FragmentAt` needs, as for the query. */
  predicate FragmentReady(input: seq<byte>, k: nat, fragment: string, e: nat) {
    && ClassText(fragment, IsFragmentByte)
    && SegAt(input, k, MarkedPart('#' as int, fragment)) && e == k + |MarkedPart('#' as int, fragment)| && e < |input|
    && input[e] != '#' as int && !IsFragmentByte(input[e])
  }

  lemma FragmentAt(input: seq<byte>, k: nat, fragment: string, e: nat)
    requires FragmentReady(input, k, fragment, e)
    ensures ParseFragment(input, At(input, k)) == Ok(Parsed(fragment, At(input, e)))
  {
    if fragment != "" {
      MarkedTextAt(input, k, '#' as int, fragment, IsFragmentByte);
    }
  }

  /** How `ParseUri` composes its three stages. */
  lemma UriSteps(input: seq<byte>, line: RequestLine, k: nat, a2: nat, a3: nat, a4: nat)
    requires k <= |input| && a2 <= |input| && a3 <= |input| && a4 <= |input|
    requires ParsePath(input, At(input, k)) == Ok(Parsed(line.path, At(input, a2)))
    requires ParseQuery(input, At(input, a2)) == Ok(Parsed(line.query, At(input, a3)))
    requires ParseFragment(input, At(input, a3)) == Ok(Parsed(line.fragment, At(input, a4)))
    ensures ParseUri(input, At(input, k)) == Ok(Parsed((line.path, line.query, line.fragment), At(input, a4)))
  {
  }

  /** Where the parts of `p q f SP` sit, at the given positions. */
  lemma Layout3(input: seq<byte>, k: nat, p: seq<byte>, q: seq<byte>, f: seq<byte>, a2: nat, a3: nat, a4: nat)
    requires SegAt(input, k, p + q + f + [SP])
    requires a2 == k + |p| && a3 == a2 + |q| && a4 == a3 + |f|
    requires q == [] || q[0] == '?' as int
    requires f == [] || f[0] == '#' as int
    ensures SegAt(input, k, p) && SegAt(input, a2, q) && SegAt(input, a3, f) && a4 < |input|
    ensures input[a4] == SP
    ensures input[a3] == (if f != [] then '#' as int else SP)
    ensures input[a2] == (if q != [] then '?' as int else input[a3])
  {
    SegSplit(input, k, p + q + f, [SP]);
    SegSplit(input, k, p + q, f);
    SegSplit(input, k, p, q);
    SegIndex(input, a4, [SP], 0);
    if f != [] { SegIndex(input, a3, f, 0); }
    if q != [] { SegIndex(input, a2, q, 0); }
  }

  /** Where the parts of `path [?query] [#fragment] SP` sit. */
  lemma UriLayout(input: seq<byte>, k: nat, line: RequestLine, a2: nat, a3: nat, a4: nat)
    requires WellFormedLine(line)
    requires SegAt(input, k, UriBytes(line) + [SP])
    requires a2 == k + |line.path| && a3 == a2 + |MarkedPart('?' as int, line.query)| && a4 == a3 + |MarkedPart('#' as int, line.fragment)|
    ensures PathReady(input, k, line.path)
    ensures QueryReady(input, a2, line.query, a3)
    ensures FragmentReady(input, a3, line.fragment, a4)
  {
    var p, q, f := AsciiBytes(line.path), MarkedPart('?' as int, line.query), MarkedPart('#' as int, line.fragment);
    Layout3(input, k, p, q, f, a2, a3, a4);
    assert PathReady(input, k, line.path) by {
      assert p[0] == '/' as int;
    }
    assert QueryReady(input, a2, line.query, a3) by {
      assert input[a3] == '#' as int || input[a3] == SP;
    }
  }

  /** `uri` over `path [?query] [#fragment] SP`. */
  lemma UriAt(input: seq<byte>, k: nat, line: RequestLine, e: nat)
    requires WellFormedLine(line)
    requires SegAt(input, k, UriBytes(line) + [SP]) && e == k + |UriBytes(line)|
    ensures ParseUri(input, At(input, k)) == Ok(Parsed((line.path, line.query, line.fragment), At(input, e)))
  {
    var a2 := k + |line.path|;
    var a3 := a2 + |MarkedPart('?' as int, line.query)|;
    assert e == a3 + |MarkedPart('#' as int, line.fragment)|;
    UriLayout(input, k, line, a2, a3, e);
    PathAt(input, k, line.path, a2);
    QueryAt(input, a2, line.query, a3);
    FragmentAt(input, a3, line.fragment, e);
    UriSteps(input, line, k, a2, a3, e);
  }

  /** `HTTP/1.`, the part of the version `expects` reads in one go. */
  const HTTP1Dot: seq<byte> := [72, 84, 84, 80, 47, 49, 46]

  /** Where the parts of `SP HTTP/1.1 CRLF` sit, at the given positions. */
  lemma VersionLayout(input: seq<byte>, k: nat, a1: nat, a2: nat, a3: nat, end: nat)
    requires SegAt(input, k, [SP] + (HTTP11 + CRLF))
    requires a1 == k + 1 && a2 == a1 + 7 && a3 == a2 + 1 && end == a3 + 2
    ensures input[k] == SP && a1 < |input| && input[a1] == 72
    ensures a2 == a1 + |HTTP1Dot| && a2 <= |input| && input[a1..a2] == HTTP1Dot
    ensures a2 < |input| && input[a2] == 49
    ensures end == a3 + |CRLF| && end <= |input| && input[a3..end] == CRLF
  {
    SegSplit(input, k, [SP], HTTP11 + CRLF);
    SegIndex(input, k, [SP], 0);
    SegSplit(input, a1, HTTP11, CRLF);
    assert HTTP11 == HTTP1Dot + [49];
    SegSplit(input, a1, HTTP1Dot, [49]);
    SegIndex(input, a2, [49], 0);
    SegIndex(input, a1, HTTP1Dot, 0);
    SegSlice(input, a1, HTTP1Dot);
    SegSlice(input, a3, CRLF);
  }

  /** The first two stages of `ParseVersion`: the gap and `HTTP/1.`. */
  lemma VersionHeadAt(input: seq<byte>, k: nat, a1: nat, a2: nat)
    requires a1 == k + 1 && a1 < |input| && input[k] == SP && input[a1] == 72
    requires a2 == a1 + |HTTP1Dot| && a2 <= |input| && input[a1..a2] == HTTP1Dot
    ensures Plus(input, At(input, k), IsWhitespaceByte) == Ok(Parsed([SP], At(input, a1)))
    ensures Expects(input, At(input, a1), HTTP1Dot) == Ok(Parsed((), At(input, a2)))
  {
    GapAt(input, k, a1);
    ExpectsAt(input, a1, HTTP1Dot);
  }

  /** The last two stages of `ParseVersion`: the minor digit and CRLF. */
  lemma VersionTailAt(input: seq<byte>, a2: nat, a3: nat, end: nat)
    requires a3 == a2 + 1 && a2 < |input| && input[a2] == 49
    requires end == a3 + |CRLF| && end <= |input| && input[a3..end] == CRLF
    ensures One(input, At(input, a2), IsVersionDigit) == Ok(Parsed([49], At(input, a3)))
    ensures Expects(input, At(input, a3), CRLF) == Ok(Parsed((), At(input, end)))
  {
    NextAt(input, a2);
    ExpectsAt(input, a3, CRLF);
  }

  /** How `ParseVersion` composes its four stages. */
  lemma VersionSteps(input: seq<byte>, k: nat, a1: nat, a2: nat, a3: nat, end: nat)
    requires k <= |input| && a1 <= |input| && a2 <= |input| && a3 <= |input| && end <= |input|
    requires Plus(input, At(input, k), IsWhitespaceByte) == Ok(Parsed([SP], At(input, a1)))
    requires Expects(input, At(input, a1), HTTP1Dot) == Ok(Parsed((), At(input, a2)))
    requires One(input, At(input, a2), IsVersionDigit) == Ok(Parsed([49], At(input, a3)))
    requires Expects(input, At(input, a3), CRLF) == Ok(Parsed((), At(input, end)))
    ensures ParseVersion(input, At(input, k)) == Ok(Parsed((), At(input, end)))
  {
  }

  /** The end of the request line: `SP HTTP/1.1 CRLF`. */
  lemma VersionAt(input: seq<byte>, k: nat, end: nat)
    requires SegAt(input, k, [SP] + (HTTP11 + CRLF)) && end == k + 11
    ensures ParseVersion(input, At(input, k)) == Ok(Parsed((), At(input, end)))
  {
    var a1, a2, a3 := k + 1, k + 8, k + 9;
    VersionLayout(input, k, a1, a2, a3, end);
    VersionHeadAt(input, k, a1, a2);
    VersionTailAt(input, a2, a3, end);
    VersionSteps(input, k, a1, a2, a3, end);
  }

  /** Where the parts of `m SP u SP v` sit, at the given positions. */
  lemma LineLayout(input: seq<byte>, k: nat, m: seq<byte>, ub: seq<byte>, v: seq<byte>, a1: nat, u: nat, e: nat)
    requires SegAt(input, k, m + [SP] + ub + ([SP] + v))
    requires a1 == k + |m| && u == a1 + 1 && e == u + |ub|
    ensures SegAt(input, k, m + [SP]) && a1 < |input| && input[a1] == SP
    ensures SegAt(input, u, ub + [SP]) && SegAt(input, e, [SP] + v)
    ensures ub != [] ==> input[u] == ub[0]
  {
    SegSplit(input, k, m + [SP] + ub, [SP] + v);
    SegSplit(input, k, m + [SP], ub);
    SegIndex(input, k, m + [SP], |m|);
    SegIndex(input, e, [SP] + v, 0);
    forall i | 0 <= i < |ub| + 1
      ensures input[u + i] == (ub + [SP])[i]
    {
      if i < |ub| {
        SegIndex(input, u, ub, i);
      }
    }
  }

  lemma UriStartsWithSlash(line: RequestLine)
    requires WellFormedLine(line)
    ensures UriBytes(line) != [] && UriBytes(line)[0] == '/' as int
  {
    assert AsciiBytes(line.path)[0] == '/' as int;
  }

  /** The single space between the method and the target. */
  lemma GapAt(input: seq<byte>, a1: nat, u: nat)
    requires u == a1 + 1 && u < |input| && input[a1] == SP && !IsWhitespaceByte(input[u])
    ensures Plus(input, At(input, a1), IsWhitespaceByte) == Ok(Parsed([SP], At(input, u)))
  {
    PlusAt(input, a1, u, IsWhitespaceByte);
    assert input[a1..u] == [SP];
  }

  /** How `ParseRequestLine` composes its stages. */
  lemma RequestLineSteps(input: seq<byte>, line: RequestLine, k: nat, a1: nat, u: nat, e: nat, end: nat)
    requires k <= |input| && a1 <= |input| && u <= |input| && e <= |input| && end <= |input|
    requires ParseMethod(input, At(input, k)) == Ok(Parsed(line.verb, At(input, a1)))
    requires Plus(input, At(input, a1), IsWhitespaceByte).Ok?
    requires Plus(input, At(input, a1), IsWhitespaceByte).value.st == At(input, u)
    requires ParseUri(input, At(input, u)) == Ok(Parsed((line.path, line.query, line.fragment), At(input, e)))
    requires ParseVersion(input, At(input, e)) == Ok(Parsed((), At(input, end)))
    ensures ParseRequestLine(input, At(input, k)) == Ok(Parsed(line, At(input, end)))
  {
  }

  /** A well-formed request line in wire form parses back to itself. */
  lemma RequestLineAt(input: seq<byte>, k: nat, line: RequestLine, end: nat)
    requires WellFormedLine(line) && SegAt(input, k, LineBytes(line)) && end == k + |LineBytes(line)|
    ensures ParseRequestLine(input, At(input, k)) == Ok(Parsed(line, At(input, end)))
  {
    var m := MethodBytes(line.verb);
    var ub := UriBytes(line);
    var a1 := k + |MethodName(line.verb)|;
    var u := a1 + 1;
    var e := u + |ub|;
    assert LineBytes(line) == m + [SP] + ub + ([SP] + (HTTP11 + CRLF));
    assert end == e + 11;
    LineLayout(input, k, m, ub, HTTP11 + CRLF, a1, u, e);
    UriStartsWithSlash(line);
    MethodAt(input, k, line.verb, a1);
    GapAt(input, a1, u);
    UriAt(input, u, line, e);
    VersionAt(input, e, end);
    RequestLineSteps(input, line, k, a1, u, e, end);
  }
}
