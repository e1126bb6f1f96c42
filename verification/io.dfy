/** The LF to CRLF converter of `src/io.rs`. */
module LineEndings {
  import opened Base
  import opened Utf8
  import opened Parser

  /** What one input byte becomes: `\n` is written as `\r\n`. */
  function Piece(b: byte): seq<byte> {
    if b == LF then [CR, LF] else [b]
  }

  /** The converted bytes, one piece per input byte. */
  function Converted(data: seq<byte>): seq<byte>
    decreases |data|
  {
    if data == [] then [] else Converted(data[..|data| - 1]) + Piece(data[|data| - 1])
  }

  /** The number of `\n` bytes. */
  function CountLf(data: seq<byte>): nat
    decreases |data|
  {
    if data == [] then 0 else CountLf(data[..|data| - 1]) + (if data[|data| - 1] == LF then 1 else 0)
  }

  /** Conversion works piecewise over a split of the input. */
  lemma {:induction false} ConvertedAppend(a: seq<byte>, b: seq<byte>)
    ensures Converted(a + b) == Converted(a) + Converted(b)
    ensures CountLf(a + b) == CountLf(a) + CountLf(b)
    decreases |b|
  {
    if b == [] {
      assert a + b == a;
    } else {
      var b0 := b[..|b| - 1];
      assert (a + b)[..|a + b| - 1] == a + b0;
      assert (a + b)[|a + b| - 1] == b[|b| - 1];
      ConvertedAppend(a, b0);
    }
  }

  /** The output is one byte longer than the input for every `\n`. */
  lemma {:induction false} ConvertedLength(data: seq<byte>)
    ensures |Converted(data)| == |data| + CountLf(data)
    ensures CountLf(data) <= |data|
    decreases |data|
  {
    if data != [] {
      ConvertedLength(data[..|data| - 1]);
    }
  }

  /** One more input byte adds its piece. */
  lemma ConvertedStep(data: seq<byte>, i: nat)
    requires i < |data|
    ensures Converted(data[..i + 1]) == Converted(data[..i]) + Piece(data[i])
    ensures CountLf(data[..i + 1]) == CountLf(data[..i]) + (if data[i] == LF then 1 else 0)
  {
    assert data[..i + 1][..i] == data[..i];
  }

  /** A prefix never needs more room than the whole input. */
  lemma PrefixRoom(data: seq<byte>, j: nat)
    requires j <= |data|
    ensures j + CountLf(data[..j]) <= |data| + CountLf(data)
  {
    ConvertedAppend(data[..j], data[j..]);
    ConvertedLength(data[j..]);
    assert data[..j] + data[j..] == data;
  }

  /** One step of `convert_lf_to_crlf`: the piece of `b` written at `n`. */
  function WritePiece(buf: seq<byte>, n: nat, b: byte): (r: seq<byte>)
    requires n + |Piece(b)| <= |buf|
    ensures |r| == |buf|
    ensures forall k :: 0 <= k < |Piece(b)| ==> r[n + k] == Piece(b)[k]
    ensures forall k :: 0 <= k < |r| && (k < n || n + |Piece(b)| <= k) ==> r[k] == buf[k]
  {
    if b == LF then buf[n := CR][n + 1 := LF] else buf[n := b]
  }

  /** After the write, the buffer up to the piece's end is what was there
      before `n`, then the piece. */
  lemma WrittenPrefix(buf: seq<byte>, n: nat, b: byte)
    requires n + |Piece(b)| <= |buf|
    ensures WritePiece(buf, n, b)[..n + |Piece(b)|] == buf[..n] + Piece(b)
  {
    var r := WritePiece(buf, n, b);
    var p := Piece(b);
    forall k | n <= k < n + |p|
      ensures r[k] == (buf[..n] + p)[k]
    {
      assert r[n + (k - n)] == p[k - n];
    }
  }

  /** The write leaves everything after the piece alone. */
  lemma WrittenSuffix(buf: seq<byte>, n: nat, b: byte)
    requires n + |Piece(b)| <= |buf|
    ensures WritePiece(buf, n, b)[n + |Piece(b)|..] == buf[n + |Piece(b)|..]
  {
  }

  /** The loop of `convert_lf_to_crlf` keeps its invariant when byte `i`
      has been written as its piece at `n`. */
  lemma LoopStep(data: seq<byte>, out: seq<byte>, i: nat, n: nat, prev: seq<byte>)
    requires i < |data| && |out| >= |data| + CountLf(data)
    requires n == i + CountLf(data[..i]) && |prev| == |out| && n <= |out|
    requires prev[..n] == Converted(data[..i]) && prev[n..] == out[n..]
    ensures n + |Piece(data[i])| == i + 1 + CountLf(data[..i + 1]) <= |out|
    ensures var res := WritePiece(prev, n, data[i]);
      && res[..n + |Piece(data[i])|] == Converted(data[..i + 1])
      && res[n + |Piece(data[i])|..] == out[n + |Piece(data[i])|..]
  {
    var e := n + |Piece(data[i])|;
    ConvertedStep(data, i);
    PrefixRoom(data, i + 1);
    WrittenPrefix(prev, n, data[i]);
    WrittenSuffix(prev, n, data[i]);
    assert prev[e..] == prev[n..][e - n..] && out[e..] == out[n..][e - n..];
  }

  /** `ConvertLFtoCRLF::convert_lf_to_crlf`: writes the converted input at
      the front of `out` and returns how many bytes it wrote; the rest of
      `out` is left as it was. `out` must have room for the result, as the
      source indexes it without a check. */
  method ConvertLfToCrlf(data: seq<byte>, out: seq<byte>) returns (res: seq<byte>, n: nat)
    requires |out| >= |data| + CountLf(data)
    ensures n == |data| + CountLf(data)
    ensures |res| == |out|
    ensures res[..n] == Converted(data)
    ensures res[n..] == out[n..]
  {
    res := out;
    n := 0;
    var i := 0;
    while i < |data|
      invariant 0 <= i <= |data|
      invariant n == i + CountLf(data[..i])
      invariant n <= |out| && |res| == |out|
      invariant res[..n] == Converted(data[..i])
      invariant res[n..] == out[n..]
    {
      LoopStep(data, out, i, n, res);
      res := WritePiece(res, n, data[i]);
      n := n + |Piece(data[i])|;
      i := i + 1;
    }
    assert data[..i] == data;
  }

  /** Input without `\n` is copied unchanged. */
  lemma {:induction false} NoLfUnchanged(data: seq<byte>)
    requires LF !in data
    ensures Converted(data) == data && CountLf(data) == 0
    decreases |data|
  {
    if data != [] {
      var init := data[..|data| - 1];
      assert data == init + [data[|data| - 1]];
      NoLfUnchanged(init);
    }
  }

  lemma CrlfConverted()
    ensures Converted([CR, LF]) == [CR, CR, LF]
  {
    var s := [CR, LF];
    ConvertedStep(s, 0);
    ConvertedStep(s, 1);
    assert s[..0] == [] && s[..2] == s;
  }

  /** A `\r\n` already in the input gains a second `\r`: the byte before a
      `\n` is never looked at. */
  lemma CrlfBecomesCrCrlf(a: seq<byte>, b: seq<byte>)
    ensures Converted(a + [CR, LF] + b) == Converted(a) + [CR, CR, LF] + Converted(b)
  {
    ConvertedAppend(a + [CR, LF], b);
    ConvertedAppend(a, [CR, LF]);
    CrlfConverted();
  }

  /** `read` gives the inner stream half of the buffer, which is always
      enough room for the conversion. */
  lemma HalfBufferSuffices(bufLen: nat, data: seq<byte>)
    requires |data| <= bufLen / 2
    ensures |data| + CountLf(data) <= bufLen
  {
    ConvertedLength(data);
  }

  /** `ConvertLFtoCRLF::read`, given the bytes the inner stream put in the
      half-size buffer. */
  method Read(buf: seq<byte>, chunk: seq<byte>) returns (res: seq<byte>, n: nat)
    requires |chunk| <= |buf| / 2
    ensures n == |chunk| + CountLf(chunk) && n <= |buf|
    ensures |res| == |buf| && res[..n] == Converted(chunk) && res[n..] == buf[n..]
  {
    HalfBufferSuffices(|buf|, chunk);
    res, n := ConvertLfToCrlf(chunk, buf);
  }

  /** Two lines ending in `\n` gain one byte each. */
  lemma TwoLines(a: seq<byte>, b: seq<byte>)
    requires LF !in a && LF !in b
    ensures Converted(a + [LF] + b + [LF]) == a + [CR, LF] + b + [CR, LF]
    ensures CountLf(a + [LF] + b + [LF]) == 2
  {
    NoLfUnchanged(a);
    NoLfUnchanged(b);
    ConvertedAppend(a + [LF] + b, [LF]);
    ConvertedAppend(a + [LF], b);
    ConvertedAppend(a, [LF]);
    assert Converted([LF]) == Converted([]) + Piece(LF);
    assert CountLf([LF]) == CountLf([]) + 1;
  }

  /** The source's example: the 22 bytes `this is a test\nreally\n` become
      24, each `\n` preceded by `\r`. */
  lemma ConverterExample()
    ensures var data := AsciiBytes("this is a test") + [LF] + AsciiBytes("really") + [LF];
      && |data| == 22
      && |data| + CountLf(data) == 24
      && Converted(data) == AsciiBytes("this is a test") + [CR, LF] + AsciiBytes("really") + [CR, LF]
  {
    var a := AsciiBytes("this is a test");
    var b := AsciiBytes("really");
    assert forall i :: 0 <= i < |a| ==> a[i] != LF;
    assert forall i :: 0 <= i < |b| ==> b[i] != LF;
    TwoLines(a, b);
  }
}
