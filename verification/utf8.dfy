/** UTF-8, as Rust's `str::from_utf8` checks it and `String::into_bytes`
    produces it (well-formed sequences of section 3.9, table 3-7 of the
    Unicode Standard). */
module Utf8 {
  import opened Base

  predicate IsContinuation(b: byte) { 0x80 <= b <= 0xBF }

  /** The bytes of one scalar value. */
  function EncodeChar(c: char): (r: seq<byte>)
    ensures 1 <= |r| <= 4
    ensures (|r| == 1) == (c as int < 0x80)
    ensures |r| == 1 ==> r[0] == c as int
    ensures |r| > 1 ==> r[0] >= 0xC2 && forall i :: 1 <= i < |r| ==> IsContinuation(r[i])
  {
    var v := c as int;
    if v < 0x80 then [v]
    else if v < 0x800 then [0xC0 + v / 64, 0x80 + v % 64]
    else if v < 0x1_0000 then [0xE0 + v / 4096, 0x80 + (v / 64) % 64, 0x80 + v % 64]
    else [0xF0 + v / 262144, 0x80 + (v / 4096) % 64, 0x80 + (v / 64) % 64, 0x80 + v % 64]
  }

  /** `String::into_bytes`. */
  function Encode(s: string): (r: seq<byte>)
    ensures |r| >= |s|
  {
    if s == [] then [] else EncodeChar(s[0]) + Encode(s[1..])
  }

  /** Decodes the scalar value the leading bytes encode, and how many bytes
      it takes; `None` when they are not well-formed UTF-8. */
  function DecodeFirst(bs: seq<byte>): (r: Option<(char, nat)>)
    requires |bs| > 0
    ensures r.Some? ==> 1 <= r.value.1 <= |bs| && r.value.1 <= 4
  {
    var b0 := bs[0] as int;
    if b0 < 0x80 then Some((b0 as char, 1))
    else if 0xC2 <= b0 <= 0xDF then
      if |bs| >= 2 && IsContinuation(bs[1]) then
        Some((((b0 - 0xC0) * 64 + (bs[1] as int - 0x80)) as char, 2))
      else None
    else if 0xE0 <= b0 <= 0xEF then
      var lo := if b0 == 0xE0 then 0xA0 else 0x80;
      var hi := if b0 == 0xED then 0x9F else 0xBF;
      if |bs| >= 3 && lo <= bs[1] <= hi && IsContinuation(bs[2]) then
        Some((((b0 - 0xE0) * 4096 + (bs[1] as int - 0x80) * 64 + (bs[2] as int - 0x80)) as char, 3))
      else None
    else if 0xF0 <= b0 <= 0xF4 then
      var lo := if b0 == 0xF0 then 0x90 else 0x80;
      var hi := if b0 == 0xF4 then 0x8F else 0xBF;
      if |bs| >= 4 && lo <= bs[1] <= hi && IsContinuation(bs[2]) && IsContinuation(bs[3]) then
        Some((((b0 - 0xF0) * 262144 + (bs[1] as int - 0x80) * 4096 + (bs[2] as int - 0x80) * 64 + (bs[3] as int - 0x80)) as char, 4))
      else None
    else None
  }

  /** `str::from_utf8`: the string the bytes spell, or `None` when they are
      not valid UTF-8. */
  function Decode(bs: seq<byte>): Option<string>
    decreases |bs|
  {
    if bs == [] then Some([])
    else match DecodeFirst(bs)
      case None => None
      case Some((c, n)) =>
        match Decode(bs[n..])
        case None => None
        case Some(rest) => Some([c] + rest)
  }

  predicate IsAscii(s: string) {
    forall i :: 0 <= i < |s| ==> s[i] as int < 0x80
  }

  /** A string of ASCII characters, one byte each. */
  function AsciiBytes(s: string): (r: seq<byte>)
    requires IsAscii(s)
    ensures |r| == |s|
  {
    seq(|s|, i requires 0 <= i < |s| => s[i] as int)
  }

  lemma DecodeFirstOfEncodeChar2(c: char, rest: seq<byte>)
    requires 0x80 <= c as int < 0x800
    ensures DecodeFirst(EncodeChar(c) + rest) == Some((c, 2))
  {
    var v := c as int;
    var bs := EncodeChar(c) + rest;
    assert bs[0] == 0xC0 + v / 64 && bs[1] == 0x80 + v % 64;
    assert (v / 64) * 64 + v % 64 == v;
  }

  lemma DecodeFirstOfEncodeChar3(c: char, rest: seq<byte>)
    requires 0x800 <= c as int < 0x1_0000
    ensures DecodeFirst(EncodeChar(c) + rest) == Some((c, 3))
  {
    var v := c as int;
    var bs := EncodeChar(c) + rest;
    var q := v / 64;
    assert bs[0] == 0xE0 + v / 4096 && bs[1] == 0x80 + q % 64 && bs[2] == 0x80 + v % 64;
    assert v / 4096 == q / 64;
    assert (q / 64) * 64 + q % 64 == q;
    assert q * 64 + v % 64 == v;
    assert (v / 4096) * 4096 + (q % 64) * 64 + v % 64 == v;
  }

  lemma DecodeFirstOfEncodeChar4(c: char, rest: seq<byte>)
    requires 0x1_0000 <= c as int
    ensures DecodeFirst(EncodeChar(c) + rest) == Some((c, 4))
  {
    var v := c as int;
    var bs := EncodeChar(c) + rest;
    var q := v / 64;
    var p := q / 64;
    assert v / 4096 == p;
    assert v / 262144 == p / 64;
    assert bs[0] == 0xF0 + p / 64 && bs[1] == 0x80 + p % 64 && bs[2] == 0x80 + q % 64 && bs[3] == 0x80 + v % 64;
    assert (p / 64) * 64 + p % 64 == p;
    assert p * 64 + q % 64 == q;
    assert q * 64 + v % 64 == v;
    assert (p / 64) * 262144 + (p % 64) * 4096 + (q % 64) * 64 + v % 64 == v;
  }

  lemma DecodeFirstOfEncodeChar(c: char, rest: seq<byte>)
    ensures DecodeFirst(EncodeChar(c) + rest) == Some((c, |EncodeChar(c)|))
  {
    var v := c as int;
    if v < 0x80 {
    } else if v < 0x800 {
      DecodeFirstOfEncodeChar2(c, rest);
    } else if v < 0x1_0000 {
      DecodeFirstOfEncodeChar3(c, rest);
    } else {
      DecodeFirstOfEncodeChar4(c, rest);
    }
  }

  /** Decoding undoes encoding: every string survives a trip to bytes. */
  lemma {:induction false} DecodeEncode(s: string)
    ensures Decode(Encode(s)) == Some(s)
  {
    if s != [] {
      var e := EncodeChar(s[0]);
      DecodeFirstOfEncodeChar(s[0], Encode(s[1..]));
      assert Encode(s) == e + Encode(s[1..]);
      assert Encode(s)[|e|..] == Encode(s[1..]);
      DecodeEncode(s[1..]);
      assert [s[0]] + s[1..] == s;
    }
  }

  lemma EncodeCharOfDecodeFirst2(bs: seq<byte>)
    requires |bs| >= 2 && 0xC2 <= bs[0] <= 0xDF && IsContinuation(bs[1])
    ensures DecodeFirst(bs).Some? && EncodeChar(DecodeFirst(bs).value.0) == bs[..2]
  {
    var b0 := bs[0] as int;
    var v := (b0 - 0xC0) * 64 + (bs[1] as int - 0x80);
    assert v / 64 == b0 - 0xC0 && v % 64 == bs[1] - 0x80;
  }

  lemma EncodeCharOfDecodeFirst3(bs: seq<byte>)
    requires |bs| >= 3 && 0xE0 <= bs[0] <= 0xEF && DecodeFirst(bs).Some?
    ensures DecodeFirst(bs).value.1 == 3 && EncodeChar(DecodeFirst(bs).value.0) == bs[..3]
  {
    var b0 := bs[0] as int;
    var v := (b0 - 0xE0) * 4096 + (bs[1] as int - 0x80) * 64 + (bs[2] as int - 0x80);
    var q := (b0 - 0xE0) * 64 + (bs[1] as int - 0x80);
    assert v == q * 64 + (bs[2] as int - 0x80);
    assert v / 64 == q && v % 64 == bs[2] - 0x80;
    assert q / 64 == b0 - 0xE0 && q % 64 == bs[1] - 0x80;
    assert v / 4096 == q / 64;
  }

  lemma EncodeCharOfDecodeFirst4(bs: seq<byte>)
    requires |bs| >= 4 && 0xF0 <= bs[0] <= 0xF4 && DecodeFirst(bs).Some?
    ensures DecodeFirst(bs).value.1 == 4 && EncodeChar(DecodeFirst(bs).value.0) == bs[..4]
  {
    var b0 := bs[0] as int;
    var v := (b0 - 0xF0) * 262144 + (bs[1] as int - 0x80) * 4096 + (bs[2] as int - 0x80) * 64 + (bs[3] as int - 0x80);
    var p := (b0 - 0xF0) * 64 + (bs[1] as int - 0x80);
    var q := p * 64 + (bs[2] as int - 0x80);
    assert v == q * 64 + (bs[3] as int - 0x80);
    assert v / 64 == q && v % 64 == bs[3] - 0x80;
    assert q / 64 == p && q % 64 == bs[2] - 0x80;
    assert p / 64 == b0 - 0xF0 && p % 64 == bs[1] - 0x80;
    assert v / 4096 == p;
    assert v / 262144 == p / 64;
  }

  lemma EncodeCharOfDecodeFirst(bs: seq<byte>)
    requires |bs| > 0 && DecodeFirst(bs).Some?
    ensures EncodeChar(DecodeFirst(bs).value.0) == bs[..DecodeFirst(bs).value.1]
  {
    var b0 := bs[0] as int;
    if b0 < 0x80 {
    } else if b0 <= 0xDF {
      EncodeCharOfDecodeFirst2(bs);
    } else if b0 <= 0xEF {
      EncodeCharOfDecodeFirst3(bs);
    } else {
      EncodeCharOfDecodeFirst4(bs);
    }
  }

  /** Encoding undoes decoding: the bytes `from_utf8` accepts are exactly
      the bytes of the string it returns. */
  lemma {:induction false} EncodeDecode(bs: seq<byte>)
    requires Decode(bs).Some?
    ensures Encode(Decode(bs).value) == bs
    decreases |bs|
  {
    if bs != [] {
      var (c, n) := DecodeFirst(bs).value;
      EncodeCharOfDecodeFirst(bs);
      EncodeDecode(bs[n..]);
      var s := Decode(bs).value;
      assert s == [c] + Decode(bs[n..]).value;
      assert s[1..] == Decode(bs[n..]).value;
      assert Encode(s) == EncodeChar(c) + Encode(s[1..]);
      assert bs == bs[..n] + bs[n..];
    }
  }

  lemma {:induction false} EncodeAppend(a: string, b: string)
    ensures Encode(a + b) == Encode(a) + Encode(b)
  {
    if a != [] {
      assert (a + b)[0] == a[0];
      assert (a + b)[1..] == a[1..] + b;
      EncodeAppend(a[1..], b);
      assert Encode(a + b) == EncodeChar(a[0]) + Encode(a[1..] + b);
    } else {
      assert a + b == b;
    }
  }

  /** An ASCII string is encoded one byte per character. */
  lemma {:induction false} EncodeAscii(s: string)
    requires IsAscii(s)
    ensures Encode(s) == AsciiBytes(s)
  {
    if s != [] {
      EncodeAscii(s[1..]);
      assert AsciiBytes(s) == [s[0] as int] + AsciiBytes(s[1..]);
    }
  }

  /** An ASCII byte occurs in the encoding of a string exactly where the
      matching character occurs in the string: multi-byte sequences use
      bytes of 0x80 and above only. */
  lemma {:induction false} AsciiByteInEncode(s: string, c: char)
    requires c as int < 0x80
    ensures (c as int in Encode(s)) <==> (c in s)
  {
    if s != [] {
      AsciiByteInEncode(s[1..], c);
      assert Encode(s) == EncodeChar(s[0]) + Encode(s[1..]);
      assert s == [s[0]] + s[1..];
      if s[0] as int >= 0x80 {
        assert c as int !in EncodeChar(s[0]);
      }
    }
  }

  /** The first byte of an encoding is an ASCII byte exactly when the first
      character is ASCII, and then it is that character. */
  lemma EncodeHead(s: string)
    requires s != []
    ensures Encode(s) != [] && (Encode(s)[0] < 0x80 <==> s[0] as int < 0x80)
    ensures s[0] as int < 0x80 ==> Encode(s)[0] == s[0] as int
  {
    assert Encode(s) == EncodeChar(s[0]) + Encode(s[1..]);
  }
}
