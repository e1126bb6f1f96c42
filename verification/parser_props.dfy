/** Properties of the request parser: each sub-parser's behaviour on a
    known stretch of input, and from them the round trip from a request
    description through its wire form and back. */
module ParserProps {
  import opened Base
  import opened Text
  import opened Utf8
  import opened Headers
  import opened Requests
  import opened Parser

  /** The state after the first `k` bytes have been handed out: the
      lookahead is byte `k` (if any) and `k + 1` bytes have been taken. */
  function At(input: seq<byte>, k: nat): (st: PState)
    requires k <= |input|
    ensures st.peek.Some? <==> k < |input|
    ensures st.peek.Some? ==> st.peek.value == input[k]
  {
    if k < |input| then PState(Some(input[k]), k + 1, false) else PState(None, |input|, false)
  }

  lemma NextAt(input: seq<byte>, k: nat)
    requires k < |input|
    ensures Next(input, At(input, k)) == (Some(input[k]), At(input, k + 1))
  {
  }

  /** `parse` opens with one `next`, which leaves the state at byte 0. */
  lemma StartAt(input: seq<byte>)
    ensures Next(input, START).1 == At(input, 0)
  {
  }

  /** `star` takes exactly the maximal run `input[k..j]` of the class. */
  lemma {:induction false} StarAt(input: seq<byte>, k: nat, j: nat, pred: byte -> bool)
    requires k <= j <= |input|
    requires forall i :: k <= i < j ==> pred(input[i])
    requires j == |input| || !pred(input[j])
    ensures Star(input, At(input, k), pred) == Parsed(input[k..j], At(input, j))
    decreases j - k
  {
    if k < j {
      NextAt(input, k);
      StarAt(input, k + 1, j, pred);
      assert input[k..j] == [input[k]] + input[k + 1..j];
    }
  }

  /** `plus` on a non-empty maximal run. */
  lemma PlusAt(input: seq<byte>, k: nat, j: nat, pred: byte -> bool)
    requires k < j <= |input|
    requires forall i :: k <= i < j ==> pred(input[i])
    requires j == |input| || !pred(input[j])
    ensures Plus(input, At(input, k), pred) == Ok(Parsed(input[k..j], At(input, j)))
  {
    NextAt(input, k);
    StarAt(input, k + 1, j, pred);
    assert input[k..j] == [input[k]] + input[k + 1..j];
  }

  /** `until` stops at the first `b` without consuming it. */
  lemma {:induction false} UntilAt(input: seq<byte>, k: nat, j: nat, b: byte)
    requires k <= j < |input| && input[j] == b
    requires forall i :: k <= i < j ==> input[i] != b
    ensures Until(input, At(input, k), b) == Ok(Parsed(input[k..j], At(input, j)))
    decreases j - k
  {
    if k < j {
      NextAt(input, k);
      UntilAt(input, k + 1, j, b);
      assert input[k..j] == [input[k]] + input[k + 1..j];
    }
  }

  /** `until` on input with no `b` left fails at the end of the input. */
  lemma {:induction false} UntilRunsOut(input: seq<byte>, k: nat, b: byte)
    requires k <= |input|
    requires forall i :: k <= i < |input| ==> input[i] != b
    ensures Until(input, At(input, k), b) == Err(ParseError(|input|, "unexpected end of input"))
    decreases |input| - k
  {
    if k < |input| {
      NextAt(input, k);
      UntilRunsOut(input, k + 1, b);
    }
  }

  /** `expects` matches `bs` byte for byte. */
  lemma {:induction false} ExpectsAt(input: seq<byte>, k: nat, bs: seq<byte>)
    requires k + |bs| <= |input| && input[k..k + |bs|] == bs
    ensures Expects(input, At(input, k), bs) == Ok(Parsed((), At(input, k + |bs|)))
    decreases |bs|
  {
    if bs != [] {
      assert input[k] == bs[0];
      NextAt(input, k);
      assert input[k + 1..k + 1 + |bs[1..]|] == bs[1..];
      ExpectsAt(input, k + 1, bs[1..]);
    }
  }

  /** The body loop from byte `j` with `n - i` bytes still owed: when the
      input holds them it returns them, and otherwise it fails at the end of
      the input naming how many bytes are still missing. */
  lemma {:induction false} BodyFromAt(input: seq<byte>, j: nat, n: nat, i: nat, acc: seq<byte>)
    requires i < n && j <= |input|
    ensures j + (n - i) <= |input| ==>
      BodyFrom(input, At(input, j), n, i, acc).Ok? && BodyFrom(input, At(input, j), n, i, acc).value.value == acc + input[j..j + (n - i)]
    ensures j + (n - i) > |input| ==>
      BodyFrom(input, At(input, j), n, i, acc) == Err(ParseError(|input|, "expected " + NatToString(n - i - (|input| - j)) + " more bytes"))
    decreases n - i
  {
    if i == n - 1 {
      if j < |input| {
        assert input[j..j + 1] == [input[j]];
      }
    } else if j < |input| {
      NextAt(input, j);
      BodyFromAt(input, j + 1, n, i + 1, acc + [input[j]]);
      if j + (n - i) <= |input| {
        assert input[j..j + (n - i)] == [input[j]] + input[j + 1..j + 1 + (n - (i + 1))];
      }
    }
  }

  /** With no declared length, the header block must end in exactly one
      CRLF; whatever follows it is never read. */
  lemma PayloadEmptyAt(input: seq<byte>, k: nat)
    requires k + 2 <= |input| && input[k] == CR && input[k + 1] == LF
    ensures ParsePayload(input, At(input, k), 0) == Ok(None)
  {
    NextAt(input, k);
  }

  /** With a declared length `n > 0` and at least `n` bytes after the
      CRLF, the payload is exactly the next `n` bytes. */
  lemma PayloadAt(input: seq<byte>, k: nat, n: nat)
    requires n > 0 && k + 2 + n <= |input| && input[k..k + 2] == CRLF
    ensures ParsePayload(input, At(input, k), n) == Ok(Some(input[k + 2..k + 2 + n]))
  {
    ExpectsAt(input, k, CRLF);
    BodyFromAt(input, k + 2, n, 0, []);
    var body := ParseBody(input, At(input, k + 2), n);
    assert body.Ok? && body.value.value == input[k + 2..k + 2 + n];
  }

  /** With fewer than `n` bytes after the CRLF, parsing fails at the end of
      the input and reports how many bytes are missing. */
  lemma PayloadShort(input: seq<byte>, k: nat, n: nat)
    requires n > 0 && k + 2 <= |input| < k + 2 + n && input[k..k + 2] == CRLF
    ensures ParsePayload(input, At(input, k), n) == Err(ParseError(|input|, "expected " + NatToString(k + 2 + n - |input|) + " more bytes"))
  {
    ExpectsAt(input, k, CRLF);
    BodyFromAt(input, k + 2, n, 0, []);
  }
}
