/** Properties of the `name=value&...` parameter parser and of adding the
    parsed pairs to a request (`src/request/parser.rs`). */
module ParamsProps {
  import opened Base
  import opened Text
  import opened Utf8
  import opened Headers
  import opened Requests
  import opened Parser

  /** The values stored under a key; an absent key reads as no values. */
  function Lookup(ps: Params, p: Param): seq<string> {
    if p in ps then ps[p] else []
  }

  /** The values of the pairs that land under key `p`, in order. */
  function ValuesFor(pairs: seq<(string, string)>, kind: string -> Param, p: Param): seq<string>
    decreases |pairs|
  {
    if pairs == [] then []
    else (if kind(pairs[0].0) == p then [pairs[0].1] else []) + ValuesFor(pairs[1..], kind, p)
  }

  /** Adding pairs appends, under each key, the values of the pairs that
      land there, in the order of the pairs; a key no pair lands on is left
      as it was. */
  lemma {:induction false} AddParamsAppends(ps: Params, pairs: seq<(string, string)>, kind: string -> Param, p: Param)
    ensures Lookup(AddParams(ps, pairs, kind), p) == Lookup(ps, p) + ValuesFor(pairs, kind, p)
    ensures p in AddParams(ps, pairs, kind) <==> p in ps || ValuesFor(pairs, kind, p) != []
    decreases |pairs|
  {
    if pairs != [] {
      var ps1 := ParamsAdd(ps, kind(pairs[0].0), pairs[0].1);
      AddParamsAppends(ps1, pairs[1..], kind, p);
      if kind(pairs[0].0) == p {
        assert Lookup(ps1, p) == Lookup(ps, p) + [pairs[0].1];
      } else {
        assert Lookup(ps1, p) == Lookup(ps, p);
      }
    }
  }

  /** A pair as the text `name=value`. */
  function PairText(pair: (string, string)): string {
    pair.0 + "=" + pair.1
  }

  function PairTexts(pairs: seq<(string, string)>): (r: seq<string>)
    ensures |r| == |pairs|
    ensures forall i :: 0 <= i < |pairs| ==> r[i] == PairText(pairs[i])
  {
    seq(|pairs|, i requires 0 <= i < |pairs| => PairText(pairs[i]))
  }

  /** Names without `=` or `&` and values without `&`. */
  predicate PlainPairs(pairs: seq<(string, string)>) {
    forall i :: 0 <= i < |pairs| ==> '=' !in pairs[i].0 && '&' !in pairs[i].0 && '&' !in pairs[i].1
  }

  lemma {:induction false} PairsOfPairTexts(pairs: seq<(string, string)>)
    requires PlainPairs(pairs)
    ensures forall i :: 0 <= i < |PairTexts(pairs)| ==> '&' !in PairTexts(pairs)[i]
    ensures PairsOf(PairTexts(pairs)) == pairs
    decreases |pairs|
  {
    var ts := PairTexts(pairs);
    if pairs != [] {
      assert ts[1..] == PairTexts(pairs[1..]);
      PairsOfPairTexts(pairs[1..]);
      SplitOnceJoin(pairs[0].0, '=', pairs[0].1);
      assert ts[0] == pairs[0].0 + ['='] + pairs[0].1;
    }
  }

  /** Parameters round trip: joining `name=value` texts with `&` and parsing
      them gives back the pairs, in order. */
  lemma ParseParamsOfJoin(pairs: seq<(string, string)>)
    requires pairs != [] && PlainPairs(pairs)
    ensures ParseParams(Join(PairTexts(pairs), '&')) == pairs
  {
    PairsOfPairTexts(pairs);
    SplitJoin(PairTexts(pairs), '&');
  }

  /** A piece without `=` adds no pair. */
  lemma PieceWithoutEqualsDropped(piece: string, rest: seq<string>)
    requires '&' !in piece && '=' !in piece
    requires forall i :: 0 <= i < |rest| ==> '&' !in rest[i]
    ensures PairsOf([piece] + rest) == PairsOf(rest)
  {
    assert ([piece] + rest)[1..] == rest;
  }

  /** Query parameters are added under `Query` and nothing else changes. */
  lemma QueryParamsAdded<T>(req: Request<T>, p: Param)
    ensures Lookup(WithQueryParams(req).params, p) == Lookup(req.params, p) + ValuesFor(ParseParams(req.query), n => Query(n), p)
    ensures !p.Query? ==> Lookup(WithQueryParams(req).params, p) == Lookup(req.params, p)
    ensures WithQueryParams(req).(params := req.params) == req
  {
    AddParamsAppends(req.params, ParseParams(req.query), n => Query(n), p);
    if !p.Query? {
      NoValuesForOtherKind(ParseParams(req.query), n => Query(n), p);
    }
  }

  lemma {:induction false} NoValuesForOtherKind(pairs: seq<(string, string)>, kind: string -> Param, p: Param)
    requires forall n :: kind(n) != p
    ensures ValuesFor(pairs, kind, p) == []
    decreases |pairs|
  {
    if pairs != [] {
      NoValuesForOtherKind(pairs[1..], kind, p);
    }
  }

  /** Body parameters are added exactly when there is a payload, the
      content type is exactly `application/www-form-urlencoded`, and the
      payload is UTF-8; otherwise the request is unchanged. */
  lemma BodyParamsCondition(req: Request<seq<byte>>)
    ensures WithBodyParams(req).(params := req.params) == req
    ensures WithBodyParams(req).params != req.params ==>
      && req.payload.Some?
      && HeaderGet(req.headers, "content-type") == Some(FORM_URLENCODED)
      && Decode(req.payload.value).Some?
    ensures req.payload.Some? && HeaderGet(req.headers, "content-type") == Some(FORM_URLENCODED) && Decode(req.payload.value).Some? ==>
      WithBodyParams(req).params == AddParams(req.params, ParseParams(Decode(req.payload.value).value), n => Body(n))
  {
  }
}
