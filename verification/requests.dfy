/** The request value type and its parameter store (`src/request/mod.rs`). */
module Requests {
  import opened Base
  import opened Text
  import opened Headers

  datatype Method = GET | HEAD | POST | PUT | PATCH | DELETE | CONNECT | OPTIONS | TRACE

  /** Where a named parameter came from. */
  datatype Param = Path(name: string) | Query(name: string) | Body(name: string)

  /** `Params`: the values collected under each (kind, name), in the order
      they were added. */
  type Params = map<Param, seq<string>>

  /** `Params::add`: appends the value to the list of its key, creating the
      list if needed; every other key is left alone. */
  function ParamsAdd(ps: Params, p: Param, value: string): (r: Params)
    ensures p in r && r[p] == (if p in ps then ps[p] else []) + [value]
    ensures forall k :: k != p ==> (k in r <==> k in ps)
    ensures forall k :: k != p && k in ps ==> r[k] == ps[k]
  {
    ps[p := (if p in ps then ps[p] else []) + [value]]
  }

  /** `Params::get_all`. */
  function GetAll(ps: Params, p: Param): (r: Option<seq<string>>)
    ensures r.Some? <==> p in ps
    ensures r.Some? ==> r.value == ps[p]
  {
    if p in ps then Some(ps[p]) else None
  }

  /** `Params::get_first`: the earliest value of the key, `None` for a
      missing key or an empty list. */
  function GetFirst(ps: Params, p: Param): (r: Option<string>)
    ensures r.Some? <==> p in ps && ps[p] != []
    ensures r.Some? ==> r.value == ps[p][0]
  {
    match GetAll(ps, p)
    case None => None
    case Some(vs) => if vs == [] then None else Some(vs[0])
  }

  /** `Params::get_any`: the first value of the first kind, in the order
      path, query, body, that has one. */
  function GetAny(ps: Params, name: string): (r: Option<string>)
    ensures r.Some? <==> GetFirst(ps, Path(name)).Some? || GetFirst(ps, Query(name)).Some? || GetFirst(ps, Body(name)).Some?
    ensures GetFirst(ps, Path(name)).Some? ==> r == GetFirst(ps, Path(name))
    ensures GetFirst(ps, Path(name)).None? && GetFirst(ps, Query(name)).Some? ==> r == GetFirst(ps, Query(name))
    ensures GetFirst(ps, Path(name)).None? && GetFirst(ps, Query(name)).None? ==> r == GetFirst(ps, Body(name))
  {
    var kinds := [Path(name), Query(name), Body(name)];
    FirstFound(ps, kinds)
  }

  function FirstFound(ps: Params, kinds: seq<Param>): (r: Option<string>)
    ensures r.Some? <==> exists i :: 0 <= i < |kinds| && GetFirst(ps, kinds[i]).Some?
    ensures |kinds| > 0 && GetFirst(ps, kinds[0]).Some? ==> r == GetFirst(ps, kinds[0])
    ensures |kinds| > 0 && GetFirst(ps, kinds[0]).None? ==> r == FirstFound(ps, kinds[1..])
  {
    if kinds == [] then None
    else match GetFirst(ps, kinds[0])
      case Some(v) => Some(v)
      case None =>
        var r := FirstFound(ps, kinds[1..]);
        assert forall i :: 1 <= i < |kinds| ==> kinds[i] == kinds[1..][i - 1];
        r
  }

  /** Adding keeps the earliest value first: once a key has a value,
      `get_first` never changes; the first value added becomes it. */
  lemma GetFirstAfterAdd(ps: Params, p: Param, value: string)
    ensures GetFirst(ParamsAdd(ps, p, value), p) == if GetFirst(ps, p).Some? then GetFirst(ps, p) else Some(value)
  {
  }

  /** A captured path parameter shadows a query or body parameter of the
      same name. */
  lemma PathShadowsQueryAndBody(ps: Params, name: string, value: string)
    requires GetFirst(ps, Path(name)).None?
    ensures GetAny(ParamsAdd(ps, Path(name), value), name) == Some(value)
  {
  }

  /** `Request<T>`. The payload (called `body` in parts of the source) and
      the declared content length are separate fields. */
  datatype Request<T> = Request(
    verb: Method,
    path: string,
    query: string,
    fragment: string,
    headers: HeaderMap,
    payload: Option<T>,
    contentLength: nat,
    params: Params)

  /** `Request::default()`. */
  function DefaultRequest<T>(): (r: Request<T>)
    ensures r.verb == GET && r.path == "/" && r.query == "" && r.fragment == ""
    ensures HeaderGet(r.headers, "host") == Some("localhost") && |r.headers| == 1
    ensures r.payload == None && r.contentLength == 0 && r.params == map[]
  {
    assert Lower("Host") == "host";
    Request(GET, "/", "", "", HeaderInsert(map[], "Host", "localhost"), None, 0, map[])
  }

  /** `Request::with_header`: inserts or replaces under a case-insensitive
      name; everything else is unchanged. */
  function WithHeader<T>(req: Request<T>, name: string, value: string): (r: Request<T>)
    ensures HeaderGet(r.headers, name) == Some(value)
    ensures forall n :: !SameName(n, name) ==> HeaderGet(r.headers, n) == HeaderGet(req.headers, n)
    ensures r.(headers := req.headers) == req
  {
    req.(headers := HeaderInsert(req.headers, name, value))
  }

  /** `Request::into_type`: the same request with the payload dropped. */
  function IntoType<T, S>(req: Request<T>): (r: Request<S>)
    ensures r.payload == None
    ensures r.verb == req.verb && r.path == req.path && r.query == req.query && r.fragment == req.fragment
    ensures r.headers == req.headers && r.contentLength == req.contentLength && r.params == req.params
  {
    Request(req.verb, req.path, req.query, req.fragment, req.headers, None, req.contentLength, req.params)
  }

  /** `Request::accept`: `Ok(None)` without the header, else the parsed
      preferences; the `Accept` parser never fails, so neither does this. */
  function AcceptOf<T>(req: Request<T>, parseQ: QualityParser): (r: Result<Option<Accept>, HeaderParseError>)
    ensures r.Ok?
    ensures r.value.None? <==> HeaderGet(req.headers, "accept").None?
    ensures r.value.Some? ==> r.value.value == ParseAccept(HeaderGet(req.headers, "accept").value, parseQ).value
  {
    match HeaderGet(req.headers, "accept")
    case None => Ok(None)
    // The source propagates a parse error with `?`; `ParseAccept` has none.
    case Some(s) => Ok(Some(ParseAccept(s, parseQ).value))
  }

  /** `Request::content_type`: `Ok(None)` without the header, else the
      parse result, with its error passed on. */
  function ContentTypeOf<T>(req: Request<T>): (r: Result<Option<ContentType>, HeaderParseError>)
    ensures HeaderGet(req.headers, "content-type").None? ==> r == Ok(None)
    ensures HeaderGet(req.headers, "content-type").Some? ==>
      var parsed := ParseContentType(HeaderGet(req.headers, "content-type").value);
      (r.Err? <==> parsed.Err?) && (r.Err? ==> r.error == parsed.error) && (r.Ok? ==> r.value == Some(parsed.value))
  {
    match HeaderGet(req.headers, "content-type")
    case None => Ok(None)
    case Some(s) =>
      var ct :- ParseContentType(s);
      Ok(Some(ct))
  }
}
