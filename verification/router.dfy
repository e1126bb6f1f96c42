/** Path routing (`src/router.rs`): patterns, segment matching and
    first-match dispatch.

    The source as written has two defects around a trailing `**`; the
    functions marked "as written" model them, and the "intended" ones are
    what the router is documented to do. `Handle` is the dispatcher as
    written, `HandleIntended` the documented one. */
module Routing {
  import opened Base
  import opened Text
  import opened Requests
  import opened Responses
  import opened Parser
  import opened ParamsProps
  import opened Filters

  /** `RoutePart`. */
  datatype RoutePart = Exact(text: string) | Param(name: string) | Any

  /** `RoutePart::from_str`. */
  function PartFromStr(s: string): (p: RoutePart)
    ensures p.Any? <==> s == "*"
    ensures p.Param? <==> s != "*" && |s| >= 1 && s[0] == '?'
    ensures p.Param? ==> s == "?" + p.name
    ensures p.Exact? ==> s == p.text
  {
    if s == "*" then Any
    else if |s| >= 1 && s[0] == '?' then Param(s[1..])
    else Exact(s)
  }

  /** The pattern text of a segment. */
  function PartText(p: RoutePart): string {
    match p
    case Exact(t) => t
    case Param(n) => "?" + n
    case Any => "*"
  }

  /** A literal segment that does not read as `*` or `?name`. */
  predicate PlainPart(p: RoutePart) {
    p.Exact? ==> p.text != "*" && (p.text == [] || p.text[0] != '?')
  }

  /** Segment patterns read back as they were written. */
  lemma PartRoundTrip(p: RoutePart)
    requires PlainPart(p)
    ensures PartFromStr(PartText(p)) == p
  {
    if p.Param? {
      assert ("?" + p.name)[1..] == p.name;
    }
  }

  /** `RoutePart::matches`: whether the segment matches, and the capture. */
  function PartMatches(p: RoutePart, s: string): (r: (bool, Option<(string, string)>))
    ensures r.0 <==> !p.Exact? || s == p.text
    ensures r.1.Some? <==> p.Param?
    ensures r.1.Some? ==> r.1.value == (p.name, s)
  {
    match p
    case Exact(t) => (s == t, None)
    case Any => (true, None)
    case Param(n) => (true, Some((n, s)))
  }

  /** `RoutePath`. */
  datatype RoutePath = RoutePath(parts: seq<RoutePart>, isPrefix: bool)

  predicate EndsWithStars(s: string) {
    |s| >= 2 && s[|s| - 2..] == "**"
  }

  function PartsFromStr(s: string): (r: seq<RoutePart>)
    ensures |r| == |Split(s, '/')|
    ensures forall i :: 0 <= i < |r| ==> r[i] == PartFromStr(Split(s, '/')[i])
  {
    var pieces := Split(s, '/');
    seq(|pieces|, i requires 0 <= i < |pieces| => PartFromStr(pieces[i]))
  }

  /** `RoutePath::from_str` as written: a trailing `**` is cut off and the
      rest split on `/`, so the `/` before it leaves an empty last
      segment. */
  function PathFromStr(s: string): (r: RoutePath)
    ensures r.isPrefix <==> EndsWithStars(s)
    ensures r.parts == PartsFromStr(if EndsWithStars(s) then s[..|s| - 2] else s)
  {
    if EndsWithStars(s) then RoutePath(PartsFromStr(s[..|s| - 2]), true)
    else RoutePath(PartsFromStr(s), false)
  }

  /** The outcome of matching a path: no match, a match with its captures,
      or the panic of indexing past the pattern's segments. */
  datatype Outcome = NoMatch | Match(captures: seq<(string, string)>) | Panic

  /** The loop of `RoutePath::matches` over the request's segments. */
  function MatchSegments(parts: seq<RoutePart>, segs: seq<string>): Outcome
    decreases |segs|
  {
    if segs == [] then Match([])
    else if parts == [] then Panic
    else
      var (ok, cap) := PartMatches(parts[0], segs[0]);
      if !ok then NoMatch
      else match MatchSegments(parts[1..], segs[1..])
        case Match(cs) => Match((if cap.Some? then [cap.value] else []) + cs)
        case o => o
  }

  /** `RoutePath::matches` as written. */
  function MatchesAsWritten(rp: RoutePath, path: string): Outcome {
    var segs := Split(path, '/');
    if |segs| < |rp.parts| then NoMatch
    else if |segs| > |rp.parts| && !rp.isPrefix then NoMatch
    else MatchSegments(rp.parts, segs)
  }

  /** Every segment matches its part. */
  predicate AllMatch(parts: seq<RoutePart>, segs: seq<string>)
    requires |segs| <= |parts|
  {
    forall i :: 0 <= i < |segs| ==> PartMatches(parts[i], segs[i]).0
  }

  /** The captures of the `?name` parts, in segment order. */
  function CapturesOf(parts: seq<RoutePart>, segs: seq<string>): seq<(string, string)>
    requires |segs| <= |parts|
    decreases |segs|
  {
    if segs == [] then []
    else (if parts[0].Param? then [(parts[0].name, segs[0])] else []) + CapturesOf(parts[1..], segs[1..])
  }

  /** The segment loop, when it does not run past the parts, matches
      exactly when every segment matches, and captures the `?name`
      segments in order. */
  lemma {:induction false} MatchSegmentsMeaning(parts: seq<RoutePart>, segs: seq<string>)
    requires |segs| <= |parts|
    ensures MatchSegments(parts, segs) != Panic
    ensures MatchSegments(parts, segs).Match? <==> AllMatch(parts, segs)
    ensures MatchSegments(parts, segs).Match? ==> MatchSegments(parts, segs).captures == CapturesOf(parts, segs)
    decreases |segs|
  {
    if segs != [] {
      MatchSegmentsMeaning(parts[1..], segs[1..]);
      if PartMatches(parts[0], segs[0]).0 {
        assert AllMatch(parts, segs) <==> AllMatch(parts[1..], segs[1..]) by {
          if AllMatch(parts[1..], segs[1..]) {
            forall i | 0 <= i < |segs|
              ensures PartMatches(parts[i], segs[i]).0
            {
              if i > 0 {
                assert PartMatches(parts[1..][i - 1], segs[1..][i - 1]).0;
              }
            }
          }
          if AllMatch(parts, segs) {
            forall i | 0 <= i < |segs| - 1
              ensures PartMatches(parts[1..][i], segs[1..][i]).0
            {
              assert PartMatches(parts[i + 1], segs[i + 1]).0;
            }
          }
        }
      }
    }
  }

  /** As written, a match needs as many request segments as pattern
      segments, prefix pattern or not; a longer request whose segments
      all match runs past the parts instead. */
  lemma {:induction false} MatchesAsWrittenEqualCounts(rp: RoutePath, path: string)
    ensures MatchesAsWritten(rp, path).Match? ==> |Split(path, '/')| == |rp.parts|
    ensures MatchesAsWritten(rp, path).Match? ==>
      && AllMatch(rp.parts, Split(path, '/'))
      && MatchesAsWritten(rp, path).captures == CapturesOf(rp.parts, Split(path, '/'))
  {
    var segs := Split(path, '/');
    if |segs| == |rp.parts| {
      MatchSegmentsMeaning(rp.parts, segs);
    } else if |segs| > |rp.parts| && rp.isPrefix {
      MatchSegmentsLonger(rp.parts, segs);
    }
  }

  /** More segments than parts never gives a match. */
  lemma {:induction false} MatchSegmentsLonger(parts: seq<RoutePart>, segs: seq<string>)
    requires |segs| > |parts|
    ensures !MatchSegments(parts, segs).Match?
    decreases |parts|
  {
    if parts != [] && PartMatches(parts[0], segs[0]).0 {
      MatchSegmentsLonger(parts[1..], segs[1..]);
    }
  }

  /** `/w**`, for a literal segment `w`, has the parts `""` and `w`. */
  lemma StarsAfterWordParts(w: string)
    requires '/' !in w && PlainPart(Exact(w))
    ensures PathFromStr("/" + w + "**") == RoutePath([Exact(""), Exact(w)], true)
  {
    var s := "/" + w + "**";
    assert s[..|s| - 2] == [] + ['/'] + w;
    SplitHead([], '/', w);
    SplitNoSep(w, '/');
  }

  /** `/w/` followed by `**`, for a literal segment `w`, has the parts `""`,
      `w` and `""`. */
  lemma StarsAfterSlashParts(w: string)
    requires '/' !in w && PlainPart(Exact(w))
    ensures PathFromStr("/" + w + "/**") == RoutePath([Exact(""), Exact(w), Exact("")], true)
  {
    var s := "/" + w + "/**";
    assert s[..|s| - 2] == [] + ['/'] + (w + ['/'] + []);
    SplitHead([], '/', w + "/");
    SplitHead(w, '/', []);
    SplitNoSep([], '/');
  }

  /** `/w/x` has the segments `""`, `w` and `x`. */
  lemma TwoSegments(w: string, x: string)
    requires '/' !in w && '/' !in x
    ensures Split("/" + w + "/" + x, '/') == ["", w, x]
  {
    assert "/" + w + "/" + x == [] + ['/'] + (w + ['/'] + x);
    SplitHead([], '/', w + "/" + x);
    SplitHead(w, '/', x);
    SplitNoSep(x, '/');
  }

  /** As written, `/w**` against `/w/x` matches both parts and then
      indexes a third part that is not there. */
  lemma StarsAfterWordPanics(w: string, x: string)
    requires '/' !in w && '/' !in x && PlainPart(Exact(w))
    ensures MatchesAsWritten(PathFromStr("/" + w + "**"), "/" + w + "/" + x) == Panic
  {
    StarsAfterWordParts(w);
    TwoSegments(w, x);
    var parts := [Exact(""), Exact(w)];
    var segs := ["", w, x];
    assert MatchSegments(parts[2..], segs[2..]) == Panic;
    assert MatchSegments(parts[1..], segs[1..]) == Panic;
  }

  /** As written, `/w/` followed by `**` rejects every `/w/x` with a
      non-empty `x`. */
  lemma StarsAfterSlashRejects(w: string, x: string)
    requires '/' !in w && '/' !in x && x != [] && PlainPart(Exact(w))
    ensures MatchesAsWritten(PathFromStr("/" + w + "/**"), "/" + w + "/" + x) == NoMatch
  {
    StarsAfterSlashParts(w);
    TwoSegments(w, x);
    var parts := [Exact(""), Exact(w), Exact("")];
    var segs := ["", w, x];
    assert MatchSegments(parts[2..], segs[2..]) == NoMatch;
    assert MatchSegments(parts[1..], segs[1..]) == NoMatch;
  }

  /** Finding: the pattern `/a**` against `/a/b`. Its parts are `""` and
      `"a"`, the request has three segments, both parts match, and the
      loop then indexes a third part that is not there. */
  lemma PrefixRoutePanics()
    ensures PathFromStr("/a**") == RoutePath([Exact(""), Exact("a")], true)
    ensures MatchesAsWritten(PathFromStr("/a**"), "/a/b") == Panic
  {
    assert "/a**" == "/" + "a" + "**";
    assert "/a/b" == "/" + "a" + "/" + "b";
    StarsAfterWordParts("a");
    StarsAfterWordPanics("a", "b");
  }

  /** Finding: the pattern `/foo/` followed by `**` keeps an empty last
      segment, so `/foo/bar`, which its documentation says it matches, does
      not. */
  lemma PrefixRouteRejectsChild()
    ensures PathFromStr("/foo/**") == RoutePath([Exact(""), Exact("foo"), Exact("")], true)
    ensures MatchesAsWritten(PathFromStr("/foo/**"), "/foo/bar") == NoMatch
  {
    assert "/foo/**" == "/" + "foo" + "/**";
    assert "/foo/bar" == "/" + "foo" + "/" + "bar";
    StarsAfterSlashParts("foo");
    StarsAfterSlashRejects("foo", "bar");
  }

  /** The pattern as documented: a trailing `**`, with the `/` before it,
      stands for any further segments. */
  function PathFromStrIntended(s: string): (r: RoutePath)
    ensures r.isPrefix <==> EndsWithStars(s)
  {
    if EndsWithStars(s) then
      var t := s[..|s| - 2];
      RoutePath(PartsFromStr(if |t| >= 1 && t[|t| - 1] == '/' then t[..|t| - 1] else t), true)
    else RoutePath(PartsFromStr(s), false)
  }

  /** Matching as documented: a prefix pattern checks only the request's
      first segments. */
  function MatchesIntended(rp: RoutePath, path: string): (r: Outcome)
    ensures r != Panic
  {
    var segs := Split(path, '/');
    if |segs| < |rp.parts| then NoMatch
    else if |segs| > |rp.parts| && !rp.isPrefix then NoMatch
    else
      MatchSegmentsMeaning(rp.parts, segs[..|rp.parts|]);
      MatchSegments(rp.parts, segs[..|rp.parts|])
  }

  /** What the intended matching accepts: enough segments, no extra ones
      unless the pattern is a prefix, and every pattern segment matching;
      the captures are those of the pattern's segments in order. */
  lemma MatchesIntendedMeaning(rp: RoutePath, path: string)
    ensures var segs := Split(path, '/');
      MatchesIntended(rp, path).Match? <==>
        && |rp.parts| <= |segs|
        && (rp.isPrefix || |segs| == |rp.parts|)
        && AllMatch(rp.parts, segs[..|rp.parts|])
    ensures var segs := Split(path, '/');
      MatchesIntended(rp, path).Match? ==> MatchesIntended(rp, path).captures == CapturesOf(rp.parts, segs[..|rp.parts|])
  {
    var segs := Split(path, '/');
    if |segs| >= |rp.parts| {
      MatchSegmentsMeaning(rp.parts, segs[..|rp.parts|]);
    }
  }

  /** Without a trailing `**` nothing changes: both readings agree. */
  lemma IntendedAgreesWithoutStars(s: string, path: string)
    requires !EndsWithStars(s)
    ensures PathFromStrIntended(s) == PathFromStr(s)
    ensures MatchesIntended(PathFromStr(s), path) == MatchesAsWritten(PathFromStr(s), path)
  {
    var rp := PathFromStr(s);
    var segs := Split(path, '/');
    if |segs| == |rp.parts| {
      assert segs[..|rp.parts|] == segs;
    }
  }

  /** Read as intended, `/w/` followed by `**` has the parts `""` and
      `w`. */
  lemma IntendedStarsAfterSlashParts(w: string)
    requires '/' !in w && PlainPart(Exact(w))
    ensures PathFromStrIntended("/" + w + "/**") == RoutePath([Exact(""), Exact(w)], true)
  {
    var s := "/" + w + "/**";
    var t := s[..|s| - 2];
    assert t[..|t| - 1] == [] + ['/'] + w;
    SplitHead([], '/', w);
    SplitNoSep(w, '/');
  }

  /** Read as intended, `/w/` followed by `**` takes every `/w/x`, with
      nothing captured. */
  lemma IntendedStarsAfterSlashMatches(w: string, x: string)
    requires '/' !in w && '/' !in x && PlainPart(Exact(w))
    ensures MatchesIntended(PathFromStrIntended("/" + w + "/**"), "/" + w + "/" + x) == Match([])
  {
    IntendedStarsAfterSlashParts(w);
    TwoSegments(w, x);
    var parts := [Exact(""), Exact(w)];
    var segs := ["", w, x];
    assert segs[..2] == ["", w];
    assert MatchSegments(parts[1..], segs[..2][1..]) == Match([]);
  }

  /** The corrected pattern `/foo/` followed by `**` has the parts `""` and
      `"foo"`, and takes `/foo/bar` with nothing captured. */
  lemma IntendedPrefixMatchesChild()
    ensures PathFromStrIntended("/foo/**") == RoutePath([Exact(""), Exact("foo")], true)
    ensures MatchesIntended(PathFromStrIntended("/foo/**"), "/foo/bar") == Match([])
  {
    assert "/foo/**" == "/" + "foo" + "/**";
    assert "/foo/bar" == "/" + "foo" + "/" + "bar";
    IntendedStarsAfterSlashParts("foo");
    IntendedStarsAfterSlashMatches("foo", "bar");
  }

  /** A registered route. */
  datatype Route<!I, O, E, !C> = Route(path: RoutePath, handler: Handler<I, O, E, C>)

  /** `Router::with_route`: the pattern is read as written and the route is
      kept after the earlier ones. */
  function WithRoute<I, O, E, C>(routes: seq<Route<I, O, E, C>>, pattern: string, h: Handler<I, O, E, C>): (r: seq<Route<I, O, E, C>>)
    ensures |r| == |routes| + 1 && r[..|routes|] == routes
    ensures r[|routes|].path == PathFromStr(pattern) && r[|routes|].handler == h
  {
    routes + [Route(PathFromStr(pattern), h)]
  }

  /** The captures, added as `Path` parameters in order. */
  function WithCaptures<I>(req: Request<I>, captures: seq<(string, string)>): Request<I> {
    req.(params := AddParams(req.params, captures, n => Path(n)))
  }

  /** `Router::handle`: the routes are tried in order with the matching as
      written; the first that matches runs with its captures added, a route
      whose matching panics ends the request (`None`), and without a match
      the answer is a bare 404. */
  function Handle<I, O, E, C>(routes: seq<Route<I, O, E, C>>, req: Request<I>, ctx: C): Option<(Res<O, E>, C)>
    decreases |routes|
  {
    if routes == [] then Some((Err(Responses.New(404)), ctx))
    else
      match MatchesAsWritten(routes[0].path, req.path)
      case Match(cs) => Some(routes[0].handler(WithCaptures(req, cs), ctx))
      case Panic => None
      case NoMatch => Handle(routes[1..], req, ctx)
  }

  /** The first route that matches answers, with its captures added as
      `Path` parameters; the routes after it are never consulted. */
  lemma {:induction false} HandleFirstMatch<I, O, E, C>(routes: seq<Route<I, O, E, C>>, i: nat, req: Request<I>, ctx: C)
    requires i < |routes|
    requires forall j :: 0 <= j < i ==> MatchesAsWritten(routes[j].path, req.path) == NoMatch
    requires MatchesAsWritten(routes[i].path, req.path).Match?
    ensures Handle(routes, req, ctx) == Some(routes[i].handler(WithCaptures(req, MatchesAsWritten(routes[i].path, req.path).captures), ctx))
    decreases i
  {
    if i > 0 {
      HandleFirstMatch(routes[1..], i - 1, req, ctx);
    }
  }

  /** A route whose matching panics, reached before any match, ends the
      request: no handler answers. */
  lemma {:induction false} HandlePanics<I, O, E, C>(routes: seq<Route<I, O, E, C>>, i: nat, req: Request<I>, ctx: C)
    requires i < |routes|
    requires forall j :: 0 <= j < i ==> MatchesAsWritten(routes[j].path, req.path) == NoMatch
    requires MatchesAsWritten(routes[i].path, req.path) == Panic
    ensures Handle(routes, req, ctx) == None
    decreases i
  {
    if i > 0 {
      HandlePanics(routes[1..], i - 1, req, ctx);
    }
  }

  /** When no route matches (and none panics) the answer is a bare 404, no
      handler runs and the context is untouched. */
  lemma {:induction false} HandleNoMatch<I, O, E, C>(routes: seq<Route<I, O, E, C>>, req: Request<I>, ctx: C)
    requires forall j :: 0 <= j < |routes| ==> MatchesAsWritten(routes[j].path, req.path) == NoMatch
    ensures Handle(routes, req, ctx).Some? && Handle(routes, req, ctx).value.1 == ctx
    ensures var res := Handle(routes, req, ctx).value.0;
      res.Err? && res.error.statusCode == 404 && res.error.status == "Not Found"
      && res.error.headers == [] && res.error.payload == None
    decreases |routes|
  {
    if routes != [] {
      HandleNoMatch(routes[1..], req, ctx);
    } else {
      assert DefaultReason(404) == "Not Found";
    }
  }

  /** The router as documented: patterns are read as intended. */
  function WithRouteIntended<I, O, E, C>(routes: seq<Route<I, O, E, C>>, pattern: string, h: Handler<I, O, E, C>): (r: seq<Route<I, O, E, C>>)
    ensures |r| == |routes| + 1 && r[..|routes|] == routes
    ensures r[|routes|].path == PathFromStrIntended(pattern) && r[|routes|].handler == h
  {
    routes + [Route(PathFromStrIntended(pattern), h)]
  }

  /** The router as documented: the intended matching never panics, so
      some answer always comes back. */
  function HandleIntended<I, O, E, C>(routes: seq<Route<I, O, E, C>>, req: Request<I>, ctx: C): (Res<O, E>, C)
    decreases |routes|
  {
    if routes == [] then (Err(Responses.New(404)), ctx)
    else
      var m := MatchesIntended(routes[0].path, req.path);
      if m.Match? then routes[0].handler(WithCaptures(req, m.captures), ctx)
      else HandleIntended(routes[1..], req, ctx)
  }

  /** As documented, the first matching route answers, with its captures
      added as `Path` parameters. */
  lemma {:induction false} HandleIntendedFirstMatch<I, O, E, C>(routes: seq<Route<I, O, E, C>>, i: nat, req: Request<I>, ctx: C)
    requires i < |routes|
    requires forall j :: 0 <= j < i ==> !MatchesIntended(routes[j].path, req.path).Match?
    requires MatchesIntended(routes[i].path, req.path).Match?
    ensures HandleIntended(routes, req, ctx) == routes[i].handler(WithCaptures(req, MatchesIntended(routes[i].path, req.path).captures), ctx)
    decreases i
  {
    if i > 0 {
      HandleIntendedFirstMatch(routes[1..], i - 1, req, ctx);
    }
  }

  /** As documented, without a matching route the answer is a bare 404 and
      the context is untouched. */
  lemma {:induction false} HandleIntendedNoMatch<I, O, E, C>(routes: seq<Route<I, O, E, C>>, req: Request<I>, ctx: C)
    requires forall j :: 0 <= j < |routes| ==> !MatchesIntended(routes[j].path, req.path).Match?
    ensures HandleIntended(routes, req, ctx).1 == ctx
    ensures var res := HandleIntended(routes, req, ctx).0;
      res.Err? && res.error.statusCode == 404 && res.error.status == "Not Found"
      && res.error.headers == [] && res.error.payload == None
    decreases |routes|
  {
    if routes != [] {
      HandleIntendedNoMatch(routes[1..], req, ctx);
    } else {
      assert DefaultReason(404) == "Not Found";
    }
  }

  /** With no prefix pattern among the routes the router as written never
      panics and answers as the documented one. */
  lemma {:induction false} HandleAgreesWithoutPrefix<I, O, E, C>(routes: seq<Route<I, O, E, C>>, req: Request<I>, ctx: C)
    requires forall j :: 0 <= j < |routes| ==> !routes[j].path.isPrefix
    ensures Handle(routes, req, ctx) == Some(HandleIntended(routes, req, ctx))
    decreases |routes|
  {
    if routes != [] {
      var rp := routes[0].path;
      var segs := Split(req.path, '/');
      if |segs| == |rp.parts| {
        assert segs[..|rp.parts|] == segs;
        MatchSegmentsMeaning(rp.parts, segs);
      }
      HandleAgreesWithoutPrefix(routes[1..], req, ctx);
    }
  }

  /** As written, a router holding only `/w**` ends every request for
      `/w/x` in a panic. */
  lemma StarsAfterWordRouterPanics<I, O, E, C>(w: string, x: string, h: Handler<I, O, E, C>, req: Request<I>, ctx: C)
    requires '/' !in w && '/' !in x && PlainPart(Exact(w))
    requires req.path == "/" + w + "/" + x
    ensures Handle(WithRoute([], "/" + w + "**", h), req, ctx) == None
  {
    StarsAfterWordPanics(w, x);
    HandlePanics(WithRoute([], "/" + w + "**", h), 0, req, ctx);
  }

  /** As written, a router holding only `/w/` and then `**` answers 404
      to `/w/x` without running its handler. */
  lemma StarsAfterSlashRouter404<I, O, E, C>(w: string, x: string, h: Handler<I, O, E, C>, req: Request<I>, ctx: C)
    requires '/' !in w && '/' !in x && x != [] && PlainPart(Exact(w))
    requires req.path == "/" + w + "/" + x
    ensures Handle(WithRoute([], "/" + w + "/**", h), req, ctx) == Some((Err(Responses.New(404)), ctx))
  {
    StarsAfterSlashRejects(w, x);
    var routes := WithRoute([], "/" + w + "/**", h);
    assert routes[1..] == [];
  }

  /** Finding, at the router: a router holding only `/a**` panics on
      `/a/b`. */
  lemma RouterPanicsOnPrefix<I, O, E, C>(h: Handler<I, O, E, C>, req: Request<I>, ctx: C)
    requires req.path == "/a/b"
    ensures Handle(WithRoute([], "/a**", h), req, ctx) == None
  {
    assert "/a**" == "/" + "a" + "**";
    assert "/a/b" == "/" + "a" + "/" + "b";
    StarsAfterWordRouterPanics("a", "b", h, req, ctx);
  }

  /** Finding, at the router: a router holding only the pattern `/foo/`
      followed by `**` answers 404 to `/foo/bar`; its handler never runs. */
  lemma RouterRejectsChild<I, O, E, C>(h: Handler<I, O, E, C>, req: Request<I>, ctx: C)
    requires req.path == "/foo/bar"
    ensures Handle(WithRoute([], "/foo/**", h), req, ctx) == Some((Err(Responses.New(404)), ctx))
  {
    assert "/foo/**" == "/" + "foo" + "/**";
    assert "/foo/bar" == "/" + "foo" + "/" + "bar";
    StarsAfterSlashRouter404("foo", "bar", h, req, ctx);
  }

  /** Read as intended, `/w**`, for a non-empty word `w`, takes every
      `/w/x`, with nothing captured. */
  lemma IntendedStarsAfterWordMatches(w: string, x: string)
    requires w != [] && '/' !in w && '/' !in x && PlainPart(Exact(w))
    ensures MatchesIntended(PathFromStrIntended("/" + w + "**"), "/" + w + "/" + x) == Match([])
  {
    var s := "/" + w + "**";
    var t := s[..|s| - 2];
    assert t == "/" + w;
    assert t[|t| - 1] == w[|w| - 1];
    assert PathFromStrIntended(s) == PathFromStr(s);
    StarsAfterWordParts(w);
    TwoSegments(w, x);
    var parts := [Exact(""), Exact(w)];
    var segs := ["", w, x];
    assert segs[..2] == ["", w];
    assert MatchSegments(parts[1..], segs[..2][1..]) == Match([]);
  }

  /** Corrected, at the router: a router holding only `/a**` runs its
      handler for `/a/b`, adding no parameters. */
  lemma IntendedRouterTakesPrefix<I, O, E, C>(h: Handler<I, O, E, C>, req: Request<I>, ctx: C)
    requires req.path == "/a/b"
    ensures HandleIntended(WithRouteIntended([], "/a**", h), req, ctx) == h(WithCaptures(req, []), ctx)
  {
    assert "/a**" == "/" + "a" + "**";
    assert "/a/b" == "/" + "a" + "/" + "b";
    IntendedStarsAfterWordMatches("a", "b");
  }

  /** Corrected, at the router: a router holding only the pattern `/foo/`
      followed by `**` runs its handler for `/foo/bar`, adding no
      parameters. */
  lemma IntendedRouterTakesChild<I, O, E, C>(h: Handler<I, O, E, C>, req: Request<I>, ctx: C)
    requires req.path == "/foo/bar"
    ensures HandleIntended(WithRouteIntended([], "/foo/**", h), req, ctx) == h(WithCaptures(req, []), ctx)
  {
    IntendedPrefixMatchesChild();
  }

  /** A capture lands under `Path(name)` after the values already there,
      in the order of the pattern's segments. */
  lemma CapturesArePathParams<I>(req: Request<I>, captures: seq<(string, string)>, p: Param)
    ensures Lookup(WithCaptures(req, captures).params, p) == Lookup(req.params, p) + ValuesFor(captures, n => Path(n), p)
    ensures !p.Path? ==> Lookup(WithCaptures(req, captures).params, p) == Lookup(req.params, p)
  {
    AddParamsAppends(req.params, captures, n => Path(n), p);
    if !p.Path? {
      NoValuesForOtherKind(captures, n => Path(n), p);
    }
  }
}
