/** Handlers and the filter combinators of `src/filter.rs`.

    A handler takes the request and the context and returns its result with
    the context as it left it: the source's `&mut C` becomes a value that
    is threaded through. Filters are functions from handlers to handlers. */
module Filters {
  import opened Base
  import opened Requests
  import opened Responses

  /** `Res<O, E>`: an Ok response or an error response. */
  type Res<O, E> = Result<Response<O>, Response<E>>

  /** `Handler::handle`. */
  type Handler<!I, O, E, !C> = (Request<I>, C) -> (Res<O, E>, C)

  /** `RequestFilter::handle`: `f` sees the request first; an `Err` from it
      is the answer, an `Ok` request goes on to the inner handler. */
  function RequestFilter<I, FI, O, E, C>(
    f: (Request<I>, C) -> (Result<Request<FI>, Response<E>>, C),
    inner: Handler<FI, O, E, C>): Handler<I, O, E, C>
  {
    (req: Request<I>, ctx: C) =>
      var (fr, c1) := f(req, ctx);
      if fr.Ok? then inner(fr.value, c1) else (Err(fr.error), c1)
  }

  /** `ResponseFilter::handle`: `f` rewrites an Ok response. */
  function ResponseFilter<I, O, FO, E, C>(
    f: (Response<O>, C) -> (Response<FO>, C),
    inner: Handler<I, O, E, C>): Handler<I, FO, E, C>
  {
    (req: Request<I>, ctx: C) =>
      var (res, c1) := inner(req, ctx);
      if res.Ok? then var (r, c2) := f(res.value, c1); (Ok(r), c2) else (Err(res.error), c1)
  }

  /** `ErrorFilter::handle`: `f` rewrites an error response. */
  function ErrorFilter<I, O, E, FE, C>(
    f: (Response<FE>, C) -> (Response<E>, C),
    inner: Handler<I, O, FE, C>): Handler<I, O, E, C>
  {
    (req: Request<I>, ctx: C) =>
      var (res, c1) := inner(req, ctx);
      if res.Err? then var (r, c2) := f(res.error, c1); (Err(r), c2) else (Ok(res.value), c1)
  }

  /** `ResFilter::handle`: `f` sees the whole result. */
  function ResFilter<I, O, E, FO, FE, C>(
    f: (Res<O, E>, C) -> (Res<FO, FE>, C),
    inner: Handler<I, O, E, C>): Handler<I, FO, FE, C>
  {
    (req: Request<I>, ctx: C) =>
      var (res, c1) := inner(req, ctx);
      f(res, c1)
  }

  /** A request filter that lets the request through: the inner handler
      gets the request `f` returned and the context as `f` left it. */
  lemma RequestFilterContinues<I, FI, O, E, C>(
    f: (Request<I>, C) -> (Result<Request<FI>, Response<E>>, C),
    inner: Handler<FI, O, E, C>, req: Request<I>, ctx: C)
    requires f(req, ctx).0.Ok?
    ensures RequestFilter(f, inner)(req, ctx) == inner(f(req, ctx).0.value, f(req, ctx).1)
  {
  }

  /** A request filter that answers itself never runs the inner handler:
      the result is the same whatever handler is inside. */
  lemma RequestFilterPreempts<I, FI, O, E, C>(
    f: (Request<I>, C) -> (Result<Request<FI>, Response<E>>, C),
    inner1: Handler<FI, O, E, C>, inner2: Handler<FI, O, E, C>, req: Request<I>, ctx: C)
    requires f(req, ctx).0.Err?
    ensures RequestFilter(f, inner1)(req, ctx) == RequestFilter(f, inner2)(req, ctx)
    ensures RequestFilter(f, inner1)(req, ctx) == (Err(f(req, ctx).0.error), f(req, ctx).1)
  {
  }

  /** An error passes a response filter unchanged and `f` is never run. */
  lemma ResponseFilterPassesErr<I, O, FO, E, C>(
    f1: (Response<O>, C) -> (Response<FO>, C), f2: (Response<O>, C) -> (Response<FO>, C),
    inner: Handler<I, O, E, C>, req: Request<I>, ctx: C)
    requires inner(req, ctx).0.Err?
    ensures ResponseFilter(f1, inner)(req, ctx) == ResponseFilter(f2, inner)(req, ctx)
    ensures ResponseFilter(f1, inner)(req, ctx) == (Err(inner(req, ctx).0.error), inner(req, ctx).1)
  {
  }

  /** An Ok response passes an error filter unchanged and `f` is never
      run. */
  lemma ErrorFilterPassesOk<I, O, E, FE, C>(
    f1: (Response<FE>, C) -> (Response<E>, C), f2: (Response<FE>, C) -> (Response<E>, C),
    inner: Handler<I, O, FE, C>, req: Request<I>, ctx: C)
    requires inner(req, ctx).0.Ok?
    ensures ErrorFilter(f1, inner)(req, ctx) == ErrorFilter(f2, inner)(req, ctx)
    ensures ErrorFilter(f1, inner)(req, ctx) == (Ok(inner(req, ctx).0.value), inner(req, ctx).1)
  {
  }

  /** Response and error filters keep the kind of the inner result: an Ok
      stays Ok and an error stays an error. */
  lemma FiltersKeepKind<I, O, FO, E, FE, C>(
    fo: (Response<O>, C) -> (Response<FO>, C), fe: (Response<E>, C) -> (Response<FE>, C),
    inner: Handler<I, O, E, C>, req: Request<I>, ctx: C)
    ensures ResponseFilter(fo, inner)(req, ctx).0.Ok? <==> inner(req, ctx).0.Ok?
    ensures ErrorFilter(fe, inner)(req, ctx).0.Ok? <==> inner(req, ctx).0.Ok?
  {
  }

  /** `f` of a response filter, as a function of whole results. */
  function LiftOk<O, FO, E, C>(f: (Response<O>, C) -> (Response<FO>, C)): (Res<O, E>, C) -> (Res<FO, E>, C) {
    (res: Res<O, E>, c: C) =>
      if res.Ok? then var (r, c2) := f(res.value, c); (Ok(r), c2) else (Err(res.error), c)
  }

  /** `f` of an error filter, as a function of whole results. */
  function LiftErr<O, E, FE, C>(f: (Response<FE>, C) -> (Response<E>, C)): (Res<O, FE>, C) -> (Res<O, E>, C) {
    (res: Res<O, FE>, c: C) =>
      if res.Err? then var (r, c2) := f(res.error, c); (Err(r), c2) else (Ok(res.value), c)
  }

  /** A result filter does whatever a response filter or an error filter
      does, given the lifted function. */
  lemma ResFilterGeneralises<I, O, FO, E, FE, C>(
    fo: (Response<O>, C) -> (Response<FO>, C), fe: (Response<E>, C) -> (Response<FE>, C),
    inner: Handler<I, O, E, C>, req: Request<I>, ctx: C)
    ensures ResponseFilter(fo, inner)(req, ctx) == ResFilter(LiftOk(fo), inner)(req, ctx)
    ensures ErrorFilter(fe, inner)(req, ctx) == ResFilter(LiftErr(fe), inner)(req, ctx)
  {
  }

  /** Turns every Ok into an error with the same response. */
  function OkToErr<O, C>(): (Res<O, O>, C) -> (Res<O, O>, C) {
    (res: Res<O, O>, c: C) => if res.Ok? then (Err(res.value), c) else (res, c)
  }

  /** Unlike the other filters, a result filter can turn an Ok into an
      error. */
  lemma ResFilterCanTurnOkIntoErr<I, O, C>(inner: Handler<I, O, O, C>, req: Request<I>, ctx: C)
    requires inner(req, ctx).0.Ok?
    ensures ResFilter(OkToErr(), inner)(req, ctx).0 == Err(inner(req, ctx).0.value)
  {
  }

  /** Two response filters in a row act as one with the inner `g` applied
      first: the response, and the context, go through `g` then `f`. */
  function Then<A, B, D, C>(g: (Response<A>, C) -> (Response<B>, C), f: (Response<B>, C) -> (Response<D>, C)): (Response<A>, C) -> (Response<D>, C) {
    (r: Response<A>, c: C) => var (r1, c1) := g(r, c); f(r1, c1)
  }

  lemma ResponseFiltersFuse<I, O, P, Q, E, C>(
    f: (Response<P>, C) -> (Response<Q>, C), g: (Response<O>, C) -> (Response<P>, C),
    inner: Handler<I, O, E, C>, req: Request<I>, ctx: C)
    ensures ResponseFilter(f, ResponseFilter(g, inner))(req, ctx) == ResponseFilter(Then(g, f), inner)(req, ctx)
  {
  }

  /** Two request filters in a row act as one: the outer `f` runs first and
      its answer pre-empts the inner `g`. */
  function AndThen<I, J, K, E, C>(
    f: (Request<I>, C) -> (Result<Request<J>, Response<E>>, C),
    g: (Request<J>, C) -> (Result<Request<K>, Response<E>>, C)): (Request<I>, C) -> (Result<Request<K>, Response<E>>, C)
  {
    (req: Request<I>, c: C) =>
      var (fr, c1) := f(req, c);
      if fr.Ok? then g(fr.value, c1) else (Err(fr.error), c1)
  }

  lemma RequestFiltersFuse<I, J, K, O, E, C>(
    f: (Request<I>, C) -> (Result<Request<J>, Response<E>>, C),
    g: (Request<J>, C) -> (Result<Request<K>, Response<E>>, C),
    inner: Handler<K, O, E, C>, req: Request<I>, ctx: C)
    ensures RequestFilter(f, RequestFilter(g, inner))(req, ctx) == RequestFilter(AndThen(f, g), inner)(req, ctx)
  {
  }

  /** Response, error and result filters run after the inner handler: what
      `f` is given is the inner result and the context as the inner handler
      left it. */
  lemma ResFilterSeesInnerContext<I, O, E, FO, FE, C>(
    f: (Res<O, E>, C) -> (Res<FO, FE>, C), inner: Handler<I, O, E, C>, req: Request<I>, ctx: C)
    ensures ResFilter(f, inner)(req, ctx) == f(inner(req, ctx).0, inner(req, ctx).1)
  {
  }
}
