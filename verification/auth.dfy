/** `Authenticator` of `src/auth.rs`: a request guard that answers 401. */
module Auth {
  import opened Base
  import opened Requests
  import opened Responses
  import opened Filters

  /** `AuthError`: its reason is never shown to the client. */
  datatype AuthError = AuthError(reason: string)

  /** The authentication function: it sees the request, may change the
      context, and accepts or refuses. */
  type AuthFn<!I, !C> = (Request<I>, C) -> (Result<(), AuthError>, C)

  /** `Authenticator::handle`. */
  function Authenticator<I, O, E, C>(fauth: AuthFn<I, C>, inner: Handler<I, O, E, C>): Handler<I, O, E, C> {
    (req: Request<I>, ctx: C) =>
      var (a, c1) := fauth(req, ctx);
      if a.Ok? then inner(req, c1) else (Err(Responses.New(401)), c1)
  }

  /** The authentication step as a request filter. */
  function AsRequestFilter<I, E, C>(fauth: AuthFn<I, C>): (Request<I>, C) -> (Result<Request<I>, Response<E>>, C) {
    (req: Request<I>, ctx: C) =>
      var (a, c1) := fauth(req, ctx);
      (if a.Ok? then Ok(req) else Err(Responses.New(401)), c1)
  }

  /** An authenticator is the request filter that passes the request on
      untouched or answers a bare 401. */
  lemma AuthenticatorIsRequestFilter<I, O, E, C>(fauth: AuthFn<I, C>, inner: Handler<I, O, E, C>, req: Request<I>, ctx: C)
    ensures Authenticator(fauth, inner)(req, ctx) == RequestFilter(AsRequestFilter(fauth), inner)(req, ctx)
  {
  }

  /** Accepted: the inner handler gets the same request and the context as
      the authentication function left it. */
  lemma AuthenticatorAccepts<I, O, E, C>(fauth: AuthFn<I, C>, inner: Handler<I, O, E, C>, req: Request<I>, ctx: C)
    requires fauth(req, ctx).0.Ok?
    ensures Authenticator(fauth, inner)(req, ctx) == inner(req, fauth(req, ctx).1)
  {
  }

  /** Refused: the answer is a 401 with no headers and no payload, whatever
      the reason given and whatever handler is inside. */
  lemma AuthenticatorRefuses<I, O, E, C>(
    fauth1: AuthFn<I, C>, fauth2: AuthFn<I, C>,
    inner1: Handler<I, O, E, C>, inner2: Handler<I, O, E, C>, req: Request<I>, ctx: C)
    requires fauth1(req, ctx).0.Err? && fauth2(req, ctx).0.Err?
    requires fauth1(req, ctx).1 == fauth2(req, ctx).1
    ensures Authenticator(fauth1, inner1)(req, ctx) == Authenticator(fauth2, inner2)(req, ctx)
    ensures var (res, c1) := Authenticator(fauth1, inner1)(req, ctx);
      && c1 == fauth1(req, ctx).1 && res.Err?
      && res.error.statusCode == 401 && res.error.status == "Unauthorized"
      && res.error.headers == [] && res.error.payload == None
  {
  }

  /** The order of wrapping matters: with the result filter outside, a
      refused request still goes through it; with the authenticator
      outside, the refusal is the answer and the result filter never
      runs. */
  lemma WrapOrder<I, O, E, C>(
    fauth: AuthFn<I, C>, addId: (Res<O, E>, C) -> (Res<O, E>, C),
    inner: Handler<I, O, E, C>, req: Request<I>, ctx: C)
    requires fauth(req, ctx).0.Err?
    ensures ResFilter(addId, Authenticator(fauth, inner))(req, ctx) == addId(Err(Responses.New(401)), fauth(req, ctx).1)
    ensures Authenticator(fauth, ResFilter(addId, inner))(req, ctx) == (Err(Responses.New(401)), fauth(req, ctx).1)
  {
  }
}
