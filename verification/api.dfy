/** `Api` of `src/api.rs`: one handler per verb. */
module Apis {
  import opened Base
  import opened Requests
  import opened Responses
  import opened Filters

  /** An `Api`: each verb method is either given or left at the default,
      which is `None` here. */
  datatype Api<!I, O, E, !C> = Api(
    get: Option<Handler<I, O, E, C>>,
    post: Option<Handler<I, O, E, C>>,
    put: Option<Handler<I, O, E, C>>,
    patch: Option<Handler<I, O, E, C>>,
    delete: Option<Handler<I, O, E, C>>)

  /** `not_implemented`: a bare 405; the context is not touched. */
  function NotImplemented<I, O, E, C>(): Handler<I, O, E, C> {
    (req: Request<I>, ctx: C) => (Err(Responses.New(405)), ctx)
  }

  /** The verb method: the one given, or the default. */
  function VerbMethod<I, O, E, C>(m: Option<Handler<I, O, E, C>>): Handler<I, O, E, C> {
    if m.Some? then m.value else NotImplemented()
  }

  /** Which of the five methods a verb goes to, if any. */
  function Slot<I, O, E, C>(api: Api<I, O, E, C>, verb: Method): Option<Option<Handler<I, O, E, C>>> {
    match verb
    case GET => Some(api.get)
    case POST => Some(api.post)
    case PUT => Some(api.put)
    case PATCH => Some(api.patch)
    case DELETE => Some(api.delete)
    case _ => None
  }

  /** `Api::handler`: dispatch on the verb. */
  function ApiHandler<I, O, E, C>(api: Api<I, O, E, C>): Handler<I, O, E, C> {
    (req: Request<I>, ctx: C) =>
      match req.verb
      case GET => VerbMethod(api.get)(req, ctx)
      case POST => VerbMethod(api.post)(req, ctx)
      case PUT => VerbMethod(api.put)(req, ctx)
      case PATCH => VerbMethod(api.patch)(req, ctx)
      case DELETE => VerbMethod(api.delete)(req, ctx)
      case _ => NotImplemented()(req, ctx)
  }

  /** The five verbs reach their own method with the request and context
      as they came. */
  lemma DispatchesToItsMethod<I, O, E, C>(api: Api<I, O, E, C>, req: Request<I>, ctx: C)
    requires Slot(api, req.verb).Some? && Slot(api, req.verb).value.Some?
    ensures ApiHandler(api)(req, ctx) == Slot(api, req.verb).value.value(req, ctx)
  {
    var m := Slot(api, req.verb).value;
    assert ApiHandler(api)(req, ctx) == VerbMethod(m)(req, ctx);
  }

  /** HEAD, CONNECT, OPTIONS and TRACE, and any verb whose method was not
      given, get a bare 405 and leave the context alone. */
  lemma UnsupportedIs405<I, O, E, C>(api: Api<I, O, E, C>, req: Request<I>, ctx: C)
    requires Slot(api, req.verb).None? || Slot(api, req.verb).value.None?
    ensures ApiHandler(api)(req, ctx).1 == ctx
    ensures var res := ApiHandler(api)(req, ctx).0;
      res.Err? && res.error.statusCode == 405 && res.error.status == "Method Not Allowed" && res.error.payload == None
  {
    if Slot(api, req.verb).Some? {
      var m := Slot(api, req.verb).value;
      assert ApiHandler(api)(req, ctx) == VerbMethod(m)(req, ctx);
    } else {
      assert ApiHandler(api)(req, ctx) == NotImplemented()(req, ctx);
    }
    assert DefaultReason(405) == "Method Not Allowed";
  }

  lemma NoMethodForOtherVerbs<I, O, E, C>(api: Api<I, O, E, C>, verb: Method)
    ensures Slot(api, verb).None? <==> verb in {HEAD, CONNECT, OPTIONS, TRACE}
  {
  }

  /** Exactly one method is consulted: two APIs that agree on the method
      for the request's verb answer alike, whatever their other methods. */
  lemma OnlyItsMethodRuns<I, O, E, C>(api1: Api<I, O, E, C>, api2: Api<I, O, E, C>, req: Request<I>, ctx: C)
    requires Slot(api1, req.verb) == Slot(api2, req.verb)
    ensures ApiHandler(api1)(req, ctx) == ApiHandler(api2)(req, ctx)
  {
  }
}
