/** What the HTTP hook chain computes: upstream selection and the request-header phase, as functions of the context. */
module HttpChain {
  import opened Prelude
  import opened PluginSys

  datatype Phase = RoutePhase | RequestHeadersPhase | LocalReplyPhase

  // One call of a plugin callback.
  datatype HookCall = HookCall(phase: Phase, id: nat)

  // ------------------------------------------------------ upstream selection

  const HTTPS_PORT: u16 := 443

  datatype PeerOutcome =
    | Peer(upstream: SocketAddress, tls: bool, uri: string)
    | Failed(status: u16)
    | Panicked

  // Whether text builds a URI; that belongs to the http crate.
  type PathReader = string -> bool

  datatype Selection = Selection(outcome: PeerOutcome, ctx: HttpContext, calls: seq<HookCall>)

  function AfterRoute(m: HttpModule, ctx: HttpContext): HttpContext {
    match m.onRoute
    case None => ctx
    case Some(hook) => hook(ctx).ctx
  }

  function RouteCalls(m: HttpModule): seq<HookCall> {
    if m.onRoute.Some? then [HookCall(RoutePhase, m.id)] else []
  }

  // The route that m settles on when called with ctx: it must leave a route in the context,
  // and either drop the request or replace the upstream by one it names.
  function Verdict(m: HttpModule, ctx: HttpContext, isPath: PathReader): Option<PeerOutcome> {
    match m.onRoute
    case None => None
    case Some(hook) =>
      match hook(ctx).ctx.Route()
      case None => None
      case Some(route) =>
        match hook(ctx).Action()
        case Continue => None
        case Drop => Some(Failed(503))
        case Replace =>
          match route.upstreamToSet
          case None => None
          case Some(upstream) =>
            match route.httpPath
            case None => Some(Panicked)
            case Some(path) =>
              if isPath(path) then Some(Peer(upstream, upstream.port == HTTPS_PORT, path)) else Some(Panicked)
  }

  // The modules in turn, each on the context its predecessors left, up to the first verdict.
  function SelectUpstream(ms: seq<HttpModule>, ctx: HttpContext, isPath: PathReader): Selection {
    if ms == [] then Selection(Failed(500), ctx, [])
    else
      var next := AfterRoute(ms[0], ctx);
      match Verdict(ms[0], ctx, isPath)
      case Some(outcome) => Selection(outcome, next, RouteCalls(ms[0]))
      case None =>
        var rest := SelectUpstream(ms[1..], next, isPath);
        rest.(calls := RouteCalls(ms[0]) + rest.calls)
  }

  // ------------------------------------------------------ request headers

  datatype Reply = Reply(status: u16, body: bytes)

  datatype HeaderRun = HeaderRun(reply: Option<Reply>, ctx: HttpContext, calls: seq<HookCall>)

  // Whether m's own local-reply hook is due after its header hook.
  predicate RepliesLocally(m: HttpModule, ctx: HttpContext) {
    m.onRequestHeaders.Some? && m.onLocalReply.Some? &&
    var r := m.onRequestHeaders.value(ctx);
    r.ctx.response.Some? || r.Action() == Replace
  }

  function AfterHeaders(m: HttpModule, ctx: HttpContext): HttpContext {
    match m.onRequestHeaders
    case None => ctx
    case Some(hook) => if RepliesLocally(m, ctx) then m.onLocalReply.value(hook(ctx).ctx).ctx else hook(ctx).ctx
  }

  function HeaderCalls(m: HttpModule, ctx: HttpContext): seq<HookCall> {
    if m.onRequestHeaders.None? then []
    else
      [HookCall(RequestHeadersPhase, m.id)] +
      if RepliesLocally(m, ctx) then [HookCall(LocalReplyPhase, m.id)] else []
  }

  // m took part in the header phase and left a response.
  predicate Answers(m: HttpModule, ctx: HttpContext) {
    m.onRequestHeaders.Some? && AfterHeaders(m, ctx).response.Some?
  }

  function ReplyOf(ctx: HttpContext): Option<Reply> {
    match ctx.response
    case None => None
    case Some(response) => Some(Reply(response.status, response.body))
  }

  function RunHeaders(ms: seq<HttpModule>, ctx: HttpContext): HeaderRun {
    if ms == [] then HeaderRun(None, ctx, [])
    else
      var next := AfterHeaders(ms[0], ctx);
      if Answers(ms[0], ctx) then HeaderRun(ReplyOf(next), next, HeaderCalls(ms[0], ctx))
      else
        var rest := RunHeaders(ms[1..], next);
        rest.(calls := HeaderCalls(ms[0], ctx) + rest.calls)
  }
}
