/** The plain data that crosses the plugin boundary. */
module PluginSys {
  import opened Prelude

  type bytes = seq<byte>

  datatype SocketAddress = SocketAddress(host: string, port: u16)

  datatype RouteAction = Keep | ReplaceUpstream | Reject | SyntheticResponse

  datatype RouteDecision = RouteDecision(
    action: RouteAction,
    upstreamToSet: Option<SocketAddress>,
    httpPath: Option<string>)

  datatype TransportProtocol = Tcp | Udp

  datatype ConnectionInfo = ConnectionInfo(
    id: u64,
    localAddr: SocketAddress,
    peerAddr: Option<SocketAddress>,
    protocol: TransportProtocol)

  datatype FlowDirection = Inbound | Outbound

  datatype TransportContext = TransportContext(
    connection: ConnectionInfo,
    direction: Option<FlowDirection>,
    route: RouteDecision)

  datatype Header = Header(name: string, value: string)

  datatype HttpVersion = Http10 | Http11 | Http2 | Http3

  datatype HttpRequest = HttpRequest(
    streamId: u64,
    version: HttpVersion,
    isTls: bool,
    httpMethod: string,
    authority: string,
    path: string,
    headers: seq<Header>,
    body: bytes)

  datatype HttpResponse = HttpResponse(
    streamId: u64,
    version: HttpVersion,
    status: u16,
    headers: seq<Header>,
    body: bytes)

  datatype HttpContext = HttpContext(
    request: Option<HttpRequest>,
    response: Option<HttpResponse>,
    transport: Option<TransportContext>)
  {
    function Route(): Option<RouteDecision> {
      match transport
      case None => None
      case Some(t) => Some(t.route)
    }

    // Fails, changing nothing, when there is no transport to carry the route.
    function SetRoute(route: RouteDecision): (r: (HttpContext, bool))
      ensures r.1 <==> transport.Some?
      ensures r.0.Route() == if r.1 then Some(route) else None
      ensures r.0.request == request && r.0.response == response
      ensures r.0.transport.Some? <==> transport.Some?
      ensures r.1 ==>
                && r.0.transport.value.connection == transport.value.connection
                && r.0.transport.value.direction == transport.value.direction
    {
      match transport
      case None => (this, false)
      case Some(t) => (this.(transport := Some(t.(route := route))), true)
    }
  }

  datatype TcpContext = TcpContext(chunk: Option<bytes>, meta: TransportContext)

  datatype PluginError = PluginError(message: Option<string>)

  datatype HookAction = Continue | Replace | Drop

  // What one call of an HTTP hook leaves behind: the context it mutated and the value it returned.
  datatype HookReturn = HookReturn(ctx: HttpContext, outcome: Result<HookAction, PluginError>)
  {
    // The host maps a hook error to the default action.
    function Action(): HookAction {
      match outcome
      case Ok(action) => action
      case Err(_) => Continue
    }
  }

  type HttpHook = HttpContext -> HookReturn

  // Hooks are arbitrary functions of the context; id stands for the plugin instance.
  datatype HttpModule = HttpModule(
    id: nat,
    priority: u8,
    onRoute: Option<HttpHook>,
    onRequestHeaders: Option<HttpHook>,
    onLocalReply: Option<HttpHook>)

  // The host ignores what TCP hooks return, so only the new context is kept.
  type TcpHook = TcpContext -> TcpContext

  datatype TcpModule = TcpModule(id: nat, priority: u8, onData: Option<TcpHook>)

  datatype UdpModule = UdpModule(id: nat, priority: u8)
}
