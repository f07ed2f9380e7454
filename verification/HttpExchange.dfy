/** One HTTP exchange, passed through the plugin modules phase by phase. */
module HttpExchange {
  import opened Prelude
  import opened PluginSys
  import opened HttpChain

  datatype SendError = SendFailed

  // The whole run, started after the calls in before, is done up to rest, which starts after the calls in now.
  ghost predicate Remaining(all: HeaderRun, before: seq<HookCall>, rest: HeaderRun, now: seq<HookCall>) {
    all.reply == rest.reply && all.ctx == rest.ctx && before + all.calls == now + rest.calls
  }

  lemma RunHeadersStep(all: HeaderRun, before: seq<HookCall>, ms: seq<HttpModule>, ctx: HttpContext, now: seq<HookCall>)
    requires ms != [] && Remaining(all, before, RunHeaders(ms, ctx), now)
    ensures
      var next := AfterHeaders(ms[0], ctx);
      if Answers(ms[0], ctx) then
        all.reply == ReplyOf(next) && all.ctx == next && before + all.calls == now + HeaderCalls(ms[0], ctx)
      else Remaining(all, before, RunHeaders(ms[1..], next), now + HeaderCalls(ms[0], ctx))
  {
    var rest := RunHeaders(ms[1..], AfterHeaders(ms[0], ctx)).calls;
    assert now + (HeaderCalls(ms[0], ctx) + rest) == now + HeaderCalls(ms[0], ctx) + rest;
  }

  // The same for selecting an upstream.
  ghost predicate StillToSelect(all: Selection, before: seq<HookCall>, rest: Selection, now: seq<HookCall>) {
    all.outcome == rest.outcome && all.ctx == rest.ctx && before + all.calls == now + rest.calls
  }

  lemma SelectUpstreamStep(
    all: Selection, before: seq<HookCall>, ms: seq<HttpModule>, ctx: HttpContext, now: seq<HookCall>,
    isPath: PathReader)
    requires ms != [] && StillToSelect(all, before, SelectUpstream(ms, ctx, isPath), now)
    ensures
      var next := AfterRoute(ms[0], ctx);
      match Verdict(ms[0], ctx, isPath)
      case Some(outcome) => all.outcome == outcome && all.ctx == next && before + all.calls == now + RouteCalls(ms[0])
      case None => StillToSelect(all, before, SelectUpstream(ms[1..], next, isPath), now + RouteCalls(ms[0]))
  {
    var rest := SelectUpstream(ms[1..], AfterRoute(ms[0], ctx), isPath).calls;
    assert now + (RouteCalls(ms[0]) + rest) == now + RouteCalls(ms[0]) + rest;
  }

  class Exchange {
    var ctx: HttpContext
    var uri: Option<string>
    var sent: Option<Reply>
    // Every callback made so far, oldest first.
    var calls: seq<HookCall>

    constructor (ctx: HttpContext)
      ensures this.ctx == ctx && uri == None && sent == None && calls == []
    {
      this.ctx, uri, sent, calls := ctx, None, None, [];
    }

    method UpstreamPeer(modules: seq<HttpModule>, isPath: PathReader) returns (outcome: PeerOutcome)
      modifies this
      ensures Selection(outcome, ctx, calls) ==
                var s := SelectUpstream(modules, old(ctx), isPath); s.(calls := old(calls) + s.calls)
      ensures uri == (if outcome.Peer? then Some(outcome.uri) else old(uri)) && sent == old(sent)
    {
      for i := 0 to |modules|
        invariant uri == old(uri) && sent == old(sent)
        invariant StillToSelect(
            SelectUpstream(modules, old(ctx), isPath), old(calls), SelectUpstream(modules[i..], ctx, isPath), calls)
      {
        var module_ := modules[i];
        SelectUpstreamStep(SelectUpstream(modules, old(ctx), isPath), old(calls), modules[i..], ctx, calls, isPath);
        assert modules[i..][1..] == modules[i + 1..];
        if module_.onRoute.Some? {
          var r := module_.onRoute.value(ctx);
          ctx := r.ctx;
          calls := calls + [HookCall(RoutePhase, module_.id)];
          var route := ctx.Route();
          if route.None? {
            continue;
          }
          match r.Action() {
            case Continue =>
              continue;
            case Replace =>
              var upstream := route.value.upstreamToSet;
              if upstream.None? {
                continue;
              }
              var path := route.value.httpPath;
              if path.None? || !isPath(path.value) {
                return Panicked;
              }
              uri := path;
              return Peer(upstream.value, upstream.value.port == HTTPS_PORT, path.value);
            case Drop =>
              return Failed(503);
          }
        }
      }
      return Failed(500);
    }

    // canSend tells whether the connection takes the reply. The result is whether the request was answered.
    method RequestFilter(modules: seq<HttpModule>, canSend: bool) returns (r: Result<bool, SendError>)
      modifies this
      ensures
        var run := RunHeaders(modules, old(ctx));
        && ctx == run.ctx && calls == old(calls) + run.calls && uri == old(uri)
        && sent == (if run.reply.Some? && canSend then run.reply else old(sent))
        && r == if run.reply.Some? && !canSend then Err(SendFailed) else Ok(run.reply.Some?)
    {
      var shortCircuit: Option<Reply> := None;
      for i := 0 to |modules|
        invariant shortCircuit == None && uri == old(uri) && sent == old(sent)
        invariant Remaining(RunHeaders(modules, old(ctx)), old(calls), RunHeaders(modules[i..], ctx), calls)
      {
        var module_ := modules[i];
        ghost var started, had := ctx, calls;
        RunHeadersStep(RunHeaders(modules, old(ctx)), old(calls), modules[i..], ctx, calls);
        assert modules[i..][1..] == modules[i + 1..];
        if module_.onRequestHeaders.Some? {
          var outcome := module_.onRequestHeaders.value(ctx);
          ctx := outcome.ctx;
          calls := calls + [HookCall(RequestHeadersPhase, module_.id)];
          if ctx.response.Some? || outcome.Action() == Replace {
            if module_.onLocalReply.Some? {
              ctx := module_.onLocalReply.value(ctx).ctx;
              calls := calls + [HookCall(LocalReplyPhase, module_.id)];
            }
            if ctx.response.Some? {
              assert calls == had + HeaderCalls(module_, started);
              shortCircuit := ReplyOf(ctx);
              break;
            }
          }
        }
        assert calls == had + HeaderCalls(module_, started);
      }
      if shortCircuit.Some? {
        if !canSend {
          return Err(SendFailed);
        }
        sent := shortCircuit;
        return Ok(true);
      }
      return Ok(false);
    }

    // The second copy of the same loop, run when the upstream request is ready; it reports nothing.
    method UpstreamRequestFilter(modules: seq<HttpModule>, canSend: bool) returns (r: Result<(), SendError>)
      modifies this
      ensures
        var run := RunHeaders(modules, old(ctx));
        && ctx == run.ctx && calls == old(calls) + run.calls && uri == old(uri)
        && sent == (if run.reply.Some? && canSend then run.reply else old(sent))
        && r == if run.reply.Some? && !canSend then Err(SendFailed) else Ok(())
    {
      var shortCircuit: Option<Reply> := None;
      for i := 0 to |modules|
        invariant shortCircuit == None && uri == old(uri) && sent == old(sent)
        invariant Remaining(RunHeaders(modules, old(ctx)), old(calls), RunHeaders(modules[i..], ctx), calls)
      {
        var module_ := modules[i];
        ghost var started, had := ctx, calls;
        RunHeadersStep(RunHeaders(modules, old(ctx)), old(calls), modules[i..], ctx, calls);
        assert modules[i..][1..] == modules[i + 1..];
        if module_.onRequestHeaders.Some? {
          var outcome := module_.onRequestHeaders.value(ctx);
          ctx := outcome.ctx;
          calls := calls + [HookCall(RequestHeadersPhase, module_.id)];
          if ctx.response.Some? || outcome.Action() == Replace {
            if module_.onLocalReply.Some? {
              ctx := module_.onLocalReply.value(ctx).ctx;
              calls := calls + [HookCall(LocalReplyPhase, module_.id)];
            }
            if ctx.response.Some? {
              assert calls == had + HeaderCalls(module_, started);
              shortCircuit := ReplyOf(ctx);
              break;
            }
          }
        }
        assert calls == had + HeaderCalls(module_, started);
      }
      if shortCircuit.Some? {
        if !canSend {
          return Err(SendFailed);
        }
        sent := shortCircuit;
      }
      return Ok(());
    }
  }
}
