/** The two hook chains told step by step, from what the hooks return: the functions of HttpChain compute just this. */
module HttpChainSteps {
  import opened Prelude
  import opened PluginSys
  import opened HttpChain
  import opened HttpChainProperties

  // Where a chain stands: the context, and the callbacks made so far.
  datatype Progress = Progress(ctx: HttpContext, calls: seq<HookCall>)

  // ------------------------------------------------------ upstream selection

  // One module's turn in the route phase, if nothing was decided before: its hook, if it has one, is called with the
  // context as it stands, and leaves the one the next module is called with.
  ghost predicate RouteStep(m: HttpModule, before: Progress, after: Progress) {
    match m.onRoute
    case None => after == before
    case Some(hook) => after == Progress(hook(before.ctx).ctx, before.calls + [HookCall(RoutePhase, m.id)])
  }

  ghost predicate RouteTrace(ms: seq<HttpModule>, ctx: HttpContext, trace: seq<Progress>) {
    && |trace| == |ms| + 1 && trace[0] == Progress(ctx, [])
    && forall i :: 0 <= i < |ms| ==> RouteStep(ms[i], trace[i], trace[i + 1])
  }

  lemma {:induction false} RouteTraceExists(ms: seq<HttpModule>, ctx: HttpContext) returns (trace: seq<Progress>)
    ensures RouteTrace(ms, ctx, trace)
  {
    if ms == [] {
      trace := [Progress(ctx, [])];
    } else {
      var n := |ms| - 1;
      var front := RouteTraceExists(ms[..n], ctx);
      var last := front[n];
      trace := front + [match ms[n].onRoute
                        case None => last
                        case Some(hook) =>
                          Progress(hook(last.ctx).ctx, last.calls + [HookCall(RoutePhase, ms[n].id)])];
      forall i | 0 <= i < |ms| ensures RouteStep(ms[i], trace[i], trace[i + 1]) {
        if i < n {
          assert RouteStep(ms[..n][i], front[i], front[i + 1]);
        }
      }
    }
  }

  lemma {:induction false} AllRouteCallsSnoc(ms: seq<HttpModule>, m: HttpModule)
    ensures AllRouteCalls(ms + [m]) == AllRouteCalls(ms) + RouteCalls(m)
  {
    if ms == [] {
      assert ms + [m] == [m] && [m][1..] == [];
    } else {
      assert (ms + [m])[1..] == ms[1..] + [m];
      AllRouteCallsSnoc(ms[1..], m);
      ConcatAssociates(RouteCalls(ms[0]), AllRouteCalls(ms[1..]), RouteCalls(m));
    }
  }

  lemma {:induction false} RouteTraceAt(ms: seq<HttpModule>, ctx: HttpContext, trace: seq<Progress>, i: nat)
    requires RouteTrace(ms, ctx, trace) && i <= |ms|
    ensures trace[i] == Progress(ContextAt(ms, ctx, i), AllRouteCalls(ms[..i]))
  {
    if i == 0 {
    } else {
      RouteTraceAt(ms, ctx, trace, i - 1);
      assert ms[..i] == ms[..i - 1] + [ms[i - 1]];
      AllRouteCallsSnoc(ms[..i - 1], ms[i - 1]);
      assert RouteStep(ms[i - 1], trace[i - 1], trace[i]);
    }
  }

  // Module k is the first on the trace to decide.
  ghost predicate DecidesFirst(ms: seq<HttpModule>, trace: seq<Progress>, k: nat)
    requires |trace| == |ms| + 1
  {
    && k < |ms| && Decisive(ms[k], trace[k].ctx)
    && forall i :: 0 <= i < k ==> !Decisive(ms[i], trace[i].ctx)
  }

  // The selection ends at the first module to decide: with the outcome its hook's own return value brings about, the
  // context it leaves and the callbacks made by then; without one, with 500 after every module's turn.
  lemma SelectionFollowsSteps(ms: seq<HttpModule>, ctx: HttpContext, isPath: PathReader, trace: seq<Progress>)
    requires RouteTrace(ms, ctx, trace)
    ensures
      var s := SelectUpstream(ms, ctx, isPath);
      && (forall k: nat :: DecidesFirst(ms, trace, k) ==>
            Brings(ms[k], trace[k].ctx, isPath, s.outcome) && Progress(s.ctx, s.calls) == trace[k + 1])
      && ((forall i :: 0 <= i < |ms| ==> !Decisive(ms[i], trace[i].ctx)) ==>
            s.outcome == Failed(500) && Progress(s.ctx, s.calls) == trace[|ms|])
  {
    forall i | 0 <= i <= |ms| ensures trace[i] == Progress(ContextAt(ms, ctx, i), AllRouteCalls(ms[..i])) {
      RouteTraceAt(ms, ctx, trace, i);
    }
    var s := SelectUpstream(ms, ctx, isPath);
    forall k: nat | DecidesFirst(ms, trace, k)
      ensures Brings(ms[k], trace[k].ctx, isPath, s.outcome) && Progress(s.ctx, s.calls) == trace[k + 1]
    {
      assert IsFirstDecisive(ms, ctx, k);
      FirstDecisiveWins(ms, ctx, isPath, k);
    }
    if forall i :: 0 <= i < |ms| ==> !Decisive(ms[i], trace[i].ctx) {
      NoDecisionFails(ms, ctx, isPath);
      assert ms[..|ms|] == ms;
    }
  }

  // ------------------------------------------------------ request headers

  // One module's turn in the header phase, if no reply was made before. Its own local-reply hook, if it has one, is
  // called with what the header hook left, when that holds a response or the hook returned Replace.
  ghost predicate HeaderStep(m: HttpModule, before: Progress, after: Progress) {
    match m.onRequestHeaders
    case None => after == before
    case Some(hook) =>
      var r := hook(before.ctx);
      var called := before.calls + [HookCall(RequestHeadersPhase, m.id)];
      if m.onLocalReply.Some? && (r.ctx.response.Some? || r.outcome == Ok(Replace)) then
        after == Progress(m.onLocalReply.value(r.ctx).ctx, called + [HookCall(LocalReplyPhase, m.id)])
      else after == Progress(r.ctx, called)
  }

  ghost predicate HeaderTrace(ms: seq<HttpModule>, ctx: HttpContext, trace: seq<Progress>) {
    && |trace| == |ms| + 1 && trace[0] == Progress(ctx, [])
    && forall i :: 0 <= i < |ms| ==> HeaderStep(ms[i], trace[i], trace[i + 1])
  }

  lemma HeaderStepExists(m: HttpModule, before: Progress) returns (after: Progress)
    ensures HeaderStep(m, before, after)
    ensures after == Progress(AfterHeaders(m, before.ctx), before.calls + HeaderCalls(m, before.ctx))
  {
    after := Progress(AfterHeaders(m, before.ctx), before.calls + HeaderCalls(m, before.ctx));
    var header, reply := HookCall(RequestHeadersPhase, m.id), HookCall(LocalReplyPhase, m.id);
    ConcatAssociates(before.calls, [header], [reply]);
    assert [header] + [] == [header] && before.calls + [] == before.calls;
  }

  lemma {:induction false} HeaderTraceExists(ms: seq<HttpModule>, ctx: HttpContext) returns (trace: seq<Progress>)
    ensures HeaderTrace(ms, ctx, trace)
  {
    if ms == [] {
      trace := [Progress(ctx, [])];
    } else {
      var n := |ms| - 1;
      var front := HeaderTraceExists(ms[..n], ctx);
      var next := HeaderStepExists(ms[n], front[n]);
      trace := front + [next];
      forall i | 0 <= i < |ms| ensures HeaderStep(ms[i], trace[i], trace[i + 1]) {
        if i < n {
          assert HeaderStep(ms[..n][i], front[i], front[i + 1]);
        }
      }
    }
  }

  lemma {:induction false} AllHeaderCallsSnoc(ms: seq<HttpModule>, ctx: HttpContext, i: nat)
    requires i < |ms|
    ensures AllHeaderCalls(ms[..i + 1], ctx)
         == AllHeaderCalls(ms[..i], ctx) + HeaderCalls(ms[i], HeaderContextAt(ms, ctx, i))
  {
    if i == 0 {
      assert ms[..1][1..] == [] && ms[..0] == [];
    } else {
      var next := AfterHeaders(ms[0], ctx);
      HeaderContextAtTail(ms, ctx, i - 1);
      AllHeaderCallsSnoc(ms[1..], next, i - 1);
      assert ms[..i + 1][1..] == ms[1..][..i] && ms[..i][1..] == ms[1..][..i - 1];
      var own := HeaderCalls(ms[i], HeaderContextAt(ms, ctx, i));
      ConcatAssociates(HeaderCalls(ms[0], ctx), AllHeaderCalls(ms[1..][..i - 1], next), own);
    }
  }

  lemma {:induction false} HeaderTraceAt(ms: seq<HttpModule>, ctx: HttpContext, trace: seq<Progress>, i: nat)
    requires HeaderTrace(ms, ctx, trace) && i <= |ms|
    ensures trace[i] == Progress(HeaderContextAt(ms, ctx, i), AllHeaderCalls(ms[..i], ctx))
  {
    if i == 0 {
    } else {
      HeaderTraceAt(ms, ctx, trace, i - 1);
      AllHeaderCallsSnoc(ms, ctx, i - 1);
      var next := HeaderStepExists(ms[i - 1], trace[i - 1]);
      assert HeaderStep(ms[i - 1], trace[i - 1], trace[i]);
    }
  }

  // Module k has a header hook, and its turn leaves a response.
  ghost predicate Responds(ms: seq<HttpModule>, trace: seq<Progress>, k: nat)
    requires |trace| == |ms| + 1
  {
    k < |ms| && ms[k].onRequestHeaders.Some? && trace[k + 1].ctx.response.Some?
  }

  ghost predicate RespondsFirst(ms: seq<HttpModule>, trace: seq<Progress>, k: nat)
    requires |trace| == |ms| + 1
  {
    Responds(ms, trace, k) && forall i: nat :: i < k ==> !Responds(ms, trace, i)
  }

  // From any context, the chain ends with the turn of the first module to respond: its response's status and body
  // are the reply. When none responds, every module has its turn and there is no reply.
  lemma HeadersFollowSteps(ms: seq<HttpModule>, ctx: HttpContext, trace: seq<Progress>)
    requires HeaderTrace(ms, ctx, trace)
    ensures
      var run := RunHeaders(ms, ctx);
      && (forall k: nat :: RespondsFirst(ms, trace, k) ==>
            var response := trace[k + 1].ctx.response.value;
            && run.reply == Some(Reply(response.status, response.body))
            && Progress(run.ctx, run.calls) == trace[k + 1])
      && ((forall i: nat :: i < |ms| ==> !Responds(ms, trace, i)) ==>
            run.reply == None && Progress(run.ctx, run.calls) == trace[|ms|])
  {
    forall i | 0 <= i <= |ms|
      ensures trace[i] == Progress(HeaderContextAt(ms, ctx, i), AllHeaderCalls(ms[..i], ctx))
    {
      HeaderTraceAt(ms, ctx, trace, i);
    }
    forall i: nat | i < |ms| ensures Responds(ms, trace, i) <==> Answers(ms[i], HeaderContextAt(ms, ctx, i)) {
      assert HeaderContextAt(ms, ctx, i + 1) == AfterHeaders(ms[i], HeaderContextAt(ms, ctx, i));
    }
    var run := RunHeaders(ms, ctx);
    forall k: nat | RespondsFirst(ms, trace, k)
      ensures
        var response := trace[k + 1].ctx.response.value;
        && run.reply == Some(Reply(response.status, response.body))
        && Progress(run.ctx, run.calls) == trace[k + 1]
    {
      assert IsFirstAnswer(ms, ctx, k);
      FirstAnswerReplies(ms, ctx, k);
    }
    if forall i: nat :: i < |ms| ==> !Responds(ms, trace, i) {
      NoAnswerPassesOn(ms, ctx);
      assert ms[..|ms|] == ms;
    }
  }
}
