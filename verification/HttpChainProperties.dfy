/** Which module decides, which modules are visited, and what cannot change the outcome. */
module HttpChainProperties {
  import opened Prelude
  import opened PluginSys
  import opened HttpChain

  // ------------------------------------------------------ upstream selection

  // The context module i is called with when none before it decided.
  function ContextAt(ms: seq<HttpModule>, ctx: HttpContext, i: nat): HttpContext
    requires i <= |ms|
  {
    if i == 0 then ctx else AfterRoute(ms[i - 1], ContextAt(ms, ctx, i - 1))
  }

  // m, called with ctx, leaves a route and either drops the request or names a replacement upstream.
  predicate Decisive(m: HttpModule, ctx: HttpContext) {
    m.onRoute.Some? &&
    var r := m.onRoute.value(ctx);
    && r.ctx.transport.Some?
    && (r.outcome == Ok(Drop) || (r.outcome == Ok(Replace) && r.ctx.transport.value.route.upstreamToSet.Some?))
  }

  ghost predicate IsFirstDecisive(ms: seq<HttpModule>, ctx: HttpContext, k: nat) {
    && k < |ms|
    && Decisive(ms[k], ContextAt(ms, ctx, k))
    && forall i :: 0 <= i < k ==> !Decisive(ms[i], ContextAt(ms, ctx, i))
  }

  // The outcome a decisive module brings about.
  ghost predicate Brings(m: HttpModule, ctx: HttpContext, isPath: PathReader, outcome: PeerOutcome)
    requires Decisive(m, ctx)
  {
    var r := m.onRoute.value(ctx);
    var route := r.ctx.transport.value.route;
    if r.outcome == Ok(Drop) then outcome == Failed(503)
    else if route.httpPath.Some? && isPath(route.httpPath.value) then
      outcome == Peer(route.upstreamToSet.value, route.upstreamToSet.value.port == 443, route.httpPath.value)
    else outcome == Panicked
  }

  function AllRouteCalls(ms: seq<HttpModule>): seq<HookCall> {
    if ms == [] then [] else RouteCalls(ms[0]) + AllRouteCalls(ms[1..])
  }

  lemma {:induction false} ContextAtTail(ms: seq<HttpModule>, ctx: HttpContext, i: nat)
    requires ms != [] && i < |ms|
    ensures ContextAt(ms, ctx, i + 1) == ContextAt(ms[1..], AfterRoute(ms[0], ctx), i)
  {
    if i == 0 {
    } else {
      ContextAtTail(ms, ctx, i - 1);
    }
  }

  // The first decisive module settles the outcome; the calls made are those of the modules up to it.
  lemma {:induction false} FirstDecisiveWins(ms: seq<HttpModule>, ctx: HttpContext, isPath: PathReader, k: nat)
    requires IsFirstDecisive(ms, ctx, k)
    ensures
      var s := SelectUpstream(ms, ctx, isPath);
      && Brings(ms[k], ContextAt(ms, ctx, k), isPath, s.outcome)
      && s.ctx == ContextAt(ms, ctx, k + 1)
      && s.calls == AllRouteCalls(ms[..k + 1])
  {
    if k == 0 {
      assert ms[..1] == [ms[0]] && [ms[0]][1..] == [];
    } else {
      var rest, next := ms[1..], AfterRoute(ms[0], ctx);
      assert !Decisive(ms[0], ContextAt(ms, ctx, 0));
      forall i | 0 <= i < k ensures ContextAt(rest, next, i) == ContextAt(ms, ctx, i + 1) {
        ContextAtTail(ms, ctx, i);
      }
      ContextAtTail(ms, ctx, k);
      assert forall i :: 0 <= i < |rest| ==> rest[i] == ms[i + 1];
      assert IsFirstDecisive(rest, next, k - 1);
      FirstDecisiveWins(rest, next, isPath, k - 1);
      assert ms[..k + 1][1..] == rest[..k];
    }
  }

  // Without a decisive module every route hook runs and the request fails with 500.
  lemma {:induction false} NoDecisionFails(ms: seq<HttpModule>, ctx: HttpContext, isPath: PathReader)
    requires forall i :: 0 <= i < |ms| ==> !Decisive(ms[i], ContextAt(ms, ctx, i))
    ensures SelectUpstream(ms, ctx, isPath) == Selection(Failed(500), ContextAt(ms, ctx, |ms|), AllRouteCalls(ms))
  {
    if ms == [] {
    } else {
      var rest, next := ms[1..], AfterRoute(ms[0], ctx);
      assert !Decisive(ms[0], ContextAt(ms, ctx, 0));
      forall i | 0 <= i < |rest| ensures !Decisive(rest[i], ContextAt(rest, next, i)) {
        ContextAtTail(ms, ctx, i);
        assert rest[i] == ms[i + 1];
      }
      ContextAtTail(ms, ctx, |rest|);
      NoDecisionFails(rest, next, isPath);
    }
  }

  // The outcome is 500 exactly when no module is decisive.
  lemma {:induction false} FailsIffUndecided(ms: seq<HttpModule>, ctx: HttpContext, isPath: PathReader)
    ensures SelectUpstream(ms, ctx, isPath).outcome == Failed(500)
       <==> forall i :: 0 <= i < |ms| ==> !Decisive(ms[i], ContextAt(ms, ctx, i))
  {
    if forall i :: 0 <= i < |ms| ==> !Decisive(ms[i], ContextAt(ms, ctx, i)) {
      NoDecisionFails(ms, ctx, isPath);
    } else {
      var i :| 0 <= i < |ms| && Decisive(ms[i], ContextAt(ms, ctx, i));
      var k := FirstUpTo(ms, ctx, i);
      FirstDecisiveWins(ms, ctx, isPath, k);
    }
  }

  lemma {:induction false} FirstUpTo(ms: seq<HttpModule>, ctx: HttpContext, i: nat) returns (k: nat)
    requires i < |ms| && Decisive(ms[i], ContextAt(ms, ctx, i))
    ensures IsFirstDecisive(ms, ctx, k)
  {
    if j :| 0 <= j < i && Decisive(ms[j], ContextAt(ms, ctx, j)) {
      k := FirstUpTo(ms, ctx, j);
    } else {
      k := i;
    }
  }

  // m leaves every context as it is and continues or fails.
  ghost predicate Inert(m: HttpModule) {
    m.onRoute.Some? ==> forall ctx ::
                          var r := m.onRoute.value(ctx);
                          r.ctx == ctx && (r.outcome == Ok(Continue) || r.outcome.Err?)
  }

  ghost function WithoutInert(ms: seq<HttpModule>): seq<HttpModule> {
    Filter(ms, m => !Inert(m))
  }

  // Inert modules do not matter wherever they stand: leaving all of them out changes neither outcome nor context.
  lemma {:induction false} InertModulesDoNotMatter(ms: seq<HttpModule>, ctx: HttpContext, isPath: PathReader)
    ensures SelectUpstream(WithoutInert(ms), ctx, isPath).outcome == SelectUpstream(ms, ctx, isPath).outcome
    ensures SelectUpstream(WithoutInert(ms), ctx, isPath).ctx == SelectUpstream(ms, ctx, isPath).ctx
  {
    if ms == [] {
    } else {
      InertModulesDoNotMatter(ms[1..], AfterRoute(ms[0], ctx), isPath);
      WithoutInertCons(ms);
      if !Inert(ms[0]) {
        assert WithoutInert(ms)[1..] == WithoutInert(ms[1..]);
      }
    }
  }

  lemma WithoutInertCons(ms: seq<HttpModule>)
    requires ms != []
    ensures WithoutInert(ms) == if Inert(ms[0]) then WithoutInert(ms[1..]) else [ms[0]] + WithoutInert(ms[1..])
  {
    var keep := m => !Inert(m);
    assert keep(ms[0]) <==> !Inert(ms[0]);
    FilterCons(ms[0], ms[1..], keep);
    assert [ms[0]] + ms[1..] == ms;
  }

  // In particular an inert module may be put in at any place.
  lemma InertInsertion(a: seq<HttpModule>, m: HttpModule, b: seq<HttpModule>, ctx: HttpContext, isPath: PathReader)
    requires Inert(m)
    ensures SelectUpstream(a + ([m] + b), ctx, isPath).outcome == SelectUpstream(a + b, ctx, isPath).outcome
  {
    var keep := x => !Inert(x);
    FilterInsert(a, m, b, keep);
    assert !keep(m);
    assert WithoutInert(a + ([m] + b)) == WithoutInert(a + b);
    InertModulesDoNotMatter(a + ([m] + b), ctx, isPath);
    InertModulesDoNotMatter(a + b, ctx, isPath);
  }

  // ------------------------------------------------------ request headers

  function HeaderContextAt(ms: seq<HttpModule>, ctx: HttpContext, i: nat): HttpContext
    requires i <= |ms|
  {
    if i == 0 then ctx else AfterHeaders(ms[i - 1], HeaderContextAt(ms, ctx, i - 1))
  }

  // Module k's step is the first to leave a response.
  ghost predicate IsFirstResponse(ms: seq<HttpModule>, ctx: HttpContext, k: nat) {
    && k < |ms|
    && HeaderContextAt(ms, ctx, k + 1).response.Some?
    && forall i :: 0 <= i <= k ==> HeaderContextAt(ms, ctx, i).response.None?
  }

  function AllHeaderCalls(ms: seq<HttpModule>, ctx: HttpContext): seq<HookCall> {
    if ms == [] then [] else HeaderCalls(ms[0], ctx) + AllHeaderCalls(ms[1..], AfterHeaders(ms[0], ctx))
  }

  lemma {:induction false} HeaderContextAtTail(ms: seq<HttpModule>, ctx: HttpContext, i: nat)
    requires ms != [] && i < |ms|
    ensures HeaderContextAt(ms, ctx, i + 1) == HeaderContextAt(ms[1..], AfterHeaders(ms[0], ctx), i)
  {
    if i == 0 {
    } else {
      HeaderContextAtTail(ms, ctx, i - 1);
    }
  }

  // Module k is the first to answer, in whatever state the chain is entered.
  ghost predicate IsFirstAnswer(ms: seq<HttpModule>, ctx: HttpContext, k: nat) {
    && k < |ms|
    && Answers(ms[k], HeaderContextAt(ms, ctx, k))
    && forall i :: 0 <= i < k ==> !Answers(ms[i], HeaderContextAt(ms, ctx, i))
  }

  // The chain stops at the first module that answers: the reply is the response it leaves, and the calls made are
  // exactly those of the modules up to it.
  lemma {:induction false} FirstAnswerReplies(ms: seq<HttpModule>, ctx: HttpContext, k: nat)
    requires IsFirstAnswer(ms, ctx, k)
    ensures
      var run := RunHeaders(ms, ctx);
      && run.reply.Some?
      && run.reply == ReplyOf(HeaderContextAt(ms, ctx, k + 1))
      && run.ctx == HeaderContextAt(ms, ctx, k + 1)
      && run.calls == AllHeaderCalls(ms[..k + 1], ctx)
  {
    var next := AfterHeaders(ms[0], ctx);
    assert HeaderContextAt(ms, ctx, 0) == ctx && HeaderContextAt(ms, ctx, 1) == next;
    if k == 0 {
      assert ms[..1][1..] == [];
    } else {
      assert !Answers(ms[0], HeaderContextAt(ms, ctx, 0));
      forall i | 0 <= i <= k ensures HeaderContextAt(ms[1..], next, i) == HeaderContextAt(ms, ctx, i + 1) {
        HeaderContextAtTail(ms, ctx, i);
      }
      assert forall i :: 0 <= i < k ==> ms[1..][i] == ms[i + 1];
      assert IsFirstAnswer(ms[1..], next, k - 1);
      FirstAnswerReplies(ms[1..], next, k - 1);
      assert ms[..k + 1][1..] == ms[1..][..k];
    }
  }

  lemma {:induction false} NoAnswerPassesOn(ms: seq<HttpModule>, ctx: HttpContext)
    requires forall i :: 0 <= i < |ms| ==> !Answers(ms[i], HeaderContextAt(ms, ctx, i))
    ensures RunHeaders(ms, ctx) == HeaderRun(None, HeaderContextAt(ms, ctx, |ms|), AllHeaderCalls(ms, ctx))
  {
    if ms == [] {
    } else {
      var next := AfterHeaders(ms[0], ctx);
      assert !Answers(ms[0], HeaderContextAt(ms, ctx, 0));
      forall i | 0 <= i < |ms| ensures HeaderContextAt(ms[1..], next, i) == HeaderContextAt(ms, ctx, i + 1) {
        HeaderContextAtTail(ms, ctx, i);
      }
      assert forall i :: 0 <= i < |ms| - 1 ==> ms[1..][i] == ms[i + 1];
      NoAnswerPassesOn(ms[1..], next);
    }
  }

  lemma {:induction false} FirstAnswerUpTo(ms: seq<HttpModule>, ctx: HttpContext, i: nat) returns (k: nat)
    requires i < |ms| && Answers(ms[i], HeaderContextAt(ms, ctx, i))
    ensures IsFirstAnswer(ms, ctx, k)
  {
    if j :| 0 <= j < i && Answers(ms[j], HeaderContextAt(ms, ctx, j)) {
      k := FirstAnswerUpTo(ms, ctx, j);
    } else {
      k := i;
    }
  }

  // From any context, the chain short-circuits exactly when some module answers.
  lemma AnsweredIff(ms: seq<HttpModule>, ctx: HttpContext)
    ensures RunHeaders(ms, ctx).reply.Some?
       <==> exists i :: 0 <= i < |ms| && Answers(ms[i], HeaderContextAt(ms, ctx, i))
  {
    if i :| 0 <= i < |ms| && Answers(ms[i], HeaderContextAt(ms, ctx, i)) {
      var k := FirstAnswerUpTo(ms, ctx, i);
      FirstAnswerReplies(ms, ctx, k);
    } else {
      NoAnswerPassesOn(ms, ctx);
    }
  }

  // Starting without a response, answering is leaving one.
  lemma FirstResponseReplies(ms: seq<HttpModule>, ctx: HttpContext, k: nat)
    requires IsFirstResponse(ms, ctx, k)
    ensures
      var run := RunHeaders(ms, ctx);
      && run.reply.Some?
      && run.reply == ReplyOf(HeaderContextAt(ms, ctx, k + 1))
      && run.ctx == HeaderContextAt(ms, ctx, k + 1)
      && run.calls == AllHeaderCalls(ms[..k + 1], ctx)
  {
    forall i | 0 <= i < k ensures !Answers(ms[i], HeaderContextAt(ms, ctx, i)) {
      assert HeaderContextAt(ms, ctx, i + 1).response.None?;
    }
    assert HeaderContextAt(ms, ctx, k).response.None?;
    FirstAnswerReplies(ms, ctx, k);
  }

  lemma NoResponsePassesOn(ms: seq<HttpModule>, ctx: HttpContext)
    requires forall i :: 0 <= i <= |ms| ==> HeaderContextAt(ms, ctx, i).response.None?
    ensures RunHeaders(ms, ctx) == HeaderRun(None, HeaderContextAt(ms, ctx, |ms|), AllHeaderCalls(ms, ctx))
  {
    forall i | 0 <= i < |ms| ensures !Answers(ms[i], HeaderContextAt(ms, ctx, i)) {
      assert HeaderContextAt(ms, ctx, i + 1).response.None?;
    }
    NoAnswerPassesOn(ms, ctx);
  }

  // Then the chain short-circuits exactly when some module's step leaves a response.
  lemma ShortCircuitsIff(ms: seq<HttpModule>, ctx: HttpContext)
    requires ctx.response.None?
    ensures RunHeaders(ms, ctx).reply.Some? <==> exists k :: IsFirstResponse(ms, ctx, k)
    ensures (exists k :: IsFirstResponse(ms, ctx, k))
       <==> (exists i :: 0 <= i <= |ms| && HeaderContextAt(ms, ctx, i).response.Some?)
  {
    if i :| 0 <= i <= |ms| && HeaderContextAt(ms, ctx, i).response.Some? {
      var k := FirstResponseUpTo(ms, ctx, i);
      FirstResponseReplies(ms, ctx, k);
    } else {
      NoResponsePassesOn(ms, ctx);
    }
  }

  lemma {:induction false} FirstResponseUpTo(ms: seq<HttpModule>, ctx: HttpContext, i: nat) returns (k: nat)
    requires ctx.response.None? && i <= |ms| && HeaderContextAt(ms, ctx, i).response.Some?
    ensures IsFirstResponse(ms, ctx, k)
  {
    if j :| 0 <= j < i && HeaderContextAt(ms, ctx, j).response.Some? {
      k := FirstResponseUpTo(ms, ctx, j);
    } else {
      k := i - 1;
    }
  }

  // ------------------------------------------------------ errors

  // hook as the host sees it: an error is a Continue.
  function Forgiving(hook: Option<HttpHook>): Option<HttpHook> {
    match hook
    case None => None
    case Some(h) =>
      Some((ctx: HttpContext) => if h(ctx).outcome.Err? then HookReturn(h(ctx).ctx, Ok(Continue)) else h(ctx))
  }

  function ForgivingModule(m: HttpModule): HttpModule {
    m.(onRoute := Forgiving(m.onRoute),
       onRequestHeaders := Forgiving(m.onRequestHeaders),
       onLocalReply := Forgiving(m.onLocalReply))
  }

  function ForgivingModules(ms: seq<HttpModule>): (r: seq<HttpModule>)
    ensures |r| == |ms|
  {
    seq(|ms|, i requires 0 <= i < |ms| => ForgivingModule(ms[i]))
  }

  lemma ForgivingRoute(m: HttpModule, ctx: HttpContext, isPath: PathReader)
    ensures AfterRoute(ForgivingModule(m), ctx) == AfterRoute(m, ctx)
    ensures Verdict(ForgivingModule(m), ctx, isPath) == Verdict(m, ctx, isPath)
    ensures RouteCalls(ForgivingModule(m)) == RouteCalls(m)
  {
  }

  lemma ForgivingHeaders(m: HttpModule, ctx: HttpContext)
    ensures AfterHeaders(ForgivingModule(m), ctx) == AfterHeaders(m, ctx)
    ensures Answers(ForgivingModule(m), ctx) == Answers(m, ctx)
    ensures HeaderCalls(ForgivingModule(m), ctx) == HeaderCalls(m, ctx)
  {
  }

  // Replacing every error by Continue, the context the hook left being kept, changes nothing in either chain:
  // no error of a hook ever fails the chain.
  lemma {:induction false} RouteErrorsCountAsContinue(ms: seq<HttpModule>, ctx: HttpContext, isPath: PathReader)
    ensures SelectUpstream(ForgivingModules(ms), ctx, isPath) == SelectUpstream(ms, ctx, isPath)
  {
    if ms == [] {
    } else {
      assert ForgivingModules(ms)[1..] == ForgivingModules(ms[1..]);
      ForgivingRoute(ms[0], ctx, isPath);
      RouteErrorsCountAsContinue(ms[1..], AfterRoute(ms[0], ctx), isPath);
    }
  }

  lemma {:induction false} HeaderErrorsCountAsContinue(ms: seq<HttpModule>, ctx: HttpContext)
    ensures RunHeaders(ForgivingModules(ms), ctx) == RunHeaders(ms, ctx)
  {
    if ms == [] {
    } else {
      assert ForgivingModules(ms)[1..] == ForgivingModules(ms[1..]);
      ForgivingHeaders(ms[0], ctx);
      HeaderErrorsCountAsContinue(ms[1..], AfterHeaders(ms[0], ctx));
    }
  }

  // ------------------------------------------------------ order of the calls

  function CallsIn(calls: seq<HookCall>, phase: Phase): seq<HookCall> {
    Filter(calls, (c: HookCall) => c.phase == phase)
  }

  function ModuleCalls(ms: seq<HttpModule>, phase: Phase): seq<HookCall> {
    seq(|ms|, i requires 0 <= i < |ms| => HookCall(phase, ms[i].id))
  }

  lemma CallsInOne(c: HookCall, phase: Phase)
    ensures CallsIn([c], phase) == if c.phase == phase then [c] else []
    ensures CallsIn([], phase) == []
  {
    var has := (d: HookCall) => d.phase == phase;
    FilterCons(c, [], has);
    assert [c] + [] == [c];
  }

  lemma CallsInAppend(a: seq<HookCall>, b: seq<HookCall>, phase: Phase)
    ensures CallsIn(a + b, phase) == CallsIn(a, phase) + CallsIn(b, phase)
  {
    FilterAppend(a, b, (c: HookCall) => c.phase == phase);
  }

  // One module's calls in a phase are none or its own; those of the rest follow.
  lemma SubsequenceCons(own: seq<HookCall>, rest: seq<HookCall>, ms: seq<HttpModule>, phase: Phase)
    requires ms != [] && (own == [] || own == [HookCall(phase, ms[0].id)])
    requires IsSubsequence(rest, ModuleCalls(ms[1..], phase))
    ensures IsSubsequence(own + rest, ModuleCalls(ms, phase))
  {
    var all := ModuleCalls(ms, phase);
    assert all[1..] == ModuleCalls(ms[1..], phase);
    if own == [] {
      assert own + rest == rest;
    } else {
      assert (own + rest)[1..] == rest;
    }
  }

  lemma {:induction false} RouteCallsFollowOrder(ms: seq<HttpModule>, ctx: HttpContext, isPath: PathReader)
    ensures IsSubsequence(SelectUpstream(ms, ctx, isPath).calls, ModuleCalls(ms, RoutePhase))
  {
    if ms == [] {
    } else {
      var own := RouteCalls(ms[0]);
      if Verdict(ms[0], ctx, isPath).Some? {
        SubsequenceCons(own, [], ms, RoutePhase);
        assert own + [] == own;
      } else {
        RouteCallsFollowOrder(ms[1..], AfterRoute(ms[0], ctx), isPath);
        SubsequenceCons(own, SelectUpstream(ms[1..], AfterRoute(ms[0], ctx), isPath).calls, ms, RoutePhase);
      }
    }
  }

  // In each phase the modules called are a subsequence of the dispatch order.
  lemma {:induction false} HeaderCallsFollowOrder(ms: seq<HttpModule>, ctx: HttpContext, phase: Phase)
    requires phase != RoutePhase
    ensures IsSubsequence(CallsIn(RunHeaders(ms, ctx).calls, phase), ModuleCalls(ms, phase))
  {
    if ms == [] {
      CallsInOne(HookCall(phase, 0), phase);
    } else {
      var own := HeaderCalls(ms[0], ctx);
      OwnHeaderCalls(ms[0], ctx, phase);
      if Answers(ms[0], ctx) {
        SubsequenceCons(CallsIn(own, phase), [], ms, phase);
        assert CallsIn(own, phase) + [] == CallsIn(own, phase);
      } else {
        var next := AfterHeaders(ms[0], ctx);
        HeaderCallsFollowOrder(ms[1..], next, phase);
        CallsInAppend(own, RunHeaders(ms[1..], next).calls, phase);
        SubsequenceCons(CallsIn(own, phase), CallsIn(RunHeaders(ms[1..], next).calls, phase), ms, phase);
      }
    }
  }

  lemma OwnHeaderCalls(m: HttpModule, ctx: HttpContext, phase: Phase)
    requires phase != RoutePhase
    ensures CallsIn(HeaderCalls(m, ctx), phase) == [] || CallsIn(HeaderCalls(m, ctx), phase) == [HookCall(phase, m.id)]
  {
    var header, reply := HookCall(RequestHeadersPhase, m.id), HookCall(LocalReplyPhase, m.id);
    CallsInOne(header, phase);
    CallsInOne(reply, phase);
    CallsInAppend([header], [reply], phase);
    assert [header] + [] == [header];
  }
}
