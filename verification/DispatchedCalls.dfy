/** Which of the loaded modules a phase calls, and in which order: dispatch and the hook chains together. */
module DispatchedCalls {
  import opened Prelude
  import opened PluginSys
  import opened Dispatch
  import HttpChain
  import HttpChainProperties
  import TcpTransfer

  // visited are loaded modules by ascending priority, those of one priority in the order they were loaded,
  // and none of them more often than it was loaded.
  ghost predicate FollowsDispatch<T>(visited: seq<T>, loaded: seq<T>, priority: T -> u8) {
    && Ascending(visited, priority)
    && forall p: u8 :: IsSubsequence(OfPriority(visited, priority, p), loaded)
  }

  lemma {:induction false} SubsequenceMember<T>(a: seq<T>, b: seq<T>, x: T)
    requires IsSubsequence(a, b) && x in a
    ensures x in b
  {
    if a[0] == b[0] && IsSubsequence(a[1..], b[1..]) {
      if x != a[0] {
        SubsequenceMember(a[1..], b[1..], x);
      }
    } else {
      SubsequenceMember(a, b[1..], x);
    }
  }

  lemma {:induction false} SubsequenceAscending<T>(a: seq<T>, b: seq<T>, priority: T -> u8)
    requires IsSubsequence(a, b) && Ascending(b, priority)
    ensures Ascending(a, priority)
  {
    if a == [] {
    } else if a[0] == b[0] && IsSubsequence(a[1..], b[1..]) {
      SubsequenceAscending(a[1..], b[1..], priority);
      forall j | 0 < j < |a| ensures priority(a[0]) <= priority(a[j]) {
        assert a[j] == a[1..][j - 1];
        SubsequenceMember(a[1..], b[1..], a[j]);
        var k :| 0 <= k < |b| - 1 && b[1..][k] == a[j];
        assert b[k + 1] == a[j];
      }
      assert forall i :: 0 < i < |a| ==> a[i] == a[1..][i - 1];
    } else {
      SubsequenceAscending(a, b[1..], priority);
    }
  }

  lemma {:induction false} SubsequenceTransitive<T>(a: seq<T>, b: seq<T>, c: seq<T>)
    requires IsSubsequence(a, b) && IsSubsequence(b, c)
    ensures IsSubsequence(a, c)
  {
    if a == [] {
    } else if b[0] == c[0] && IsSubsequence(b[1..], c[1..]) {
      if a[0] == b[0] && IsSubsequence(a[1..], b[1..]) {
        SubsequenceTransitive(a[1..], b[1..], c[1..]);
      } else {
        SubsequenceTransitive(a, b[1..], c[1..]);
      }
    } else {
      SubsequenceTransitive(a, b, c[1..]);
    }
  }

  lemma {:induction false} SubsequenceFilter<T>(a: seq<T>, b: seq<T>, p: T -> bool)
    requires IsSubsequence(a, b)
    ensures IsSubsequence(Filter(a, p), Filter(b, p))
  {
    if a == [] {
    } else if a[0] == b[0] && IsSubsequence(a[1..], b[1..]) {
      SubsequenceFilter(a[1..], b[1..], p);
      if p(a[0]) {
        SubsequenceCons(a[0], Filter(a[1..], p), Filter(b[1..], p));
      } else {
        assert Filter(a, p) == Filter(a[1..], p) && Filter(b, p) == Filter(b[1..], p);
      }
    } else {
      SubsequenceFilter(a, b[1..], p);
      if p(b[0]) {
        SubsequenceSkip(b[0], Filter(a, p), Filter(b[1..], p));
      } else {
        assert Filter(b, p) == Filter(b[1..], p);
      }
    }
  }

  lemma SubsequenceCons<T>(x: T, a: seq<T>, b: seq<T>)
    requires IsSubsequence(a, b)
    ensures IsSubsequence([x] + a, [x] + b)
  {
    assert ([x] + a)[1..] == a && ([x] + b)[1..] == b;
  }

  lemma SubsequenceSkip<T>(x: T, a: seq<T>, b: seq<T>)
    requires IsSubsequence(a, b)
    ensures IsSubsequence(a, [x] + b)
  {
    assert ([x] + b)[1..] == b;
  }

  // mapped is ms with f applied to every element.
  ghost predicate IsMapped<T(!new), U(!new)>(ms: seq<T>, f: T -> U, mapped: seq<U>) {
    |mapped| == |ms| && forall i :: 0 <= i < |ms| ==> mapped[i] == f(ms[i])
  }

  // A subsequence of an image is the image of a subsequence.
  lemma {:induction false} Unmapped<T(!new), U(!new)>(a: seq<U>, ms: seq<T>, f: T -> U, mapped: seq<U>)
    returns (visited: seq<T>)
    requires IsMapped(ms, f, mapped) && IsSubsequence(a, mapped)
    ensures IsMapped(visited, f, a) && IsSubsequence(visited, ms)
  {
    if a == [] {
      visited := [];
    } else if a[0] == mapped[0] && IsSubsequence(a[1..], mapped[1..]) {
      var rest := Unmapped(a[1..], ms[1..], f, mapped[1..]);
      visited := [ms[0]] + rest;
      SubsequenceCons(ms[0], rest, ms[1..]);
      assert [ms[0]] + ms[1..] == ms;
    } else {
      visited := Unmapped(a, ms[1..], f, mapped[1..]);
      SubsequenceSkip(ms[0], visited, ms[1..]);
      assert [ms[0]] + ms[1..] == ms;
    }
  }

  lemma VisitedFollowsDispatch<T>(visited: seq<T>, ordered: seq<T>, loaded: seq<T>, priority: T -> u8)
    requires IsDispatchOrder(loaded, ordered, priority) && IsSubsequence(visited, ordered)
    ensures FollowsDispatch(visited, loaded, priority)
  {
    SubsequenceAscending(visited, ordered, priority);
    forall p: u8 ensures IsSubsequence(OfPriority(visited, priority, p), loaded) {
      SubsequenceFilter(visited, ordered, x => priority(x) == p);
      FilterIsSubsequence(loaded, x => priority(x) == p);
      assert OfPriority(ordered, priority, p) == OfPriority(loaded, priority, p);
      SubsequenceTransitive(OfPriority(visited, priority, p), OfPriority(loaded, priority, p), loaded);
    }
  }

  // The route hooks called on the modules of plugins are those of modules that follow the dispatch order.
  lemma RouteCallsFollowDispatch(
    plugins: seq<LoadedModules>, http: seq<HttpModule>, ctx: HttpContext, isPath: HttpChain.PathReader)
    returns (visited: seq<HttpModule>)
    requires IsDispatchOrder(Collect(Https(plugins)), http, HttpPriority)
    ensures HttpChain.SelectUpstream(http, ctx, isPath).calls
         == HttpChainProperties.ModuleCalls(visited, HttpChain.RoutePhase)
    ensures FollowsDispatch(visited, Collect(Https(plugins)), HttpPriority)
  {
    HttpChainProperties.RouteCallsFollowOrder(http, ctx, isPath);
    visited := VisitedModules(plugins, http, HttpChain.SelectUpstream(http, ctx, isPath).calls, HttpChain.RoutePhase);
  }

  // So are, phase by phase, the hooks called for a request's headers.
  lemma HeaderCallsFollowDispatch(
    plugins: seq<LoadedModules>, http: seq<HttpModule>, ctx: HttpContext, phase: HttpChain.Phase)
    returns (visited: seq<HttpModule>)
    requires IsDispatchOrder(Collect(Https(plugins)), http, HttpPriority) && phase != HttpChain.RoutePhase
    ensures HttpChainProperties.CallsIn(HttpChain.RunHeaders(http, ctx).calls, phase)
         == HttpChainProperties.ModuleCalls(visited, phase)
    ensures FollowsDispatch(visited, Collect(Https(plugins)), HttpPriority)
  {
    var calls := HttpChainProperties.CallsIn(HttpChain.RunHeaders(http, ctx).calls, phase);
    HttpChainProperties.HeaderCallsFollowOrder(http, ctx, phase);
    visited := VisitedModules(plugins, http, calls, phase);
  }

  lemma VisitedModules(
    plugins: seq<LoadedModules>, http: seq<HttpModule>, calls: seq<HttpChain.HookCall>, phase: HttpChain.Phase)
    returns (visited: seq<HttpModule>)
    requires IsDispatchOrder(Collect(Https(plugins)), http, HttpPriority)
    requires IsSubsequence(calls, HttpChainProperties.ModuleCalls(http, phase))
    ensures calls == HttpChainProperties.ModuleCalls(visited, phase)
    ensures FollowsDispatch(visited, Collect(Https(plugins)), HttpPriority)
  {
    var call := (m: HttpModule) => HttpChain.HookCall(phase, m.id);
    visited := Unmapped(calls, http, call, HttpChainProperties.ModuleCalls(http, phase));
    VisitedFollowsDispatch(visited, http, Collect(Https(plugins)), HttpPriority);
  }

  function TcpId(m: TcpModule): nat {
    m.id
  }

  // So are the data hooks called for a chunk.
  lemma DataCallsFollowDispatch(plugins: seq<LoadedModules>, tcp: seq<TcpModule>) returns (visited: seq<TcpModule>)
    requires IsDispatchOrder(Collect(Tcps(plugins)), tcp, TcpPriority)
    ensures IsMapped(visited, TcpId, TcpTransfer.DataCalls(tcp))
    ensures FollowsDispatch(visited, Collect(Tcps(plugins)), TcpPriority)
  {
    var ids: seq<nat> := seq(|tcp|, i requires 0 <= i < |tcp| => tcp[i].id);
    TcpTransfer.DataCallsFollowOrder(tcp, ids);
    visited := Unmapped(TcpTransfer.DataCalls(tcp), tcp, TcpId, ids);
    VisitedFollowsDispatch(visited, tcp, Collect(Tcps(plugins)), TcpPriority);
  }
}
