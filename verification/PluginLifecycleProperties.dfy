/** Who gets shut down, how often, and before what. */
module PluginLifecycleProperties {
  import opened Prelude
  import opened PluginLifecycle

  predicate Concerns(e: Event, plugin: nat, protocol: Protocol) {
    match e
    case Opened(p) => p == plugin
    case Closed(p) => p == plugin
    case Initialised(p, q) => p == plugin && q == protocol
    case ShutDown(p, q) => p == plugin && q == protocol
  }

  // What happened to one module and the library it comes from, in order.
  function History(events: seq<Event>, plugin: nat, protocol: Protocol): seq<Event> {
    Filter(events, e => Concerns(e, plugin, protocol))
  }

  // Initialised once, shut down once, between opening and closing its library.
  function Balanced(plugin: nat, protocol: Protocol): seq<Event> {
    [Opened(plugin), Initialised(plugin, protocol), ShutDown(plugin, protocol), Closed(plugin)]
  }

  // ------------------------------------------------------------ histories of the pieces

  lemma HistoryAppend(a: seq<Event>, b: seq<Event>, plugin: nat, protocol: Protocol)
    ensures History(a + b, plugin, protocol) == History(a, plugin, protocol) + History(b, plugin, protocol)
  {
    FilterAppend(a, b, e => Concerns(e, plugin, protocol));
  }

  lemma HistoryOne(e: Event, plugin: nat, protocol: Protocol)
    ensures History([e], plugin, protocol) == if Concerns(e, plugin, protocol) then [e] else []
    ensures History([], plugin, protocol) == []
  {
    var concerns := x => Concerns(x, plugin, protocol);
    FilterCons(e, [], concerns);
    assert [e] + [] == [e];
  }

  lemma EachHistory(modules: Modules, event: Protocol -> Event, id: nat, plugin: nat, protocol: Protocol)
    requires forall q :: Concerns(event(q), plugin, protocol) <==> id == plugin && q == protocol
    ensures History(Each(modules, event), plugin, protocol)
         == if id == plugin && modules.Has(protocol) then [event(protocol)] else []
  {
    var one := (q: Protocol) => if modules.Has(q) then [event(q)] else [];
    forall q: Protocol
      ensures History(one(q), plugin, protocol) == if id == plugin && q == protocol then one(q) else []
    {
      HistoryOne(event(q), plugin, protocol);
    }
    HistoryAppend(one(Http) + one(Tcp), one(Udp), plugin, protocol);
    HistoryAppend(one(Http), one(Tcp), plugin, protocol);
    assert Each(modules, event) == one(Http) + one(Tcp) + one(Udp);
  }

  // One module's share of loading a library.
  function LoadHistory(lib: Library, plugin: nat, protocol: Protocol): seq<Event> {
    if !lib.opens then []
    else
      [Opened(plugin)] + (if Initialises(lib, protocol) then [Initialised(plugin, protocol)] else []) +
      if LoadErrorOf(lib).Some? then [Closed(plugin)] else []
  }

  lemma InitialisedByMember(lib: Library, protocol: Protocol)
    ensures InitialisedBy(lib).Has(protocol) <==> Initialises(lib, protocol)
  {
  }

  lemma LoadEventsHistory(id: nat, lib: Library, plugin: nat, protocol: Protocol)
    ensures History(LoadEvents(id, lib), plugin, protocol)
         == if id == plugin then LoadHistory(lib, plugin, protocol) else []
  {
    HistoryOne(Opened(id), plugin, protocol);
    if lib.opens {
      var inits := Each(InitialisedBy(lib), p => Initialised(id, p));
      EachHistory(InitialisedBy(lib), p => Initialised(id, p), id, plugin, protocol);
      InitialisedByMember(lib, protocol);
      HistoryOne(Closed(id), plugin, protocol);
      var closing := if LoadErrorOf(lib).Some? then [Closed(id)] else [];
      HistoryAppend([Opened(id)] + inits, closing, plugin, protocol);
      HistoryAppend([Opened(id)], inits, plugin, protocol);
    }
  }

  lemma ShutdownEventsHistory(id: nat, held: Modules, plugin: nat, protocol: Protocol)
    ensures History(ShutdownEvents(id, held), plugin, protocol)
         == if id == plugin && held.Has(protocol) then [ShutDown(plugin, protocol)] else []
  {
    EachHistory(held, p => ShutDown(id, p), id, plugin, protocol);
  }

  // plugin's share of a run of attempts.
  function RunHistory(run: Run, plugin: nat, protocol: Protocol): seq<Event> {
    if plugin < |run.loaded| then LoadHistory(run.loaded[plugin], plugin, protocol)
    else if plugin == |run.loaded| && run.failed.Some? then LoadHistory(run.failed.value, plugin, protocol)
    else []
  }

  // failed is what ended the run, if a library did; the others loaded without error.
  ghost predicate ConsistentRun(run: Run) {
    && (run.failed.Some? ==> run.error.Some? && LoadErrorOf(run.failed.value).Some?)
    && forall i :: 0 <= i < |run.loaded| ==> LoadErrorOf(run.loaded[i]).None?
  }

  lemma AdvanceHistory(run: Run, attempt: Attempt, plugin: nat, protocol: Protocol)
    requires ConsistentRun(run) && History(run.events, plugin, protocol) == RunHistory(run, plugin, protocol)
    ensures ConsistentRun(Advance(run, attempt))
    ensures History(Advance(run, attempt).events, plugin, protocol)
         == RunHistory(Advance(run, attempt), plugin, protocol)
  {
    if run.error.None? && attempt.LoadFile? {
      var before, now := RunHistory(run, plugin, protocol), LoadHistory(attempt.lib, plugin, protocol);
      HistoryAfterLoad(run, attempt.lib, plugin, protocol);
      if plugin == |run.loaded| {
        assert before == [] && RunHistory(Advance(run, attempt), plugin, protocol) == now;
      } else {
        assert RunHistory(Advance(run, attempt), plugin, protocol) == before;
      }
    }
  }

  lemma HistoryAfterLoad(run: Run, lib: Library, plugin: nat, protocol: Protocol)
    requires History(run.events, plugin, protocol) == RunHistory(run, plugin, protocol)
    ensures
      var id, before := |run.loaded|, RunHistory(run, plugin, protocol);
      History(run.events + LoadEvents(id, lib), plugin, protocol) ==
        if plugin == id then before + LoadHistory(lib, plugin, protocol) else before
  {
    var id := |run.loaded|;
    HistoryAppend(run.events, LoadEvents(id, lib), plugin, protocol);
    LoadEventsHistory(id, lib, plugin, protocol);
    assert History(run.events, plugin, protocol) + [] == History(run.events, plugin, protocol);
  }

  lemma {:induction false} LoadRunHistory(attempts: seq<Attempt>, k: nat, plugin: nat, protocol: Protocol)
    requires k <= |attempts|
    ensures ConsistentRun(LoadUpTo(attempts, k))
    ensures History(LoadUpTo(attempts, k).events, plugin, protocol)
         == RunHistory(LoadUpTo(attempts, k), plugin, protocol)
  {
    if k == 0 {
      HistoryOne(Opened(0), plugin, protocol);
      assert LoadUpTo(attempts, 0).events == [];
    } else {
      LoadRunHistory(attempts, k - 1, plugin, protocol);
      AdvanceHistory(LoadUpTo(attempts, k - 1), attempts[k - 1], plugin, protocol);
    }
  }

  // plugin's share of being dropped while holding held.
  function DropShare(held: Modules, plugin: nat, protocol: Protocol): seq<Event> {
    (if held.Has(protocol) then [ShutDown(plugin, protocol)] else []) + [Closed(plugin)]
  }

  lemma DropOneHistory(id: nat, held: Modules, plugin: nat, protocol: Protocol)
    ensures History(ShutdownEvents(id, held) + [Closed(id)], plugin, protocol)
         == if plugin == id then DropShare(held, plugin, protocol) else []
  {
    HistoryAppend(ShutdownEvents(id, held), [Closed(id)], plugin, protocol);
    ShutdownEventsHistory(id, held, plugin, protocol);
    HistoryOne(Closed(id), plugin, protocol);
  }

  lemma {:induction false} DropHistory(held: seq<Modules>, k: nat, plugin: nat, protocol: Protocol)
    requires k <= |held|
    ensures History(DropUpTo(held, k), plugin, protocol)
         == if plugin < k then DropShare(held[plugin], plugin, protocol) else []
  {
    if k == 0 {
      HistoryOne(Closed(0), plugin, protocol);
      assert DropUpTo(held, 0) == [];
    } else {
      DropHistory(held, k - 1, plugin, protocol);
      DropHistoryStep(held, k, plugin, protocol);
    }
  }

  lemma DropHistoryStep(held: seq<Modules>, k: nat, plugin: nat, protocol: Protocol)
    requires 0 < k <= |held|
    ensures
      var before := History(DropUpTo(held, k - 1), plugin, protocol);
      History(DropUpTo(held, k), plugin, protocol) ==
        if plugin == k - 1 then before + DropShare(held[k - 1], plugin, protocol) else before
  {
    var own := ShutdownEvents(k - 1, held[k - 1]) + [Closed(k - 1)];
    var before := History(DropUpTo(held, k - 1), plugin, protocol);
    HistoryAppend(DropUpTo(held, k - 1), own, plugin, protocol);
    DropOneHistory(k - 1, held[k - 1], plugin, protocol);
    assert before + [] == before;
  }

  // However often shutdown() is called, a module held at first is shut down at most once.
  lemma {:induction false} ShutdownCallsHistory(held: seq<Modules>, calls: seq<nat>, plugin: nat, protocol: Protocol)
    requires plugin < |held|
    ensures
      var r := ShutdownCalls(held, calls);
      && r.1[plugin] == (if plugin in calls then Modules(false, false, false) else held[plugin])
      && History(r.0, plugin, protocol) ==
           if held[plugin].Has(protocol) && !r.1[plugin].Has(protocol) then [ShutDown(plugin, protocol)] else []
  {
    if calls == [] {
      HistoryOne(Opened(0), plugin, protocol);
    } else {
      var before := ShutdownCalls(held, calls[..|calls| - 1]);
      var i := calls[|calls| - 1];
      ShutdownCallsHistory(held, calls[..|calls| - 1], plugin, protocol);
      if i < |held| {
        HistoryAppend(before.0, ShutdownEvents(i, before.1[i]), plugin, protocol);
        ShutdownEventsHistory(i, before.1[i], plugin, protocol);
      }
    }
  }

  // ------------------------------------------------------------ main results

  // The share of a plugin that loaded, when all it still held in the end was last.
  lemma LoadThenDrop(lib: Library, last: Modules, plugin: nat, protocol: Protocol)
    requires LoadErrorOf(lib).None?
    requires last.Has(protocol) ==> InitialisedBy(lib).Has(protocol)
    ensures
      var between :=
        if InitialisedBy(lib).Has(protocol) && !last.Has(protocol) then [ShutDown(plugin, protocol)] else [];
      LoadHistory(lib, plugin, protocol) + between + DropShare(last, plugin, protocol) ==
        if lib.Declared(protocol).Some? then Balanced(plugin, protocol) else [Opened(plugin), Closed(plugin)]
  {
    assert Initialises(lib, protocol) <==> lib.Declared(protocol).Some?;
    InitialisedByMember(lib, protocol);
  }

  // A loaded plugin's modules each live a balanced life, whatever shutdown() calls are made and whether or not
  // a later plugin fails to load; its library is opened and closed once.
  lemma LoadedModulesAreBalanced(attempts: seq<Attempt>, calls: seq<nat>, plugin: nat, protocol: Protocol)
    requires plugin < |LoadAll(attempts).loaded|
    ensures History(Life(attempts, calls), plugin, protocol) ==
              if LoadAll(attempts).loaded[plugin].Declared(protocol).Some? then Balanced(plugin, protocol)
              else [Opened(plugin), Closed(plugin)]
  {
    var run := LoadAll(attempts);
    var held := HeldBy(run.loaded);
    var r := if run.error.Some? then ([], held) else ShutdownCalls(held, calls);
    assert Life(attempts, calls) == run.events + r.0 + DropEvents(r.1);
    HistoryAppend(run.events + r.0, DropEvents(r.1), plugin, protocol);
    HistoryAppend(run.events, r.0, plugin, protocol);
    LoadRunHistory(attempts, |attempts|, plugin, protocol);
    ShutdownCallsHistory(held, if run.error.Some? then [] else calls, plugin, protocol);
    DropHistory(r.1, |held|, plugin, protocol);
    LoadThenDrop(run.loaded[plugin], r.1[plugin], plugin, protocol);
  }

  // The library that failed to load is closed without shutting down what it had initialised.
  lemma FailedLibraryHistory(attempts: seq<Attempt>, calls: seq<nat>, protocol: Protocol)
    requires LoadAll(attempts).failed.Some?
    ensures
      var run := LoadAll(attempts);
      History(Life(attempts, calls), |run.loaded|, protocol) == LoadHistory(run.failed.value, |run.loaded|, protocol)
  {
    var run := LoadAll(attempts);
    var held := HeldBy(run.loaded);
    LoadRunHistory(attempts, |attempts|, |run.loaded|, protocol);
    HistoryAppend(run.events, DropEvents(held), |run.loaded|, protocol);
    DropHistory(held, |held|, |run.loaded|, protocol);
  }

  // Every module that was ever initialised is shut down exactly once before its library is closed.
  ghost predicate EveryModuleBalanced(events: seq<Event>) {
    forall plugin, protocol :: Initialised(plugin, protocol) in events ==>
      History(events, plugin, protocol) == Balanced(plugin, protocol)
  }

  // What an absent or working factory is: it does not stop the loading.
  predicate Works(factory: Option<Factory>) {
    factory.Some? ==> factory.value.makes && factory.value.inits
  }

  predicate Precedes(p: Protocol, q: Protocol) {
    (p == Http && q != Http) || (p == Tcp && q == Udp)
  }

  predicate Usable(lib: Library) {
    lib.opens && lib.hasRoot && lib.compatible
  }

  ghost predicate Loads(attempt: Attempt) {
    attempt.LoadFile? && Usable(attempt.lib) && forall p :: Works(attempt.lib.Declared(p))
  }

  // The first factory of lib that does not work comes after one that it declares.
  ghost predicate FailsHalfway(lib: Library) {
    Usable(lib) && exists p, q ::
      && Precedes(p, q) && lib.Declared(p).Some?
      && !Works(lib.Declared(q)) && forall r :: Precedes(r, q) ==> Works(lib.Declared(r))
  }

  // The first attempt that does not load is one at such a library.
  ghost predicate FirstFailureIsHalfway(attempts: seq<Attempt>) {
    exists i :: 0 <= i < |attempts| && attempts[i].LoadFile? && FailsHalfway(attempts[i].lib) &&
                forall j :: 0 <= j < i ==> Loads(attempts[j])
  }

  // lib fails after one of its modules was initialised.
  ghost predicate LeavesModules(lib: Library) {
    LoadErrorOf(lib).Some? && exists protocol :: Initialises(lib, protocol)
  }

  lemma LeavesModulesIffHalfway(lib: Library)
    ensures LeavesModules(lib) <==> FailsHalfway(lib)
    ensures LoadErrorOf(lib).None? <==> Loads(LoadFile(lib))
  {
    assert lib.Declared(Http) == lib.http && lib.Declared(Tcp) == lib.tcp && lib.Declared(Udp) == lib.udp;
    if LeavesModules(lib) {
      var p :| Initialises(lib, p);
      var q := if !Works(lib.http) then Http else if !Works(lib.tcp) then Tcp else Udp;
      assert Precedes(p, q) && !Works(lib.Declared(q));
    }
    if FailsHalfway(lib) {
      var p, q :|
        && Precedes(p, q) && lib.Declared(p).Some?
        && !Works(lib.Declared(q)) && forall r :: Precedes(r, q) ==> Works(lib.Declared(r));
      assert Works(lib.Declared(p));
      assert Initialises(lib, p);
    }
  }

  lemma AdvanceFails(run: Run, attempt: Attempt)
    ensures
      var next := Advance(run, attempt);
      if run.error.Some? then next == run
      else
        && (next.error.Some? <==> !Loads(attempt))
        && (run.failed.None? ==>
              next.failed == if attempt.LoadFile? && !Loads(attempt) then Some(attempt.lib) else None)
  {
    if attempt.LoadFile? {
      LeavesModulesIffHalfway(attempt.lib);
      assert LoadFile(attempt.lib) == attempt;
    }
  }

  // The attempt that ends the run: the first that does not load.
  lemma {:induction false} FirstFailure(attempts: seq<Attempt>, k: nat) returns (i: nat)
    requires k <= |attempts|
    ensures i <= k && forall j :: 0 <= j < i ==> Loads(attempts[j])
    ensures i < k ==> !Loads(attempts[i])
    ensures LoadUpTo(attempts, k).error.Some? <==> i < k
    ensures LoadUpTo(attempts, k).failed ==
              if i < k && attempts[i].LoadFile? then Some(attempts[i].lib) else None
  {
    if k == 0 {
      i := 0;
    } else {
      i := FirstFailure(attempts, k - 1);
      AdvanceFails(LoadUpTo(attempts, k - 1), attempts[k - 1]);
      if i == k - 1 && Loads(attempts[k - 1]) {
        i := k;
      }
    }
  }

  lemma FailedIffHalfway(attempts: seq<Attempt>)
    ensures
      var failed := LoadAll(attempts).failed;
      FirstFailureIsHalfway(attempts) <==> failed.Some? && LeavesModules(failed.value)
  {
    var k := FirstFailure(attempts, |attempts|);
    if k < |attempts| && attempts[k].LoadFile? {
      LeavesModulesIffHalfway(attempts[k].lib);
    }
    if FirstFailureIsHalfway(attempts) {
      var i :| 0 <= i < |attempts| && attempts[i].LoadFile? && FailsHalfway(attempts[i].lib) &&
               forall j :: 0 <= j < i ==> Loads(attempts[j]);
      LeavesModulesIffHalfway(attempts[i].lib);
      assert LoadFile(attempts[i].lib) == attempts[i];
      assert i == k;
    }
  }

  lemma InitialisedInHistory(events: seq<Event>, plugin: nat, protocol: Protocol)
    ensures Initialised(plugin, protocol) in events
       <==> Initialised(plugin, protocol) in History(events, plugin, protocol)
  {
    FilterMember(events, e => Concerns(e, plugin, protocol), Initialised(plugin, protocol));
  }

  lemma OthersHaveNoHistory(attempts: seq<Attempt>, calls: seq<nat>, plugin: nat, protocol: Protocol)
    requires
      var run := LoadAll(attempts);
      plugin > |run.loaded| || (plugin == |run.loaded| && run.failed.None?)
    ensures Initialised(plugin, protocol) !in Life(attempts, calls)
  {
    var run := LoadAll(attempts);
    var held := HeldBy(run.loaded);
    LoadRunHistory(attempts, |attempts|, plugin, protocol);
    InitialisedInHistory(run.events, plugin, protocol);
    OnlyLoadingInitialises(held, calls, plugin, protocol);
  }

  lemma OnlyLoadingInitialises(held: seq<Modules>, calls: seq<nat>, plugin: nat, protocol: Protocol)
    ensures Initialised(plugin, protocol) !in DropEvents(held)
    ensures Initialised(plugin, protocol) !in ShutdownCalls(held, calls).0
    ensures Initialised(plugin, protocol) !in DropEvents(ShutdownCalls(held, calls).1)
  {
    NoInitInDrop(held, |held|);
    NoInitInShutdowns(held, calls);
    NoInitInDrop(ShutdownCalls(held, calls).1, |held|);
  }

  ghost predicate NothingInitialised(events: seq<Event>) {
    forall i :: 0 <= i < |events| ==> !events[i].Initialised?
  }

  lemma NothingInitialisedConcat(a: seq<Event>, b: seq<Event>)
    requires NothingInitialised(a) && NothingInitialised(b)
    ensures NothingInitialised(a + b)
  {
  }

  lemma NoInitInShutdown(id: nat, held: Modules)
    ensures NothingInitialised(ShutdownEvents(id, held))
  {
  }

  lemma {:induction false} NoInitInDrop(held: seq<Modules>, k: nat)
    requires k <= |held|
    ensures NothingInitialised(DropUpTo(held, k))
  {
    if k == 0 {
    } else {
      NoInitInDrop(held, k - 1);
      NoInitInShutdown(k - 1, held[k - 1]);
      NothingInitialisedConcat(ShutdownEvents(k - 1, held[k - 1]), [Closed(k - 1)]);
      NothingInitialisedConcat(DropUpTo(held, k - 1), ShutdownEvents(k - 1, held[k - 1]) + [Closed(k - 1)]);
    }
  }

  lemma {:induction false} NoInitInShutdowns(held: seq<Modules>, calls: seq<nat>)
    ensures NothingInitialised(ShutdownCalls(held, calls).0)
  {
    if calls == [] {
    } else {
      var before, k := ShutdownCalls(held, calls[..|calls| - 1]), calls[|calls| - 1];
      NoInitInShutdowns(held, calls[..|calls| - 1]);
      if k < |held| {
        NoInitInShutdown(k, before.1[k]);
        NothingInitialisedConcat(before.0, ShutdownEvents(k, before.1[k]));
      }
    }
  }

  // The documented lifecycle holds of the whole host exactly when the first library that fails, if any, does not
  // fail halfway through its modules.
  lemma BalancedUnlessHalfway(attempts: seq<Attempt>, calls: seq<nat>)
    ensures EveryModuleBalanced(Life(attempts, calls)) <==> !FirstFailureIsHalfway(attempts)
  {
    FailedIffHalfway(attempts);
    var failed := LoadAll(attempts).failed;
    if failed.Some? && LeavesModules(failed.value) {
      HalfwayIsUnbalanced(attempts, calls);
    } else {
      OtherwiseBalanced(attempts, calls);
    }
  }

  lemma HalfwayIsUnbalanced(attempts: seq<Attempt>, calls: seq<nat>)
    requires LoadAll(attempts).failed.Some? && LeavesModules(LoadAll(attempts).failed.value)
    ensures !EveryModuleBalanced(Life(attempts, calls))
  {
    var run := LoadAll(attempts);
    var protocol :| Initialises(run.failed.value, protocol);
    var p, history := |run.loaded|, History(Life(attempts, calls), |run.loaded|, protocol);
    FailedLibraryHistory(attempts, calls, protocol);
    assert history == [Opened(p), Initialised(p, protocol), Closed(p)];
    InitialisedInHistory(Life(attempts, calls), p, protocol);
    assert history[1] in history;
  }

  lemma OtherwiseBalanced(attempts: seq<Attempt>, calls: seq<nat>)
    requires LoadAll(attempts).failed.Some? ==> !LeavesModules(LoadAll(attempts).failed.value)
    ensures EveryModuleBalanced(Life(attempts, calls))
  {
    var run := LoadAll(attempts);
    var life := Life(attempts, calls);
    forall p: nat, protocol | Initialised(p, protocol) in life
      ensures History(life, p, protocol) == Balanced(p, protocol)
    {
      InitialisedInHistory(life, p, protocol);
      LoadRunHistory(attempts, |attempts|, p, protocol);
      if p < |run.loaded| {
        LoadedModulesAreBalanced(attempts, calls, p, protocol);
      } else if p == |run.loaded| && run.failed.Some? {
        FailedLibraryHistory(attempts, calls, protocol);
      } else {
        OthersHaveNoHistory(attempts, calls, p, protocol);
      }
    }
  }

  // An input on which it fails: one plugin whose HTTP module initialises and whose TCP module does not.
  lemma HalfwayFailureLeaks()
    ensures
      var lib := Library(true, true, true, Some(Factory(true, true)), Some(Factory(true, false)), None);
      && Life([LoadFile(lib)], []) == [Opened(0), Initialised(0, Http), Closed(0)]
      && !EveryModuleBalanced(Life([LoadFile(lib)], []))
  {
    var lib := Library(true, true, true, Some(Factory(true, true)), Some(Factory(true, false)), None);
    var attempts := [LoadFile(lib)];
    assert LoadUpTo(attempts, 0) == Run([], [], None, None);
    assert LoadAll(attempts) == Advance(LoadUpTo(attempts, 0), attempts[0]);
    assert LoadErrorOf(lib) == Some(InitFailed(Tcp));
    assert InitialisedBy(lib) == Modules(true, false, false);
    assert Initialises(lib, Http) && LeavesModules(lib);
    FailedIffHalfway(attempts);
    BalancedUnlessHalfway(attempts, []);
  }

  // ------------------------------------------------------------ the order of everything

  // The first factory of a usable library that does not work, protocol by protocol, names the error.
  ghost predicate BreaksAt(lib: Library, protocol: Protocol) {
    Usable(lib) && !Works(lib.Declared(protocol)) && forall r :: Precedes(r, protocol) ==> Works(lib.Declared(r))
  }

  lemma ErrorsNamed(lib: Library, protocol: Protocol)
    ensures LoadErrorOf(lib) == Some(NotOpened) <==> !lib.opens
    ensures LoadErrorOf(lib) == Some(NoRoot) <==> lib.opens && !lib.hasRoot
    ensures LoadErrorOf(lib) == Some(Incompatible) <==> lib.opens && lib.hasRoot && !lib.compatible
    ensures LoadErrorOf(lib) == Some(FactoryFailed(protocol)) <==>
              BreaksAt(lib, protocol) && !lib.Declared(protocol).value.makes
    ensures LoadErrorOf(lib) == Some(InitFailed(protocol)) <==>
              BreaksAt(lib, protocol) && lib.Declared(protocol).value.makes
    ensures LoadErrorOf(lib) != Some(UnreadableDirectory)
  {
    assert lib.Declared(Http) == lib.http && lib.Declared(Tcp) == lib.tcp && lib.Declared(Udp) == lib.udp;
    assert Precedes(Http, Tcp) && Precedes(Http, Udp) && Precedes(Tcp, Udp);
  }

  // The first attempt that does not load gives the error of the whole run.
  lemma FirstErrorReported(attempts: seq<Attempt>, i: nat)
    requires i < |attempts| && !Loads(attempts[i]) && forall j :: 0 <= j < i ==> Loads(attempts[j])
    ensures LoadAll(attempts).error ==
              match attempts[i] case IoFault => Some(UnreadableDirectory) case LoadFile(lib) => LoadErrorOf(lib)
  {
    var k := FirstFailure(attempts, |attempts|);
    assert k == i;
    var first := FirstFailure(attempts, i);
    assert first == i;
    AdvanceFails(LoadUpTo(attempts, i), attempts[i]);
    var runs := TraceOf(attempts);
    assert LoadUpTo(attempts, i + 1) == Advance(LoadUpTo(attempts, i), attempts[i]);
    ErrorLatched(attempts, i + 1, |attempts|);
  }

  lemma {:induction false} ErrorLatched(attempts: seq<Attempt>, k: nat, n: nat)
    requires k <= n <= |attempts| && LoadUpTo(attempts, k).error.Some?
    ensures LoadUpTo(attempts, n).error == LoadUpTo(attempts, k).error
  {
    if k == n {
    } else {
      ErrorLatched(attempts, k, n - 1);
    }
  }

  // One plugin's modules are shut down HTTP first, then TCP, then UDP.
  lemma ShutdownInProtocolOrder(id: nat, held: Modules, i: nat, j: nat)
    requires i < j < |ShutdownEvents(id, held)|
    ensures
      var a, b := ShutdownEvents(id, held)[i], ShutdownEvents(id, held)[j];
      a.ShutDown? && b.ShutDown? && Precedes(a.protocol, b.protocol)
  {
  }

  // They are initialised in the same order, after the library is opened.
  lemma InitInProtocolOrder(id: nat, lib: Library, i: nat, j: nat)
    requires i < j < |LoadEvents(id, lib)|
    ensures LoadEvents(id, lib)[0] == Opened(id)
    ensures
      var a, b := LoadEvents(id, lib)[i], LoadEvents(id, lib)[j];
      a.Initialised? && b.Initialised? ==> Precedes(a.protocol, b.protocol)
  {
  }

  // events are those of plugins from low on, below high.
  ghost predicate OfPlugins(events: seq<Event>, low: nat, high: nat) {
    forall i :: 0 <= i < |events| ==> low <= events[i].plugin < high
  }

  lemma OfPluginsConcat(a: seq<Event>, b: seq<Event>, low: nat, high: nat)
    requires OfPlugins(a, low, high) && OfPlugins(b, low, high)
    ensures OfPlugins(a + b, low, high)
  {
  }

  lemma OfMorePlugins(a: seq<Event>, low: nat, high: nat, lower: nat, higher: nat)
    requires OfPlugins(a, low, high) && lower <= low && high <= higher
    ensures OfPlugins(a, lower, higher)
  {
  }

  // Plugins are dropped front to back: all that happens to those before k comes before all that happens to the rest.
  lemma {:induction false} DropsInOrder(held: seq<Modules>, k: nat, n: nat) returns (after: seq<Event>)
    requires k <= n <= |held|
    ensures DropUpTo(held, n) == DropUpTo(held, k) + after
    ensures OfPlugins(DropUpTo(held, k), 0, k) && OfPlugins(after, k, n)
  {
    if k == n {
      after := [];
      DropsOfPlugins(held, k);
    } else {
      var own := DropOne(n - 1, held[n - 1]);
      var rest := DropsInOrder(held, k, n - 1);
      after := rest + own;
      OfMorePlugins(rest, k, n - 1, k, n);
      OfMorePlugins(own, n - 1, n, k, n);
      OfPluginsConcat(rest, own, k, n);
      ConcatAssociates(DropUpTo(held, k), rest, own);
    }
  }

  lemma {:induction false} DropsOfPlugins(held: seq<Modules>, k: nat)
    requires k <= |held|
    ensures OfPlugins(DropUpTo(held, k), 0, k)
  {
    if k == 0 {
    } else {
      DropsOfPlugins(held, k - 1);
      var own := DropOne(k - 1, held[k - 1]);
      OfMorePlugins(DropUpTo(held, k - 1), 0, k - 1, 0, k);
      OfMorePlugins(own, k - 1, k, 0, k);
      OfPluginsConcat(DropUpTo(held, k - 1), own, 0, k);
    }
  }

  lemma DropOne(id: nat, held: Modules) returns (own: seq<Event>)
    ensures own == ShutdownEvents(id, held) + [Closed(id)] && OfPlugins(own, id, id + 1)
  {
    own := ShutdownEvents(id, held) + [Closed(id)];
  }

  // The plugins loaded are those of the first attempts, in their order.
  lemma {:induction false} LoadedInOrder(runs: seq<Run>, attempts: seq<Attempt>, k: nat)
    requires Traces(runs, attempts) && k <= |attempts|
    ensures |runs[k].loaded| <= k && (runs[k].error.None? ==> |runs[k].loaded| == k)
    ensures forall j :: 0 <= j < |runs[k].loaded| ==> attempts[j] == LoadFile(runs[k].loaded[j])
  {
    if k == 0 {
    } else {
      LoadedInOrder(runs, attempts, k - 1);
      AdvanceLoaded(runs[k - 1], attempts[k - 1]);
      assert runs[k - 1 + 1] == Advance(runs[k - 1], attempts[k - 1]);
    }
  }

  lemma LoadedPlugins(attempts: seq<Attempt>, plugin: nat)
    requires plugin < |LoadAll(attempts).loaded|
    ensures plugin < |attempts| && attempts[plugin] == LoadFile(LoadAll(attempts).loaded[plugin])
  {
    var runs := TraceOf(attempts);
    LoadedInOrder(runs, attempts, |attempts|);
  }

  lemma AdvanceLoaded(run: Run, attempt: Attempt)
    ensures
      var next := Advance(run, attempt);
      || (next.loaded == run.loaded && next.error.Some?)
      || (next.error.None? && attempt.LoadFile? && next.loaded == run.loaded + [attempt.lib])
  {
  }

  // Plugins are loaded in the order of the attempts: what the first k attempts do comes before all that the rest do.
  lemma {:induction false} LoadsInOrder(runs: seq<Run>, attempts: seq<Attempt>, k: nat, n: nat)
    returns (after: seq<Event>)
    requires Traces(runs, attempts) && k <= n <= |attempts|
    ensures runs[n].events == runs[k].events + after
    ensures OfPlugins(after, |runs[k].loaded|, n) && |runs[k].loaded| <= |runs[n].loaded|
  {
    if k == n {
      after := [];
    } else {
      var rest := LoadsInOrder(runs, attempts, k, n - 1);
      LoadedInOrder(runs, attempts, n - 1);
      var low, last := |runs[k].loaded|, |runs[n - 1].loaded|;
      var own := AdvanceEvents(runs[n - 1], attempts[n - 1]);
      assert runs[n - 1 + 1] == Advance(runs[n - 1], attempts[n - 1]);
      after := rest + own;
      OfMorePlugins(rest, low, n - 1, low, n);
      OfMorePlugins(own, last, last + 1, low, n);
      OfPluginsConcat(rest, own, low, n);
      ConcatAssociates(runs[k].events, rest, own);
    }
  }

  lemma AdvanceEvents(run: Run, attempt: Attempt) returns (own: seq<Event>)
    ensures Advance(run, attempt).events == run.events + own
    ensures OfPlugins(own, |run.loaded|, |run.loaded| + 1)
    ensures |run.loaded| <= |Advance(run, attempt).loaded|
  {
    if run.error.None? && attempt.LoadFile? {
      own := LoadEvents(|run.loaded|, attempt.lib);
      LoadEventsOf(|run.loaded|, attempt.lib);
    } else {
      own := [];
    }
  }

  lemma LoadEventsOf(id: nat, lib: Library)
    ensures forall i :: 0 <= i < |LoadEvents(id, lib)| ==> LoadEvents(id, lib)[i].plugin == id
  {
  }

  // ------------------------------------------------------------ what is attempted

  lemma {:induction false} EntriesAppend(a: seq<DirEntry>, b: seq<DirEntry>)
    ensures EntryAttempts(a + b) == EntryAttempts(a) + EntryAttempts(b)
  {
    if b == [] {
      assert a + b == a;
    } else {
      var n := |b| - 1;
      assert (a + b)[..|a + b| - 1] == a + b[..n];
      EntriesAppend(a, b[..n]);
    }
  }

  // A directory is a list of its entries' attempts, in their order.
  lemma EntryByEntry(entry: DirEntry)
    ensures EntryAttempts([entry]) ==
              match entry
              case Unreadable => [IoFault]
              case NotALibrary => []
              case PluginFile(lib) => [LoadFile(lib)]
  {
    assert [entry][..0] == [];
  }

  // And the paths are attempted in theirs.
  lemma {:induction false} PathsAppend(a: seq<PluginPath>, b: seq<PluginPath>)
    ensures Attempts(a + b) == Attempts(a) + Attempts(b)
  {
    if b == [] {
      assert a + b == a;
    } else {
      var n := |b| - 1;
      assert (a + b)[..|a + b| - 1] == a + b[..n];
      PathsAppend(a, b[..n]);
      ConcatAssociates(Attempts(a), Attempts(b[..n]), PathAttempts(b[n]));
    }
  }

  lemma PathByPath(path: PluginPath)
    ensures Attempts([path]) ==
              match path
              case Missing => []
              case File(lib) => [LoadFile(lib)]
              case Directory(None) => [IoFault]
              case Directory(Some(entries)) => EntryAttempts(entries)
  {
    assert [path][..0] == [];
  }

  lemma {:induction false} EntryAttempted(entries: seq<DirEntry>, lib: Library)
    ensures LoadFile(lib) in EntryAttempts(entries) <==> PluginFile(lib) in entries
  {
    if entries == [] {
    } else {
      var n := |entries| - 1;
      EntryAttempted(entries[..n], lib);
      assert entries == entries[..n] + [entries[n]];
    }
  }

  // A library is attempted exactly when it is a configured file or a plugin file in a configured directory.
  lemma {:induction false} LibrariesAttempted(paths: seq<PluginPath>, lib: Library)
    ensures LoadFile(lib) in Attempts(paths) <==>
              || File(lib) in paths
              || exists entries :: Directory(Some(entries)) in paths && PluginFile(lib) in entries
  {
    if paths == [] {
    } else {
      var n := |paths| - 1;
      var front, last := paths[..n], paths[n];
      LibrariesAttempted(front, lib);
      assert paths == front + [last];
      if last.Directory? && last.entries.Some? {
        EntryAttempted(last.entries.value, lib);
        assert Directory(Some(last.entries.value)) == last;
      }
    }
  }
}
