/** Loading plugin libraries, initialising and shutting down their modules, closing the libraries. */
module PluginLifecycle {
  import opened Prelude

  datatype Protocol = Http | Tcp | Udp

  // How a factory and its module's init behave when called.
  datatype Factory = Factory(makes: bool, inits: bool)

  // What opening a plugin file finds: whether it opens, exports a root, matches the host's version,
  // and the factories its root declares.
  datatype Library = Library(
    opens: bool,
    hasRoot: bool,
    compatible: bool,
    http: Option<Factory>,
    tcp: Option<Factory>,
    udp: Option<Factory>)
  {
    function Declared(protocol: Protocol): Option<Factory> {
      match protocol
      case Http => http
      case Tcp => tcp
      case Udp => udp
    }
  }

  // plugin numbers the libraries in the order of the attempts to load them.
  datatype Event =
    | Opened(plugin: nat)
    | Initialised(plugin: nat, protocol: Protocol)
    | ShutDown(plugin: nat, protocol: Protocol)
    | Closed(plugin: nat)

  datatype LoadError =
    | NotOpened
    | NoRoot
    | Incompatible
    | FactoryFailed(protocol: Protocol)
    | InitFailed(protocol: Protocol)
    | UnreadableDirectory

  // ------------------------------------------------------------ one library

  // One load_block!: the error that ends the loading, if any.
  function BlockError(factory: Option<Factory>, protocol: Protocol): Option<LoadError> {
    match factory
    case None => None
    case Some(f) =>
      if !f.makes then Some(FactoryFailed(protocol))
      else if !f.inits then Some(InitFailed(protocol))
      else None
  }

  function LoadErrorOf(lib: Library): Option<LoadError> {
    if !lib.opens then Some(NotOpened)
    else if !lib.hasRoot then Some(NoRoot)
    else if !lib.compatible then Some(Incompatible)
    else if BlockError(lib.http, Http).Some? then BlockError(lib.http, Http)
    else if BlockError(lib.tcp, Tcp).Some? then BlockError(lib.tcp, Tcp)
    else BlockError(lib.udp, Udp)
  }

  // Whether loading lib initialises its module for protocol: every block up to that one goes through.
  predicate Initialises(lib: Library, protocol: Protocol) {
    && lib.opens && lib.hasRoot && lib.compatible
    && lib.Declared(protocol).Some?
    && BlockError(lib.http, Http).None?
    && (protocol == Http || BlockError(lib.tcp, Tcp).None?)
    && (protocol != Udp || BlockError(lib.udp, Udp).None?)
  }

  // Which modules of a plugin are there.
  datatype Modules = Modules(http: bool, tcp: bool, udp: bool)
  {
    predicate Has(protocol: Protocol) {
      match protocol
      case Http => http
      case Tcp => tcp
      case Udp => udp
    }
  }

  function NoModules(): Modules {
    Modules(false, false, false)
  }

  function Each(modules: Modules, event: Protocol -> Event): seq<Event> {
    (if modules.http then [event(Http)] else []) +
    (if modules.tcp then [event(Tcp)] else []) +
    (if modules.udp then [event(Udp)] else [])
  }

  function InitialisedBy(lib: Library): Modules {
    Modules(Initialises(lib, Http), Initialises(lib, Tcp), Initialises(lib, Udp))
  }

  // What one attempt does: a failed one closes the library again, without a word to modules already initialised.
  function LoadEvents(id: nat, lib: Library): seq<Event> {
    if !lib.opens then []
    else
      [Opened(id)] + Each(InitialisedBy(lib), p => Initialised(id, p)) +
      if LoadErrorOf(lib).Some? then [Closed(id)] else []
  }

  function ShutdownEvents(id: nat, held: Modules): seq<Event> {
    Each(held, p => ShutDown(id, p))
  }

  class Host {
    var events: seq<Event>

    constructor ()
      ensures events == []
    {
      events := [];
    }

    method Emit(e: Event)
      modifies this
      ensures events == old(events) + [e]
    {
      events := events + [e];
    }
  }

  // Stands for a module's instance and callbacks.
  datatype Module = Module(protocol: Protocol)

  class LoadedPlugin {
    const id: nat
    var http: Option<Module>
    var tcp: Option<Module>
    var udp: Option<Module>

    ghost function Held(): Modules
      reads this
    {
      Modules(http.Some?, tcp.Some?, udp.Some?)
    }

    constructor (id: nat)
      ensures this.id == id && Held() == NoModules()
    {
      this.id, http, tcp, udp := id, None, None, None;
    }

    method Shutdown(host: Host)
      modifies this, host
      ensures host.events == old(host.events) + ShutdownEvents(id, old(Held()))
      ensures Held() == NoModules()
    {
      var module_ := http;
      http := None;
      if module_.Some? {
        host.Emit(ShutDown(id, Http));
      }
      module_ := tcp;
      tcp := None;
      if module_.Some? {
        host.Emit(ShutDown(id, Tcp));
      }
      module_ := udp;
      udp := None;
      if module_.Some? {
        host.Emit(ShutDown(id, Udp));
      }
    }

    // Dropping shuts down what is still held, then drops the fields, the library handle last.
    method Drop(host: Host)
      modifies this, host
      ensures host.events == old(host.events) + (ShutdownEvents(id, old(Held())) + [Closed(id)])
      ensures Held() == NoModules()
    {
      Shutdown(host);
      host.Emit(Closed(id));
    }
  }

  method LoadBlock(host: Host, id: nat, factory: Option<Factory>, protocol: Protocol)
    returns (r: Result<Option<Module>, LoadError>)
    modifies host
    ensures r == match BlockError(factory, protocol)
                 case Some(error) => Err(error)
                 case None => Ok(if factory.Some? then Some(Module(protocol)) else None)
    ensures host.events == old(host.events) + if r.Ok? && r.value.Some? then [Initialised(id, protocol)] else []
  {
    if factory.None? {
      return Ok(None);
    }
    if !factory.value.makes {
      return Err(FactoryFailed(protocol));
    }
    if !factory.value.inits {
      return Err(InitFailed(protocol));
    }
    host.Emit(Initialised(id, protocol));
    return Ok(Some(Module(protocol)));
  }

  method LoadModules(host: Host, lib: Library, plugin: LoadedPlugin) returns (r: Result<(), LoadError>)
    requires lib.opens && lib.hasRoot && lib.compatible && plugin.Held() == NoModules()
    modifies host, plugin
    ensures r == match LoadErrorOf(lib) case Some(error) => Err(error) case None => Ok(())
    ensures host.events == old(host.events) + Each(InitialisedBy(lib), p => Initialised(plugin.id, p))
    ensures plugin.Held() == InitialisedBy(lib)
  {
    var http := LoadBlock(host, plugin.id, lib.http, Http);
    if http.Err? {
      return Err(http.error);
    }
    plugin.http := http.value;
    var tcp := LoadBlock(host, plugin.id, lib.tcp, Tcp);
    if tcp.Err? {
      return Err(tcp.error);
    }
    plugin.tcp := tcp.value;
    var udp := LoadBlock(host, plugin.id, lib.udp, Udp);
    if udp.Err? {
      return Err(udp.error);
    }
    plugin.udp := udp.value;
    return Ok(());
  }

  method Load(host: Host, id: nat, lib: Library) returns (r: Result<LoadedPlugin, LoadError>)
    modifies host
    ensures host.events == old(host.events) + LoadEvents(id, lib)
    ensures r.Err? <==> LoadErrorOf(lib).Some?
    ensures r.Err? ==> r.error == LoadErrorOf(lib).value
    ensures r.Ok? ==> fresh(r.value) && r.value.id == id && r.value.Held() == InitialisedBy(lib)
  {
    if !lib.opens {
      return Err(NotOpened);
    }
    host.Emit(Opened(id));
    if !lib.hasRoot {
      host.Emit(Closed(id));
      return Err(NoRoot);
    }
    if !lib.compatible {
      host.Emit(Closed(id));
      return Err(Incompatible);
    }
    // On failure the plugin value never comes to be: what it would hold is forgotten, not shut down.
    var plugin := new LoadedPlugin(id);
    var loaded := LoadModules(host, lib, plugin);
    if loaded.Err? {
      host.Emit(Closed(id));
      return Err(loaded.error);
    }
    return Ok(plugin);
  }

  // ------------------------------------------------------------ all configured paths

  datatype DirEntry = Unreadable | NotALibrary | PluginFile(lib: Library)

  // None: the directory cannot be read.
  datatype PluginPath = Directory(entries: Option<seq<DirEntry>>) | File(lib: Library) | Missing

  datatype Attempt = LoadFile(lib: Library) | IoFault

  function EntryAttempts(entries: seq<DirEntry>): seq<Attempt> {
    if entries == [] then []
    else
      var n := |entries| - 1;
      EntryAttempts(entries[..n]) +
      match entries[n]
      case Unreadable => [IoFault]
      case NotALibrary => []
      case PluginFile(lib) => [LoadFile(lib)]
  }

  function PathAttempts(path: PluginPath): seq<Attempt> {
    match path
    case Missing => []
    case File(lib) => [LoadFile(lib)]
    case Directory(None) => [IoFault]
    case Directory(Some(entries)) => EntryAttempts(entries)
  }

  // What loading would attempt, in order, if nothing failed.
  function Attempts(paths: seq<PluginPath>): seq<Attempt> {
    if paths == [] then []
    else Attempts(paths[..|paths| - 1]) + PathAttempts(paths[|paths| - 1])
  }

  // What the attempts did up to the first that failed: plugin i is loaded[i], failed the library that could not be.
  datatype Run = Run(events: seq<Event>, loaded: seq<Library>, error: Option<LoadError>, failed: Option<Library>)

  function Advance(run: Run, attempt: Attempt): Run {
    if run.error.Some? then run
    else
      match attempt
      case IoFault => run.(error := Some(UnreadableDirectory))
      case LoadFile(lib) =>
        var events := run.events + LoadEvents(|run.loaded|, lib);
        if LoadErrorOf(lib).Some? then Run(events, run.loaded, LoadErrorOf(lib), Some(lib))
        else Run(events, run.loaded + [lib], None, None)
  }

  // After the first k attempts.
  function LoadUpTo(attempts: seq<Attempt>, k: nat): Run
    requires k <= |attempts|
  {
    if k == 0 then Run([], [], None, None) else Advance(LoadUpTo(attempts, k - 1), attempts[k - 1])
  }

  function LoadAll(attempts: seq<Attempt>): Run {
    LoadUpTo(attempts, |attempts|)
  }

  // Dropping the first k plugins, front to back; held[i] is what plugin i still holds.
  function DropUpTo(held: seq<Modules>, k: nat): seq<Event>
    requires k <= |held|
  {
    if k == 0 then [] else DropUpTo(held, k - 1) + (ShutdownEvents(k - 1, held[k - 1]) + [Closed(k - 1)])
  }

  function DropEvents(held: seq<Modules>): seq<Event> {
    DropUpTo(held, |held|)
  }

  function HeldBy(loaded: seq<Library>): (held: seq<Modules>)
    ensures |held| == |loaded|
  {
    seq(|loaded|, i requires 0 <= i < |loaded| => InitialisedBy(loaded[i]))
  }

  // plugins are numbered as they stand and hold what held says.
  ghost predicate Hold(plugins: seq<LoadedPlugin>, held: seq<Modules>)
    reads plugins
  {
    |held| == |plugins| && forall i :: 0 <= i < |plugins| ==> plugins[i].id == i && plugins[i].Held() == held[i]
  }

  lemma HoldSnoc(plugins: seq<LoadedPlugin>, held: seq<Modules>, plugin: LoadedPlugin)
    requires Hold(plugins, held) && plugin.id == |plugins|
    ensures Hold(plugins + [plugin], held + [plugin.Held()])
  {
  }

  method DropAll(host: Host, plugins: seq<LoadedPlugin>, ghost held: seq<Modules>)
    requires Hold(plugins, held)
    modifies host, plugins
    ensures host.events == old(host.events) + DropEvents(held)
  {
    for i := 0 to |plugins|
      invariant host.events == old(host.events) + DropUpTo(held, i)
      invariant forall k :: i <= k < |plugins| ==> plugins[k].Held() == held[k]
    {
      plugins[i].Drop(host);
    }
  }

  // Outcome of loading: on failure the plugins loaded before are dropped.
  function Outcome(run: Run): seq<Event> {
    run.events + if run.error.Some? then DropEvents(HeldBy(run.loaded)) else []
  }

  // runs[k] is what the first k attempts come to.
  ghost predicate Traces(runs: seq<Run>, attempts: seq<Attempt>) {
    && |runs| == |attempts| + 1
    && runs[0] == Run([], [], None, None)
    && forall k :: 0 <= k < |attempts| ==> runs[k + 1] == Advance(runs[k], attempts[k])
  }

  lemma TraceOf(attempts: seq<Attempt>) returns (runs: seq<Run>)
    ensures Traces(runs, attempts) && runs[|attempts|] == LoadAll(attempts)
  {
    runs := seq(|attempts| + 1, k requires 0 <= k <= |attempts| => LoadUpTo(attempts, k));
  }

  lemma {:induction false} ErrorStays(runs: seq<Run>, attempts: seq<Attempt>, k: nat, n: nat)
    requires Traces(runs, attempts) && k <= n < |runs| && runs[k].error.Some?
    ensures runs[n] == runs[k]
  {
    if k < n {
      ErrorStays(runs, attempts, k, n - 1);
      assert runs[n - 1 + 1] == Advance(runs[n - 1], attempts[n - 1]);
    }
  }

  lemma HeldBySnoc(loaded: seq<Library>, lib: Library)
    ensures HeldBy(loaded + [lib]) == HeldBy(loaded) + [InitialisedBy(lib)]
  {
  }

  // Attempt i, after those before it went through.
  method TryNext(host: Host, attempts: seq<Attempt>, i: nat, id: nat, ghost runs: seq<Run>, ghost start: seq<Event>)
    returns (r: Result<LoadedPlugin, LoadError>)
    requires Traces(runs, attempts) && i < |attempts|
    requires runs[i].error.None? && id == |runs[i].loaded| && host.events == start + runs[i].events
    modifies host
    ensures host.events == start + runs[i + 1].events
    ensures runs[i + 1].error == if r.Err? then Some(r.error) else None
    ensures r.Err? ==> runs[i + 1].loaded == runs[i].loaded
    ensures r.Ok? ==> fresh(r.value) && r.value.id == id
    ensures r.Ok? ==> HeldBy(runs[i + 1].loaded) == HeldBy(runs[i].loaded) + [r.value.Held()]
  {
    assert runs[i + 1] == Advance(runs[i], attempts[i]);
    match attempts[i] {
      case IoFault =>
        r := Err(UnreadableDirectory);
      case LoadFile(lib) =>
        HeldBySnoc(runs[i].loaded, lib);
        r := Load(host, id, lib);
    }
  }

  // The loop of load_plugins: the plugins loaded before the first failure, if any.
  method CollectPlugins(host: Host, attempts: seq<Attempt>, ghost runs: seq<Run>)
    returns (plugins: seq<LoadedPlugin>, error: Option<LoadError>)
    requires Traces(runs, attempts)
    modifies host
    ensures host.events == old(host.events) + runs[|attempts|].events
    ensures error == runs[|attempts|].error
    ensures Hold(plugins, HeldBy(runs[|attempts|].loaded))
    ensures forall k :: 0 <= k < |plugins| ==> fresh(plugins[k])
  {
    plugins, error := [], None;
    ghost var held := HeldBy(runs[0].loaded);
    var i := 0;
    while i < |attempts| && error.None?
      invariant i <= |attempts| && runs[i].error == error
      invariant host.events == old(host.events) + runs[i].events
      invariant held == HeldBy(runs[i].loaded) && Hold(plugins, held)
      invariant forall k :: 0 <= k < |plugins| ==> fresh(plugins[k])
    {
      var plugin := TryNext(host, attempts, i, |plugins|, runs, old(host.events));
      match plugin {
        case Ok(loaded) =>
          HoldSnoc(plugins, held, loaded);
          plugins := plugins + [loaded];
          held := held + [loaded.Held()];
        case Err(e) =>
          error := Some(e);
      }
      i := i + 1;
    }
    if error.Some? {
      ErrorStays(runs, attempts, i, |attempts|);
    }
  }

  // Leaving early drops the plugins collected so far.
  method LoadPlugins(host: Host, paths: seq<PluginPath>) returns (r: Result<seq<LoadedPlugin>, LoadError>)
    modifies host
    ensures
      var run := LoadAll(Attempts(paths));
      && host.events == old(host.events) + Outcome(run)
      && r.Err? == run.error.Some?
      && (r.Err? ==> run.error == Some(r.error))
      && (r.Ok? ==> Hold(r.value, HeldBy(run.loaded)) && forall k :: 0 <= k < |r.value| ==> fresh(r.value[k]))
  {
    ghost var runs := TraceOf(Attempts(paths));
    var plugins, error := CollectPlugins(host, Attempts(paths), runs);
    if error.Some? {
      DropAll(host, plugins, HeldBy(LoadAll(Attempts(paths)).loaded));
      return Err(error.value);
    }
    return Ok(plugins);
  }

  // ------------------------------------------------------------ the whole life of a host

  // Any shutdown() calls on the loaded plugins: the events, and what each plugin still holds.
  function ShutdownCalls(held: seq<Modules>, calls: seq<nat>): (r: (seq<Event>, seq<Modules>))
    ensures |r.1| == |held|
  {
    if calls == [] then ([], held)
    else ShutdownCall(ShutdownCalls(held, calls[..|calls| - 1]), calls[|calls| - 1])
  }

  // One call, on plugin k if there is one.
  function ShutdownCall(before: (seq<Event>, seq<Modules>), k: nat): (r: (seq<Event>, seq<Modules>))
    ensures |r.1| == |before.1|
  {
    if k >= |before.1| then before
    else (before.0 + ShutdownEvents(k, before.1[k]), before.1[k := NoModules()])
  }

  // A whole life of the host: load, shut down at will if loading succeeded, drop everything.
  function Life(attempts: seq<Attempt>, calls: seq<nat>): seq<Event> {
    var run := LoadAll(attempts);
    if run.error.Some? then Outcome(run)
    else
      var shutdowns := ShutdownCalls(HeldBy(run.loaded), calls);
      Outcome(run) + shutdowns.0 + DropEvents(shutdowns.1)
  }

  // Loads the plugins, shuts down those that calls names, one by one and as often as it names them, and drops all.
  method RunHost(host: Host, paths: seq<PluginPath>, calls: seq<nat>)
    modifies host
    ensures host.events == old(host.events) + Life(Attempts(paths), calls)
  {
    ghost var run := LoadAll(Attempts(paths));
    var loaded := LoadPlugins(host, paths);
    if loaded.Err? {
      return;
    }
    ghost var shutdowns := ShutdownCalls(HeldBy(run.loaded), calls);
    ShutdownEach(host, loaded.value, calls, HeldBy(run.loaded));
    DropAll(host, loaded.value, shutdowns.1);
    ConcatAssociates(old(host.events), Outcome(run), shutdowns.0);
    ConcatAssociates(old(host.events), Outcome(run) + shutdowns.0, DropEvents(shutdowns.1));
  }

  method ShutdownEach(host: Host, plugins: seq<LoadedPlugin>, calls: seq<nat>, ghost held: seq<Modules>)
    requires Hold(plugins, held)
    modifies host, plugins
    ensures host.events == old(host.events) + ShutdownCalls(held, calls).0
    ensures Hold(plugins, ShutdownCalls(held, calls).1)
  {
    ghost var start := host.events;
    ghost var done: (seq<Event>, seq<Modules>) := ([], held);
    for i := 0 to |calls|
      invariant done == ShutdownCalls(held, calls[..i])
      invariant Hold(plugins, done.1) && host.events == start + done.0
    {
      assert calls[..i + 1][..i] == calls[..i];
      ShutdownOne(host, plugins, calls[i], done, start);
      done := ShutdownCall(done, calls[i]);
    }
    assert calls[..|calls|] == calls;
  }

  method ShutdownOne(
    host: Host, plugins: seq<LoadedPlugin>, k: nat, ghost before: (seq<Event>, seq<Modules>), ghost start: seq<Event>)
    requires Hold(plugins, before.1) && host.events == start + before.0
    modifies host, plugins
    ensures Hold(plugins, ShutdownCall(before, k).1) && host.events == start + ShutdownCall(before, k).0
  {
    if k < |plugins| {
      ConcatAssociates(start, before.0, ShutdownEvents(k, before.1[k]));
      plugins[k].Shutdown(host);
    }
  }
}
