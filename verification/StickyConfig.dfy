/** Loading the sticky balancer's configuration: trimming, and refusing what cannot be served. */
module StickyConfig {
  import opened Prelude
  import opened Text

  const NANOS_PER_SEC: nat := 1_000_000_000

  datatype ListenerConfig = ListenerConfig(name: string, backends: seq<string>)

  datatype FileConfig = FileConfig(
    ttlSecs: u64,
    fallbackBackends: seq<string>,
    listeners: seq<ListenerConfig>)

  // Nanoseconds; loading never lets zero through.
  type Ttl = n: nat | n > 0 witness 1

  datatype LoadedConfig = LoadedConfig(
    ttl: Ttl,
    fallbackBackends: seq<string>,
    listenerBackends: map<string, seq<string>>)
  {
    function PoolForListener(listener: string): seq<string> {
      if listener in listenerBackends then listenerBackends[listener] else fallbackBackends
    }
  }

  // The place a blank value was found.
  datatype Field = ListenerName | ListenerPool(name: string) | FallbackPool

  datatype ConfigError =
    | ZeroTtl
    | EmptyValue(field: Field)
    | DuplicateListener(name: string)
    | NoPools

  function Normalize(value: string, field: Field): (r: Result<string, ConfigError>)
    ensures if AllWhitespace(value) then r == Err(EmptyValue(field)) else r == Ok(Trim(value))
    ensures r.Ok? ==> r.value != "" && IsTrimmed(r.value)
  {
    BlankTrimsToEmpty(value);
    TrimIdempotent(value);
    if Trim(value) == "" then Err(EmptyValue(field)) else Ok(Trim(value))
  }

  ghost predicate NoBlank(values: seq<string>) {
    forall i :: 0 <= i < |values| ==> !AllWhitespace(values[i])
  }

  method NormalizeBackends(values: seq<string>, field: Field) returns (r: Result<seq<string>, ConfigError>)
    ensures r.Ok? <==> NoBlank(values)
    ensures r.Ok? ==> r.value == TrimAll(values)
    ensures r.Err? ==> r.error == EmptyValue(field)
  {
    var backends := [];
    for i := 0 to |values|
      invariant NoBlank(values[..i]) && backends == TrimAll(values)[..i]
    {
      var backend := Normalize(values[i], field);
      if backend.Err? {
        return Err(backend.error);
      }
      backends := backends + [backend.value];
    }
    return Ok(backends);
  }

  // Names are not blank and stay apart after trimming; pools hold no blank backend.
  ghost predicate GoodListeners(listeners: seq<ListenerConfig>) {
    && (forall i :: 0 <= i < |listeners| ==> GoodListener(listeners[i]))
    && (forall i, j :: 0 <= i < j < |listeners| ==> Trim(listeners[i].name) != Trim(listeners[j].name))
  }

  ghost predicate GoodListener(listener: ListenerConfig) {
    !AllWhitespace(listener.name) && NoBlank(listener.backends)
  }

  ghost predicate Acceptable(file: FileConfig) {
    && file.ttlSecs != 0
    && GoodListeners(file.listeners)
    && NoBlank(file.fallbackBackends)
    && (file.listeners != [] || file.fallbackBackends != [])
  }

  // pools holds exactly the listeners' trimmed names, each with its trimmed backends in order.
  ghost predicate IsPoolMap(listeners: seq<ListenerConfig>, pools: map<string, seq<string>>) {
    && (forall name :: name in pools ==> HasName(listeners, name))
    && (forall i :: 0 <= i < |listeners| ==> PoolOf(pools, Trim(listeners[i].name), TrimAll(listeners[i].backends)))
  }

  ghost predicate HasName(listeners: seq<ListenerConfig>, name: string) {
    exists i :: 0 <= i < |listeners| && Trim(listeners[i].name) == name
  }

  ghost predicate PoolOf(pools: map<string, seq<string>>, name: string, pool: seq<string>) {
    name in pools && pools[name] == pool
  }

  ghost predicate IsLoaded(file: FileConfig, config: LoadedConfig) {
    && config.ttl == file.ttlSecs * NANOS_PER_SEC
    && config.fallbackBackends == TrimAll(file.fallbackBackends)
    && IsPoolMap(file.listeners, config.listenerBackends)
  }

  // The complaint about a listener that follows good ones: blank name, repeated name, blank backend, in that order.
  ghost predicate IsListenerError(before: seq<ListenerConfig>, listener: ListenerConfig, error: ConfigError) {
    var name := Trim(listener.name);
    if AllWhitespace(listener.name) then error == EmptyValue(ListenerName)
    else if HasName(before, name) then error == DuplicateListener(name)
    else !NoBlank(listener.backends) && error == EmptyValue(ListenerPool(name))
  }

  ghost predicate IsFirstListenerError(listeners: seq<ListenerConfig>, error: ConfigError) {
    exists i :: 0 <= i < |listeners| &&
                GoodListeners(listeners[..i]) && IsListenerError(listeners[..i], listeners[i], error)
  }

  ghost predicate IsRejection(file: FileConfig, error: ConfigError) {
    if file.ttlSecs == 0 then error == ZeroTtl
    else if !GoodListeners(file.listeners) then IsFirstListenerError(file.listeners, error)
    else if !NoBlank(file.fallbackBackends) then error == EmptyValue(FallbackPool)
    else file.listeners == [] && file.fallbackBackends == [] && error == NoPools
  }

  method TryFrom(file: FileConfig) returns (r: Result<LoadedConfig, ConfigError>)
    ensures r.Ok? <==> Acceptable(file)
    ensures r.Ok? ==> IsLoaded(file, r.value) && r.value.ttl == file.ttlSecs * 1_000_000_000
    ensures r.Err? ==> IsRejection(file, r.error)
  {
    if file.ttlSecs == 0 {
      return Err(ZeroTtl);
    }
    var listenerBackends := LoadListeners(file.listeners);
    if listenerBackends.Err? {
      return Err(listenerBackends.error);
    }
    var fallbackBackends := NormalizeBackends(file.fallbackBackends, FallbackPool);
    if fallbackBackends.Err? {
      return Err(fallbackBackends.error);
    }
    if listenerBackends.value == map[] && fallbackBackends.value == [] {
      return Err(NoPools);
    }
    return Ok(LoadedConfig(file.ttlSecs * NANOS_PER_SEC, fallbackBackends.value, listenerBackends.value));
  }

  // The loop over the listeners inside TryFrom.
  method LoadListeners(listeners: seq<ListenerConfig>) returns (r: Result<map<string, seq<string>>, ConfigError>)
    ensures r.Ok? <==> GoodListeners(listeners)
    ensures r.Ok? ==> IsPoolMap(listeners, r.value) && (r.value == map[] <==> listeners == [])
    ensures r.Err? ==> IsFirstListenerError(listeners, r.error)
  {
    var listenerBackends: map<string, seq<string>> := map[];
    for i := 0 to |listeners|
      invariant GoodListeners(listeners[..i])
      invariant IsPoolMap(listeners[..i], listenerBackends)
      invariant listenerBackends == map[] <==> i == 0
    {
      var listener := listeners[i];
      ListenerStep(listeners, i, listenerBackends);
      var name := Normalize(listener.name, ListenerName);
      if name.Err? {
        return Err(name.error);
      }
      if name.value in listenerBackends {
        return Err(DuplicateListener(name.value));
      }
      var backends := NormalizeBackends(listener.backends, ListenerPool(name.value));
      if backends.Err? {
        return Err(backends.error);
      }
      listenerBackends := listenerBackends[name.value := backends.value];
    }
    assert listeners[..|listeners|] == listeners;
    return Ok(listenerBackends);
  }

  lemma NamesAreKeys(listeners: seq<ListenerConfig>, pools: map<string, seq<string>>, name: string)
    requires IsPoolMap(listeners, pools)
    ensures name in pools <==> HasName(listeners, name)
  {
    if HasName(listeners, name) {
      var i :| 0 <= i < |listeners| && Trim(listeners[i].name) == name;
      assert PoolOf(pools, Trim(listeners[i].name), TrimAll(listeners[i].backends));
    }
  }

  lemma AddListener(before: seq<ListenerConfig>, listener: ListenerConfig, pools: map<string, seq<string>>)
    requires GoodListeners(before) && IsPoolMap(before, pools)
    requires GoodListener(listener) && Trim(listener.name) !in pools
    ensures GoodListeners(before + [listener])
    ensures IsPoolMap(before + [listener], pools[Trim(listener.name) := TrimAll(listener.backends)])
  {
    NamesAreKeys(before, pools, Trim(listener.name));
    AddPool(before, listener, pools);
  }

  lemma AddPool(before: seq<ListenerConfig>, listener: ListenerConfig, pools: map<string, seq<string>>)
    requires IsPoolMap(before, pools) && Trim(listener.name) !in pools
    ensures IsPoolMap(before + [listener], pools[Trim(listener.name) := TrimAll(listener.backends)])
  {
    var name := Trim(listener.name);
    var all, updated := before + [listener], pools[name := TrimAll(listener.backends)];
    forall n | n in updated ensures HasName(all, n) {
      if n == name {
        assert Trim(all[|before|].name) == n;
      } else {
        assert HasName(before, n);
        var i :| 0 <= i < |before| && Trim(before[i].name) == n;
        assert Trim(all[i].name) == n;
      }
    }
    forall i | 0 <= i < |all| ensures PoolOf(updated, Trim(all[i].name), TrimAll(all[i].backends)) {
      if i < |before| {
        assert PoolOf(pools, Trim(before[i].name), TrimAll(before[i].backends));
      }
    }
  }

  // A listener is added to the pools, or is the first to spoil the list.
  lemma ListenerStep(listeners: seq<ListenerConfig>, i: nat, pools: map<string, seq<string>>)
    requires i < |listeners| && GoodListeners(listeners[..i]) && IsPoolMap(listeners[..i], pools)
    ensures
      var listener := listeners[i];
      var name := Trim(listener.name);
      if AllWhitespace(listener.name) then
        !GoodListeners(listeners) && IsFirstListenerError(listeners, EmptyValue(ListenerName))
      else if name in pools then
        !GoodListeners(listeners) && IsFirstListenerError(listeners, DuplicateListener(name))
      else if !NoBlank(listener.backends) then
        !GoodListeners(listeners) && IsFirstListenerError(listeners, EmptyValue(ListenerPool(name)))
      else
        && GoodListeners(listeners[..i + 1])
        && IsPoolMap(listeners[..i + 1], pools[name := TrimAll(listener.backends)])
  {
    var listener := listeners[i];
    var name := Trim(listener.name);
    assert listeners[..i + 1] == listeners[..i] + [listener];
    NamesAreKeys(listeners[..i], pools, name);
    if !AllWhitespace(listener.name) && name in pools {
      var j :| 0 <= j < i && Trim(listeners[..i][j].name) == name;
      assert Trim(listeners[j].name) == Trim(listeners[i].name);
      assert IsListenerError(listeners[..i], listener, DuplicateListener(name));
    } else if !GoodListener(listener) {
      var error := EmptyValue(if AllWhitespace(listener.name) then ListenerName else ListenerPool(name));
      assert IsListenerError(listeners[..i], listener, error);
    } else {
      AddListener(listeners[..i], listener, pools);
    }
  }

  // The configuration a file loads to is unique.
  lemma LoadedUnique(file: FileConfig, a: LoadedConfig, b: LoadedConfig)
    requires IsLoaded(file, a) && IsLoaded(file, b)
    ensures a == b
  {
    var s, t := a.listenerBackends, b.listenerBackends;
    forall name | name in s ensures name in t && s[name] == t[name] {
      assert HasName(file.listeners, name);
      var i :| 0 <= i < |file.listeners| && Trim(file.listeners[i].name) == name;
      var pool := TrimAll(file.listeners[i].backends);
      assert PoolOf(s, name, pool) && PoolOf(t, name, pool);
    }
    forall name | name in t ensures name in s {
      NamesAreKeys(file.listeners, t, name);
      NamesAreKeys(file.listeners, s, name);
    }
    assert s.Keys == t.Keys;
  }

  // Every listener name is served by its own trimmed backends, every other name by the fallback.
  lemma PoolServed(file: FileConfig, config: LoadedConfig, name: string)
    requires IsLoaded(file, config)
    ensures forall i :: 0 <= i < |file.listeners| && Trim(file.listeners[i].name) == name ==>
              config.PoolForListener(name) == TrimAll(file.listeners[i].backends)
    ensures (forall i :: 0 <= i < |file.listeners| ==> Trim(file.listeners[i].name) != name) ==>
              config.PoolForListener(name) == TrimAll(file.fallbackBackends)
  {
    NamesAreKeys(file.listeners, config.listenerBackends, name);
    forall i | 0 <= i < |file.listeners| && Trim(file.listeners[i].name) == name
      ensures config.PoolForListener(name) == TrimAll(file.listeners[i].backends)
    {
      assert PoolOf(config.listenerBackends, name, TrimAll(file.listeners[i].backends));
    }
  }

  // file lists config, its listeners in any order.
  ghost predicate Lists(file: FileConfig, config: LoadedConfig) {
    && file.ttlSecs * NANOS_PER_SEC == config.ttl
    && file.fallbackBackends == config.fallbackBackends
    && (forall i, j :: 0 <= i < j < |file.listeners| ==> file.listeners[i].name != file.listeners[j].name)
    && (forall i :: 0 <= i < |file.listeners| ==>
          PoolOf(config.listenerBackends, file.listeners[i].name, file.listeners[i].backends))
    && (forall name :: name in config.listenerBackends ==> Mentions(file.listeners, name))
  }

  ghost predicate Mentions(listeners: seq<ListenerConfig>, name: string) {
    exists i :: 0 <= i < |listeners| && listeners[i].name == name
  }

  lemma TrimAllTwice(values: seq<string>)
    requires NoBlank(values)
    ensures NoBlank(TrimAll(values)) && TrimAll(TrimAll(values)) == TrimAll(values)
  {
    forall i | 0 <= i < |values| ensures Trim(Trim(values[i])) == Trim(values[i]) && !AllWhitespace(Trim(values[i])) {
      TrimIdempotent(values[i]);
      BlankTrimsToEmpty(values[i]);
      BlankTrimsToEmpty(Trim(values[i]));
    }
  }

  // Loading a loaded configuration again, listed in any order, accepts it and changes nothing.
  lemma LoadIdempotent(file: FileConfig, config: LoadedConfig, again: FileConfig)
    requires Acceptable(file) && IsLoaded(file, config) && Lists(again, config)
    ensures Acceptable(again) && IsLoaded(again, config)
  {
    TrimAllTwice(file.fallbackBackends);
    forall k | 0 <= k < |again.listeners|
      ensures GoodListener(again.listeners[k])
      ensures Trim(again.listeners[k].name) == again.listeners[k].name
      ensures TrimAll(again.listeners[k].backends) == again.listeners[k].backends
    {
      var listener := again.listeners[k];
      assert PoolOf(config.listenerBackends, listener.name, listener.backends);
      assert HasName(file.listeners, listener.name);
      var i :| 0 <= i < |file.listeners| && Trim(file.listeners[i].name) == listener.name;
      assert PoolOf(config.listenerBackends, listener.name, TrimAll(file.listeners[i].backends));
      assert GoodListener(file.listeners[i]);
      TrimAllTwice(file.listeners[i].backends);
      TrimAllTwice([file.listeners[i].name]);
      assert TrimAll([file.listeners[i].name])[0] == listener.name;
      assert TrimAll([listener.name])[0] == listener.name by {
        TrimIdempotent(file.listeners[i].name);
      }
    }
    assert again.listeners != [] <==> file.listeners != [] by {
      if file.listeners != [] {
        assert Mentions(again.listeners, Trim(file.listeners[0].name)) by {
          NamesAreKeys(file.listeners, config.listenerBackends, Trim(file.listeners[0].name));
        }
      }
      if again.listeners != [] {
        assert PoolOf(config.listenerBackends, again.listeners[0].name, again.listeners[0].backends);
      }
    }
  }
}
