/** The order in which the host calls plugin modules: ascending priority, load order within one priority. */
module Dispatch {
  import opened Prelude
  import opened PluginSys

  datatype LoadedModules = LoadedModules(http: Option<HttpModule>, tcp: Option<TcpModule>, udp: Option<UdpModule>)

  function OfPriority<T>(s: seq<T>, priority: T -> u8, p: u8): seq<T> {
    Filter(s, x => priority(x) == p)
  }

  ghost predicate Ascending<T>(s: seq<T>, priority: T -> u8) {
    forall i, j :: 0 <= i < j < |s| ==> priority(s[i]) <= priority(s[j])
  }

  // ordered holds the modules of loaded by ascending priority, those of one priority as they were loaded.
  ghost predicate IsDispatchOrder<T>(loaded: seq<T>, ordered: seq<T>, priority: T -> u8) {
    Ascending(ordered, priority) && forall p: u8 :: OfPriority(ordered, priority, p) == OfPriority(loaded, priority, p)
  }

  // The standard library's stable sort, as insertion of each element before the first of higher priority.
  function SortByPriority<T>(s: seq<T>, priority: T -> u8): (r: seq<T>)
    ensures IsDispatchOrder(s, r, priority)
  {
    if s == [] then []
    else
      var n := |s| - 1;
      var front := SortByPriority(s[..n], priority);
      InsertKeepsOrder(s[..n], front, s[n], priority);
      assert s == s[..n] + [s[n]];
      Insert(front, s[n], priority)
  }

  function Insert<T>(s: seq<T>, x: T, priority: T -> u8): seq<T> {
    if s == [] || priority(s[|s| - 1]) <= priority(x) then s + [x]
    else Insert(s[..|s| - 1], x, priority) + [s[|s| - 1]]
  }

  lemma {:induction false} InsertAscending<T>(s: seq<T>, x: T, priority: T -> u8)
    requires Ascending(s, priority)
    ensures Ascending(Insert(s, x, priority), priority)
    ensures forall y :: y in Insert(s, x, priority) ==> y in s || y == x
  {
    if s == [] || priority(s[|s| - 1]) <= priority(x) {
    } else {
      var n := |s| - 1;
      var inserted := Insert(s[..n], x, priority);
      InsertAscending(s[..n], x, priority);
      forall i | 0 <= i < |inserted| ensures priority(inserted[i]) <= priority(s[n]) {
        assert inserted[i] in inserted;
      }
    }
  }

  lemma OfPriorityAppend<T>(s: seq<T>, t: seq<T>, priority: T -> u8, p: u8)
    ensures OfPriority(s + t, priority, p) == OfPriority(s, priority, p) + OfPriority(t, priority, p)
  {
    FilterAppend(s, t, x => priority(x) == p);
  }

  lemma OfPriorityOne<T>(x: T, priority: T -> u8, p: u8)
    ensures OfPriority([x], priority, p) == if priority(x) == p then [x] else []
  {
    var has := y => priority(y) == p;
    assert has(x) <==> priority(x) == p;
    FilterCons(x, [], has);
    assert [x] + [] == [x];
  }

  lemma {:induction false} InsertOfPriority<T>(s: seq<T>, x: T, priority: T -> u8, p: u8)
    ensures OfPriority(Insert(s, x, priority), priority, p) == OfPriority(s + [x], priority, p)
  {
    OfPriorityAppend(s, [x], priority, p);
    if s == [] || priority(s[|s| - 1]) <= priority(x) {
    } else {
      var n := |s| - 1;
      InsertOfPriority(s[..n], x, priority, p);
      OfPriorityAppend(Insert(s[..n], x, priority), [s[n]], priority, p);
      OfPriorityAppend(s[..n], [x], priority, p);
      OfPriorityAppend(s[..n], [s[n]], priority, p);
      assert s == s[..n] + [s[n]];
      var front, x', last :=
        OfPriority(s[..n], priority, p), OfPriority([x], priority, p), OfPriority([s[n]], priority, p);
      ConcatAssociates(front, x', last);
      ConcatAssociates(front, last, x');
      OfPriorityOne(x, priority, p);
      OfPriorityOne(s[n], priority, p);
      assert x' + last == last + x';
    }
  }

  lemma InsertKeepsOrder<T>(loaded: seq<T>, ordered: seq<T>, x: T, priority: T -> u8)
    requires IsDispatchOrder(loaded, ordered, priority)
    ensures IsDispatchOrder(loaded + [x], Insert(ordered, x, priority), priority)
  {
    InsertAscending(ordered, x, priority);
    forall p: u8
      ensures OfPriority(Insert(ordered, x, priority), priority, p) == OfPriority(loaded + [x], priority, p)
    {
      InsertOfPriority(ordered, x, priority, p);
      OfPriorityAppend(ordered, [x], priority, p);
      OfPriorityAppend(loaded, [x], priority, p);
    }
  }

  // There is only one such order.
  lemma {:induction false} DispatchOrderUnique<T>(loaded: seq<T>, a: seq<T>, b: seq<T>, priority: T -> u8)
    requires IsDispatchOrder(loaded, a, priority) && IsDispatchOrder(loaded, b, priority)
    ensures a == b
  {
    SameBuckets(a, b, priority);
  }

  ghost predicate SameOfEachPriority<T>(a: seq<T>, b: seq<T>, priority: T -> u8) {
    forall p: u8 :: OfPriority(a, priority, p) == OfPriority(b, priority, p)
  }

  // The first element of an ascending sequence is the first of its own bucket.
  lemma HeadOfBucket<T>(a: seq<T>, b: seq<T>, priority: T -> u8)
    requires Ascending(b, priority) && SameOfEachPriority(a, b, priority)
    requires a != []
    ensures b != [] && priority(b[0]) <= priority(a[0])
  {
    var p := priority(a[0]);
    assert a[0] in OfPriority(a, priority, p) by {
      FilterMember(a, x => priority(x) == p, a[0]);
    }
    assert a[0] in OfPriority(b, priority, p);
    FilterMember(b, x => priority(x) == p, a[0]);
  }

  lemma {:induction false} SameBuckets<T>(a: seq<T>, b: seq<T>, priority: T -> u8)
    requires Ascending(a, priority) && Ascending(b, priority) && SameOfEachPriority(a, b, priority)
    ensures a == b
  {
    if a == [] {
      if b != [] {
        HeadOfBucket(b, a, priority);
      }
    } else {
      HeadOfBucket(a, b, priority);
      HeadOfBucket(b, a, priority);
      var p := priority(a[0]);
      assert OfPriority(a, priority, p)[0] == a[0] && OfPriority(b, priority, p)[0] == b[0];
      TailsSame(a, b, priority);
      SameBuckets(a[1..], b[1..], priority);
    }
  }

  lemma TailsSame<T>(a: seq<T>, b: seq<T>, priority: T -> u8)
    requires a != [] && b != [] && a[0] == b[0] && SameOfEachPriority(a, b, priority)
    ensures SameOfEachPriority(a[1..], b[1..], priority)
  {
    forall q: u8 ensures OfPriority(a[1..], priority, q) == OfPriority(b[1..], priority, q) {
      assert OfPriority(a, priority, q) == OfPriority(b, priority, q);
      BucketTail(a, priority, q);
      BucketTail(b, priority, q);
    }
  }

  lemma BucketTail<T>(a: seq<T>, priority: T -> u8, q: u8)
    requires a != []
    ensures OfPriority(a[1..], priority, q) ==
              if priority(a[0]) == q then OfPriority(a, priority, q)[1..] else OfPriority(a, priority, q)
    ensures priority(a[0]) == q ==> OfPriority(a, priority, q) != []
  {
  }

  // The order is a permutation: no module is lost, repeated or made up.
  lemma DispatchOrderPermutes<T>(loaded: seq<T>, ordered: seq<T>, priority: T -> u8)
    requires IsDispatchOrder(loaded, ordered, priority)
    ensures multiset(ordered) == multiset(loaded)
  {
    forall x ensures multiset(ordered)[x] == multiset(loaded)[x] {
      var p := priority(x);
      BucketCount(ordered, priority, x);
      BucketCount(loaded, priority, x);
      assert OfPriority(ordered, priority, p) == OfPriority(loaded, priority, p);
    }
  }

  lemma {:induction false} BucketCount<T>(s: seq<T>, priority: T -> u8, x: T)
    ensures multiset(OfPriority(s, priority, priority(x)))[x] == multiset(s)[x]
  {
    if s == [] {
    } else {
      assert s == [s[0]] + s[1..];
      OfPriorityAppend([s[0]], s[1..], priority, priority(x));
      BucketCount(s[1..], priority, x);
    }
  }

  function Collect<T>(modules: seq<Option<T>>): seq<T> {
    if modules == [] then []
    else
      var n := |modules| - 1;
      match modules[n]
      case None => Collect(modules[..n])
      case Some(m) => Collect(modules[..n]) + [m]
  }

  function Https(plugins: seq<LoadedModules>): seq<Option<HttpModule>> {
    seq(|plugins|, i requires 0 <= i < |plugins| => plugins[i].http)
  }

  function Tcps(plugins: seq<LoadedModules>): seq<Option<TcpModule>> {
    seq(|plugins|, i requires 0 <= i < |plugins| => plugins[i].tcp)
  }

  function Udps(plugins: seq<LoadedModules>): seq<Option<UdpModule>> {
    seq(|plugins|, i requires 0 <= i < |plugins| => plugins[i].udp)
  }

  function HttpPriority(m: HttpModule): u8 {
    m.priority
  }

  function TcpPriority(m: TcpModule): u8 {
    m.priority
  }

  function UdpPriority(m: UdpModule): u8 {
    m.priority
  }

  // -------------------------------------------------- the order, told by plugins and priorities

  // origin[i] is the plugin that http[i] comes from. Every plugin's module is there, once, by ascending priority;
  // of two modules with one priority, that of the plugin loaded first stands first.
  ghost predicate HttpInOrder(plugins: seq<LoadedModules>, http: seq<HttpModule>, origin: seq<nat>) {
    && |origin| == |http|
    && (forall i :: 0 <= i < |http| ==> origin[i] < |plugins| && plugins[origin[i]].http == Some(http[i]))
    && (forall k :: 0 <= k < |plugins| && plugins[k].http.Some? ==> k in origin)
    && (forall i, j :: 0 <= i < j < |http| ==>
          http[i].priority < http[j].priority || (http[i].priority == http[j].priority && origin[i] < origin[j]))
  }

  ghost predicate TcpInOrder(plugins: seq<LoadedModules>, tcp: seq<TcpModule>, origin: seq<nat>) {
    && |origin| == |tcp|
    && (forall i :: 0 <= i < |tcp| ==> origin[i] < |plugins| && plugins[origin[i]].tcp == Some(tcp[i]))
    && (forall k :: 0 <= k < |plugins| && plugins[k].tcp.Some? ==> k in origin)
    && (forall i, j :: 0 <= i < j < |tcp| ==>
          tcp[i].priority < tcp[j].priority || (tcp[i].priority == tcp[j].priority && origin[i] < origin[j]))
  }

  ghost predicate UdpInOrder(plugins: seq<LoadedModules>, udp: seq<UdpModule>, origin: seq<nat>) {
    && |origin| == |udp|
    && (forall i :: 0 <= i < |udp| ==> origin[i] < |plugins| && plugins[origin[i]].udp == Some(udp[i]))
    && (forall k :: 0 <= k < |plugins| && plugins[k].udp.Some? ==> k in origin)
    && (forall i, j :: 0 <= i < j < |udp| ==>
          udp[i].priority < udp[j].priority || (udp[i].priority == udp[j].priority && origin[i] < origin[j]))
  }

  // The same for any kind of module.
  ghost predicate InOrder<T(!new)>(loaded: seq<Option<T>>, ordered: seq<T>, priority: T -> u8, origin: seq<nat>) {
    && |origin| == |ordered|
    && (forall i :: 0 <= i < |ordered| ==> origin[i] < |loaded| && loaded[origin[i]] == Some(ordered[i]))
    && (forall k :: 0 <= k < |loaded| && loaded[k].Some? ==> k in origin)
    && Lexicographic(ordered, priority, origin)
  }

  ghost predicate Lexicographic<T(!new)>(ordered: seq<T>, priority: T -> u8, origin: seq<nat>)
    requires |origin| == |ordered|
  {
    forall i, j :: 0 <= i < j < |ordered| ==>
      || priority(ordered[i]) < priority(ordered[j])
      || (priority(ordered[i]) == priority(ordered[j]) && origin[i] < origin[j])
  }

  ghost predicate Comes<T(!new)>(y: T, from: nat, ordered: seq<T>, origin: seq<nat>)
    requires |origin| == |ordered|
  {
    exists j :: 0 <= j < |ordered| && ordered[j] == y && origin[j] == from
  }

  // Inserting the module of a plugin loaded after all others.
  lemma {:induction false} InsertInOrder<T(!new)>(ordered: seq<T>, priority: T -> u8, origin: seq<nat>, x: T, k: nat)
    returns (inserted: seq<nat>)
    requires |origin| == |ordered| && Lexicographic(ordered, priority, origin)
    requires forall i :: 0 <= i < |origin| ==> origin[i] < k
    ensures |inserted| == |Insert(ordered, x, priority)| == |ordered| + 1
    ensures Lexicographic(Insert(ordered, x, priority), priority, inserted)
    ensures forall i :: 0 <= i < |inserted| ==>
              || (inserted[i] == k && Insert(ordered, x, priority)[i] == x)
              || Comes(Insert(ordered, x, priority)[i], inserted[i], ordered, origin)
    ensures forall o :: o in inserted <==> o in origin || o == k
  {
    if ordered == [] || priority(ordered[|ordered| - 1]) <= priority(x) {
      inserted := origin + [k];
    } else {
      var n := |ordered| - 1;
      var front := InsertInOrder(ordered[..n], priority, origin[..n], x, k);
      inserted := front + [origin[n]];
      assert origin == origin[..n] + [origin[n]];
      var all := Insert(ordered, x, priority);
      assert Comes(all[n + 1], inserted[n + 1], ordered, origin);
      forall i | 0 <= i < n + 1 && Comes(all[i], front[i], ordered[..n], origin[..n])
        ensures Comes(all[i], inserted[i], ordered, origin)
      {
        var j :| 0 <= j < n && ordered[..n][j] == all[i] && origin[..n][j] == front[i];
        assert ordered[j] == all[i] && origin[j] == inserted[i];
      }
    }
  }

  lemma {:induction false} SortInOrder<T(!new)>(loaded: seq<Option<T>>, priority: T -> u8) returns (origin: seq<nat>)
    ensures InOrder(loaded, SortByPriority(Collect(loaded), priority), priority, origin)
  {
    if loaded == [] {
      origin := [];
    } else {
      var n := |loaded| - 1;
      var before := SortInOrder(loaded[..n], priority);
      var ordered := SortByPriority(Collect(loaded[..n]), priority);
      match loaded[n]
      case None =>
        origin := before;
      case Some(x) =>
        var all := Collect(loaded[..n]) + [x];
        assert all[..|all| - 1] == Collect(loaded[..n]);
        origin := InsertInOrder(ordered, priority, before, x, n);
    }
  }

  // Every dispatch order is of this form.
  lemma DispatchInOrder<T(!new)>(loaded: seq<Option<T>>, ordered: seq<T>, priority: T -> u8)
    returns (origin: seq<nat>)
    requires IsDispatchOrder(Collect(loaded), ordered, priority)
    ensures InOrder(loaded, ordered, priority, origin)
  {
    origin := SortInOrder(loaded, priority);
    DispatchOrderUnique(Collect(loaded), ordered, SortByPriority(Collect(loaded), priority), priority);
  }

  lemma HttpDispatchInOrder(plugins: seq<LoadedModules>, http: seq<HttpModule>) returns (origin: seq<nat>)
    requires IsDispatchOrder(Collect(Https(plugins)), http, HttpPriority)
    ensures HttpInOrder(plugins, http, origin)
  {
    origin := DispatchInOrder(Https(plugins), http, HttpPriority);
    assert forall k :: 0 <= k < |plugins| ==> Https(plugins)[k] == plugins[k].http;
  }

  lemma TcpDispatchInOrder(plugins: seq<LoadedModules>, tcp: seq<TcpModule>) returns (origin: seq<nat>)
    requires IsDispatchOrder(Collect(Tcps(plugins)), tcp, TcpPriority)
    ensures TcpInOrder(plugins, tcp, origin)
  {
    origin := DispatchInOrder(Tcps(plugins), tcp, TcpPriority);
    assert forall k :: 0 <= k < |plugins| ==> Tcps(plugins)[k] == plugins[k].tcp;
  }

  lemma UdpDispatchInOrder(plugins: seq<LoadedModules>, udp: seq<UdpModule>) returns (origin: seq<nat>)
    requires IsDispatchOrder(Collect(Udps(plugins)), udp, UdpPriority)
    ensures UdpInOrder(plugins, udp, origin)
  {
    origin := DispatchInOrder(Udps(plugins), udp, UdpPriority);
    assert forall k :: 0 <= k < |plugins| ==> Udps(plugins)[k] == plugins[k].udp;
  }

  // The modules the plugins bring, protocol by protocol, each in dispatch order.
  method FromLoaded(plugins: seq<LoadedModules>)
    returns (http: seq<HttpModule>, tcp: seq<TcpModule>, udp: seq<UdpModule>)
    ensures IsDispatchOrder(Collect(Https(plugins)), http, HttpPriority)
    ensures IsDispatchOrder(Collect(Tcps(plugins)), tcp, TcpPriority)
    ensures IsDispatchOrder(Collect(Udps(plugins)), udp, UdpPriority)
    ensures exists origin :: HttpInOrder(plugins, http, origin)
    ensures exists origin :: TcpInOrder(plugins, tcp, origin)
    ensures exists origin :: UdpInOrder(plugins, udp, origin)
  {
    http, tcp, udp := [], [], [];
    for i := 0 to |plugins|
      invariant http == Collect(Https(plugins)[..i])
      invariant tcp == Collect(Tcps(plugins)[..i])
      invariant udp == Collect(Udps(plugins)[..i])
    {
      var p := plugins[i];
      assert Https(plugins)[..i + 1][..i] == Https(plugins)[..i];
      assert Tcps(plugins)[..i + 1][..i] == Tcps(plugins)[..i];
      assert Udps(plugins)[..i + 1][..i] == Udps(plugins)[..i];
      if p.http.Some? {
        http := http + [p.http.value];
      }
      if p.tcp.Some? {
        tcp := tcp + [p.tcp.value];
      }
      if p.udp.Some? {
        udp := udp + [p.udp.value];
      }
    }
    assert Https(plugins)[..|plugins|] == Https(plugins);
    assert Tcps(plugins)[..|plugins|] == Tcps(plugins);
    assert Udps(plugins)[..|plugins|] == Udps(plugins);
    http := SortByPriority(http, HttpPriority);
    tcp := SortByPriority(tcp, TcpPriority);
    udp := SortByPriority(udp, UdpPriority);
    var ofHttp := HttpDispatchInOrder(plugins, http);
    var ofTcp := TcpDispatchInOrder(plugins, tcp);
    var ofUdp := UdpDispatchInOrder(plugins, udp);
  }
}
