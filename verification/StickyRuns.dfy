/** What the sticky cache holds after a run of calls, in the order the calls took the lock. */
module StickyRuns {
  import opened Prelude
  import opened StickyBalancer

  datatype Call = Call(key: StickyKey, now: nat)

  // The cache after the calls, starting empty.
  function RunCalls(setup: Setup, calls: seq<Call>): Assignments {
    if calls == [] then map[]
    else
      var c := calls[|calls| - 1];
      AfterCall(setup, RunCalls(setup, calls[..|calls| - 1]), c.key, c.now)
  }

  lemma {:induction false} RunIsFaithful(setup: Setup, calls: seq<Call>)
    ensures setup.Faithful(RunCalls(setup, calls))
  {
    if calls == [] {
    } else {
      RunIsFaithful(setup, calls[..|calls| - 1]);
    }
  }

  // ------------------------------------------------- one key, any clock order

  // When the entry held for key was inserted, if one is held: it is swept by the first reading, of any call,
  // that reaches its expiry.
  function HeldSince(setup: Setup, calls: seq<Call>, key: StickyKey): Option<nat> {
    if calls == [] then None
    else
      var c := calls[|calls| - 1];
      var held := HeldSince(setup, calls[..|calls| - 1], key);
      if !setup.Served(c.key) then held
      else if held.Some? && c.now < held.value + setup.config.ttl then held
      else if c.key == key then Some(c.now)
      else None
  }

  lemma {:induction false} CacheHolds(setup: Setup, calls: seq<Call>, key: StickyKey)
    ensures key in RunCalls(setup, calls) <==> HeldSince(setup, calls, key).Some?
    ensures key in RunCalls(setup, calls) ==>
              && setup.Served(key)
              && RunCalls(setup, calls)[key]
                 == StickyEntry(setup.Choice(key), HeldSince(setup, calls, key).value + setup.config.ttl)
  {
    if calls == [] {
    } else {
      CacheHolds(setup, calls[..|calls| - 1], key);
    }
  }

  // Call i inserted an entry for key at time t that every later call's reading spared.
  ghost predicate InsertedBy(setup: Setup, calls: seq<Call>, key: StickyKey, t: nat, i: int) {
    && 0 <= i < |calls|
    && setup.Served(key)
    && calls[i] == Call(key, t)
    && (forall j :: i < j < |calls| && setup.Served(calls[j].key) ==> calls[j].now < t + setup.config.ttl)
  }

  lemma {:induction false} HeldWasInserted(setup: Setup, calls: seq<Call>, key: StickyKey) returns (i: nat)
    requires HeldSince(setup, calls, key).Some?
    ensures InsertedBy(setup, calls, key, HeldSince(setup, calls, key).value, i)
  {
    var n := |calls| - 1;
    var c := calls[n];
    var before := calls[..n];
    var held := HeldSince(setup, before, key);
    if held.Some? && (!setup.Served(c.key) || c.now < held.value + setup.config.ttl) {
      i := HeldWasInserted(setup, before, key);
      assert forall j :: i < j < n ==> calls[j] == before[j];
    } else {
      i := n;
    }
  }

  // The last reading that swept the cache, 0 before any.
  function LastSweep(setup: Setup, calls: seq<Call>): nat {
    if calls == [] then 0
    else
      var c := calls[|calls| - 1];
      if setup.Served(c.key) then c.now else LastSweep(setup, calls[..|calls| - 1])
  }

  lemma {:induction false} SweptSince(setup: Setup, calls: seq<Call>, i: nat) returns (j: nat)
    requires i < |calls| && setup.Served(calls[i].key)
    ensures i <= j < |calls| && setup.Served(calls[j].key) && LastSweep(setup, calls) == calls[j].now
  {
    var n := |calls| - 1;
    if setup.Served(calls[n].key) {
      j := n;
    } else {
      j := SweptSince(setup, calls[..n], i);
    }
  }

  // Every entry outlives the last sweep, and was inserted by a call less than the ttl before it.
  lemma {:induction false} EntriesOutliveSweep(setup: Setup, calls: seq<Call>, key: StickyKey) returns (i: nat)
    requires key in RunCalls(setup, calls)
    ensures
      var swept, e := LastSweep(setup, calls), RunCalls(setup, calls)[key];
      && e.expiresAt > swept
      && i < |calls| && calls[i].key == key
      && e.expiresAt == calls[i].now + setup.config.ttl
      && calls[i].now + setup.config.ttl > swept
  {
    CacheHolds(setup, calls, key);
    i := HeldWasInserted(setup, calls, key);
    var j := SweptSince(setup, calls, i);
  }

  // After a served call at time now every entry outlives now, and was inserted by a call later than now - ttl.
  lemma {:induction false} EntriesAreRecent(setup: Setup, calls: seq<Call>, key: StickyKey) returns (i: nat)
    requires calls != [] && setup.Served(calls[|calls| - 1].key)
    requires key in RunCalls(setup, calls)
    ensures
      var now, e := calls[|calls| - 1].now, RunCalls(setup, calls)[key];
      && e.expiresAt > now
      && i < |calls| && calls[i].key == key
      && e.expiresAt == calls[i].now + setup.config.ttl
      && calls[i].now + setup.config.ttl > now
  {
    i := EntriesOutliveSweep(setup, calls, key);
  }

  function RecentKeys(setup: Setup, calls: seq<Call>, now: nat): set<StickyKey> {
    set i | 0 <= i < |calls| && calls[i].now + setup.config.ttl > now :: calls[i].key
  }

  lemma SubsetSize<T>(a: set<T>, b: set<T>)
    requires a <= b
    ensures |a| <= |b|
  {
    assert b == a + (b - a);
  }

  // The cache is no larger than the number of distinct keys requested within a ttl of the last sweep.
  lemma SizeBound(setup: Setup, calls: seq<Call>)
    ensures |RunCalls(setup, calls)| <= |RecentKeys(setup, calls, LastSweep(setup, calls))|
    ensures calls != [] && setup.Served(calls[|calls| - 1].key) ==>
              LastSweep(setup, calls) == calls[|calls| - 1].now
  {
    var m, recent := RunCalls(setup, calls), RecentKeys(setup, calls, LastSweep(setup, calls));
    forall key | key in m ensures key in recent {
      var i := EntriesOutliveSweep(setup, calls, key);
      assert calls[i].key in recent;
    }
    SubsetSize(m.Keys, recent);
    assert |m| == |m.Keys|;
  }

  // ------------------------------------------- one key, against greedy renewal

  // The clock readings of key's own requests.
  function OwnTimes(calls: seq<Call>, key: StickyKey): seq<nat> {
    if calls == [] then []
    else
      var c := calls[|calls| - 1];
      var own := OwnTimes(calls[..|calls| - 1], key);
      if c.key == key then own + [c.now] else own
  }

  // Greedy renewal: renew at the first request at or after the last renewal + ttl; a hit never extends.
  function LastRenewal(times: seq<nat>, ttl: nat): Option<nat> {
    if times == [] then None
    else
      var last := LastRenewal(times[..|times| - 1], ttl);
      var now := times[|times| - 1];
      if last.Some? && now < last.value + ttl then last else Some(now)
  }

  function Renewal(setup: Setup, calls: seq<Call>, key: StickyKey): Option<nat> {
    LastRenewal(OwnTimes(calls, key), setup.config.ttl)
  }

  // Whether greedy renewal answers c, made after the calls in before, without renewing.
  predicate GreedyHit(setup: Setup, before: seq<Call>, c: Call) {
    var last := Renewal(setup, before, c.key);
    setup.Served(c.key) && last.Some? && c.now < last.value + setup.config.ttl
  }

  // Whether the cache does.
  predicate Hit(setup: Setup, before: seq<Call>, c: Call) {
    c.key in Retain(RunCalls(setup, before), c.now)
  }

  // The largest reading that swept the cache since key's last greedy renewal, that renewal's included.
  function SweptTo(setup: Setup, calls: seq<Call>, key: StickyKey): nat {
    if calls == [] then 0
    else
      var before, c := calls[..|calls| - 1], calls[|calls| - 1];
      var swept := SweptTo(setup, before, key);
      if !setup.Served(c.key) then swept
      else if c.key == key && !GreedyHit(setup, before, c) then c.now
      else if swept < c.now then c.now
      else swept
  }

  // c is a request for key that comes before its entry is due for renewal by c's own clock reading,
  // and after a call whose reading was already past it.
  predicate Overtaken(setup: Setup, before: seq<Call>, c: Call, key: StickyKey) {
    c.key == key && GreedyHit(setup, before, c) &&
    Renewal(setup, before, key).value + setup.config.ttl <= SweptTo(setup, before, key)
  }

  ghost predicate NeverOvertaken(setup: Setup, calls: seq<Call>, key: StickyKey) {
    forall n :: 0 <= n < |calls| ==> !Overtaken(setup, calls[..n], calls[n], key)
  }

  // What the cache should hold for key: its last greedy renewal, until a reading reaches the expiry.
  function Expected(setup: Setup, calls: seq<Call>, key: StickyKey): Option<StickyEntry> {
    if !setup.Served(key) then None
    else
      match Renewal(setup, calls, key)
      case None => None
      case Some(t) =>
        if t + setup.config.ttl > SweptTo(setup, calls, key) then
          Some(StickyEntry(setup.Choice(key), t + setup.config.ttl))
        else None
  }

  function Lookup(m: Assignments, key: StickyKey): Option<StickyEntry> {
    if key in m then Some(m[key]) else None
  }

  // Every request for key hits the cache exactly when greedy renewal of key's own requests says so.
  ghost predicate HitsGreedily(setup: Setup, calls: seq<Call>, key: StickyKey) {
    forall n :: 0 <= n < |calls| && calls[n].key == key ==>
      (Hit(setup, calls[..n], calls[n]) <==> GreedyHit(setup, calls[..n], calls[n]))
  }

  // After every call the cache holds for key what greedy renewal says.
  ghost predicate HoldsGreedily(setup: Setup, calls: seq<Call>, key: StickyKey) {
    forall n :: 0 <= n <= |calls| ==>
      Lookup(RunCalls(setup, calls[..n]), key) == Expected(setup, calls[..n], key)
  }

  lemma OwnTimesSnoc(before: seq<Call>, c: Call, key: StickyKey)
    ensures OwnTimes(before + [c], key) ==
              if c.key == key then OwnTimes(before, key) + [c.now] else OwnTimes(before, key)
  {
    assert (before + [c])[..|before|] == before;
  }

  lemma LastRenewalSnoc(times: seq<nat>, now: nat, ttl: nat)
    ensures
      var last := LastRenewal(times, ttl);
      LastRenewal(times + [now], ttl) == if last.Some? && now < last.value + ttl then last else Some(now)
  {
    assert (times + [now])[..|times|] == times;
  }

  lemma RenewalSnoc(setup: Setup, before: seq<Call>, c: Call, key: StickyKey)
    requires setup.Served(key)
    ensures Renewal(setup, before + [c], key) ==
              if c.key == key && !GreedyHit(setup, before, c) then Some(c.now) else Renewal(setup, before, key)
  {
    OwnTimesSnoc(before, c, key);
    if c.key == key {
      LastRenewalSnoc(OwnTimes(before, key), c.now, setup.config.ttl);
    }
  }

  lemma NeverOvertakenBefore(setup: Setup, calls: seq<Call>, key: StickyKey, n: nat)
    requires NeverOvertaken(setup, calls, key) && n <= |calls|
    ensures NeverOvertaken(setup, calls[..n], key)
  {
    forall i | 0 <= i < n ensures !Overtaken(setup, calls[..n][..i], calls[..n][i], key) {
      assert calls[..n][..i] == calls[..i];
    }
  }

  // Unless overtaken, an entry is held since the last greedy renewal, until a reading reaches its expiry.
  lemma {:induction false} HeldIsGreedy(setup: Setup, calls: seq<Call>, key: StickyKey)
    requires NeverOvertaken(setup, calls, key) && setup.Served(key)
    ensures
      var last := Renewal(setup, calls, key);
      HeldSince(setup, calls, key) ==
        if last.Some? && last.value + setup.config.ttl > SweptTo(setup, calls, key) then last else None
  {
    if calls == [] {
    } else {
      var n := |calls| - 1;
      var before, c := calls[..n], calls[n];
      assert calls == before + [c];
      NeverOvertakenBefore(setup, calls, key, n);
      HeldIsGreedy(setup, before, key);
      RenewalSnoc(setup, before, c, key);
      assert !Overtaken(setup, before, c, key);
    }
  }

  // Before a request for key, the cache holds for it what greedy renewal says; then so does its answer.
  lemma HitIsGreedy(setup: Setup, before: seq<Call>, c: Call)
    requires NeverOvertaken(setup, before, c.key)
    ensures Hit(setup, before, c) <==> GreedyHit(setup, before, c) && !Overtaken(setup, before, c, c.key)
    ensures Lookup(RunCalls(setup, before), c.key) == Expected(setup, before, c.key)
  {
    CacheHolds(setup, before, c.key);
    if setup.Served(c.key) {
      HeldIsGreedy(setup, before, c.key);
    }
  }

  // The first overtaken request misses the cache where greedy renewal hits, and renews the entry.
  lemma OvertakenMisses(setup: Setup, calls: seq<Call>, key: StickyKey, n: nat)
    requires n < |calls| && NeverOvertaken(setup, calls[..n], key) && Overtaken(setup, calls[..n], calls[n], key)
    ensures !Hit(setup, calls[..n], calls[n]) && GreedyHit(setup, calls[..n], calls[n])
    ensures Lookup(RunCalls(setup, calls[..n + 1]), key) != Expected(setup, calls[..n + 1], key)
  {
    var before, c := calls[..n], calls[n];
    HitIsGreedy(setup, before, c);
    assert calls[..n + 1] == before + [c] && (before + [c])[..n] == before;
    RenewalSnoc(setup, before, c, key);
    assert key in RunCalls(setup, before + [c]);
  }

  lemma {:induction false} FirstOvertaken(setup: Setup, calls: seq<Call>, key: StickyKey) returns (n: nat)
    requires !NeverOvertaken(setup, calls, key)
    ensures n < |calls| && NeverOvertaken(setup, calls[..n], key) && Overtaken(setup, calls[..n], calls[n], key)
  {
    var last := |calls| - 1;
    if NeverOvertaken(setup, calls[..last], key) {
      n := last;
      forall i | 0 <= i < last ensures !Overtaken(setup, calls[..i], calls[i], key) {
        assert calls[..last][..i] == calls[..i];
      }
    } else {
      n := FirstOvertaken(setup, calls[..last], key);
      assert calls[..last][..n] == calls[..n];
    }
  }

  // The cache renews greedily, key by key, exactly when no request for the key is overtaken: whatever the order
  // of the readings, only then do the sweeps that other keys' requests make show.
  lemma {:induction false} GreedyIffNeverOvertaken(setup: Setup, calls: seq<Call>, key: StickyKey)
    ensures HitsGreedily(setup, calls, key) <==> NeverOvertaken(setup, calls, key)
    ensures HoldsGreedily(setup, calls, key) <==> NeverOvertaken(setup, calls, key)
  {
    if NeverOvertaken(setup, calls, key) {
      forall n | 0 <= n <= |calls|
        ensures Lookup(RunCalls(setup, calls[..n]), key) == Expected(setup, calls[..n], key)
        ensures n < |calls| && calls[n].key == key ==>
                  (Hit(setup, calls[..n], calls[n]) <==> GreedyHit(setup, calls[..n], calls[n]))
      {
        NeverOvertakenBefore(setup, calls, key, n);
        HitIsGreedy(setup, calls[..n], if n < |calls| && calls[n].key == key then calls[n] else Call(key, 0));
      }
    } else {
      var n := FirstOvertaken(setup, calls, key);
      OvertakenMisses(setup, calls, key, n);
    }
  }

  // Setups with one ttl that serve the same keys, whatever their backends and hashers.
  ghost predicate AlikeForSchedules(a: Setup, b: Setup) {
    a.config.ttl == b.config.ttl && forall key :: a.Served(key) <==> b.Served(key)
  }

  lemma {:induction false} SweptToAlike(a: Setup, b: Setup, calls: seq<Call>, key: StickyKey)
    requires AlikeForSchedules(a, b)
    ensures SweptTo(a, calls, key) == SweptTo(b, calls, key)
  {
    if calls == [] {
    } else {
      SweptToAlike(a, b, calls[..|calls| - 1], key);
    }
  }

  // Being overtaken is a matter of the keys and readings: neither backends nor hasher nor cache enter into it.
  lemma NeverOvertakenAlike(a: Setup, b: Setup, calls: seq<Call>, key: StickyKey)
    requires AlikeForSchedules(a, b)
    ensures NeverOvertaken(a, calls, key) <==> NeverOvertaken(b, calls, key)
  {
    forall n | 0 <= n < |calls|
      ensures Overtaken(a, calls[..n], calls[n], key) <==> Overtaken(b, calls[..n], calls[n], key)
    {
      SweptToAlike(a, b, calls[..n], key);
    }
  }

  // ------------------------------------------- clock in lock order

  // The calls that reach the cache took the lock in the order of their readings; refused calls read no clock.
  ghost predicate ClockInOrder(setup: Setup, calls: seq<Call>) {
    forall i, j :: 0 <= i < j < |calls| && setup.Served(calls[i].key) && setup.Served(calls[j].key) ==>
      calls[i].now <= calls[j].now
  }

  lemma {:induction false} LastSweepBounded(setup: Setup, calls: seq<Call>, now: nat)
    requires forall i :: 0 <= i < |calls| && setup.Served(calls[i].key) ==> calls[i].now <= now
    ensures LastSweep(setup, calls) <= now
  {
    if calls == [] {
    } else {
      LastSweepBounded(setup, calls[..|calls| - 1], now);
    }
  }

  lemma {:induction false} SweptToInOrder(setup: Setup, calls: seq<Call>, key: StickyKey)
    requires ClockInOrder(setup, calls)
    ensures SweptTo(setup, calls, key) == LastSweep(setup, calls)
  {
    if calls == [] {
    } else {
      var n := |calls| - 1;
      SweptToInOrder(setup, calls[..n], key);
      if setup.Served(calls[n].key) {
        LastSweepBounded(setup, calls[..n], calls[n].now);
      }
    }
  }

  lemma InOrderNeverOvertaken(setup: Setup, calls: seq<Call>, key: StickyKey)
    requires ClockInOrder(setup, calls)
    ensures NeverOvertaken(setup, calls, key)
  {
    forall n | 0 <= n < |calls| ensures !Overtaken(setup, calls[..n], calls[n], key) {
      SweptToInOrder(setup, calls[..n], key);
      if setup.Served(calls[n].key) {
        LastSweepBounded(setup, calls[..n], calls[n].now);
      }
    }
  }

  // With the clock in lock order, the sweep of the whole map is invisible: each key's entry
  // is the greedy renewal of that key's own requests, until the last sweep reached its expiry.
  lemma {:induction false} CacheIsGreedyRenewal(setup: Setup, calls: seq<Call>, key: StickyKey)
    requires ClockInOrder(setup, calls)
    ensures HitsGreedily(setup, calls, key) && HoldsGreedily(setup, calls, key)
    ensures Lookup(RunCalls(setup, calls), key) == Expected(setup, calls, key)
    ensures SweptTo(setup, calls, key) == LastSweep(setup, calls)
  {
    InOrderNeverOvertaken(setup, calls, key);
    GreedyIffNeverOvertaken(setup, calls, key);
    SweptToInOrder(setup, calls, key);
    assert calls[..|calls|] == calls;
  }

  // ------------------------------------------- one key, on its own

  function Only(calls: seq<Call>, key: StickyKey): seq<Call> {
    Filter(calls, (c: Call) => c.key == key)
  }

  lemma OnlySnoc(before: seq<Call>, c: Call, key: StickyKey)
    ensures Only(before + [c], key) == if c.key == key then Only(before, key) + [c] else Only(before, key)
  {
    FilterInsert(before, c, [], (d: Call) => d.key == key);
    assert [c] + [] == [c] && before + [] == before;
  }

  lemma {:induction false} OnlyOwnTimes(calls: seq<Call>, key: StickyKey)
    ensures OwnTimes(Only(calls, key), key) == OwnTimes(calls, key)
  {
    if calls == [] {
    } else {
      var n := |calls| - 1;
      var before, c := calls[..n], calls[n];
      assert calls == before + [c];
      OnlyOwnTimes(before, key);
      OnlySnoc(before, c, key);
      OwnTimesSnoc(before, c, key);
      if c.key == key {
        OwnTimesSnoc(Only(before, key), c, key);
      }
    }
  }

  lemma OnlyMembers(calls: seq<Call>, key: StickyKey)
    ensures forall i :: 0 <= i < |Only(calls, key)| ==> Only(calls, key)[i].key == key
  {
    var own := Only(calls, key);
    forall i | 0 <= i < |own| ensures own[i].key == key {
      assert own[i] in own;
      FilterMember(calls, (c: Call) => c.key == key, own[i]);
    }
  }

  // A key's own readings never sweep past its last greedy renewal.
  lemma {:induction false} OwnSweeps(setup: Setup, own: seq<Call>, key: StickyKey)
    requires own != [] && setup.Served(key) && forall i :: 0 <= i < |own| ==> own[i].key == key
    ensures
      var last := Renewal(setup, own, key);
      last.Some? && SweptTo(setup, own, key) < last.value + setup.config.ttl
  {
    var n := |own| - 1;
    assert own == own[..n] + [own[n]];
    RenewalSnoc(setup, own[..n], own[n], key);
    if n == 0 {
      assert !GreedyHit(setup, own[..n], own[n]);
    } else {
      OwnSweeps(setup, own[..n], key);
    }
  }

  lemma OwnNeverOvertaken(setup: Setup, own: seq<Call>, key: StickyKey)
    requires forall i :: 0 <= i < |own| ==> own[i].key == key
    ensures NeverOvertaken(setup, own, key)
  {
    forall n | 0 <= n < |own| ensures !Overtaken(setup, own[..n], own[n], key) {
      if n == 0 {
        assert own[..n] == [];
      } else if setup.Served(key) {
        OwnSweeps(setup, own[..n], key);
      }
    }
  }

  // Alone, a key's requests always see greedy renewal, in whatever order its readings come.
  lemma AloneIsGreedy(setup: Setup, before: seq<Call>, c: Call)
    ensures Hit(setup, Only(before, c.key), c) <==> GreedyHit(setup, before, c)
  {
    var own := Only(before, c.key);
    OnlyMembers(before, c.key);
    OnlyOwnTimes(before, c.key);
    OwnNeverOvertaken(setup, own, c.key);
    HitIsGreedy(setup, own, c);
    OwnNeverOvertaken(setup, own + [c], c.key);
    assert (own + [c])[..|own|] == own && (own + [c])[|own|] == c;
  }

  // Every request for key hits exactly when it would have had no other key ever been requested.
  ghost predicate OthersInvisible(setup: Setup, calls: seq<Call>, key: StickyKey) {
    forall n :: 0 <= n < |calls| && calls[n].key == key ==>
      (Hit(setup, calls[..n], calls[n]) <==> Hit(setup, Only(calls[..n], key), calls[n]))
  }

  // Other keys' requests make themselves felt exactly when they overtake one of key's.
  lemma {:induction false} OthersInvisibleIffNeverOvertaken(setup: Setup, calls: seq<Call>, key: StickyKey)
    ensures OthersInvisible(setup, calls, key) <==> NeverOvertaken(setup, calls, key)
  {
    GreedyIffNeverOvertaken(setup, calls, key);
    forall n | 0 <= n < |calls| && calls[n].key == key
      ensures Hit(setup, Only(calls[..n], key), calls[n]) <==> GreedyHit(setup, calls[..n], calls[n])
    {
      AloneIsGreedy(setup, calls[..n], calls[n]);
    }
  }

  // Then a request leaves for its key the entry it would leave had no other key ever been requested.
  lemma OtherKeysDoNotMatter(setup: Setup, calls: seq<Call>)
    requires calls != [] && NeverOvertaken(setup, calls, calls[|calls| - 1].key)
    ensures
      var key := calls[|calls| - 1].key;
      Lookup(RunCalls(setup, calls), key) == Lookup(RunCalls(setup, Only(calls, key)), key)
  {
    var n := |calls| - 1;
    var before, c := calls[..n], calls[n];
    var own := Only(calls, c.key);
    assert calls == before + [c];
    HitIsGreedy(setup, calls, c);
    OnlyMembers(calls, c.key);
    OwnNeverOvertaken(setup, own, c.key);
    HitIsGreedy(setup, own, c);
    if setup.Served(c.key) {
      OnlySnoc(before, c, c.key);
      OwnSweeps(setup, own, c.key);
      JustRequested(setup, before, c);
      assert Renewal(setup, own, c.key) == Renewal(setup, calls, c.key) by {
        OnlyOwnTimes(calls, c.key);
      }
    }
  }

  // Right after its own request, a key that was not overtaken has not been swept.
  lemma JustRequested(setup: Setup, before: seq<Call>, c: Call)
    requires setup.Served(c.key) && !Overtaken(setup, before, c, c.key)
    ensures
      var last := Renewal(setup, before + [c], c.key);
      last.Some? && SweptTo(setup, before + [c], c.key) < last.value + setup.config.ttl
  {
    assert (before + [c])[..|before|] == before;
    RenewalSnoc(setup, before, c, c.key);
  }

  // ---------------------------------------------- an overtaken request

  // For every ttl that leaves room for one: a reading of b at the expiry sweeps a's entry, so that a's request
  // with the earlier reading 1 misses, although its last renewal at 0 is not yet due.
  lemma OutOfOrderRenewsEarly(setup: Setup, a: StickyKey, b: StickyKey)
    requires a != b && setup.Served(a) && setup.Served(b) && setup.config.ttl >= 2
    ensures
      var ttl := setup.config.ttl;
      var before, c := [Call(a, 0), Call(b, ttl)], Call(a, 1);
      && Overtaken(setup, before, c, a)
      && !Hit(setup, before, c) && GreedyHit(setup, before, c)
      && Lookup(RunCalls(setup, before + [c]), a) == Some(StickyEntry(setup.Choice(a), 1 + ttl))
  {
    var ttl := setup.config.ttl;
    var one, two, c := [Call(a, 0)], [Call(a, 0), Call(b, ttl)], Call(a, 1);
    assert one == [] + [Call(a, 0)] && two == one + [Call(b, ttl)];
    assert one[..0] == [] && two[..1] == one && (two + [c])[..2] == two;
    RenewalSnoc(setup, [], Call(a, 0), a);
    RenewalSnoc(setup, one, Call(b, ttl), a);
    assert SweptTo(setup, one, a) == 0;
    CacheHolds(setup, two + [c], a);
    CacheHolds(setup, two, a);
    assert HeldSince(setup, one, a) == Some(0);
    assert HeldSince(setup, two, a) == None;
  }
}
