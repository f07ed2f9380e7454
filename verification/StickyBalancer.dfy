/** The sticky assignment cache: a map with expiry in front of a deterministic choice. */
module StickyBalancer {
  import opened Prelude
  import opened StickyConfig

  datatype IpAddr = V4(octets: seq<byte>) | V6(octets: seq<byte>)

  // The parts of the platform the choice rests on: the bytes of a string, and the 64-bit Xxh3 digest.
  datatype Hasher = Hasher(utf8: string -> seq<byte>, digest: seq<byte> -> u64)

  datatype StickyKey = StickyKey(listener: string, clientIp: IpAddr)

  // Instants are nanoseconds on the monotonic clock.
  datatype StickyEntry = StickyEntry(backend: string, expiresAt: nat)

  type Assignments = map<StickyKey, StickyEntry>

  datatype SelectError = NoBackends(listener: string)

  // What a balancer is built from.
  datatype Setup = Setup(config: LoadedConfig, hasher: Hasher)
  {
    function Pool(key: StickyKey): seq<string> {
      config.PoolForListener(key.listener)
    }

    predicate Served(key: StickyKey) {
      Pool(key) != []
    }

    // The plain choice that the cache stands in front of.
    function Choice(key: StickyKey): (backend: string)
      requires Served(key)
      ensures backend in Pool(key)
    {
      ChooseBackend(hasher, key.listener, key.clientIp, Pool(key))
    }

    // Every stored backend is the plain choice for its key.
    ghost predicate Faithful(m: Assignments) {
      forall key :: key in m ==> Served(key) && m[key].backend == Choice(key)
    }
  }

  function ChooseBackend(hasher: Hasher, listener: string, clientIp: IpAddr, pool: seq<string>): (backend: string)
    requires pool != []
    ensures backend in pool
  {
    pool[hasher.digest(hasher.utf8(listener) + clientIp.octets) % |pool|]
  }

  // The digest of the listener's bytes followed by the address's, reduced by the size of the pool, is the position.
  lemma ChoiceByDigest(hasher: Hasher, listener: string, clientIp: IpAddr, pool: seq<string>, rounds: nat, k: nat)
    requires k < |pool| && hasher.digest(hasher.utf8(listener) + clientIp.octets) == rounds * |pool| + k
    ensures ChooseBackend(hasher, listener, clientIp, pool) == pool[k]
  {
    RemainderOf(rounds, |pool|, k);
  }

  lemma RemainderOf(rounds: nat, size: nat, k: nat)
    requires k < size
    ensures (rounds * size + k) % size == k
  {
    var x := rounds * size + k;
    var q := x / size;
    assert x == q * size + x % size;
    if q < rounds {
      TimesMonotone(q + 1, rounds, size);
    } else if q > rounds {
      TimesMonotone(rounds + 1, q, size);
    }
  }

  lemma TimesMonotone(a: nat, b: nat, c: nat)
    requires a <= b
    ensures a * c <= b * c
  {
  }

  function Retain(m: Assignments, now: nat): Assignments {
    map key | key in m && m[key].expiresAt > now :: m[key]
  }

  // The part of a call that runs under the lock: sweep, look up, re-validate, or choose and insert.
  function LockedSection(setup: Setup, m: Assignments, key: StickyKey, now: nat): (Assignments, string)
    requires setup.Served(key)
  {
    var live := Retain(m, now);
    if key in live && live[key].backend in setup.Pool(key) then (live, live[key].backend)
    else
      var backend := setup.Choice(key);
      (live[key := StickyEntry(backend, now + setup.config.ttl)], backend)
  }

  // The same without re-validation: what a call does to a faithful cache.
  function AfterCall(setup: Setup, m: Assignments, key: StickyKey, now: nat): Assignments {
    if !setup.Served(key) then m
    else
      var live := Retain(m, now);
      if key in live then live
      else live[key := StickyEntry(setup.Choice(key), now + setup.config.ttl)]
  }

  // On a faithful cache re-validation never fails, so the answer is the plain choice, hit or miss.
  lemma LockedSectionIsChoice(setup: Setup, m: Assignments, key: StickyKey, now: nat)
    requires setup.Faithful(m) && setup.Served(key)
    ensures LockedSection(setup, m, key, now) == (AfterCall(setup, m, key, now), setup.Choice(key))
    ensures setup.Faithful(AfterCall(setup, m, key, now))
  {
  }

  class SharedState {
    const setup: Setup
    var assignments: Assignments

    ghost predicate Valid()
      reads this
    {
      setup.Faithful(assignments)
    }

    constructor (setup: Setup)
      ensures Valid() && this.setup == setup && assignments == map[]
    {
      this.setup := setup;
      assignments := map[];
    }

    // now is the clock reading taken before the lock.
    method SelectBackend(listener: string, clientIp: IpAddr, now: nat) returns (r: Result<string, SelectError>)
      requires Valid()
      modifies this`assignments
      ensures Valid()
      ensures assignments == AfterCall(setup, old(assignments), StickyKey(listener, clientIp), now)
      ensures
        var pool := setup.config.PoolForListener(listener);
        r == if pool == [] then Err(NoBackends(listener))
             else Ok(ChooseBackend(setup.hasher, listener, clientIp, pool))
      ensures r.Ok? ==> forall key :: key in assignments ==> assignments[key].expiresAt > now
    {
      var pool := setup.config.PoolForListener(listener);
      if pool == [] {
        return Err(NoBackends(listener));
      }
      var key := StickyKey(listener, clientIp);
      LockedSectionIsChoice(setup, assignments, key, now);
      assignments := Retain(assignments, now);
      if key in assignments && assignments[key].backend in pool {
        return Ok(assignments[key].backend);
      }
      var backend := ChooseBackend(setup.hasher, listener, clientIp, pool);
      assignments := assignments[key := StickyEntry(backend, now + setup.config.ttl)];
      return Ok(backend);
    }
  }
}
