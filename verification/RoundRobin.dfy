/** The example HTTP plugin: upstreams handed out in turn by a shared, wrapping atomic counter. */
module RoundRobin {
  import opened Prelude
  import opened PluginSys
  import opened Decimal

  const WRAP: nat := 0x1_0000_0000_0000_0000
  const PORT: u16 := 80

  const NO_REQUEST: PluginError := PluginError(Some("no request provided to callback"))
  const NO_TRANSPORT: PluginError := PluginError(Some("failed to set route"))

  datatype Target = Dev | Org | Beeceptor

  function TargetOf(ticket: u64): Target {
    if ticket % 3 == 1 then Dev else if ticket % 3 == 2 then Org else Beeceptor
  }

  function RouteOf(ticket: u64): RouteDecision {
    var (host, path) :=
      match TargetOf(ticket)
      case Dev => ("httpbin.dev", "/dump/request?n=" + Print(ticket))
      case Org => ("httpbin.org", "/anything?n=" + Print(ticket))
      case Beeceptor => ("echo.free.beeceptor.com", "/?n=" + Print(ticket));
    RouteDecision(ReplaceUpstream, Some(SocketAddress(host, PORT)), Some(path))
  }

  // The counter counts up and wraps after the largest 64-bit number.
  function Successor(counter: u64): (next: u64)
    ensures next == if counter == 0xFFFF_FFFF_FFFF_FFFF then 0 else counter + 1
  {
    (counter + 1) % WRAP
  }

  // Which upstream a ticket stands for: by its remainder by 3, always on port 80, the ticket in the query.
  lemma RouteByRemainder(ticket: u64)
    ensures RouteOf(ticket).action == ReplaceUpstream && RouteOf(ticket).upstreamToSet.Some?
    ensures RouteOf(ticket).httpPath.Some? && RouteOf(ticket).upstreamToSet.value.port == 80
    ensures
      var host, path := RouteOf(ticket).upstreamToSet.value.host, RouteOf(ticket).httpPath.value;
      && (ticket % 3 == 0 ==> host == "echo.free.beeceptor.com" && path == "/?n=" + Print(ticket))
      && (ticket % 3 == 1 ==> host == "httpbin.dev" && path == "/dump/request?n=" + Print(ticket))
      && (ticket % 3 == 2 ==> host == "httpbin.org" && path == "/anything?n=" + Print(ticket))
  {
  }

  class RequestCounter {
    var next: u64

    constructor ()
      ensures next == 0
    {
      next := 0;
    }

    method FetchAdd() returns (ticket: u64)
      modifies this
      ensures ticket == old(next) && next == Successor(old(next))
    {
      ticket := next;
      next := Successor(next);
    }

    // A context without a request takes no ticket; one without a transport takes a ticket in vain.
    method HttpOnRoute(ctx: HttpContext) returns (r: HookReturn)
      modifies this
      ensures next == if ctx.request.None? then old(next) else Successor(old(next))
      ensures r.outcome.Ok? <==> ctx.request.Some? && ctx.transport.Some?
      ensures r.outcome.Ok? ==> r.outcome == Ok(Replace) && r.ctx.Route() == Some(RouteOf(old(next)))
      ensures r.outcome.Err? ==> r.ctx == ctx
      ensures r.outcome.Err? ==> r.outcome.error == if ctx.request.None? then NO_REQUEST else NO_TRANSPORT
    {
      if ctx.request.None? {
        return HookReturn(ctx, Err(NO_REQUEST));
      }
      var ticket := FetchAdd();
      var (routed, ok) := ctx.SetRoute(RouteOf(ticket));
      if !ok {
        return HookReturn(routed, Err(NO_TRANSPORT));
      }
      return HookReturn(routed, Ok(Replace));
    }
  }

  // -------------------------------------------------- tickets of any interleaving

  // The threads' increments in the order the counter takes them: which thread each belongs to.
  type Schedule = seq<nat>

  datatype Issue = Issue(thread: nat, ticket: u64)

  function CounterAfter(start: u64, schedule: Schedule): u64 {
    if schedule == [] then start else Successor(CounterAfter(start, schedule[..|schedule| - 1]))
  }

  function Issues(start: u64, schedule: Schedule): (issues: seq<Issue>)
    ensures |issues| == |schedule|
  {
    if schedule == [] then []
    else
      var n := |schedule| - 1;
      Issues(start, schedule[..n]) + [Issue(schedule[n], CounterAfter(start, schedule[..n]))]
  }

  function Ticket(start: u64, i: nat): u64 {
    (start + i) % WRAP
  }

  // However the threads interleave, the i-th increment draws ticket start + i, wrapped.
  lemma {:induction false} TicketsAreConsecutive(start: u64, schedule: Schedule)
    ensures CounterAfter(start, schedule) == Ticket(start, |schedule|)
    ensures forall i :: 0 <= i < |schedule| ==> Issues(start, schedule)[i] == Issue(schedule[i], Ticket(start, i))
  {
    if schedule == [] {
    } else {
      var n := |schedule| - 1;
      TicketsAreConsecutive(start, schedule[..n]);
      WrapOnce(start + n);
    }
  }

  lemma WrapOnce(x: nat)
    ensures (x % WRAP + 1) % WRAP == (x + 1) % WRAP
  {
  }

  // -------------------------------------------------- fairness

  // How many of the n consecutive tickets from start go to target.
  function Count(start: u64, n: nat, target: Target): nat {
    if n == 0 then 0
    else Count(start, n - 1, target) + if TargetOf(Ticket(start, n - 1)) == target then 1 else 0
  }

  // How often the counter wraps to 0 while those tickets are drawn.
  function Wraps(start: u64, n: nat): nat {
    if n == 0 then 0 else (start + n - 1) / WRAP
  }

  function Residue(target: Target): nat {
    match target
    case Beeceptor => 0
    case Dev => 1
    case Org => 2
  }

  // How many of 0 .. n - 1 leave this remainder.
  function Below(n: nat, residue: nat): nat
    requires residue < 3
  {
    (n + 2 - residue) / 3
  }

  // What a whole cycle of the counter gives each target at least; one of them gets one more.
  const SHARE: nat := (WRAP - 1) / 3

  function Shares(cycles: nat, target: Target): nat {
    if cycles == 0 then 0 else Shares(cycles - 1, target) + SHARE + if target == Beeceptor then 1 else 0
  }

  lemma {:induction false} SharesCompared(cycles: nat)
    ensures Shares(cycles, Dev) == Shares(cycles, Org) && Shares(cycles, Beeceptor) == Shares(cycles, Dev) + cycles
  {
    if cycles == 0 {
    } else {
      SharesCompared(cycles - 1);
    }
  }

  // How many of the first x tickets that the counter ever draws go to target.
  function Drawn(x: nat, target: Target): nat {
    Shares(x / WRAP, target) + Below(x % WRAP, Residue(target))
  }

  lemma DrawnStep(x: nat, target: Target)
    ensures Drawn(x + 1, target) == Drawn(x, target) + if TargetOf(x % WRAP) == target then 1 else 0
  {
    var cycles, rest := x / WRAP, x % WRAP;
    assert TargetOf(rest) == target <==> rest % 3 == Residue(target);
    NextTicket(x);
    if rest == WRAP - 1 {
      assert Shares(cycles + 1, target) == Shares(cycles, target) + SHARE + if target == Beeceptor then 1 else 0;
    }
  }

  lemma NextTicket(x: nat)
    ensures x % WRAP == WRAP - 1 ==> (x + 1) / WRAP == x / WRAP + 1 && (x + 1) % WRAP == 0
    ensures x % WRAP < WRAP - 1 ==> (x + 1) / WRAP == x / WRAP && (x + 1) % WRAP == x % WRAP + 1
  {
    if x % WRAP == WRAP - 1 {
      assert x + 1 == (x / WRAP + 1) * WRAP;
    }
  }

  // A window is the difference of two beginnings.
  lemma {:induction false} CountIsDifference(start: u64, n: nat, target: Target)
    ensures Count(start, n, target) == Drawn(start + n, target) - Drawn(start, target)
  {
    if n == 0 {
    } else {
      CountIsDifference(start, n - 1, target);
      CountStep(start, n, target);
    }
  }

  lemma CountStep(start: u64, n: nat, target: Target)
    requires n > 0
    ensures Count(start, n, target) - Count(start, n - 1, target)
         == Drawn(start + n, target) - Drawn(start + n - 1, target)
  {
    DrawnStep(start + n - 1, target);
  }

  // The counts of a window over cycles ends of the counter, each less what all targets have in common.
  lemma WindowCounts(start: u64, n: nat) returns (common: int)
    ensures
      var cycles, last := (start + n) / WRAP, (start + n) % WRAP;
      && Count(start, n, Beeceptor) == common + cycles + Below(last, 0) - Below(start, 0)
      && Count(start, n, Dev) == common + Below(last, 1) - Below(start, 1)
      && Count(start, n, Org) == common + Below(last, 2) - Below(start, 2)
  {
    var cycles := (start + n) / WRAP;
    CountIsDifference(start, n, Beeceptor);
    CountIsDifference(start, n, Dev);
    CountIsDifference(start, n, Org);
    SharesCompared(cycles);
    assert start / WRAP == 0 && start % WRAP == start;
    common := Shares(cycles, Dev);
  }

  // Any two targets' counts over a window differ by at most one more than the number of wraps in it.
  lemma FairUpToWraps(start: u64, n: nat, a: Target, b: Target)
    ensures Count(start, n, a) <= Count(start, n, b) + Wraps(start, n) + 1
  {
    if n == 0 {
    } else {
      var last := (start + n) % WRAP;
      var common := WindowCounts(start, n);
      WrapsAndEnds(start, n);
      BelowClose(start);
      BelowClose(last);
      CountsOf(start, n, a);
      CountsOf(start, n, b);
    }
  }

  lemma WrapsAndEnds(start: u64, n: nat)
    requires n > 0
    ensures (start + n) / WRAP == Wraps(start, n) + if (start + n) % WRAP == 0 then 1 else 0
  {
    NextTicket(start + n - 1);
  }

  lemma BelowClose(n: nat)
    ensures Below(n, 2) <= Below(n, 1) <= Below(n, 0) <= Below(n, 2) + if n == 0 then 0 else 1
  {
  }

  lemma CountsOf(start: u64, n: nat, target: Target)
    ensures
      var x, y, z := Count(start, n, Beeceptor), Count(start, n, Dev), Count(start, n, Org);
      Count(start, n, target) == match target case Beeceptor => x case Dev => y case Org => z
  {
  }

  lemma FairWithoutWrap(start: u64, n: nat, a: Target, b: Target)
    requires start + n <= WRAP
    ensures Count(start, n, a) <= Count(start, n, b) + 1
  {
    FairUpToWraps(start, n, a, b);
  }

  lemma FairAcrossOneWrap(start: u64, n: nat, a: Target, b: Target)
    requires start + n <= 2 * WRAP
    ensures Count(start, n, a) <= Count(start, n, b) + 2
  {
    FairUpToWraps(start, n, a, b);
  }

  // The counts over a window are level: no two targets differ by more than one.
  ghost predicate Fair(start: u64, n: nat) {
    forall a, b :: Count(start, n, a) <= Count(start, n, b) + 1
  }

  // The tickets of the window before the counter's first end in it, and those after its last, make whole rounds of
  // the three targets, or miss them so that they complement each other.
  predicate RoundsFit(start: u64, n: nat) {
    RemaindersFit((start + n) / WRAP, (WRAP - start) % 3, (start + n) % WRAP % 3)
  }

  predicate RemaindersFit(ends: nat, first: nat, last: nat) {
    || ends == 0
    || (ends == 1 && (first == 0 || last == 0 || (first == 2 && last == 2)))
    || (ends == 2 && first == 0 && last == 0)
  }

  // Exactly these windows are fair: all that do not reach the counter's end, none that reach it three times.
  lemma FairIffRoundsFit(start: u64, n: nat)
    ensures Fair(start, n) <==> RoundsFit(start, n)
  {
    var common := WindowCounts(start, n);
    assert Count(start, n, Dev) - common == Below((start + n) % WRAP, 1) - Below(start, 1);
    FairByCounts(start, n);
    RemaindersDecide((start + n) / WRAP, start, (start + n) % WRAP);
  }

  lemma FairByCounts(start: u64, n: nat)
    ensures Fair(start, n) <==> Close(Count(start, n, Beeceptor), Count(start, n, Dev), Count(start, n, Org))
  {
    if Close(Count(start, n, Beeceptor), Count(start, n, Dev), Count(start, n, Org)) {
      forall a, b ensures Count(start, n, a) <= Count(start, n, b) + 1 {
        CountsOf(start, n, a);
        CountsOf(start, n, b);
      }
    }
  }

  predicate Close(x: int, y: int, z: int) {
    -1 <= x - y <= 1 && -1 <= x - z <= 1 && -1 <= y - z <= 1
  }

  lemma RemaindersDecide(ends: nat, start: u64, last: u64)
    ensures
      var x, y := ends + Below(last, 0) - Below(start, 0), Below(last, 1) - Below(start, 1);
      var z := Below(last, 2) - Below(start, 2);
      Close(x, y, z) <==> RemaindersFit(ends, (WRAP - start) % 3, last % 3)
  {
  }

  // An unfair window: 2^64 leaves remainder 1, so the ticket before the wrap and the one after go the same way.
  lemma WrapRepeatsATarget()
    ensures Count(WRAP - 1, 2, Beeceptor) == 2 && Count(WRAP - 1, 2, Dev) == 0 && Count(WRAP - 1, 2, Org) == 0
    ensures !Fair(WRAP - 1, 2) && !RoundsFit(WRAP - 1, 2)
  {
    var common := WindowCounts(WRAP - 1, 2);
    CountOfTwo(WRAP - 1, Dev);
    FairIffRoundsFit(WRAP - 1, 2);
  }

  lemma CountOfTwo(start: u64, target: Target)
    ensures Count(start, 2, target) ==
              (if TargetOf(Ticket(start, 0)) == target then 1 else 0) +
              (if TargetOf(Ticket(start, 1)) == target then 1 else 0)
  {
    assert Count(start, 1, target) == if TargetOf(Ticket(start, 0)) == target then 1 else 0;
  }
}
