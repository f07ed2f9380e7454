/** Threads sharing one balancer. Each reads the clock first and takes the lock later, so the two orders can differ. */
module StickyThreads {
  import opened Prelude
  import opened StickyBalancer
  import opened StickyRuns

  type Tid = nat

  datatype Reply = Reply(call: Call, result: Result<string, SelectError>)

  // waiting: the threads between their clock reading and the lock; replies: finished calls, oldest first.
  datatype State = State(clock: nat, waiting: map<Tid, Call>, shared: Assignments, replies: seq<Reply>)

  datatype Action =
    | Tick(elapsed: nat)
    | ReadClock(tid: Tid, key: StickyKey)
    | TakeLock(tid: Tid)

  const INITIAL := State(0, map[], map[], [])

  // One atomic step; an action that is not possible leaves the state as it is.
  function Step(setup: Setup, s: State, a: Action): State {
    match a
    case Tick(elapsed) => s.(clock := s.clock + elapsed)
    case ReadClock(tid, key) =>
      if tid in s.waiting then s
      else if !setup.Served(key) then
        s.(replies := s.replies + [Reply(Call(key, s.clock), Err(NoBackends(key.listener)))])
      else s.(waiting := s.waiting[tid := Call(key, s.clock)])
    case TakeLock(tid) =>
      if tid !in s.waiting || !setup.Served(s.waiting[tid].key) then s
      else
        var call := s.waiting[tid];
        var (shared, backend) := LockedSection(setup, s.shared, call.key, call.now);
        State(s.clock, s.waiting - {tid}, shared, s.replies + [Reply(call, Ok(backend))])
  }

  function Exec(setup: Setup, actions: seq<Action>): State {
    if actions == [] then INITIAL
    else Step(setup, Exec(setup, actions[..|actions| - 1]), actions[|actions| - 1])
  }

  function Calls(replies: seq<Reply>): (calls: seq<Call>)
    ensures |calls| == |replies|
  {
    seq(|replies|, i requires 0 <= i < |replies| => replies[i].call)
  }

  // The answer of the plain function, which knows neither cache nor clock.
  function PlainAnswer(setup: Setup, key: StickyKey): Result<string, SelectError> {
    if setup.Served(key) then Ok(setup.Choice(key)) else Err(NoBackends(key.listener))
  }

  ghost predicate Inv(setup: Setup, s: State) {
    && s.shared == RunCalls(setup, Calls(s.replies))
    && (forall i :: 0 <= i < |s.replies| ==> s.replies[i].result == PlainAnswer(setup, s.replies[i].call.key))
    && (forall i :: 0 <= i < |s.replies| ==> s.replies[i].call.now <= s.clock)
    && (forall tid :: tid in s.waiting ==> setup.Served(s.waiting[tid].key) && s.waiting[tid].now <= s.clock)
  }

  lemma ReplyAdded(setup: Setup, replies: seq<Reply>, reply: Reply)
    ensures RunCalls(setup, Calls(replies + [reply]))
         == AfterCall(setup, RunCalls(setup, Calls(replies)), reply.call.key, reply.call.now)
  {
    var calls := Calls(replies + [reply]);
    assert calls[..|calls| - 1] == Calls(replies);
  }

  lemma ReplyKeepsInv(setup: Setup, s: State, reply: Reply, waiting: map<Tid, Call>)
    requires Inv(setup, s)
    requires reply.call.now <= s.clock && reply.result == PlainAnswer(setup, reply.call.key)
    requires forall tid :: tid in waiting ==> tid in s.waiting && waiting[tid] == s.waiting[tid]
    ensures
      var shared := AfterCall(setup, s.shared, reply.call.key, reply.call.now);
      Inv(setup, State(s.clock, waiting, shared, s.replies + [reply]))
  {
    ReplyAdded(setup, s.replies, reply);
    var replies := s.replies + [reply];
    forall i | 0 <= i < |replies|
      ensures replies[i].result == PlainAnswer(setup, replies[i].call.key) && replies[i].call.now <= s.clock
    {
      assert replies[i] == if i < |s.replies| then s.replies[i] else reply;
    }
  }

  lemma StepKeepsInv(setup: Setup, s: State, a: Action)
    requires Inv(setup, s)
    ensures Inv(setup, Step(setup, s, a))
  {
    match a
    case Tick(_) =>
    case ReadClock(tid, key) =>
      if !setup.Served(key) {
        ReplyKeepsInv(setup, s, Reply(Call(key, s.clock), Err(NoBackends(key.listener))), s.waiting);
      }
    case TakeLock(tid) =>
      if tid in s.waiting {
        var call := s.waiting[tid];
        RunIsFaithful(setup, Calls(s.replies));
        LockedSectionIsChoice(setup, s.shared, call.key, call.now);
        ReplyKeepsInv(setup, s, Reply(call, Ok(setup.Choice(call.key))), s.waiting - {tid});
      }
  }

  lemma {:induction false} InvHolds(setup: Setup, actions: seq<Action>)
    ensures Inv(setup, Exec(setup, actions))
  {
    if actions == [] {
    } else {
      InvHolds(setup, actions[..|actions| - 1]);
      StepKeepsInv(setup, Exec(setup, actions[..|actions| - 1]), actions[|actions| - 1]);
    }
  }

  // Under every interleaving, each call is answered as the plain choice would answer it.
  lemma {:induction false} EveryReplyIsPlain(setup: Setup, actions: seq<Action>)
    ensures forall r :: r in Exec(setup, actions).replies ==> r.result == PlainAnswer(setup, r.call.key)
    ensures setup.Faithful(Exec(setup, actions).shared)
  {
    InvHolds(setup, actions);
    RunIsFaithful(setup, Calls(Exec(setup, actions).replies));
  }

  // The shared cache is that of the finished calls run one after another in lock order.
  lemma ThreadsRefineRuns(setup: Setup, actions: seq<Action>)
    ensures
      var s := Exec(setup, actions);
      s.shared == RunCalls(setup, Calls(s.replies))
  {
    InvHolds(setup, actions);
  }

  // No entry outlives the present by more than the ttl.
  lemma ExpiryBounded(setup: Setup, actions: seq<Action>)
    ensures
      var s := Exec(setup, actions);
      forall key :: key in s.shared ==> s.shared[key].expiresAt <= s.clock + setup.config.ttl
  {
    InvHolds(setup, actions);
    var s := Exec(setup, actions);
    var calls := Calls(s.replies);
    forall key | key in s.shared ensures s.shared[key].expiresAt <= s.clock + setup.config.ttl {
      CacheHolds(setup, calls, key);
      var i := HeldWasInserted(setup, calls, key);
      assert s.replies[i].call == calls[i];
    }
  }

  // In every state, entries outlive the last sweep and come from calls less than the ttl before it.
  lemma {:induction false} SharedIsRecent(setup: Setup, actions: seq<Action>, key: StickyKey) returns (i: nat)
    requires key in Exec(setup, actions).shared
    ensures
      var s := Exec(setup, actions);
      var swept := LastSweep(setup, Calls(s.replies));
      && s.shared[key].expiresAt > swept
      && i < |s.replies| && s.replies[i].call.key == key
      && s.shared[key].expiresAt == s.replies[i].call.now + setup.config.ttl
      && s.replies[i].call.now + setup.config.ttl > swept
  {
    ThreadsRefineRuns(setup, actions);
    i := EntriesOutliveSweep(setup, Calls(Exec(setup, actions).replies), key);
  }

  // And there are no more of them than distinct keys requested by such calls.
  lemma SharedSizeBound(setup: Setup, actions: seq<Action>)
    ensures
      var s := Exec(setup, actions);
      |s.shared| <= |RecentKeys(setup, Calls(s.replies), LastSweep(setup, Calls(s.replies)))|
  {
    ThreadsRefineRuns(setup, actions);
    SizeBound(setup, Calls(Exec(setup, actions).replies));
  }

  // When calls took the lock in the order of their clock readings, every key sees greedy renewal of its own requests.
  lemma OrderedThreadsRenewGreedily(setup: Setup, actions: seq<Action>, key: StickyKey)
    requires ClockInOrder(setup, Calls(Exec(setup, actions).replies))
    ensures
      var s := Exec(setup, actions);
      Lookup(s.shared, key) == Expected(setup, Calls(s.replies), key)
  {
    InvHolds(setup, actions);
    CacheIsGreedyRenewal(setup, Calls(Exec(setup, actions).replies), key);
  }

  // Steps only ever add replies, one at a time.
  lemma {:induction false} RepliesGrow(setup: Setup, actions: seq<Action>, k: nat)
    requires k <= |actions|
    ensures Exec(setup, actions[..k]).replies <= Exec(setup, actions).replies
  {
    if k == |actions| {
      assert actions[..k] == actions;
    } else {
      var before := actions[..|actions| - 1];
      RepliesGrow(setup, before, k);
      assert before[..k] == actions[..k];
    }
  }

  lemma {:induction false} EveryReplyAdded(setup: Setup, actions: seq<Action>, n: nat) returns (k: nat)
    requires n <= |Exec(setup, actions).replies|
    ensures k <= |actions| && |Exec(setup, actions[..k]).replies| == n
  {
    if n == |Exec(setup, actions).replies| {
      k := |actions|;
      assert actions[..k] == actions;
    } else {
      var before := actions[..|actions| - 1];
      k := EveryReplyAdded(setup, before, n);
      assert before[..k] == actions[..k];
    }
  }

  lemma CallsOfPrefix(replies: seq<Reply>, n: nat)
    requires n <= |replies|
    ensures Calls(replies[..n]) == Calls(replies)[..n]
  {
  }

  // In every state that the schedule passes through, the shared cache holds for key what greedy renewal of key's
  // own requests says.
  ghost predicate GreedyThroughout(setup: Setup, actions: seq<Action>, key: StickyKey) {
    forall k :: 0 <= k <= |actions| ==>
      var s := Exec(setup, actions[..k]);
      Lookup(s.shared, key) == Expected(setup, Calls(s.replies), key)
  }

  // A schedule keeps greedy renewal for key exactly when none of its requests for key is overtaken:
  // reads the clock first and gets the lock after a reading at which the entry expires.
  lemma {:induction false} GreedyThroughoutIffNeverOvertaken(setup: Setup, actions: seq<Action>, key: StickyKey)
    ensures GreedyThroughout(setup, actions, key) <==> NeverOvertaken(setup, Calls(Exec(setup, actions).replies), key)
  {
    var replies := Exec(setup, actions).replies;
    GreedyIffNeverOvertaken(setup, Calls(replies), key);
    if NeverOvertaken(setup, Calls(replies), key) {
      forall k | 0 <= k <= |actions|
        ensures
          var s := Exec(setup, actions[..k]);
          Lookup(s.shared, key) == Expected(setup, Calls(s.replies), key)
      {
        CacheAfterReplies(setup, actions, k);
      }
    }
    if GreedyThroughout(setup, actions, key) {
      forall n | 0 <= n <= |replies|
        ensures Lookup(RunCalls(setup, Calls(replies)[..n]), key) == Expected(setup, Calls(replies)[..n], key)
      {
        var k := EveryReplyAdded(setup, actions, n);
        CacheAfterReplies(setup, actions, k);
      }
    }
  }

  // The calls a schedule makes, in lock order, depend on it and on the keys served, not on what the cache answers.
  lemma {:induction false} ScheduleDecidesCalls(a: Setup, b: Setup, actions: seq<Action>)
    requires AlikeForSchedules(a, b)
    ensures
      var s, t := Exec(a, actions), Exec(b, actions);
      s.clock == t.clock && s.waiting == t.waiting && Calls(s.replies) == Calls(t.replies)
  {
    if actions == [] {
    } else {
      var before, last := actions[..|actions| - 1], actions[|actions| - 1];
      ScheduleDecidesCalls(a, b, before);
      StepCalls(a, Exec(a, before), last);
      StepCalls(b, Exec(b, before), last);
    }
  }

  // The call that a step finishes, if any.
  function Finishes(setup: Setup, s: State, a: Action): Option<Call> {
    match a
    case Tick(_) => None
    case ReadClock(tid, key) =>
      if tid !in s.waiting && !setup.Served(key) then Some(Call(key, s.clock)) else None
    case TakeLock(tid) =>
      if tid in s.waiting && setup.Served(s.waiting[tid].key) then Some(s.waiting[tid]) else None
  }

  lemma StepCalls(setup: Setup, s: State, a: Action)
    ensures Calls(Step(setup, s, a).replies) ==
              match Finishes(setup, s, a)
              case None => Calls(s.replies)
              case Some(call) => Calls(s.replies) + [call]
  {
  }

  // So the condition is one on the schedule.
  lemma ScheduleDecidesOvertaking(a: Setup, b: Setup, actions: seq<Action>, key: StickyKey)
    requires AlikeForSchedules(a, b)
    ensures NeverOvertaken(a, Calls(Exec(a, actions).replies), key)
       <==> NeverOvertaken(b, Calls(Exec(b, actions).replies), key)
    ensures GreedyThroughout(a, actions, key) <==> GreedyThroughout(b, actions, key)
  {
    ScheduleDecidesCalls(a, b, actions);
    NeverOvertakenAlike(a, b, Calls(Exec(a, actions).replies), key);
    GreedyThroughoutIffNeverOvertaken(a, actions, key);
    GreedyThroughoutIffNeverOvertaken(b, actions, key);
  }

  lemma CacheAfterReplies(setup: Setup, actions: seq<Action>, k: nat)
    requires k <= |actions|
    ensures
      var s, calls := Exec(setup, actions[..k]), Calls(Exec(setup, actions).replies);
      && |s.replies| <= |calls| && Calls(s.replies) == calls[..|s.replies|]
      && s.shared == RunCalls(setup, Calls(s.replies))
  {
    RepliesGrow(setup, actions, k);
    CallsOfPrefix(Exec(setup, actions).replies, |Exec(setup, actions[..k]).replies|);
    ThreadsRefineRuns(setup, actions[..k]);
  }

  lemma ExecSnoc(setup: Setup, actions: seq<Action>, a: Action)
    ensures Exec(setup, actions + [a]) == Step(setup, Exec(setup, actions), a)
  {
    assert (actions + [a])[..|actions|] == actions;
  }

  // What of a state the clock and the order of the calls depend on.
  ghost predicate Shape(s: State, clock: nat, waiting: map<Tid, Call>, calls: seq<Call>) {
    s.clock == clock && s.waiting == waiting && Calls(s.replies) == calls
  }

  lemma StepShape(setup: Setup, actions: seq<Action>, a: Action)
    ensures
      var s, t := Exec(setup, actions), Exec(setup, actions + [a]);
      && (a.Tick? ==> Shape(t, s.clock + a.elapsed, s.waiting, Calls(s.replies)))
      && (a.ReadClock? && a.tid !in s.waiting && setup.Served(a.key) ==>
            Shape(t, s.clock, s.waiting[a.tid := Call(a.key, s.clock)], Calls(s.replies)))
      && (a.TakeLock? && a.tid in s.waiting && setup.Served(s.waiting[a.tid].key) ==>
            Shape(t, s.clock, s.waiting - {a.tid}, Calls(s.replies) + [s.waiting[a.tid]]))
  {
    ExecSnoc(setup, actions, a);
  }

  // Two threads are enough to overtake: thread 1 reads the clock at 1, loses the race for the lock to a reading
  // of thread 2 at the ttl, and a's entry of time 0 is renewed before it was due.
  lemma RaceRenewsEarly(setup: Setup, a: StickyKey, b: StickyKey) returns (actions: seq<Action>)
    requires a != b && setup.Served(a) && setup.Served(b) && setup.config.ttl >= 2
    ensures
      var s, ttl := Exec(setup, actions), setup.config.ttl;
      && Calls(s.replies) == [Call(a, 0), Call(b, ttl), Call(a, 1)]
      && Lookup(s.shared, a) == Some(StickyEntry(setup.Choice(a), 1 + ttl))
      && Renewal(setup, Calls(s.replies), a) == Some(0)
      && !GreedyThroughout(setup, actions, a)
  {
    actions := FirstInsert(setup, a);
    actions := LateReading(setup, a, b, actions);
    actions := BothLocks(setup, a, b, actions);
    ThreadsRefineRuns(setup, actions);
    var before, c := [Call(a, 0), Call(b, setup.config.ttl)], Call(a, 1);
    OutOfOrderRenewsEarly(setup, a, b);
    var calls := Calls(Exec(setup, actions).replies);
    assert calls == before + [c] && calls[..2] == before;
    GreedyThroughoutIffNeverOvertaken(setup, actions, a);
    RenewalSnoc(setup, before, c, a);
    RenewalSnoc(setup, [Call(a, 0)], Call(b, setup.config.ttl), a);
    RenewalSnoc(setup, [], Call(a, 0), a);
    assert [] + [Call(a, 0)] == [Call(a, 0)] && [Call(a, 0)] + [Call(b, setup.config.ttl)] == before;
  }

  lemma FirstInsert(setup: Setup, a: StickyKey) returns (actions: seq<Action>)
    requires setup.Served(a)
    ensures Shape(Exec(setup, actions), 0, map[], [Call(a, 0)])
  {
    assert Exec(setup, []) == INITIAL;
    StepShape(setup, [], ReadClock(1, a));
    actions := [] + [ReadClock(1, a)];
    StepShape(setup, actions, TakeLock(1));
    actions := actions + [TakeLock(1)];
  }

  lemma LateReading(setup: Setup, a: StickyKey, b: StickyKey, before: seq<Action>) returns (actions: seq<Action>)
    requires setup.Served(a) && setup.Served(b) && setup.config.ttl >= 2
    requires Shape(Exec(setup, before), 0, map[], [Call(a, 0)])
    ensures
      var ttl := setup.config.ttl;
      Shape(Exec(setup, actions), ttl, map[1 := Call(a, 1), 2 := Call(b, ttl)], [Call(a, 0)])
  {
    var ttl := setup.config.ttl;
    StepShape(setup, before, Tick(1));
    actions := before + [Tick(1)];
    StepShape(setup, actions, ReadClock(1, a));
    actions := actions + [ReadClock(1, a)];
    StepShape(setup, actions, Tick(ttl - 1));
    actions := actions + [Tick(ttl - 1)];
    StepShape(setup, actions, ReadClock(2, b));
    actions := actions + [ReadClock(2, b)];
  }

  lemma BothLocks(setup: Setup, a: StickyKey, b: StickyKey, before: seq<Action>) returns (actions: seq<Action>)
    requires setup.Served(a) && setup.Served(b)
    requires
      var ttl := setup.config.ttl;
      Shape(Exec(setup, before), ttl, map[1 := Call(a, 1), 2 := Call(b, ttl)], [Call(a, 0)])
    ensures
      var ttl := setup.config.ttl;
      Shape(Exec(setup, actions), ttl, map[], [Call(a, 0), Call(b, ttl), Call(a, 1)])
  {
    var ttl := setup.config.ttl;
    StepShape(setup, before, TakeLock(2));
    actions := before + [TakeLock(2)];
    assert Shape(Exec(setup, actions), ttl, map[1 := Call(a, 1)], [Call(a, 0), Call(b, ttl)]);
    StepShape(setup, actions, TakeLock(1));
    actions := actions + [TakeLock(1)];
  }
}
