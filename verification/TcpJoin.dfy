/** Both directions of a TCP connection, interleaved wherever one of them waits for its socket. */
module TcpJoin {
  import opened Prelude
  import opened PluginSys
  import opened TcpTransfer

  // One copy loop: pending holds what write_all still has to hand to the socket; consumed the chunks read so far.
  datatype Loop = Loop(ctx: TcpContext, consumed: seq<Chunk>, pending: bytes, written: bytes, finished: bool)

  datatype Verdict = Running | Failed(direction: FlowDirection, error: TransferError)

  // upstream carries Outbound data, downstream Inbound data.
  datatype Connection = Connection(outbound: Loop, inbound: Loop, verdict: Verdict)
  {
    function Side(direction: FlowDirection): Loop {
      if direction == Outbound then outbound else inbound
    }

    function With(direction: FlowDirection, side: Loop): Connection {
      if direction == Outbound then this.(outbound := side) else this.(inbound := side)
    }
  }

  // What may happen while both loops are polled. The hooks run to completion between a read and the first write.
  datatype Action =
    | Read(direction: FlowDirection, chunk: Chunk)
    | Write(direction: FlowDirection, count: nat)
    | EndOfStream(direction: FlowDirection)
    | Fault(direction: FlowDirection, error: TransferError)

  function Start(ctx: TcpContext): Connection {
    Connection(Loop(ctx, [], [], [], false), Loop(ctx, [], [], [], false), Running)
  }

  predicate AtRead(side: Loop) {
    side.pending == [] && !side.finished
  }

  function StepLoop(ms: seq<TcpModule>, side: Loop, a: Action): Loop {
    match a
    case Read(direction, chunk) =>
      if !AtRead(side) then side
      else
        var ctx := Feed(ms, side.ctx, direction, chunk);
        side.(ctx := ctx, consumed := side.consumed + [chunk], pending := Output(ctx))
    case Write(_, count) =>
      var n := if count <= |side.pending| then count else |side.pending|;
      side.(pending := side.pending[n..], written := side.written + side.pending[..n])
    case EndOfStream(_) => if AtRead(side) then side.(finished := true) else side
    case Fault(_, _) => side
  }

  // A loop waits for its reader or for its writer, so only that half can fail it.
  predicate CanFail(side: Loop, error: TransferError) {
    !side.finished && (if error == ReadFailed then side.pending == [] else side.pending != [])
  }

  // An action that is not possible changes nothing; the first failure drops both loops where they stand.
  function Step(ms: seq<TcpModule>, c: Connection, a: Action): Connection {
    if c.verdict != Running then c
    else if a.Fault? then
      if CanFail(c.Side(a.direction), a.error) then c.(verdict := Failed(a.direction, a.error)) else c
    else c.With(a.direction, StepLoop(ms, c.Side(a.direction), a))
  }

  function Exec(ms: seq<TcpModule>, ctx: TcpContext, actions: seq<Action>): Connection {
    if actions == [] then Start(ctx)
    else Step(ms, Exec(ms, ctx, actions[..|actions| - 1]), actions[|actions| - 1])
  }

  // Everything the chain rendered so far is written or about to be.
  ghost predicate LoopInv(ms: seq<TcpModule>, ctx: TcpContext, direction: FlowDirection, side: Loop) {
    && side.written + side.pending == Rendered(ms, ctx, direction, side.consumed)
    && side.ctx == ContextAfter(ms, ctx, direction, side.consumed)
    && (side.finished ==> side.pending == [])
  }

  lemma StepLoopKeepsInv(ms: seq<TcpModule>, ctx: TcpContext, side: Loop, a: Action)
    requires LoopInv(ms, ctx, a.direction, side)
    ensures LoopInv(ms, ctx, a.direction, StepLoop(ms, side, a))
  {
    match a
    case Read(direction, chunk) =>
      var consumed := side.consumed + [chunk];
      assert consumed[..|consumed| - 1] == side.consumed;
      if AtRead(side) {
        assert side.written == side.written + side.pending;
      }
    case Write(_, count) =>
      var n := if count <= |side.pending| then count else |side.pending|;
      assert side.written + side.pending[..n] + side.pending[n..] == side.written + side.pending;
    case _ =>
  }

  // In every reachable state, in each direction.
  lemma {:induction false} InvHolds(ms: seq<TcpModule>, ctx: TcpContext, actions: seq<Action>, direction: FlowDirection)
    ensures LoopInv(ms, ctx, direction, Exec(ms, ctx, actions).Side(direction))
  {
    if actions == [] {
    } else {
      var n := |actions| - 1;
      var before := Exec(ms, ctx, actions[..n]);
      InvHolds(ms, ctx, actions[..n], direction);
      if actions[n].direction == direction {
        StepLoopKeepsInv(ms, ctx, before.Side(direction), actions[n]);
      }
    }
  }

  // At each read boundary, and once finished, exactly the chain's results have been written.
  lemma WrittenIsRendered(ms: seq<TcpModule>, ctx: TcpContext, actions: seq<Action>, direction: FlowDirection)
    ensures
      var side := Exec(ms, ctx, actions).Side(direction);
      && side.written <= Rendered(ms, ctx, direction, side.consumed)
      && (AtRead(side) || side.finished ==> side.written == Rendered(ms, ctx, direction, side.consumed))
  {
    InvHolds(ms, ctx, actions, direction);
  }

  // A direction's output depends on its own input alone, not on the other direction or on the schedule.
  lemma DirectionsAreIndependent(
    ms: seq<TcpModule>, ctx: TcpContext, a: seq<Action>, b: seq<Action>, direction: FlowDirection)
    requires Exec(ms, ctx, a).Side(direction).consumed == Exec(ms, ctx, b).Side(direction).consumed
    ensures
      var s, t := Exec(ms, ctx, a).Side(direction), Exec(ms, ctx, b).Side(direction);
      && s.ctx == t.ctx
      && s.written + s.pending == t.written + t.pending
      && (s.pending == [] && t.pending == [] ==> s.written == t.written)
  {
    InvHolds(ms, ctx, a, direction);
    InvHolds(ms, ctx, b, direction);
    var s, t := Exec(ms, ctx, a).Side(direction), Exec(ms, ctx, b).Side(direction);
    assert s.pending == [] ==> s.written + s.pending == s.written;
    assert t.pending == [] ==> t.written + t.pending == t.written;
  }

  // A direction that has read less owes a prefix of what it owes after reading more, however either was scheduled.
  lemma ReadingOnAddsOutput(
    ms: seq<TcpModule>, ctx: TcpContext, a: seq<Action>, b: seq<Action>, direction: FlowDirection)
    requires Exec(ms, ctx, a).Side(direction).consumed <= Exec(ms, ctx, b).Side(direction).consumed
    ensures
      var s, t := Exec(ms, ctx, a).Side(direction), Exec(ms, ctx, b).Side(direction);
      && s.written + s.pending <= t.written + t.pending
      && s.written <= t.written + t.pending
  {
    InvHolds(ms, ctx, a, direction);
    InvHolds(ms, ctx, b, direction);
    var s, t := Exec(ms, ctx, a).Side(direction), Exec(ms, ctx, b).Side(direction);
    assert t.consumed[..|s.consumed|] == s.consumed;
    RenderedPrefix(ms, ctx, direction, t.consumed, |s.consumed|);
  }

  lemma {:induction false} FailureWasPossible(ms: seq<TcpModule>, ctx: TcpContext, actions: seq<Action>)
    ensures
      var c := Exec(ms, ctx, actions);
      c.verdict.Failed? ==> CanFail(c.Side(c.verdict.direction), c.verdict.error)
  {
    if actions == [] {
    } else {
      FailureWasPossible(ms, ctx, actions[..|actions| - 1]);
    }
  }

  // The first failure stops both directions for good.
  lemma {:induction false} FailureIsFinal(ms: seq<TcpModule>, ctx: TcpContext, actions: seq<Action>, more: seq<Action>)
    requires Exec(ms, ctx, actions).verdict.Failed?
    ensures Exec(ms, ctx, actions + more) == Exec(ms, ctx, actions)
  {
    if more == [] {
      assert actions + more == actions;
    } else {
      var n := |more| - 1;
      FailureIsFinal(ms, ctx, actions, more[..n]);
      assert actions + more == (actions + more[..n]) + [more[n]];
      ExecSnoc(ms, ctx, actions + more[..n], more[n]);
    }
  }

  // How the loop of a direction ended, if it did: at its end of stream, or by failing the join.
  function Ending(c: Connection, direction: FlowDirection): Option<Result<(), TransferError>> {
    if c.Side(direction).finished then Some(Ok(()))
    else if c.verdict.Failed? && c.verdict.direction == direction then Some(Err(c.verdict.error))
    else None
  }

  // A loop that ended in the join, whatever went on beside it, ended and wrote as tcp_transfer does when it is
  // called alone on the chunks read: with a peer that takes everything, or, if the write failed, one that takes
  // no more than was written.
  lemma EndsAsTransfer(ms: seq<TcpModule>, ctx: TcpContext, actions: seq<Action>, direction: FlowDirection)
    requires Ending(Exec(ms, ctx, actions), direction).Some?
    ensures
      var side, ending := Exec(ms, ctx, actions).Side(direction), Ending(Exec(ms, ctx, actions), direction).value;
      var input := Input(side.consumed, ending == Err(ReadFailed));
      var capacity := if ending == Err(WriteFailed) then Some(|side.written|) else None;
      Ends(ms, ctx, direction, input, [], capacity, ending, side.written, side.ctx)
  {
    InvHolds(ms, ctx, actions, direction);
    FailureWasPossible(ms, ctx, actions);
    var side := Exec(ms, ctx, actions).Side(direction);
    assert [] + (side.written + side.pending) == side.written + side.pending;
  }

  // And that call leaves nothing open: whatever ends so has the join's result and output.
  lemma TransferAlone(
    ms: seq<TcpModule>, ctx: TcpContext, actions: seq<Action>, direction: FlowDirection,
    r: Result<(), TransferError>, written: bytes, last: TcpContext)
    requires Ending(Exec(ms, ctx, actions), direction).Some?
    requires
      var side, ending := Exec(ms, ctx, actions).Side(direction), Ending(Exec(ms, ctx, actions), direction).value;
      var input := Input(side.consumed, ending == Err(ReadFailed));
      var capacity := if ending == Err(WriteFailed) then Some(|side.written|) else None;
      Ends(ms, ctx, direction, input, [], capacity, r, written, last)
    ensures r == Ending(Exec(ms, ctx, actions), direction).value
    ensures written == Exec(ms, ctx, actions).Side(direction).written
    ensures r != Err(WriteFailed) ==> last == Exec(ms, ctx, actions).Side(direction).ctx
  {
    EndsAsTransfer(ms, ctx, actions, direction);
  }

  // ------------------------------------------------------------ every ending is reached

  // Where a schedule leaves one direction: still running, these chunks read and all of them handed on.
  ghost predicate AtBoundary(
    ms: seq<TcpModule>, ctx: TcpContext, actions: seq<Action>, direction: FlowDirection, chunks: seq<Chunk>)
  {
    var c := Exec(ms, ctx, actions);
    var side := c.Side(direction);
    c.verdict == Running && AtRead(side) && side.consumed == chunks
  }

  lemma {:induction false} BoundaryReached(
    ms: seq<TcpModule>, ctx: TcpContext, direction: FlowDirection, chunks: seq<Chunk>) returns (actions: seq<Action>)
    ensures AtBoundary(ms, ctx, actions, direction, chunks)
  {
    if chunks == [] {
      actions := [];
    } else {
      var n := |chunks| - 1;
      var before := BoundaryReached(ms, ctx, direction, chunks[..n]);
      actions := ReadAndWrite(ms, ctx, before, direction, chunks[..n], chunks[n], |Owed(ms, ctx, direction, chunks)|);
      assert chunks[..n] + [chunks[n]] == chunks;
    }
  }

  // What the last of the chunks adds to what is owed.
  function Owed(ms: seq<TcpModule>, ctx: TcpContext, direction: FlowDirection, chunks: seq<Chunk>): bytes {
    Output(ContextAfter(ms, ctx, direction, chunks))
  }

  // From a boundary, one more chunk is read and count bytes of what it comes to are written.
  lemma ReadAndWrite(
    ms: seq<TcpModule>, ctx: TcpContext, before: seq<Action>, direction: FlowDirection, chunks: seq<Chunk>,
    chunk: Chunk, count: nat) returns (actions: seq<Action>)
    requires AtBoundary(ms, ctx, before, direction, chunks)
    requires count <= |Owed(ms, ctx, direction, chunks + [chunk])|
    ensures
      var c, owed := Exec(ms, ctx, actions), Owed(ms, ctx, direction, chunks + [chunk]);
      var side := c.Side(direction);
      && c.verdict == Running && side.consumed == chunks + [chunk] && !side.finished
      && side.pending == owed[count..]
      && side.written == Rendered(ms, ctx, direction, chunks) + owed[..count]
  {
    InvHolds(ms, ctx, before, direction);
    var side := Exec(ms, ctx, before).Side(direction);
    assert side.written + [] == side.written;
    var read := before + [Read(direction, chunk)];
    ExecSnoc(ms, ctx, before, Read(direction, chunk));
    assert (chunks + [chunk])[..|chunks|] == chunks;
    actions := read + [Write(direction, count)];
    ExecSnoc(ms, ctx, read, Write(direction, count));
  }

  // The converse of EndsAsTransfer: whatever tcp_transfer may end with when called alone, some schedule of the join
  // ends that direction with, having read no more.
  lemma EveryEndingReached(
    ms: seq<TcpModule>, ctx: TcpContext, direction: FlowDirection, input: Input, capacity: Option<nat>,
    r: Result<(), TransferError>, written: bytes, last: TcpContext) returns (actions: seq<Action>)
    requires Ends(ms, ctx, direction, input, [], capacity, r, written, last)
    ensures
      var c := Exec(ms, ctx, actions);
      var side := c.Side(direction);
      && Ending(c, direction) == Some(r) && side.written == written && side.consumed <= input.chunks
      && (r != Err(WriteFailed) ==> side.consumed == input.chunks && side.ctx == last)
  {
    var due := Rendered(ms, ctx, direction, input.chunks);
    assert [] + due == due;
    if r == Err(WriteFailed) {
      actions := WriteFailureReached(ms, ctx, direction, input.chunks, capacity.value);
    } else {
      var before := BoundaryReached(ms, ctx, direction, input.chunks);
      InvHolds(ms, ctx, before, direction);
      var side := Exec(ms, ctx, before).Side(direction);
      assert side.written + [] == side.written;
      var end := if input.breaks then Fault(direction, ReadFailed) else EndOfStream(direction);
      ExecSnoc(ms, ctx, before, end);
      actions := before + [end];
    }
  }

  lemma {:induction false} WriteFailureReached(
    ms: seq<TcpModule>, ctx: TcpContext, direction: FlowDirection, chunks: seq<Chunk>, capacity: nat)
    returns (actions: seq<Action>)
    requires capacity < |Rendered(ms, ctx, direction, chunks)|
    ensures
      var c := Exec(ms, ctx, actions);
      var side := c.Side(direction);
      && Ending(c, direction) == Some(Err(WriteFailed)) && side.consumed <= chunks
      && side.written == Rendered(ms, ctx, direction, chunks)[..capacity]
  {
    var n := |chunks| - 1;
    var front := Rendered(ms, ctx, direction, chunks[..n]);
    assert Rendered(ms, ctx, direction, chunks) == front + Owed(ms, ctx, direction, chunks);
    if capacity < |front| {
      actions := WriteFailureReached(ms, ctx, direction, chunks[..n], capacity);
    } else {
      assert chunks[..n] + [chunks[n]] == chunks;
      var before := BoundaryReached(ms, ctx, direction, chunks[..n]);
      var partly := ReadAndWrite(ms, ctx, before, direction, chunks[..n], chunks[n], capacity - |front|);
      ExecSnoc(ms, ctx, partly, Fault(direction, WriteFailed));
      actions := partly + [Fault(direction, WriteFailed)];
    }
  }

  // Leaving out every action of the other direction.
  function Own(actions: seq<Action>, direction: FlowDirection): seq<Action> {
    Filter(actions, (a: Action) => a.direction == direction)
  }

  // A loop that the join never cut short is in the state it would have reached alone.
  lemma {:induction false} LoopRunsAsAlone(
    ms: seq<TcpModule>, ctx: TcpContext, actions: seq<Action>, direction: FlowDirection)
    requires Exec(ms, ctx, actions).verdict == Running
    ensures Exec(ms, ctx, Own(actions, direction)).Side(direction) == Exec(ms, ctx, actions).Side(direction)
    ensures Exec(ms, ctx, Own(actions, direction)).verdict == Running
  {
    if actions == [] {
    } else {
      var n := |actions| - 1;
      var before, a := actions[..n], actions[n];
      LoopRunsAsAlone(ms, ctx, before, direction);
      assert actions == before + [a];
      OwnSnoc(before, a, direction);
      ExecSnoc(ms, ctx, before, a);
      if a.direction == direction {
        ExecSnoc(ms, ctx, Own(before, direction), a);
        StepOnOwnSide(ms, Exec(ms, ctx, before), Exec(ms, ctx, Own(before, direction)), a);
      } else {
        StepOnOtherSide(ms, Exec(ms, ctx, before), a, direction);
      }
    }
  }

  // A step sees only its own side.
  lemma StepOnOwnSide(ms: seq<TcpModule>, c: Connection, d: Connection, a: Action)
    requires c.verdict == d.verdict == Running && c.Side(a.direction) == d.Side(a.direction)
    ensures Step(ms, c, a).Side(a.direction) == Step(ms, d, a).Side(a.direction)
    ensures Step(ms, c, a).verdict == Step(ms, d, a).verdict
  {
  }

  lemma StepOnOtherSide(ms: seq<TcpModule>, c: Connection, a: Action, direction: FlowDirection)
    requires a.direction != direction
    ensures Step(ms, c, a).Side(direction) == c.Side(direction)
  {
  }

  lemma ExecSnoc(ms: seq<TcpModule>, ctx: TcpContext, actions: seq<Action>, a: Action)
    ensures Exec(ms, ctx, actions + [a]) == Step(ms, Exec(ms, ctx, actions), a)
  {
    assert (actions + [a])[..|actions|] == actions;
  }

  lemma OwnSnoc(actions: seq<Action>, a: Action, direction: FlowDirection)
    ensures Own(actions + [a], direction) ==
              if a.direction == direction then Own(actions, direction) + [a] else Own(actions, direction)
  {
    var mine := (b: Action) => b.direction == direction;
    FilterInsert(actions, a, [], mine);
    assert [a] + [] == [a] && actions + [] == actions;
  }

  // With no-op hooks a finished direction has copied its input byte for byte.
  lemma TransparentConnectionCopies(ms: seq<TcpModule>, ctx: TcpContext, actions: seq<Action>, direction: FlowDirection)
    requires Transparent(ms) && Exec(ms, ctx, actions).Side(direction).finished
    ensures
      var side := Exec(ms, ctx, actions).Side(direction);
      side.written == Joined(side.consumed)
  {
    WrittenIsRendered(ms, ctx, actions, direction);
    TransparentChainCopies(ms, ctx, direction, Exec(ms, ctx, actions).Side(direction).consumed);
  }
}
