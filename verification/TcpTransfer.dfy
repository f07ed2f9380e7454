/** One direction of a TCP connection: read a chunk, pass it through the plugin chain, write what is left of it. */
module TcpTransfer {
  import opened Prelude
  import opened PluginSys

  const BUFFER_SIZE := 8192

  // What one successful, non-empty read yields.
  type Chunk = c: bytes | 0 < |c| <= BUFFER_SIZE witness [0]

  // What a reader yields: some chunks, then end of stream or an error.
  datatype Input = Input(chunks: seq<Chunk>, breaks: bool)

  datatype TransferError = ReadFailed | WriteFailed

  // The chain on one chunk: each on_data hook sees what its predecessors left.
  function RunData(ms: seq<TcpModule>, ctx: TcpContext): TcpContext {
    if ms == [] then ctx
    else
      var n := |ms| - 1;
      var before := RunData(ms[..n], ctx);
      match ms[n].onData
      case None => before
      case Some(hook) => hook(before)
  }

  function DataCalls(ms: seq<TcpModule>): seq<nat> {
    if ms == [] then []
    else
      var n := |ms| - 1;
      if ms[n].onData.Some? then DataCalls(ms[..n]) + [ms[n].id] else DataCalls(ms[..n])
  }

  // contexts are those that the hooks of ms, called one after the other, are given and leave.
  ghost predicate HookChain(ms: seq<TcpModule>, ctx: TcpContext, contexts: seq<TcpContext>) {
    && |contexts| == |ms| + 1 && contexts[0] == ctx
    && forall i :: 0 <= i < |ms| ==>
         contexts[i + 1] == match ms[i].onData case None => contexts[i] case Some(hook) => hook(contexts[i])
  }

  // last is what the hooks of ms make of ctx.
  ghost predicate ThroughHooks(ms: seq<TcpModule>, ctx: TcpContext, last: TcpContext) {
    exists contexts :: HookChain(ms, ctx, contexts) && contexts[|ms|] == last
  }

  lemma {:induction false} HookChainExists(ms: seq<TcpModule>, ctx: TcpContext) returns (contexts: seq<TcpContext>)
    ensures HookChain(ms, ctx, contexts) && contexts[|ms|] == RunData(ms, ctx)
  {
    if ms == [] {
      contexts := [ctx];
    } else {
      var n := |ms| - 1;
      var front := HookChainExists(ms[..n], ctx);
      contexts := front + [RunData(ms, ctx)];
    }
  }

  lemma {:induction false} HookChainUnique(ms: seq<TcpModule>, ctx: TcpContext, contexts: seq<TcpContext>)
    requires HookChain(ms, ctx, contexts)
    ensures contexts[|ms|] == RunData(ms, ctx)
  {
    if ms == [] {
    } else {
      HookChainUnique(ms[..|ms| - 1], ctx, contexts[..|ms|]);
    }
  }

  // Every hook is called with what its predecessors left, and what the last one leaves is the result.
  lemma RunDataIsThroughHooks(ms: seq<TcpModule>, ctx: TcpContext)
    ensures forall last :: ThroughHooks(ms, ctx, last) <==> last == RunData(ms, ctx)
  {
    var contexts := HookChainExists(ms, ctx);
    forall last | ThroughHooks(ms, ctx, last) ensures last == RunData(ms, ctx) {
      var any :| HookChain(ms, ctx, any) && any[|ms|] == last;
      HookChainUnique(ms, ctx, any);
    }
  }

  // The modules called for a chunk are those with a data hook, each once and in their order.
  lemma {:induction false} DataCallsAreHooked(ms: seq<TcpModule>)
    ensures
      var hooked := Filter(ms, (m: TcpModule) => m.onData.Some?);
      DataCalls(ms) == seq(|hooked|, i requires 0 <= i < |hooked| => hooked[i].id)
  {
    if ms == [] {
    } else {
      var n := |ms| - 1;
      var front := ms[..n];
      DataCallsAreHooked(front);
      assert ms == front + [ms[n]];
      FilterInsert(front, ms[n], [], (m: TcpModule) => m.onData.Some?);
      assert [ms[n]] + [] == [ms[n]] && front + [] == front;
    }
  }

  // The context after the chain has seen chunk; everything but chunk and direction is carried over.
  function Feed(ms: seq<TcpModule>, ctx: TcpContext, direction: FlowDirection, chunk: Chunk): TcpContext {
    RunData(ms, TcpContext(Some(chunk), ctx.meta.(direction := Some(direction))))
  }

  // A hook that takes the chunk away leaves nothing to write.
  function Output(ctx: TcpContext): bytes {
    match ctx.chunk
    case None => []
    case Some(data) => data
  }

  // The context after a run of chunks.
  function ContextAfter(ms: seq<TcpModule>, ctx: TcpContext, direction: FlowDirection, chunks: seq<Chunk>): TcpContext {
    if chunks == [] then ctx
    else
      var n := |chunks| - 1;
      Feed(ms, ContextAfter(ms, ctx, direction, chunks[..n]), direction, chunks[n])
  }

  // What a direction owes its peer for a run of chunks: the chain's results, one after the other.
  function Rendered(ms: seq<TcpModule>, ctx: TcpContext, direction: FlowDirection, chunks: seq<Chunk>): bytes {
    if chunks == [] then []
    else
      Rendered(ms, ctx, direction, chunks[..|chunks| - 1]) + Output(ContextAfter(ms, ctx, direction, chunks))
  }

  // How a loop that reads input ends when its peer, given sent before, takes no more than capacity bytes in all:
  // all that the chain rendered is written, in order and nothing else, unless the peer stops taking it.
  ghost predicate Ends(
    ms: seq<TcpModule>, ctx: TcpContext, direction: FlowDirection, input: Input, sent: bytes, capacity: Option<nat>,
    r: Result<(), TransferError>, written: bytes, last: TcpContext)
  {
    var all := sent + Rendered(ms, ctx, direction, input.chunks);
    if capacity.None? || |all| <= capacity.value then
      && written == all
      && last == ContextAfter(ms, ctx, direction, input.chunks)
      && r == if input.breaks then Err(ReadFailed) else Ok(())
    else
      written == all[..capacity.value] && r == Err(WriteFailed)
  }

  // A copy loop told chunk by chunk: contexts[n] is the context before chunk n is read and outputs[n] what was handed
  // to the peer by then. The hooks are given the old context with the new chunk and the direction in it, and the chunk
  // that they leave, if any, is handed on.
  ghost predicate CopySteps(
    ms: seq<TcpModule>, ctx: TcpContext, direction: FlowDirection, chunks: seq<Chunk>,
    contexts: seq<TcpContext>, outputs: seq<bytes>)
  {
    && |contexts| == |outputs| == |chunks| + 1 && contexts[0] == ctx && outputs[0] == []
    && forall n :: 0 <= n < |chunks| ==>
         CopyStep(ms, direction, chunks[n], contexts[n], contexts[n + 1], outputs[n], outputs[n + 1])
  }

  ghost predicate CopyStep(
    ms: seq<TcpModule>, direction: FlowDirection, chunk: Chunk, before: TcpContext, after: TcpContext,
    had: bytes, have: bytes)
  {
    && ThroughHooks(ms, TcpContext(Some(chunk), before.meta.(direction := Some(direction))), after)
    && have == had + match after.chunk case None => [] case Some(data) => data
  }

  lemma {:induction false} CopyStepsExist(
    ms: seq<TcpModule>, ctx: TcpContext, direction: FlowDirection, chunks: seq<Chunk>)
    returns (contexts: seq<TcpContext>, outputs: seq<bytes>)
    ensures CopySteps(ms, ctx, direction, chunks, contexts, outputs)
  {
    if chunks == [] {
      contexts, outputs := [ctx], [[]];
    } else {
      var n := |chunks| - 1;
      var cs, os := CopyStepsExist(ms, ctx, direction, chunks[..n]);
      var given := TcpContext(Some(chunks[n]), cs[n].meta.(direction := Some(direction)));
      RunDataIsThroughHooks(ms, given);
      var after := RunData(ms, given);
      contexts := cs + [after];
      outputs := os + [os[n] + match after.chunk case None => [] case Some(data) => data];
      forall k | 0 <= k < |chunks|
        ensures CopyStep(ms, direction, chunks[k], contexts[k], contexts[k + 1], outputs[k], outputs[k + 1])
      {
        if k < n {
          assert CopyStep(ms, direction, chunks[..n][k], cs[k], cs[k + 1], os[k], os[k + 1]);
        }
      }
    }
  }

  // However the steps are told, they come to what the loop owes and the context it ends with.
  lemma {:induction false} RenderedFollowsHooks(
    ms: seq<TcpModule>, ctx: TcpContext, direction: FlowDirection, chunks: seq<Chunk>,
    contexts: seq<TcpContext>, outputs: seq<bytes>)
    requires CopySteps(ms, ctx, direction, chunks, contexts, outputs)
    ensures ContextAfter(ms, ctx, direction, chunks) == contexts[|chunks|]
    ensures Rendered(ms, ctx, direction, chunks) == outputs[|chunks|]
  {
    if chunks == [] {
    } else {
      var n := |chunks| - 1;
      RenderedFollowsHooks(ms, ctx, direction, chunks[..n], contexts[..n + 1], outputs[..n + 1]);
      assert CopyStep(ms, direction, chunks[n], contexts[n], contexts[n + 1], outputs[n], outputs[n + 1]);
      RunDataIsThroughHooks(ms, TcpContext(Some(chunks[n]), contexts[n].meta.(direction := Some(direction))));
    }
  }

  // So a loop ends by writing what the hooks made of the chunks, or as much of it as the peer takes.
  lemma EndsFollowHooks(
    ms: seq<TcpModule>, ctx: TcpContext, direction: FlowDirection, input: Input, sent: bytes, capacity: Option<nat>,
    r: Result<(), TransferError>, written: bytes, last: TcpContext, contexts: seq<TcpContext>, outputs: seq<bytes>)
    requires Ends(ms, ctx, direction, input, sent, capacity, r, written, last)
    requires CopySteps(ms, ctx, direction, input.chunks, contexts, outputs)
    ensures
      var all := sent + outputs[|input.chunks|];
      if capacity.None? || |all| <= capacity.value then
        && written == all && last == contexts[|input.chunks|]
        && r == if input.breaks then Err(ReadFailed) else Ok(())
      else written == all[..capacity.value] && r == Err(WriteFailed)
  {
    RenderedFollowsHooks(ms, ctx, direction, input.chunks, contexts, outputs);
  }

  // The sending half of a connection. A peer that goes away takes no more than capacity bytes in all.
  class WriteHalf {
    const capacity: Option<nat>
    var written: bytes

    ghost predicate Valid()
      reads this
    {
      capacity.Some? ==> |written| <= capacity.value
    }

    constructor (capacity: Option<nat>)
      ensures Valid() && written == [] && this.capacity == capacity
    {
      this.capacity, written := capacity, [];
    }

    predicate Takes(data: bytes)
      reads this
    {
      capacity.None? || |written| + |data| <= capacity.value
    }

    method WriteAll(data: bytes) returns (ok: bool)
      requires Valid()
      modifies this
      ensures Valid()
      ensures ok == old(Takes(data))
      ensures written == old(written) + if ok then data else data[..capacity.value - |old(written)|]
    {
      ok := Takes(data);
      written := written + if ok then data else data[..capacity.value - |written|];
    }
  }

  class Flow {
    var ctx: TcpContext
    var calls: seq<nat>

    constructor (ctx: TcpContext)
      ensures this.ctx == ctx && calls == []
    {
      this.ctx, calls := ctx, [];
    }

    method DataReceived(modules: seq<TcpModule>)
      modifies this
      ensures ctx == RunData(modules, old(ctx)) && calls == old(calls) + DataCalls(modules)
      ensures ThroughHooks(modules, old(ctx), ctx)
    {
      RunDataIsThroughHooks(modules, ctx);
      for i := 0 to |modules|
        invariant ctx == RunData(modules[..i], old(ctx)) && calls == old(calls) + DataCalls(modules[..i])
      {
        assert modules[..i + 1][..i] == modules[..i];
        if modules[i].onData.Some? {
          ctx := modules[i].onData.value(ctx);
          calls := calls + [modules[i].id];
        }
      }
      assert modules[..|modules|] == modules;
    }

    method Transfer(input: Input, w: WriteHalf, modules: seq<TcpModule>, direction: FlowDirection)
      returns (r: Result<(), TransferError>)
      requires w.Valid()
      modifies this, w
      ensures w.Valid()
      ensures Ends(modules, old(ctx), direction, input, old(w.written), w.capacity, r, w.written, ctx)
    {
      for i := 0 to |input.chunks|
        invariant w.Valid()
        invariant ctx == ContextAfter(modules, old(ctx), direction, input.chunks[..i])
        invariant w.written == old(w.written) + Rendered(modules, old(ctx), direction, input.chunks[..i])
      {
        OneMore(modules, old(ctx), direction, input.chunks, i, old(w.written));
        ctx := TcpContext(Some(input.chunks[i]), ctx.meta.(direction := Some(direction)));
        DataReceived(modules);
        if ctx.chunk.Some? {
          var ok := w.WriteAll(ctx.chunk.value);
          if !ok {
            CutShort(modules, old(ctx), direction, input.chunks, i, old(w.written), w.capacity.value);
            return Err(WriteFailed);
          }
        }
      }
      assert input.chunks[..|input.chunks|] == input.chunks;
      assert old(w.Takes(Rendered(modules, ctx, direction, input.chunks)));
      return if input.breaks then Err(ReadFailed) else Ok(());
    }
  }

  // What is owed for the first chunks is a prefix of what is owed for all.
  lemma {:induction false} RenderedPrefix(
    ms: seq<TcpModule>, ctx: TcpContext, direction: FlowDirection, chunks: seq<Chunk>, k: nat)
    requires k <= |chunks|
    ensures Rendered(ms, ctx, direction, chunks[..k]) <= Rendered(ms, ctx, direction, chunks)
  {
    if k == |chunks| {
      assert chunks[..k] == chunks;
    } else {
      var front := chunks[..|chunks| - 1];
      RenderedPrefix(ms, ctx, direction, front, k);
      assert front[..k] == chunks[..k];
    }
  }

  // What chunk i adds to the context and to what is owed on top of sent.
  lemma OneMore(
    ms: seq<TcpModule>, ctx: TcpContext, direction: FlowDirection, chunks: seq<Chunk>, i: nat, sent: bytes)
    requires i < |chunks|
    ensures
      var next := ContextAfter(ms, ctx, direction, chunks[..i + 1]);
      var had, have := Rendered(ms, ctx, direction, chunks[..i]), Rendered(ms, ctx, direction, chunks[..i + 1]);
      && next == Feed(ms, ContextAfter(ms, ctx, direction, chunks[..i]), direction, chunks[i])
      && sent + have == sent + had + Output(next)
      && (next.chunk.None? ==> sent + have == sent + had)
  {
    assert chunks[..i + 1][..i] == chunks[..i];
  }

  // When the output for chunk i no longer fits, neither does all that is due, and both are cut at the same place.
  lemma CutShort(
    ms: seq<TcpModule>, ctx: TcpContext, direction: FlowDirection, chunks: seq<Chunk>, i: nat, sent: bytes,
    capacity: nat)
    requires i < |chunks|
    ensures
      var due, had := Rendered(ms, ctx, direction, chunks), sent + Rendered(ms, ctx, direction, chunks[..i]);
      var out := Output(ContextAfter(ms, ctx, direction, chunks[..i + 1]));
      |had| <= capacity < |had| + |out| ==>
        |sent + due| > capacity && had + out[..capacity - |had|] == (sent + due)[..capacity]
  {
    var due, had := Rendered(ms, ctx, direction, chunks), sent + Rendered(ms, ctx, direction, chunks[..i]);
    var out := Output(ContextAfter(ms, ctx, direction, chunks[..i + 1]));
    if |had| <= capacity < |had| + |out| {
      OneMore(ms, ctx, direction, chunks, i, sent);
      RenderedPrefix(ms, ctx, direction, chunks, i + 1);
      assert had + out <= sent + due;
      assert had + out[..capacity - |had|] == (had + out)[..capacity];
    }
  }

  // The modules called for a chunk are a subsequence of the dispatch order.
  lemma {:induction false} DataCallsFollowOrder(ms: seq<TcpModule>, ids: seq<nat>)
    requires |ids| == |ms| && forall i :: 0 <= i < |ms| ==> ids[i] == ms[i].id
    ensures IsSubsequence(DataCalls(ms), ids)
  {
    if ms == [] {
    } else {
      var n := |ms| - 1;
      DataCallsFollowOrder(ms[..n], ids[..n]);
      assert ids == ids[..n] + [ids[n]];
      if ms[n].onData.Some? {
        SubsequenceSnoc(DataCalls(ms[..n]), ids[..n], ids[n]);
      } else {
        SubsequenceOfPrefix(DataCalls(ms[..n]), ids[..n], [ids[n]]);
      }
    }
  }

  lemma {:induction false} SubsequenceSnoc<T>(a: seq<T>, b: seq<T>, x: T)
    requires IsSubsequence(a, b)
    ensures IsSubsequence(a + [x], b + [x])
  {
    if b == [] {
      assert a == [] && a + [x] == [x] && b + [x] == [x];
      assert [x][1..] == [];
    } else {
      assert (b + [x])[1..] == b[1..] + [x];
      if a != [] && a[0] == b[0] && IsSubsequence(a[1..], b[1..]) {
        SubsequenceSnoc(a[1..], b[1..], x);
        assert (a + [x])[1..] == a[1..] + [x];
      } else {
        SubsequenceSnoc(a, b[1..], x);
      }
    }
  }

  // ------------------------------------------------------------ transparent chains

  // No hook touches the context.
  ghost predicate Transparent(ms: seq<TcpModule>) {
    forall i :: 0 <= i < |ms| && ms[i].onData.Some? ==> forall ctx :: ms[i].onData.value(ctx) == ctx
  }

  lemma {:induction false} TransparentRun(ms: seq<TcpModule>, ctx: TcpContext)
    requires Transparent(ms)
    ensures RunData(ms, ctx) == ctx
  {
    if ms == [] {
    } else {
      TransparentRun(ms[..|ms| - 1], ctx);
    }
  }

  function Joined(chunks: seq<Chunk>): bytes {
    if chunks == [] then [] else Joined(chunks[..|chunks| - 1]) + chunks[|chunks| - 1]
  }

  // With no-op hooks output equals input, however the reads were split.
  lemma {:induction false} TransparentChainCopies(
    ms: seq<TcpModule>, ctx: TcpContext, direction: FlowDirection, chunks: seq<Chunk>)
    requires Transparent(ms)
    ensures Rendered(ms, ctx, direction, chunks) == Joined(chunks)
  {
    if chunks == [] {
    } else {
      var n := |chunks| - 1;
      TransparentChainCopies(ms, ctx, direction, chunks[..n]);
      var meta := ContextAfter(ms, ctx, direction, chunks[..n]).meta.(direction := Some(direction));
      TransparentRun(ms, TcpContext(Some(chunks[n]), meta));
    }
  }

  lemma SplitDoesNotMatter(
    ms: seq<TcpModule>, ctx: TcpContext, direction: FlowDirection, a: seq<Chunk>, b: seq<Chunk>)
    requires Transparent(ms) && Joined(a) == Joined(b)
    ensures Rendered(ms, ctx, direction, a) == Rendered(ms, ctx, direction, b)
  {
    TransparentChainCopies(ms, ctx, direction, a);
    TransparentChainCopies(ms, ctx, direction, b);
  }
}
