# Vakil, modelled and proved

Vakil is a programmable proxy: it loads plugin libraries, orders their modules by priority, and passes HTTP
requests and TCP connections through the modules' hooks. This project models the parts that carry state or
parse text, in Dafny 4.11, and proves what they promise. `dafny verify dfyconfig.toml` checks everything.

| Part of Vakil | Modules |
|---|---|
| Sticky L4 balancer plugin | `StickyConfig`, `StickyBalancer`, `StickyRuns`, `StickyThreads`, `StickyInit` |
| HTTP hook chain | `HttpChain`, `HttpExchange`, `HttpChainProperties`, `HttpChainSteps` |
| Dispatch order | `Dispatch`, `DispatchedCalls` |
| TCP data path | `TcpTransfer`, `TcpJoin` |
| Start-up text formats | `RuntimeConfig`, `RuntimeConfigProperties`, `PluginPaths`, `SocketAddresses`, `Versions` |
| Plugin lifecycle | `PluginLifecycle`, `PluginLifecycleProperties` |
| Round-robin example plugin | `RoundRobin` |
| Shared definitions | `Prelude`, `Text`, `Decimal`, `PluginSys` |

How it is put together:

- Code that updates state in place is a class or a loop here too (`StickyBalancer.SharedState`,
  `StickyInit.SharedInitState`, `HttpExchange.Exchange`, `TcpTransfer.Flow`, `PluginLifecycle.LoadedPlugin`,
  `RoundRobin.RequestCounter`). Each method's contract gives its whole new state as a function of the old one,
  and the lemmas are about that function over whole runs.
- Threads and the two directions of a connection are sequences of atomic actions in any order; the results hold
  for every such sequence.
- Plugin hooks are arbitrary functions of the context they are handed, so what is proved holds for all plugins
  whose answers depend on the context alone.
- Text is modelled character by character: trimming, splitting, lines and decimal numbers are spelled out in
  `Text` and `Decimal`.
- Parameters stand for what other libraries decide: the Xxh3 digest and UTF-8 encoding (`Hasher`), whether a text
  is a socket address (`AddrReader`) or a URI path (`PathReader`), whether a connection takes a reply (`canSend`),
  how a library and its factories behave (`Library`, `Factory`), and what a clock reads.

Where the code does not always do what one would expect of it, the model follows the code, a lemma gives an input
on which the expectation fails, and another says exactly on which inputs it holds:

- docs/ABI.md:54-61 promises a shutdown of each module before its library is unloaded. A plugin that fails after
  one of its modules was initialised is unloaded without it (`HalfwayFailureLeaks`). The promise is kept if and only
  if the first attempt to load that fails, if there is one, is not at a file that fails at a factory after one it
  declares (`BalancedUnlessHalfway`).
- The sticky balancer reads its clock before it takes the lock. A request that read the clock before its entry was
  due for renewal, but gets the lock after a reading at which the entry expires, misses the cache and renews the
  entry early (`OutOfOrderRenewsEarly`, for every ttl there can be; two threads are enough, `RaceRenewsEarly`).
  The cache renews each key greedily from that key's own requests if and only if no request is overtaken in this
  way (`GreedyIffNeverOvertaken`, over schedules of threads `GreedyThroughoutIffNeverOvertaken`), and only then are
  other keys' requests without effect (`OthersInvisibleIffNeverOvertaken`); the schedule, the ttl and the keys
  served decide it (`ScheduleDecidesOvertaking`), and readings in lock order suffice (`CacheIsGreedyRenewal`).
  The backend returned is right in every case (`EveryReplyIsPlain`).
- The round-robin counter wraps at 2^64, which 3 does not divide, so over a window of tickets the upstreams' counts
  need not be within one of each other (`WrapRepeatsATarget`). They are if and only if the parts of the window
  before and after the wrap leave certain remainders by 3, read off its start and length (`FairIffRoundsFit`).

## Model

| member | source | states |
|---|---|---|
| `StickyConfig.Normalize` | plugins/example-l4-sticky/src/lib.rs:373-381 | Rejects exactly the blank values, naming the field; what it returns is trimmed and not empty. |
| `StickyConfig.NormalizeBackends` | plugins/example-l4-sticky/src/lib.rs:480-488 | Accepts exactly the lists without blank entries, and returns them trimmed, in order. |
| `StickyConfig.LoadListeners` | plugins/example-l4-sticky/src/lib.rs:450-461 | Accepts exactly listeners with non-blank names distinct after trimming and non-blank backends; otherwise reports the first offending listener and its first defect. |
| `StickyConfig.TryFrom` | plugins/example-l4-sticky/src/lib.rs:445-476 | Accepts exactly the configurations with a non-zero ttl, good listeners, non-blank fallbacks and at least one of the two; the result has that many seconds in nanoseconds as its ttl and maps trimmed names to trimmed backends; each rejection names its first cause. |
| `StickyConfig.LoadedUnique` | plugins/example-l4-sticky/src/lib.rs:442-477 | What TryFrom promises of a loaded configuration determines it completely. |
| `StickyConfig.PoolServed` | plugins/example-l4-sticky/src/lib.rs:434-439 | A listener is served by its own trimmed backends, every other name by the fallback pool. |
| `StickyConfig.LoadIdempotent` | plugins/example-l4-sticky/src/lib.rs:442-488 | Loading a loaded configuration again, its listeners in any order, accepts it and changes nothing. |
| `StickyBalancer.ChoiceByDigest` | plugins/example-l4-sticky/src/lib.rs:496-505 | The backend chosen is the one at the digest of the listener's and the address's bytes, modulo the size of the pool. |
| `StickyBalancer.LockedSectionIsChoice` | plugins/example-l4-sticky/src/lib.rs:412-429 | On a cache of plain choices, re-validation never fails, the answer is the plain choice whether the entry was there or not, and the new cache is again one of plain choices. |
| `StickyBalancer.SharedState.SelectBackend` | plugins/example-l4-sticky/src/lib.rs:391-430 | Sweeping, looking up, re-validating and inserting returns what `choose_backend` would return, or the error for an empty pool which leaves the cache alone; afterwards every entry outlives the clock reading. |
| `StickyRuns.CacheHolds` | plugins/example-l4-sticky/src/lib.rs:405-429 | After any run of calls, with clock readings in any order, a key's entry is the plain choice and expires one ttl after the insertion that no reading has reached since. |
| `StickyRuns.HeldWasInserted` | plugins/example-l4-sticky/src/lib.rs:412-427 | A held entry was inserted by a request for its own key, and no later call's reading reached its expiry. |
| `StickyRuns.EntriesOutliveSweep` | plugins/example-l4-sticky/src/lib.rs:405-429 | After any run every entry expires after the last reading that swept the cache, and was inserted by a call less than the ttl before it. |
| `StickyRuns.EntriesAreRecent` | plugins/example-l4-sticky/src/lib.rs:405-429 | After a successful call at time now, every entry expires after now and was inserted by a call later than now - ttl. |
| `StickyRuns.SizeBound` | plugins/example-l4-sticky/src/lib.rs:405-429 | After any run the cache is no larger than the number of distinct keys requested within a ttl of the last reading that swept it, which after a successful call is that call's. |
| `StickyRuns.CacheIsGreedyRenewal` | plugins/example-l4-sticky/src/lib.rs:405-429 | With readings in lock order, the cache throughout any run is, key by key, the greedy renewal of that key's own requests, until the last sweep reaches its expiry: renewed by the first request at or after the last renewal + ttl, never extended by a hit. |
| `StickyRuns.GreedyIffNeverOvertaken` | plugins/example-l4-sticky/src/lib.rs:405-429 | For any readings in any order: every request for a key hits or misses as greedy renewal of its own requests says, and the cache always holds what it says, if and only if none of these requests read the clock before its entry was due and got the lock after a reading at which the entry expires. |
| `StickyRuns.AloneIsGreedy` | plugins/example-l4-sticky/src/lib.rs:412-427 | A key's requests on their own always see greedy renewal, in whatever order their readings come. |
| `StickyRuns.OthersInvisibleIffNeverOvertaken` | plugins/example-l4-sticky/src/lib.rs:412-427 | Requests for other keys never change whether a key's request hits if and only if none of its requests is overtaken. |
| `StickyRuns.OtherKeysDoNotMatter` | plugins/example-l4-sticky/src/lib.rs:412-427 | A request for a key that was never overtaken leaves its entry as it would be had no other key ever been requested. |
| `StickyRuns.OutOfOrderRenewsEarly` | plugins/example-l4-sticky/src/lib.rs:405-412 | For every ttl of at least two nanoseconds, three calls with the last one overtaken: it misses the cache and renews an entry that was not due. |
| `StickyThreads.EveryReplyIsPlain` | plugins/example-l4-sticky/src/lib.rs:391-430 | Under every interleaving of clock readings and locked sections, each call on a non-empty pool is answered by the plain choice and each call on an empty one by the error. |
| `StickyThreads.ThreadsRefineRuns` | plugins/example-l4-sticky/src/lib.rs:405-429 | The shared cache is that of the finished calls run one after another in lock order. |
| `StickyThreads.ExpiryBounded` | plugins/example-l4-sticky/src/lib.rs:405-427 | In every reachable state no entry expires later than the clock + ttl. |
| `StickyThreads.SharedIsRecent` | plugins/example-l4-sticky/src/lib.rs:405-429 | In every reachable state every entry expires after the last reading that swept the cache, and was inserted by a finished call less than the ttl before it. |
| `StickyThreads.SharedSizeBound` | plugins/example-l4-sticky/src/lib.rs:405-429 | In every reachable state the cache is no larger than the number of distinct keys requested within a ttl of that reading. |
| `StickyThreads.OrderedThreadsRenewGreedily` | plugins/example-l4-sticky/src/lib.rs:405-429 | Whenever the threads took the lock in the order of their readings, every key sees greedy renewal of its own requests. |
| `StickyThreads.GreedyThroughoutIffNeverOvertaken` | plugins/example-l4-sticky/src/lib.rs:405-429 | Over any schedule, the shared cache holds for a key what greedy renewal says in every state passed through if and only if no reply to a request for it was overtaken. |
| `StickyThreads.ScheduleDecidesOvertaking` | plugins/example-l4-sticky/src/lib.rs:405-429 | Whether a schedule overtakes, and so whether it renews greedily, depends on the schedule, the ttl and the keys served alone, not on backends, hasher or cache. |
| `StickyThreads.RaceRenewsEarly` | plugins/example-l4-sticky/src/lib.rs:405-410 | For every ttl of at least two nanoseconds, a schedule of two racing threads that reaches the early renewal. |
| `StickyInit.SharedInitState.EnsureState` | plugins/example-l4-sticky/src/lib.rs:290-318 | Returns the latched state or error if there is one, and otherwise loads and latches what it found. |
| `StickyInit.FirstCallDecides` | plugins/example-l4-sticky/src/lib.rs:290-318 | Over any run of calls with any contexts, the slot holds what the first call found. |
| `StickyInit.LoadsOnce` | plugins/example-l4-sticky/src/lib.rs:284-318 | Loading runs at most once, and state and error are never both set. |
| `StickyInit.AnswersAgree` | plugins/example-l4-sticky/src/lib.rs:296-316 | The first call answers what loading gave it; after a success every call answers the same state, after a failure every later call reports the first error's message, or the standing one if it had none. |
| `PluginSys.HttpContext.SetRoute` | crates/vakil-plugin-sys/src/lib.rs:435-448 | The route read back is the one set if there is a transport, whose connection and direction stay as they are, as do request and response; without a transport it fails. |
| `Dispatch.SortByPriority` | crates/vakil-runtime/src/lib.rs:115-118 | Ascending by priority, and within each priority exactly the loaded modules in load order. |
| `Dispatch.DispatchOrderUnique` | crates/vakil-runtime/src/lib.rs:115-118 | There is only one such order. |
| `Dispatch.DispatchOrderPermutes` | crates/vakil-runtime/src/lib.rs:101-118 | The order is a permutation of the loaded modules. |
| `Dispatch.HttpDispatchInOrder` | crates/vakil-runtime/src/lib.rs:96-125 | Told by plugin numbers and the priority field alone: every HTTP module is there, once, from the plugin named; priorities ascend, and within one the plugin numbers do. |
| `Dispatch.TcpDispatchInOrder` | crates/vakil-runtime/src/lib.rs:96-125 | The same for TCP modules. |
| `Dispatch.UdpDispatchInOrder` | crates/vakil-runtime/src/lib.rs:96-125 | The same for UDP modules. |
| `Dispatch.FromLoaded` | crates/vakil-runtime/src/lib.rs:96-125 | For each protocol, the modules the plugins bring, each once, by ascending priority; of two with one priority that of the plugin loaded first stands first. |
| `HttpExchange.Exchange.UpstreamPeer` | crates/vakil-runtime/src/http.rs:21-68 | The loop's outcome, context, calls and rewritten URI are those of the selection function, to which the results below apply. |
| `HttpChainSteps.RouteTraceExists` | crates/vakil-runtime/src/http.rs:27-35 | Such a telling exists for every chain and context. |
| `HttpChainSteps.SelectionFollowsSteps` | crates/vakil-runtime/src/http.rs:27-67 | Told from the hooks alone: each route hook is called with the context its predecessors left, up to the first that returns Drop with a route present (503) or Replace with an upstream (that peer, TLS exactly on port 443); an error counts as none of these; without such a module every hook is called and the outcome is 500. |
| `HttpChainProperties.FirstDecisiveWins` | crates/vakil-runtime/src/http.rs:27-66 | The first decisive module on the threaded context settles the outcome: the replacement peer, with TLS exactly on port 443, or 503 on Drop; the hooks called are those up to it. |
| `HttpChainProperties.NoDecisionFails` | crates/vakil-runtime/src/http.rs:27-67 | Without a decisive module every route hook is called and the request fails with 500. |
| `HttpChainProperties.FailsIffUndecided` | crates/vakil-runtime/src/http.rs:27-67 | The outcome is 500 exactly when no module is decisive. |
| `HttpChainProperties.InertModulesDoNotMatter` | crates/vakil-runtime/src/http.rs:28-40 | Leaving out all modules that keep the context and continue or fail changes neither outcome nor context. |
| `HttpChainProperties.InertInsertion` | crates/vakil-runtime/src/http.rs:28-40 | Such a module may be put in at any place without changing the outcome. |
| `HttpChainProperties.RouteErrorsCountAsContinue` | crates/vakil-runtime/src/http.rs:29-30 | Replacing every hook's error by Continue changes nothing in the upstream selection. |
| `HttpExchange.Exchange.RequestFilter` | crates/vakil-runtime/src/http.rs:98-127 | The loop's context, calls and reply are those of the header-chain function; the result says whether the request was answered. |
| `HttpExchange.Exchange.UpstreamRequestFilter` | crates/vakil-runtime/src/http.rs:166-194 | The second copy of the loop has the same context, calls and reply, by the same function. |
| `HttpChainSteps.HeaderTraceExists` | crates/vakil-runtime/src/http.rs:100-120 | Such a telling exists for every chain and context. |
| `HttpChainSteps.HeadersFollowSteps` | crates/vakil-runtime/src/http.rs:98-127 | Told from the hooks alone: each header hook is called with the context its predecessors left, and its module's own local-reply hook after it when a response exists or it returned Replace; the first module whose turn leaves a response ends the chain, and that response's status and body are the reply. |
| `HttpChainProperties.FirstAnswerReplies` | crates/vakil-runtime/src/http.rs:166-188 | From any context, with a response or without: the reply is the response left by the first module that took part and left one, and the calls are exactly those of the modules up to it. |
| `HttpChainProperties.AnsweredIff` | crates/vakil-runtime/src/http.rs:166-192 | From any context, the chain short-circuits exactly when some module takes part and leaves a response. |
| `HttpChainProperties.FirstResponseReplies` | crates/vakil-runtime/src/http.rs:100-120 | The reply is the response at the first module whose step leaves one, and the calls are exactly those of the modules up to it. |
| `HttpChainProperties.NoResponsePassesOn` | crates/vakil-runtime/src/http.rs:100-127 | When no step leaves a response every module is visited and nothing is sent. |
| `HttpChainProperties.ShortCircuitsIff` | crates/vakil-runtime/src/http.rs:98-125 | Starting without a response, the chain short-circuits exactly when some module's step leaves one. |
| `HttpChainProperties.HeaderErrorsCountAsContinue` | crates/vakil-runtime/src/http.rs:102-108 | Replacing every hook's error by Continue changes nothing in the header chain. |
| `HttpChainProperties.RouteCallsFollowOrder` | crates/vakil-runtime/src/http.rs:27-66 | The route hooks called are a subsequence of the dispatch order. |
| `HttpChainProperties.HeaderCallsFollowOrder` | crates/vakil-runtime/src/http.rs:100-120 | In each phase of the header chain the hooks called are a subsequence of the dispatch order. |
| `DispatchedCalls.RouteCallsFollowDispatch` | crates/vakil-runtime/src/lib.rs:96-125 | The route hooks called on the loaded plugins' modules are those of modules that ascend by priority and keep load order within a priority. |
| `DispatchedCalls.HeaderCallsFollowDispatch` | crates/vakil-runtime/src/lib.rs:96-125 | So are, phase by phase, the hooks called for a request's headers. |
| `DispatchedCalls.DataCallsFollowDispatch` | crates/vakil-runtime/src/lib.rs:96-125 | So are the data hooks called for a chunk of a TCP connection. |
| `TcpTransfer.Flow.DataReceived` | crates/vakil-runtime/src/l4.rs:22-29 | The chunk passes through all data hooks in dispatch order, each given what its predecessors left, and what the last one leaves is the result. |
| `TcpTransfer.RunDataIsThroughHooks` | crates/vakil-runtime/src/l4.rs:22-29 | There is exactly one sequence of contexts that starts with the given one and goes on with what each hook makes of the one before; the chain's result is its last. |
| `TcpTransfer.DataCallsAreHooked` | crates/vakil-runtime/src/l4.rs:23-27 | The modules called are exactly those with a data hook, each once and in their order. |
| `TcpTransfer.WriteHalf.WriteAll` | crates/vakil-l4/src/lib.rs:290-292 | Writes all the data, or as much as the peer still takes and reports failure. |
| `TcpTransfer.Flow.Transfer` | crates/vakil-l4/src/lib.rs:258-301 | Ends as `Ends` says: all that the chain rendered for the chunks read is written, in order and nothing else; if the peer stops taking it, exactly a prefix is, and the loop fails. |
| `TcpTransfer.CopyStepsExist` | crates/vakil-l4/src/lib.rs:272-300 | A telling of the loop chunk by chunk exists for every chain, context and input. |
| `TcpTransfer.RenderedFollowsHooks` | crates/vakil-l4/src/lib.rs:272-300 | Told chunk by chunk from the hooks: each is given the old context with the new chunk and the direction in it, and the chunk it leaves, if any, is what is added to the output. |
| `TcpTransfer.EndsFollowHooks` | crates/vakil-l4/src/lib.rs:272-300 | So a loop ends by having written exactly what the hooks made of the chunks, or as much of it as the peer took. |
| `TcpTransfer.RenderedPrefix` | crates/vakil-l4/src/lib.rs:272-300 | What is owed for the first chunks is a prefix of what is owed for more: output is never revised. |
| `TcpTransfer.DataCallsFollowOrder` | crates/vakil-runtime/src/l4.rs:22-29 | The modules called for a chunk are a subsequence of the dispatch order. |
| `TcpTransfer.TransparentChainCopies` | crates/vakil-l4/src/lib.rs:272-300 | With hooks that do nothing, what is owed is the input itself. |
| `TcpTransfer.SplitDoesNotMatter` | crates/vakil-l4/src/lib.rs:273-281 | With such hooks, how the reads split the input does not matter. |
| `TcpJoin.InvHolds` | crates/vakil-l4/src/lib.rs:110-125 | In every reachable state of the two interleaved loops, in each direction, what is written and about to be written is the chain's results over the chunks read, and the context is that chain's. |
| `TcpJoin.WrittenIsRendered` | crates/vakil-l4/src/lib.rs:110-125 | What is written is always a prefix of the chain's results, and all of them at each read boundary and at the end. |
| `TcpJoin.DirectionsAreIndependent` | crates/vakil-l4/src/lib.rs:110-125 | Two connections, however scheduled and whatever the other direction did, agree on a direction in which they read the same chunks. |
| `TcpJoin.ReadingOnAddsOutput` | crates/vakil-l4/src/lib.rs:110-125 | A direction that has read less owes, and has written, a prefix of what it owes after reading more, whatever the schedules. |
| `TcpJoin.LoopRunsAsAlone` | crates/vakil-l4/src/lib.rs:110-125 | While neither loop failed, each is in the state it would have reached without the other. |
| `TcpJoin.EndsAsTransfer` | crates/vakil-l4/src/lib.rs:110-125 | A loop that ended in the join, at its end of stream or by failing it, stands in the relation `Ends` that `Flow.Transfer` ensures, for the chunks it read and a peer that takes everything, or what was written if the write failed. |
| `TcpJoin.FailureIsFinal` | crates/vakil-l4/src/lib.rs:125 | The first failure of a loop stops both directions for good. |
| `TcpJoin.TransferAlone` | crates/vakil-l4/src/lib.rs:110-125 | Whatever stands in that relation for those chunks and that peer has the result and output of the loop in the join. |
| `TcpJoin.EveryEndingReached` | crates/vakil-l4/src/lib.rs:110-125 | The converse: every result and output that `Flow.Transfer` may have alone, for any input and any peer, is reached by some schedule of the join, partial writes included. |
| `TcpJoin.TransparentConnectionCopies` | crates/vakil-l4/src/lib.rs:110-125 | With hooks that do nothing, a finished direction has copied its input byte for byte. |
| `Text.WhitespaceCodePoints` | crates/vakil-runtime/src/lib.rs:229 | What trimming takes off: the code points that Unicode calls white space. |
| `Text.LinesLast` | crates/vakil-runtime/src/lib.rs:228 | A last line that no newline ends is a line like those before it. |
| `Text.LineEndings` | crates/vakil-runtime/src/lib.rs:228 | A newline, or a carriage return and a newline, ends a line and is not part of it. |
| `Text.SplitStrAtFirst` | crates/vakil-runtime/src/lib.rs:274 | Splitting by a text cuts at its first occurrence, and the rest after it alike. |
| `Text.SplitStrByNothing` | crates/vakil-runtime/src/lib.rs:274 | Splitting by the empty text leaves an empty piece at either end and every character between them. |
| `PluginPaths.ParseStrict` | crates/vakil-runtime/src/lib.rs:281-298 | Accepts blank text as no paths and otherwise every trimmed segment; rejects at the first empty one, counted from one. |
| `PluginPaths.StrictRejects` | crates/vakil-runtime/src/lib.rs:286-292 | Non-blank text is rejected exactly when some piece between separators is blank, and the position is that of the first such piece, counted from one. |
| `PluginPaths.StrictAgreesWithLenient` | crates/vakil-runtime/src/lib.rs:269-298 | What the strict reader accepts, the lenient one reads alike. |
| `PluginPaths.StrictInvertsJoin` | crates/vakil-runtime/src/lib.rs:281-298 | Joining clean paths with `;` is undone by strict reading. |
| `PluginPaths.AcceptedLists` | crates/vakil-runtime/src/lib.rs:281-298 | A text reads as a list of paths exactly when it is blank and the list empty, or it is those paths with blanks around them, separated by `;`, none of them empty. |
| `PluginPaths.StrictYieldsCleanPaths` | crates/vakil-runtime/src/lib.rs:281-298 | Accepted paths are trimmed, not empty and without `;`, and joining them and reading again gives them back. |
| `PluginPaths.LenientAtFirst` | crates/vakil-runtime/src/lib.rs:274-278 | For any separator: the text before its first occurrence gives its trimmed path, unless it is blank, and the rest is read alike. |
| `PluginPaths.LenientWithout` | crates/vakil-runtime/src/lib.rs:270-278 | A text without the separator is one path, or none if it is blank. |
| `PluginPaths.LenientConcat` | crates/vakil-runtime/src/lib.rs:269-279 | Lenient reading of `a;b` is that of a followed by that of b. |
| `PluginPaths.BlankTestIsRedundant` | crates/vakil-runtime/src/lib.rs:270-278 | The test for blank input before splitting changes no result, whatever the separator. |
| `RuntimeConfig.ParseValue` | crates/vakil-runtime/src/lib.rs:300-309 | Accepts exactly texts in double quotes and returns the inside, whatever it holds; a lone quote is refused. |
| `RuntimeConfig.ParseLine` | crates/vakil-runtime/src/lib.rs:229-263 | One line's effect on the overrides: skipped, stored, or refused, a bad value before an unknown key and a repeated key before a bad address or list. |
| `RuntimeConfig.ParseConfigFile` | crates/vakil-runtime/src/lib.rs:223-267 | Accepts exactly the files whose lines are all well formed with no key twice, with the overrides those lines state; otherwise reports the first offending line's offence. |
| `RuntimeConfig.LineDecides` | crates/vakil-runtime/src/lib.rs:228-264 | After accepted lines, one more either extends the overrides by its value or is the first offence. |
| `RuntimeConfigProperties.ResultDetermined` | crates/vakil-runtime/src/lib.rs:219-267 | The lines determine the result completely, error included. |
| `RuntimeConfigProperties.AcceptedIff` | crates/vakil-runtime/src/lib.rs:228-266 | A file is accepted exactly when every line is well formed and no key occurs twice. |
| `RuntimeConfigProperties.OrderIrrelevant` | crates/vakil-runtime/src/lib.rs:228-264 | Permuting the lines changes neither acceptance nor the overrides. |
| `RuntimeConfigProperties.CommentsIgnored` | crates/vakil-runtime/src/lib.rs:228-232 | A blank or comment line put in anywhere changes nothing, not even the error reported. |
| `RuntimeConfigProperties.ClassifyAssignment` | crates/vakil-runtime/src/lib.rs:229-243 | A quoted assignment is read back whatever its value holds, `=`, `#` and quotes included, and whatever blanks surround key and value. |
| `RuntimeConfigProperties.AssignmentGrammar` | crates/vakil-runtime/src/lib.rs:229-261 | A line assigns a value to a known key exactly when it is `key = "value"` with blanks around key and value. |
| `RuntimeConfigProperties.SkipGrammar` | crates/vakil-runtime/src/lib.rs:229-232 | A line is skipped exactly when it is blank or its first visible character is `#`. |
| `RuntimeConfigProperties.MalformedGrammar` | crates/vakil-runtime/src/lib.rs:234-262 | Which lines are refused on their own, and why: no `=`, else a value that is not quoted, else an unknown key. |
| `RuntimeConfigProperties.KnownKeys` | crates/vakil-runtime/src/lib.rs:241-255 | The two keys, by name. |
| `RuntimeConfigProperties.FinalNewlineIrrelevant` | crates/vakil-runtime/src/lib.rs:228 | A newline after the last line, or its absence, changes nothing: a last line that no newline ends is read. |
| `RuntimeConfigProperties.OneMoreLine` | crates/vakil-runtime/src/lib.rs:229-263 | What one more line makes of a file accepted so far: ignored, refused on its own, refused as a repeated key whatever its value, or accepted or refused by its value. |
| `RuntimeConfigProperties.EarlierErrorWins` | crates/vakil-runtime/src/lib.rs:228-264 | An error in the text before some line stands whatever follows. |
| `RuntimeConfigProperties.RenderThenParse` | crates/vakil-runtime/src/lib.rs:228-309 | Rendering any valid overrides as `key = "value"` lines and parsing them gives the same overrides back. |
| `SocketAddresses.ShowThenParse` | plugins/example-l4-sticky/src/lib.rs:242-255 | Printing a socket address and parsing it as a backend is the identity, for every host and port. |
| `SocketAddresses.ShowIsPlain` | crates/vakil-plugin-sys/src/lib.rs:222-230 | A socket address prints as its host, a colon and the digits of its port, without sign or leading zero. |
| `SocketAddresses.RejectedBackends` | plugins/example-l4-sticky/src/lib.rs:242-249 | A text that is no address's is refused for its address if it has no colon, and for its port otherwise. |
| `SocketAddresses.AcceptedBackends` | plugins/example-l4-sticky/src/lib.rs:242-255 | A text parses to an address exactly when it is that address's text up to a leading `+` and leading zeros in the port. |
| `SocketAddresses.ShowInjective` | crates/vakil-plugin-sys/src/lib.rs:222-230 | Different addresses print differently. |
| `SocketAddresses.RouteToKeepsIffUnparsable` | plugins/example-l4-sticky/src/lib.rs:221-231 | The route is kept exactly when the backend text is no address's text, and replaced by the address it names otherwise, with a sign and leading zeros in its port or not. |
| `Versions.ShowThenParse` | crates/vakil-plugin-sys/src/lib.rs:100-109 | Parsing the dotted text of a version returns it, for all components. |
| `Versions.AcceptedVersions` | crates/vakil-plugin-sys/src/lib.rs:101-108 | A text reads as a version exactly when its first three components are that version's numbers up to a sign and leading zeros; any other text panics. |
| `Versions.RestIsIgnored` | crates/vakil-plugin-sys/src/lib.rs:102-107 | Text after the third component never affects the result, not even by a panic. |
| `PluginLifecycle.LoadedPlugin.Shutdown` | crates/vakil-plugin-host/src/lib.rs:46-60 | Shuts down what is held, in protocol order, and holds nothing afterwards. |
| `PluginLifecycle.LoadedPlugin.Drop` | crates/vakil-plugin-host/src/lib.rs:125-129 | Shuts down what is still held, then closes the library. |
| `PluginLifecycle.LoadBlock` | crates/vakil-plugin-host/src/lib.rs:154-172 | A declared module is initialised and held, or its factory's or init's failure reported. |
| `PluginLifecycle.LoadModules` | crates/vakil-plugin-host/src/lib.rs:175-184 | Initialises exactly the declared modules before the first failing one, and reports that failure. |
| `PluginLifecycle.Load` | crates/vakil-plugin-host/src/lib.rs:66-97 | A loaded plugin holds the modules initialised; a failed one has closed its library, if it opened. |
| `PluginLifecycleProperties.ErrorsNamed` | crates/vakil-plugin-host/src/lib.rs:66-97 | Which error a library fails with: the first defect in the order open, root, version, then the first factory that does not work, as a factory or as an init failure. |
| `PluginLifecycleProperties.InitInProtocolOrder` | crates/vakil-plugin-host/src/lib.rs:175-184 | A library is opened first, then its modules are initialised HTTP before TCP before UDP. |
| `PluginLifecycleProperties.ShutdownInProtocolOrder` | crates/vakil-plugin-host/src/lib.rs:48-60 | A plugin's modules are shut down HTTP before TCP before UDP. |
| `PluginLifecycle.DropAll` | crates/vakil-runtime/src/lib.rs:312-329 | Plugins are dropped front to back, each shutting down what it still holds. |
| `PluginLifecycle.CollectPlugins` | crates/vakil-runtime/src/lib.rs:312-335 | Loads in order up to the first failure; the plugins collected hold what their libraries initialised. |
| `PluginLifecycleProperties.LibrariesAttempted` | crates/vakil-runtime/src/lib.rs:314-333 | A library is attempted exactly when it is a configured file or a plugin file in a configured directory. |
| `PluginLifecycleProperties.PathByPath` | crates/vakil-runtime/src/lib.rs:315-332 | What one path adds to the attempts: its file, its directory's entries, a fault if it cannot be read, nothing if it is missing. |
| `PluginLifecycleProperties.PathsAppend` | crates/vakil-runtime/src/lib.rs:314 | Paths are attempted in the order given. |
| `PluginLifecycleProperties.EntryByEntry` | crates/vakil-runtime/src/lib.rs:317-326 | What one directory entry adds: its plugin file, a fault if it cannot be read, nothing if it is no plugin. |
| `PluginLifecycleProperties.EntriesAppend` | crates/vakil-runtime/src/lib.rs:317-326 | Entries are attempted in the order the directory gives them. |
| `PluginLifecycleProperties.LoadedPlugins` | crates/vakil-runtime/src/lib.rs:312-335 | The plugins loaded are those of the first attempts, in their order. |
| `PluginLifecycleProperties.LoadsInOrder` | crates/vakil-runtime/src/lib.rs:314-333 | All that the first attempts do comes before all that the rest do. |
| `PluginLifecycleProperties.FirstErrorReported` | crates/vakil-runtime/src/lib.rs:314-333 | The run ends with the error of the first attempt that does not load. |
| `PluginLifecycleProperties.DropsInOrder` | crates/vakil-runtime/src/lib.rs:312-335 | Plugins are dropped front to back: all that happens to one comes before all that happens to the next. |
| `PluginLifecycle.LoadPlugins` | crates/vakil-runtime/src/lib.rs:311-336 | All plugins, or the first failure with the plugins before it dropped. |
| `PluginLifecycle.RunHost` | crates/vakil-plugin-host/src/lib.rs:119-129 | Loading, then any shutdown calls on the plugins, then dropping them has exactly the events of a host's life, which the results below are about. |
| `PluginLifecycleProperties.LoadedModulesAreBalanced` | crates/vakil-plugin-host/src/lib.rs:46-129 | For any plugins and any shutdown calls, and even when a later plugin fails to load, each module of a loaded plugin is initialised once, then shut down once, between the opening and the closing of its library. |
| `PluginLifecycleProperties.FailedLibraryHistory` | crates/vakil-plugin-host/src/lib.rs:154-184 | The library that failed is closed without shutting down what it had initialised. |
| `PluginLifecycleProperties.BalancedUnlessHalfway` | crates/vakil-plugin-host/src/lib.rs:154-184 | Every initialised module is shut down exactly once before its library closes if and only if the first attempt that does not load, if any, is not at a library whose first failing factory follows a declared one. |
| `PluginLifecycleProperties.HalfwayFailureLeaks` | crates/vakil-plugin-host/src/lib.rs:164-169 | A plugin whose second module fails: its first module is never shut down. |
| `PluginLifecycleProperties.ShutdownCallsHistory` | crates/vakil-plugin-host/src/lib.rs:46-60 | A plugin on which shutdown is called holds nothing afterwards, any other what it held; however often it is called, a held module is shut down at most once. |
| `RoundRobin.RouteByRemainder` | plugins/example-http-mw/src/lib.rs:76-91 | A ticket's remainder by 3 gives host and path; the port is 80 and the path ends in the ticket. |
| `RoundRobin.Successor` | plugins/example-http-mw/src/lib.rs:75 | The counter counts up by one and goes from the largest 64-bit number to 0. |
| `RoundRobin.RequestCounter.HttpOnRoute` | plugins/example-http-mw/src/lib.rs:64-106 | A request takes one ticket and gets the route that ticket stands for; without a request no ticket is taken, without a transport one is taken in vain. |
| `RoundRobin.TicketsAreConsecutive` | plugins/example-http-mw/src/lib.rs:75 | However threads interleave, the i-th increment draws the i-th ticket after the start, wrapped at 2^64. |
| `RoundRobin.FairWithoutWrap` | plugins/example-http-mw/src/lib.rs:75-81 | Over any window that does not cross the wrap, the upstreams' ticket counts differ by at most one. |
| `RoundRobin.FairUpToWraps` | plugins/example-http-mw/src/lib.rs:62-81 | Over any window they differ by at most one more than the number of wraps in it. |
| `RoundRobin.FairAcrossOneWrap` | plugins/example-http-mw/src/lib.rs:62-81 | Over a window that crosses the wrap once they differ by at most two. |
| `RoundRobin.FairIffRoundsFit` | plugins/example-http-mw/src/lib.rs:62-81 | Over a window from any start and of any length the upstreams' ticket counts are within one of each other if and only if the window does not reach the counter's end, or reaches it at most twice with fitting remainders by 3 on both sides. |
| `RoundRobin.WrapRepeatsATarget` | plugins/example-http-mw/src/lib.rs:75-81 | At the wrap one upstream gets two tickets in a row. |

## Left out

- `UdpProxyService::serve` and the upstream lookup of `TcpProxyService::serve`: route hooks are handed a clone and the route is read from the untouched original, so no run gets past them; the TCP model starts at the two transfer loops.
- The documented rule that any plugin error fails the chain: the code maps a hook error to Continue, and the model follows the code.
- Body filters and the accumulation of body chunks in the context.
- URI and Host rewriting before the header chains (crates/vakil-runtime/src/http.rs:80-96 and 157-164). The panics of crates/vakil-runtime/src/http.rs:48-49 are the outcome `Panicked`.
- Empty listener pools: such a listener is accepted and does not fall back to the other pool; the balancer's results are about non-empty pools and the error for empty ones.
- Overflow of `Instant` in `now + ttl`: instants are unbounded.
- `usize` narrower than 64 bits: the digest is reduced modulo the pool's size without truncation.
- Xxh3, UTF-8, IP address, socket address and URI parsing: parameters, as said above.
- State inside a plugin: a hook's answer depends on its context alone, so what two requests or directions share through a plugin is not captured (`RoundRobin` models the one such counter the examples have).
- Log output, and the log text the round-robin plugin prints.
- `sort_by_key`'s in-place algorithm: the stable order it leaves is given by insertion on values.
- PluginLifecycle.LoadPlugins: the paths are flattened to one list of attempts before loading starts, so a directory's contents do not change while plugins load.
- Manifest comparison: whether a library is compatible is a flag of `Library`. A panic inside a factory, an init or the building of its context is not modelled.
- `PathBuf`s are their texts.
- HttpExchange.Exchange.UpstreamPeer: a peer is its address, TLS flag and path; connecting to it is not modelled.
- TcpJoin.LoopRunsAsAlone: ends at the first failure, when `try_join!` drops both loops; connection-close hooks are not modelled.
- The configuration loop over listeners and the body of the loop over config lines are methods of their own here.
- `RuntimeConfig::from_env`, file reading, TOML and serde, environment access, dynamic loading, the stabby ABI, Pingora and Rama services, the command line and test helpers: plain or foreign input and output.
- The no-op example plugin, the default modules and the sticky plugin's Continue-only hooks: each is settled by reading one branch.
