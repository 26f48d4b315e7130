# Verified model of Grat's core algorithms

Grat explains failed Soroban transactions: it decodes contract values, replays transactions, walks diagnostic
events, caches ledger data and, on its server, asks a language model for a plain explanation. This Dafny project
models the parts of it that hold an algorithm or a protocol and proves what they promise.
`dafny verify dfyconfig.toml` checks everything.

| files | part of the system |
|---|---|
| `Decimal`, `U256`, `Hex`, `Json`, `ScVals`, `ScValToJson`, `JsonToScVal` | the ScVal printer with its 256-bit decimal conversion, and the JSON reader |
| `Printing`, `Reading` | what each value is printed as and each document read as, said without printer and reader |
| `RoundTrip`, `RoundTripJson`, `RoundTripValue` | when reading and printing give a document back |
| `RoundTripRead`, `RoundTripIdentity` | which documents are read at all, and which values come back from their own document |
| `Fingerprints`, `Redis`, `Explain`, `ExplainSafety`, `ExplainBudget`, `ExplainVerdicts`, `ExplainCrowding`, `ExplainResults`, `ExplainService` | the explain pipeline: a transition system whose steps are single Redis commands, invariants of every run, and the server's code as runs of that system |
| `Brackets`, `Trace`, `Diagnostics`, `Partition`, `Finders`, `Auth` | event streams and call trees; which calls are running is said by brackets |
| `Archive` | the record-marking parser (section 11 of RFC 5531) |
| `CacheStores` | the size-bounded file cache with least-recently-used eviction |
| `Wrap` | the greedy line wrapper of the terminal renderer |
| `StateDiffs` | the ledger-change fold, the state diff and the byte totals of the profile |
| `Common` | options, results, ASCII case, string order |

How the source is rendered: loops and updated state are methods and classes; each is proved equal to a function of
its inputs or of the old state, and the promises are lemmas about those functions. In the pipeline a `Service`
method runs one request's commands in program order while a batch of arbitrary actions of others (arrivals, other
requests' commands, time, cache invalidation) may happen at each await; `Valid()` says that what happened so far is
a run of the transition system, so every theorem about runs applies to every execution. The three concurrent reads
of the budget check and the two concurrent increments of usage recording go out on one connection and are therefore
modelled in program order. The language model's reply is a fixed but arbitrary value of each request, `None` when
the call throws. Redis time and the server's clock are one clock.

Where the code says something else than its comments, or than one might expect, the model follows the code:

- A round trip of values is not the identity: JSON does not carry the types, the reader infers them. A value comes back
  exactly when inference would choose it (`RoundTripIdentity.ComesBackIffInferred`): symbols, times, 256-bit integers
  and absent vectors and maps never do; numbers do when no narrower type holds them, unsigned before signed; a signed
  128-bit integer does below the 64-bit range and between 2^63 and 2^64 - 1 only. A symbol comes back as a string
  (`RoundTripIdentity.SymbolsAndTimesChange`).
- Nor is a round trip of documents. `RoundTripJson.Faithful` is its exact condition: upper-case hex, plus signs and
  leading zeros of wide integers are not given back, nor are lists of `key`/`value` objects without a key collision.
- The reader knows seven of the ten host error codes (crates/core/src/decode/json_to_scval.rs:180-187); an error with
  another code comes back as a map, which prints the same.
- Not all that prints untruncated is read back: contract-instance storage is read one level deeper than it is printed.
  An instance with one entry, nested in n lists, prints untruncated for n up to 99 and is read for n up to 98
  (`RoundTripRead.StorageDepthMismatch`). `RoundTripRead.Accepted` is the exact condition for a document to be read.
- The semaphore is not a limit: the check and the increment are separate commands. If at most k requests at a time are
  past the check and not yet counted, the counter peaks at the maximum plus k - 1, so the maximum is kept exactly for
  k at most 1 (`ExplainCrowding.LimitKeptIff`). What is floored at 0 on release is the returned number, not the
  counter; in runs without crashes the counter is exact and needs no floor.
- `publishResult` is documented for failed requests too; the code publishes only answers.
- The fingerprint joins its fields with colons; it is a request's own exactly when neither transaction hash nor
  network contains one (`Fingerprints.OwnFingerprint`). The route lets any texts through.
- Invocations still open at the end of a trace are dropped (`Trace.TreeReadsEvents` says exactly what is left).
- The archive parser accepts empty non-final fragments at the end (`Archive.EmptyTailAccepted`).
- A cache limit of 2^64 - 1 bytes is never reached in saturating arithmetic; the size bound holds exactly for smaller
  limits (`CacheStores.BoundedBelowLargest`).
- Splitting text emits every tail of a longer whitespace run again. The words are right nevertheless, but the last tail
  of a run that ends in a newline is a newline alone, which the wrapper takes for a hard break (`Wrap.PushWords` says
  where).
- The wrapper measures each piece on its own: fitting words make fitting lines, at every width, exactly when no two
  words touch (`Wrap.FitsExactlyWhenSeparated`).
- The failure finders stop at the same event exactly when no call or return before it is a failure itself
  (`Finders.StopTogether`), and from there on agree on the contract, however the stream goes on, exactly when every
  call without a contract id is over (`Finders.AgreeIffNamed`).

## Model

| member | source | states |
|---|---|---|
| U256.DivideByChunk | crates/core/src/decode/scval_to_json.rs:198-204 | one long-division pass: limbs = quotient limbs times 10^18 plus remainder, and the narrowing casts lose nothing |
| U256.SplitChunks | crates/core/src/decode/scval_to_json.rs:196-207 | the division loop ends and leaves the digits of the input in base 10^18 |
| U256.LimbsToDecimal | crates/core/src/decode/scval_to_json.rs:189-218 | for every four limbs the output is the canonical decimal text of the 256-bit value |
| U256.Negate | crates/core/src/decode/scval_to_json.rs:221-230 | the carry loop computes (2^256 - v) mod 2^256 |
| U256.U256ToDecimal | crates/core/src/decode/scval_to_json.rs:232-234 | decimal text of the unsigned value of the four parts |
| U256.I256ToDecimal | crates/core/src/decode/scval_to_json.rs:236-248 | decimal text of the signed two's-complement value, the minimum included |
| U256.MagnitudeOf | crates/core/src/decode/scval_to_json.rs:237-241 | negating the reinterpreted limbs of a negative number yields its magnitude |
| Decimal.TextIsCanonical | crates/core/src/decode/scval_to_json.rs:209-217 | the decimal text has no superfluous leading zero and evaluates to its number |
| Decimal.CanonicalIsText | crates/core/src/decode/json_to_scval.rs:150-163 | a digit string without leading zeros is the text of the number it is read as |
| Hex.DecodeEncode | crates/core/src/decode/json_to_scval.rs:128-134 | decoding undoes encoding |
| Hex.EncodeDecode | crates/core/src/decode/json_to_scval.rs:128-134 | encoding a decoded text gives it back exactly when it was lower case |
| ScValToJson.ToJson | crates/core/src/decode/scval_to_json.rs:44-75 | the recursive printer, with its depth limit, computes `Convert` |
| ScValToJson.MapToJson | crates/core/src/decode/scval_to_json.rs:90-118 | map entries are converted in order, then assembled |
| ScValToJson.AssembleMap | crates/core/src/decode/scval_to_json.rs:99-117 | the lossless list when two key texts collide, else the object of all entries |
| ScValToJson.HasCollision | crates/core/src/decode/scval_to_json.rs:99-102 | the running set reports a repeated key text exactly when there is one |
| Printing.PrintsWhatShows | crates/core/src/decode/scval_to_json.rs:44-169 | main result: for every value at every depth, the printed document is the only one that `Shows` it: numbers and the canonical decimal text of wide ones by their words, hex digit by digit, a member or pair for every map entry, the marker beyond depth 100 |
| Printing.KeyTexts | crates/core/src/decode/scval_to_json.rs:120-125 | a string key is its own text, any other key has the compact text of its JSON |
| Printing.ItemsWritten | crates/core/src/decode/scval_to_json.rs:120-125 | lists in key texts are written item by item with commas |
| Printing.MembersWritten | crates/core/src/decode/scval_to_json.rs:120-125 | objects in key texts are written as quoted keys, colons and values with commas |
| Printing.EscapesWritten | crates/core/src/decode/scval_to_json.rs:120-125 | quotes, backslashes and control characters in key texts are escaped, all else is kept |
| Printing.ErrorNames | crates/core/src/decode/scval_to_json.rs:127-144 | kinds and codes are printed under their names in the protocol |
| Printing.ErrorsToldApart | crates/core/src/decode/scval_to_json.rs:127-144 | two errors print the same if and only if they are the same |
| JsonToScVal.FromJson | crates/core/src/decode/json_to_scval.rs:16-122 | the recursive reader computes `Parse`, errors included |
| JsonToScVal.ObjectFromJson | crates/core/src/decode/json_to_scval.rs:82-120 | markers are tried in the code's order before an object is read as a map |
| JsonToScVal.InstanceFromJson | crates/core/src/decode/json_to_scval.rs:211-251 | a contract-instance marker that does not fit is no error but an ordinary map |
| JsonToScVal.PairsFromJson | crates/core/src/decode/json_to_scval.rs:61-73 | the lossless list is read pair by pair, the first error wins |
| Reading.ReadsWhatIsMeant | crates/core/src/decode/json_to_scval.rs:16-122 | main result: every document at every depth is read as a value if and only if it `Means` that value: the narrowest integer, what a text stands for, pairs, items, marks and members |
| Reading.FailsAsSaid | crates/core/src/decode/json_to_scval.rs:16-122 | every document is refused with an error if and only if it is too deep, truncated, no integer of 64 bits, or that is the error of its first unreadable part |
| Reading.TextReadAs | crates/core/src/decode/json_to_scval.rs:124-171 | a text is read as a value if and only if it stands for it: the sentinel, hex of either case, the text of an address, a signed decimal beyond 64 bits, else a string |
| Reading.AddressReadBack | crates/core/src/decode/json_to_scval.rs:136-148 | the text of every account and contract is read as that address |
| RoundTrip.StringRoundTrip | crates/core/src/decode/json_to_scval.rs:124-171 | a string survives reading and printing exactly when it is a sentinel, lower-case hex, an address, not a wide integer, or a canonical one |
| RoundTrip.CanonicalizeFaithful | crates/core/src/decode/json_to_scval.rs:124-171 | after one reading and printing every string is stable |
| RoundTrip.ErrorRoundTrip | crates/core/src/decode/json_to_scval.rs:173-209 | an error marker is reproduced exactly when its code has the form the printer writes |
| RoundTrip.NonceRoundTrip | crates/core/src/decode/json_to_scval.rs:95-99 | a nonce marker is always reproduced |
| RoundTrip.ExecutableRoundTrip | crates/core/src/decode/json_to_scval.rs:215-234 | an executable is reproduced exactly when it has the printer's members and a lower-case prefixed hash |
| RoundTrip.FitsAbove | crates/core/src/decode/scval_to_json.rs:45-47 | a value within the depth limit prints the same at any smaller depth |
| RoundTrip.ParseFits | crates/core/src/decode/json_to_scval.rs:16-22 | whatever the reader accepts prints without truncation |
| RoundTripJson.StableIffFaithful | crates/core/src/decode/json_to_scval.rs:16-122 | main result: any document, markers included, is given back by reading and printing if and only if it is `Faithful` |
| RoundTripValue.PrintsWellFormed | crates/core/src/decode/scval_to_json.rs:44-118 | printed objects are ordered by key at every level |
| RoundTripValue.PrintParsePrint | crates/core/src/decode/scval_to_json.rs:32-34 | any value: print-read-print is a fixed point if and only if its document is `Faithful` |
| RoundTripValue.ReadableRoundTrip | crates/core/src/decode/scval_to_json.rs:32-118 | values within the depth limit, of plain texts, without marker-shaped maps and without lists that look like colliding maps, are read back, printed the same, and reading is idempotent |
| RoundTripValue.ReadableIsFaithful | crates/core/src/decode/scval_to_json.rs:44-118 | at every depth such a value prints to a `Faithful` document |
| RoundTripValue.ErrorRead | crates/core/src/decode/json_to_scval.rs:177-189 | the reader recognises a printed error exactly when it is a contract error or one of seven host codes |
| RoundTripRead.ReadsIffAccepted | crates/core/src/decode/json_to_scval.rs:16-122 | main result: a document is read, at any depth, if and only if it is `Accepted`, a condition on its nesting, numbers and markers |
| RoundTripRead.ReadBackIffAccepted | crates/core/src/decode/json_to_scval.rs:12-14 | any value: what it prints is read if and only if the document is `Accepted` |
| RoundTripRead.StorageDepthMismatch | crates/core/src/decode/json_to_scval.rs:236-245 | an instance nested n levels deep prints untruncated for n up to 99 and is read back for n up to 98, for all n |
| RoundTripIdentity.ComesBackIffInferred | crates/core/src/decode/json_to_scval.rs:16-171 | main result: any value, at any depth, is what is read from its own JSON if and only if it is `Inferred` |
| RoundTripIdentity.SymbolsAndTimesChange | crates/core/src/decode/json_to_scval.rs:124-171 | no symbol and no point in time comes back; a symbol is read as a string |
| Fingerprints.OwnFingerprint | apps/server/src/dedup/dedup.ts:20-27 | among requests of one kind, all that share its fingerprint agree with it up to case if and only if its hash and network contain no colon |
| Fingerprints.OwnFingerprintOfAll | apps/server/src/dedup/dedup.ts:20-27 | the same among requests of all kinds, if and only if none of the three fields contains a colon |
| Fingerprints.SameFingerprint | apps/server/src/dedup/dedup.ts:20-27 | two requests of one kind, or of any two kinds when no colon can be mistaken, share a fingerprint if and only if their fields agree up to case |
| Fingerprints.FingerprintText | apps/server/src/dedup/dedup.ts:25-26 | for fields in lower case the hashed text is hash, network and kind in this order |
| Fingerprints.ColonsConfuse | apps/server/src/dedup/dedup.ts:25-26 | two different requests that share a fingerprint because of a colon |
| ExplainSafety.InvStep | apps/server/src/ai/client.ts:117-177 | every command, arrival, tick and invalidation keeps the invariant |
| ExplainSafety.ReachableInv | apps/server/src/ai/client.ts:117-177 | every state of every run satisfies the invariant |
| ExplainSafety.SemaphoreIsExact | apps/server/src/budget/tracker.ts:141-152 | the counter is the number of requests between acquire and release: never negative, 0 at rest, also after failed calls |
| ExplainSafety.CommandSemaphore | apps/server/src/budget/tracker.ts:141-152 | a command moves the counter by one exactly when its request enters or leaves |
| ExplainSafety.CounterExpires | apps/server/src/budget/tracker.ts:118-131 | a usage counter lacks an expiry only while the request that started it from 0 has yet to set one |
| ExplainSafety.DedupWindow | apps/server/src/dedup/dedup.ts:52-60 | two winners of one fingerprint's lock won it at least one window apart |
| ExplainSafety.CommandLock | apps/server/src/redis/client.ts:70-77 | a command leaves a lock alone or takes one that was not alive, for the whole window |
| ExplainSafety.CommandOrigin | apps/server/src/ai/client.ts:122-173 | what a command stores is the request's own answer, what it returns is that or a stored answer for its fingerprint |
| ExplainSafety.ReturnedIsGenuine | apps/server/src/ai/client.ts:122-173 | every explanation returned was the model's answer to a request with the same fingerprint |
| ExplainBudget.UsageStep | apps/server/src/budget/tracker.ts:118-131 | only a recording step changes a live counter, by the tokens of a request past its check |
| ExplainBudget.CommittedStep | apps/server/src/ai/client.ts:144-164 | once full, use plus what requests past the check may add does not grow |
| ExplainBudget.OnlyClearedAdd | apps/server/src/ai/client.ts:144-164 | once a counter is full, until it expires, only requests whose check had read less add to it |
| ExplainBudget.OvershootBound | apps/server/src/budget/tracker.ts:57-131 | over all interleavings the total stays below the limit plus the tokens of the requests past the check when the limit was reached |
| ExplainCrowding.SeatedStep | apps/server/src/ai/client.ts:144-148 | nobody gets past the check but a request that has just read less than the maximum |
| ExplainCrowding.PeakBound | apps/server/src/ai/client.ts:144-148 | with at most k requests past the check and uncounted at a time, the counter never exceeds the maximum plus k - 1 |
| ExplainCrowding.PeakReached | apps/server/src/ai/client.ts:144-148 | for every k some such run reaches it |
| ExplainCrowding.LimitKeptIff | apps/server/src/budget/tracker.ts:94-97 | the maximum is kept in all such runs if and only if k is at most 1, or a limit of 0 admits nobody |
| ExplainCrowding.CrowdingBound | apps/server/src/ai/client.ts:145-148 | from the step that fills the semaphore, while it stays full, only requests past the check at that step count: the counter stays below the maximum plus those that were waiting |
| ExplainCrowding.SemaphoreUnbounded | apps/server/src/ai/client.ts:145-148 | for every n some run has n requests inside, whatever the configured maximum |
| ExplainVerdicts.AdmittedSawRoom | apps/server/src/budget/tracker.ts:81-109 | whoever calls the model itself read the three counters, one after the other, in states in which each was below its limit |
| ExplainVerdicts.RefusedSawFull | apps/server/src/budget/tracker.ts:57-76 | a request refused for concurrency itself read a full semaphore; one refused for budget itself read a full usage counter, and a free place |
| ExplainVerdicts.FreshWasShared | apps/server/src/ai/client.ts:163-171 | a fresh explanation is returned only after it stood in the cache and under the result key |
| ExplainResults.PublishedStays | apps/server/src/dedup/dedup.ts:67-72 | over any run, after a publication the result key holds the latest one, under its own request's name, alive for the whole window and the two seconds waiters add |
| ExplainResults.ReturnedIsSigned | apps/server/src/ai/client.ts:125-173 | a returned explanation is marked as cached if and only if its request did not call the model, and names that request or, from the cache, the one that was answered |
| ExplainResults.TokensRecorded | apps/server/src/budget/tracker.ts:118-131 | recording adds what the model's answer cost to either counter |
| ExplainResults.InvalidationClears | apps/server/src/cache/manager.ts:80-88 | behind an invalidation the cache misses for that fingerprint and no other key changes |
| Redis.SetExSeen | apps/server/src/redis/client.ts:37-49 | what any later read sees of a SET with expiry |
| Redis.SetNxSeen | apps/server/src/redis/client.ts:70-77 | what any later read sees of a SET NX PX |
| Redis.IncrBySeen | apps/server/src/redis/client.ts:82-91 | a counter goes on where it stood and ends when it would have |
| Redis.ExpireSeen | apps/server/src/redis/client.ts:104-109 | what any later read sees of an EXPIRE |
| ExplainService.Service.GetCache | apps/server/src/cache/manager.ts:56-62 | a hit exactly when a live entry is under the cache key, and then that entry, which ends the request marked as cached |
| ExplainService.Service.TryAcquire | apps/server/src/dedup/dedup.ts:52-60 | acquired exactly when no lock is alive, and then the lock is set for the window; the request goes on to compute or to wait |
| ExplainService.Service.WaitForResult | apps/server/src/dedup/dedup.ts:80-94 | polling ends: with a value that was alive under the result key, or when the window and its buffer are over |
| ExplainService.Service.AssertBudgetAvailable | apps/server/src/budget/tracker.ts:57-109 | the verdict on the three values at the moments they are read: concurrency refusal at a full semaphore, else budget refusal at a full usage counter, else admission |
| ExplainService.Service.RecordUsage | apps/server/src/budget/tracker.ts:118-131 | its four commands: both increments by the tokens, then an expiry for each counter whose new value equals the tokens |
| ExplainService.Service.SetCache | apps/server/src/cache/manager.ts:44-51 | its command stores the answer under the cache key with the configured lifetime |
| ExplainService.Service.PublishResult | apps/server/src/dedup/dedup.ts:67-71 | its command stores the answer under the result key for the window, rounded up to seconds, and two more |
| ExplainService.Service.ReleaseConcurrency | apps/server/src/budget/tracker.ts:149-152 | its command decrements the semaphore, whatever the outcome |
| ExplainService.Service.ExplainError | apps/server/src/ai/client.ts:117-177 | amid arbitrary interference the request ends outside the semaphore, and what it returns is genuine |
| Trace.BuildTraceTree | crates/core/src/replay/trace.rs:5-68 | the stack loop computes the fold whose properties follow |
| Trace.HandleEvent | crates/core/src/replay/trace.rs:9-64 | one event changes roots and stack as `Step` says |
| Trace.DepthIsRunning | crates/core/src/replay/trace.rs:10-67 | the depth that decides which events matter is the number of invocations started and not ended |
| Trace.TreeReadsEvents | crates/core/src/replay/trace.rs:5-68 | any stream: forest and open chain together spell out the relevant events in order, in exactly one way, host calls in the innermost open invocation; the output is that forest |
| Trace.OneReading | crates/core/src/replay/trace.rs:10-65 | a text is spelled out by at most one forest and chain of open invocations |
| Trace.BuildInvertsLinearisation | crates/core/src/replay/trace.rs:5-68 | a stream that spells out a forest yields exactly that forest and nothing stays open |
| Trace.MarksDetermineItems | crates/core/src/replay/trace.rs:10-65 | a bracket text is spelled out by at most one forest |
| Trace.FullErases | crates/core/src/replay/trace.rs:10-65 | the builder's state is that of a companion that also keeps the order of host calls and sub-invocations |
| Trace.FullReads | crates/core/src/replay/trace.rs:10-65 | the companion, read from left to right, is the stream of relevant events |
| Trace.NodesAreStarts | crates/core/src/replay/trace.rs:10-67 | nodes returned plus nodes still open are the InvocationStart events |
| Partition.SingleInvokeExact | crates/core/src/decode/multi_op_decoder.rs:421-428 | the index is that of the only contract invocation, and is given exactly when there is one |
| Partition.OnlySoroban | crates/core/src/decode/multi_op_decoder.rs:407-414 | there is a single Soroban operation if and only if exactly one is a host function or footprint operation |
| Partition.TopicsDecide | crates/core/src/decode/multi_op_decoder.rs:491-515 | calls and returns are told by any symbol or string topic, in any case |
| Partition.DepthIsRunning | crates/core/src/decode/multi_op_decoder.rs:466-487 | the depth is the number of calls that have not returned |
| Partition.SlicesCover | crates/core/src/decode/multi_op_decoder.rs:466-487 | slices are disjoint, in order, run from a depth-0 call to the return to depth 0 or the end, and cover every event inside a call |
| Partition.PartitionEvents | crates/core/src/decode/multi_op_decoder.rs:442-489 | one Soroban operation gets every event; otherwise each operation gets the events of its call |
| Partition.PartitionSlices | crates/core/src/decode/multi_op_decoder.rs:466-488 | the loop with depth, cursor and active operation attributes each event to the owner of its slice |
| Partition.KthCallToKthInvoke | crates/core/src/decode/multi_op_decoder.rs:470-484 | the k-th invocation gets exactly the k-th top-level call, or nothing |
| Partition.NoInvokeNoEvents | crates/core/src/decode/multi_op_decoder.rs:450-454 | other operations get nothing |
| Partition.ClosedSliceReturn | crates/core/src/decode/multi_op_decoder.rs:517-526 | for a call that has returned, the chosen return value is that of its last event |
| Partition.LastReturnWins | crates/core/src/decode/multi_op_decoder.rs:517-526 | any list of events: no value if and only if no event is a return, else the data of the last return |
| Partition.OperationReturnExact | crates/core/src/decode/multi_op_decoder.rs:125-147 | an operation's value is that of its last return, or without one the transaction's, if it is the only invocation |
| Diagnostics.FailureMeans | crates/core/src/decode/chain_analyzer.rs:347-368 | an event is a failure if and only if it is inside a failing frame, carries an error, or has a symbol or string topic that is a keyword or contains one, in any case |
| Diagnostics.TopicsInOrder | crates/core/src/decode/chain_analyzer.rs:338-344 | the texts of topics are those of symbols and strings, in order |
| Finders.FirstTextDecides | crates/core/src/decode/chain_analyzer.rs:202-238 | calls and returns are told by the first text among the topics |
| Finders.StackIsRunning | crates/core/src/decode/chain_analyzer.rs:209-236 | the stack has a frame for each call that has not returned, with its contract or hint and its function |
| Finders.DepthIsRunning | crates/core/src/decode/deepest_error.rs:144-152 | the depth of a failure is the number of calls running there, less one |
| Finders.FindDeepest | crates/core/src/decode/deepest_error.rs:104-188 | a failure of maximum call depth over the whole stream, the earliest of its depth, with contract and function of the innermost running call and the contract error code; none exactly when nothing fails |
| Finders.Analyze | crates/core/src/decode/chain_analyzer.rs:196-319 | at the first failure, a frame for each call that has not returned, at its depth, with its contract and function, the innermost being the root cause; one frame of the event's own contract when no call is running; none exactly when nothing fails |
| Finders.LocateFailingContract | crates/core/src/decode/event_walker.rs:38-68 | at the first failing event, the contract of the innermost named call not closed by a return, or the event's own |
| Finders.DeepestAgainstChain | crates/core/src/decode/chain_analyzer.rs:254-319 | the deepest error is at least as deep as the chain's root cause, and at equal depth it is the same contract and function |
| Finders.BothOrNeither | crates/core/src/decode/deepest_error.rs:104-188 | the chain and the deepest error exist on the same streams |
| Finders.StopTogether | crates/core/src/decode/event_walker.rs:60-65 | the walker never stops later than the chain analyzer, and at the same event if and only if no call or return before it is a failure |
| Finders.StacksAgree | crates/core/src/decode/event_walker.rs:48-58 | the walker's stack holds the same addresses if and only if every call without contract id is over, and is shorter otherwise |
| Finders.WalkerFindsSame | crates/core/src/decode/event_walker.rs:60-65 | an event is the chain's first failure, with no failing call or return before it, if and only if it is the walker's and neither call nor return |
| Finders.WalkerAgainstChain | crates/core/src/decode/event_walker.rs:38-68 | where both stop at one event and the unnamed calls before it are over, the walker names the chain's root cause, and nothing where the chain says unknown |
| Finders.AgreeIffNamed | crates/core/src/decode/event_walker.rs:38-68 | from any stream without a failure, the two agree on every failure to come, of any contract and after any number of returns, if and only if every unnamed call is over |
| Finders.UnnamedCallDisagrees | crates/core/src/decode/event_walker.rs:49-53 | after a call without contract id the chain blames the function name and the walker the failing contract, whichever it is |
| Finders.FailingCallDisagrees | crates/core/src/decode/event_walker.rs:60-65 | a failing call event on which the two stop at different events |
| Auth.Walker.WalkInvocation | crates/core/src/decode/auth.rs:112-121 | the recursion appends the depth-labelled preorder of its tree |
| Auth.FromEntry | crates/core/src/decode/auth.rs:76-84 | an entry's invocations are the preorder of its root at depth 0, each telling contract, function, arguments, their number and the call's text |
| Auth.FlattenIsPreorder | crates/core/src/decode/auth.rs:112-121 | the list starts at 0, rises by at most one per step and has one item per node |
| Auth.RebuildInvertsFlatten | crates/core/src/decode/auth.rs:112-121 | the tree is recovered from its list, for every tree |
| Auth.PreordersAreTrees | crates/core/src/decode/auth.rs:112-153 | the lists flattening produces are exactly the preorders, and rebuilding is its inverse on them |
| Archive.ParseLedgerHeaderStream | crates/core/src/archive/mod.rs:212-284 | the parser with its fast path for unfragmented records refines the one that buffers every payload, errors included |
| Archive.ParseExact | crates/core/src/archive/mod.rs:212-284 | success exactly when the bytes are complete fragments, no payload is left after the last final one and every record decodes; the records come in order |
| Archive.ErrorExact | crates/core/src/archive/mod.rs:221-281 | an error is returned if and only if it says what is wrong behind whole fragments whose records decode: a cut header or payload with the lengths found and expected, a record that does not decode, an open record |
| Archive.FrontBytes | crates/core/src/archive/mod.rs:232-236 | the fragment at the front byte by byte: the highest bit and the other 31, big-endian |
| Archive.RecordsEnd | crates/core/src/archive/mod.rs:257-273 | a record ends with each final fragment and has the payloads since the one before |
| Archive.RecordsConserve | crates/core/src/archive/mod.rs:257-273 | records and tail together are all payloads, in order |
| Archive.BrokenStream | crates/core/src/archive/mod.rs:221-254 | anything but complete fragments is an error |
| Archive.FragmentsExact | crates/core/src/archive/mod.rs:232-254 | bytes split into complete fragments in at most one way, the one whose framing they are |
| Archive.HeaderRoundTrip | crates/core/src/archive/mod.rs:326-334 | the front fragment of framed bytes is the fragment that was framed, if its length fits 31 bits |
| Archive.UndoesFraming | crates/core/src/archive/mod.rs:326-334 | however records are cut into fragments, their decoded forms come back |
| Archive.EmptyTailAccepted | crates/core/src/archive/mod.rs:275-281 | any number of empty non-final fragments after complete fragments changes neither the records nor the error |
| CacheStores.CacheStore.Put | crates/core/src/cache/store.rs:60-84 | fails exactly for a value above the limit, never for lack of something to evict; otherwise the entry is there with its value and time, the others are untouched or evicted, none without need, and the size bound is kept |
| CacheStores.PutIsThere | crates/core/src/cache/store.rs:60-84 | after any run, what is put is there with its value and time, and of the other entries exactly those not evicted |
| CacheStores.MissingWasEvicted | crates/core/src/cache/store.rs:60-127 | over any run, an entry a plain map would hold is missing if and only if a put evicted it and none has put it since |
| CacheStores.CacheStore.Get | crates/core/src/cache/store.rs:86-104 | a hit returns the content and sets its time of use to that of the call; nothing else changes |
| CacheStores.EvictsLeastRecentlyUsed | crates/core/src/cache/store.rs:86-104 | over any run, evicted entries were last put or got at no later time than those kept, and under a clock that ticks between operations by an earlier operation |
| CacheStores.CacheStore.Remove | crates/core/src/cache/store.rs:110-117 | removes that entry and no other |
| CacheStores.CacheStore.Clear | crates/core/src/cache/store.rs:119-127 | leaves nothing |
| CacheStores.CacheStore.TotalCacheSize | crates/core/src/cache/store.rs:133-151 | the saturating running sum is the saturated total |
| CacheStores.CacheStore.FindOldest | crates/core/src/cache/store.rs:164-195 | the head of the order by last use, then path |
| CacheStores.CacheStore.EvictLruToFit | crates/core/src/cache/store.rs:153-209 | the loop ends, evicts what `Evict` says, and fails only with nothing left |
| CacheStores.TiesByPath | crates/core/src/cache/store.rs:185-193 | entries used at the same time go by directory, in alphabetical order, then by key |
| CacheStores.FitsMeans | crates/core/src/cache/store.rs:156-159 | for all limits but 2^64 - 1 the saturating comparison is the exact one |
| CacheStores.EvictSucceeds | crates/core/src/cache/store.rs:153-209 | eviction makes room for anything up to the limit |
| CacheStores.EvictKeeps | crates/core/src/cache/store.rs:199-205 | survivors are untouched |
| CacheStores.EvictedPrecede | crates/core/src/cache/store.rs:185-205 | every evicted entry precedes every survivor in the order |
| CacheStores.EvictMinimal | crates/core/src/cache/store.rs:156-159 | had the last evicted entry stayed, the new one would not fit |
| CacheStores.CacheIsSubmap | crates/core/src/cache/store.rs:60-127 | over any run, what is in the cache is what a plain map holds |
| CacheStores.BoundedBelowLargest | crates/core/src/cache/store.rs:60-127 | over all runs the total size is within the limit, if and only if the limit is below 2^64 - 1 |
| CacheStores.LargestLimitNeverEvicts | crates/core/src/cache/store.rs:71-73 | with the limit 2^64 - 1 nothing is ever evicted |
| CacheStores.BeforeTotal | crates/core/src/cache/store.rs:185-193 | the eviction order decides between any two entries |
| Wrap.RenderEngine.EmitWrapped | crates/cli/src/ui/markdown.rs:523-576 | the wrapping loop appends `Wrapped`, without the prefix on a line already begun |
| Wrap.RenderEngine.ApplyStyle | crates/cli/src/ui/markdown.rs:579-590 | closes the old style and opens the new one, or writes nothing |
| Wrap.SwitchIsShortest | crates/cli/src/ui/markdown.rs:579-590 | no fewer codes lead from one style to another |
| Wrap.WordsInOrder | crates/cli/src/ui/markdown.rs:531-574 | the words come out once each, in order, in their own styles |
| Wrap.StylesBracketed | crates/cli/src/ui/markdown.rs:535-596 | every style opened on a line is closed on it, one at a time, and each word stands under its own |
| Wrap.NoTrailingSpace | crates/cli/src/ui/markdown.rs:547-570 | every deferred space written is followed by a word on the same line |
| Wrap.LinesFitIffWordsFit | crates/cli/src/ui/markdown.rs:553-573 | any pieces: when all lines are within the width, each word fits alone behind the prefix; if no two words touch, also conversely |
| Wrap.FitsExactlyWhenSeparated | crates/cli/src/ui/markdown.rs:553-573 | fitting words make fitting lines, for all widths, if and only if no two words touch |
| Wrap.TouchingWordsShareALine | crates/cli/src/ui/markdown.rs:553-573 | two words without whitespace between them share one line of both widths |
| Wrap.TouchingWordsOverflow | crates/cli/src/ui/markdown.rs:553-573 | words that each fit, and a line that does not |
| Wrap.WrapIsGreedy | crates/cli/src/ui/markdown.rs:531-574 | any pieces: lines used and column reached are those of greedy placement of the clusters of touching words, between hard breaks |
| Wrap.GreedyAhead | crates/cli/src/ui/markdown.rs:553-567 | with as many lines as any other fitting layout, greedy placement is no further to the right |
| Wrap.FewestLines | crates/cli/src/ui/markdown.rs:523-576 | any pieces: no split into fitting lines, hard breaks kept and touching words together, uses fewer lines |
| Wrap.ClustersAreWords | crates/cli/src/ui/markdown.rs:547-570 | the clusters are single words if and only if no two words touch |
| Wrap.SegmentsHoldWords | crates/cli/src/ui/markdown.rs:536-546 | the clusters between hard breaks hold all the words, in order |
| Wrap.PushWords | crates/cli/src/ui/markdown.rs:676-698 | the words of the pieces are the maximal runs of non-whitespace, no two of them touch, all carry the style, and there is one hard break for each whitespace run that ends in a newline, behind the same words |
| StateDiffs.ReplayChanges | crates/core/src/replay/sandbox.rs:164-178 | the loop over ledger changes computes the final state |
| StateDiffs.UnwrittenKept | crates/core/src/replay/sandbox.rs:165-168 | a key no writable change names keeps its value |
| StateDiffs.LastWriteWins | crates/core/src/replay/sandbox.rs:169-177 | any other key ends up with what its last writable change says |
| StateDiffs.ComputeDiff | crates/core/src/replay/differ.rs:6-48 | each key of either state has exactly one entry, with both values and the right kind of change, created ones last |
| StateDiffs.PatchBothWays | crates/core/src/replay/differ.rs:6-48 | applied forwards the diff gives the final state, backwards the initial one |
| StateDiffs.ChangedKeysWereWritten | crates/core/src/replay/differ.rs:10-45 | only keys named by writable changes are other than unchanged |
| StateDiffs.ByteTotals | crates/core/src/replay/profiler.rs:9-33 | the loop adds up the bytes of the entries by kind |
| StateDiffs.BytesConserved | crates/core/src/replay/profiler.rs:9-33 | the read total is the size of the initial state, the write total that of the final state without its unchanged entries |

## Left out

- Text is a sequence of characters: lossy UTF-8 decoding of contract strings and the escaping of non-ASCII symbols are not modelled; lower-casing of event topics is ASCII, as in the source.
- The XDR size limits of vectors, maps and strings, whose overflow is a further read error, are not modelled.
- Strkey encoding of accounts and contracts, SHA-256, base64 and the decoding of ledger header records are parameters with the laws stated (`ScVals.Lawful`, `Finders.Distinct`, `Fingerprints.Injective`) or none; so is the lower-casing of fingerprint fields (`Fingerprints.LowerCases`, of which ASCII lower-casing is an instance).
- JSON numbers that are not integers are carried as text, which the reader rejects.
- Redis command failures, process crashes and timeouts inside a command; the invariants are about runs without them.
- How long the model's call takes, its prompt and the parsing of its reply; a call yields a body and a token count, or throws.
- The reset dates in the budget error, and the usage statistics endpoint.
- Cache entries of other kinds, prompt-version tags in cache keys, and pattern scans; invalidation is removal of a fingerprint's entry.
- Fields of trace invocations that the builder fills with constants.
- Partitioning of contract events by emitting contract, and the reports built from the partitions.
- Rendered texts of call chains (trace and summary).
- File-system errors, directories, access-time granularity and keys with separators in the cache; the time of use is given with each operation.
- Widths of characters: the width of a text is a function of the text.
- Wrap.LinesFitIffWordsFit: is about prefix and continuation of one width, as the renderer builds them (crates/cli/src/ui/markdown.rs:414-434).
- StateDiffs.ByteTotals: sums are unbounded; a 64-bit overflow would take more than 2^64 bytes of state.
- Execution of the transaction by the Soroban host, HTTP and RPC transport, gzip, metrics, routes and user interfaces.
- Tables and lookups (host error names, taxonomy, network aliases), fee breakdown, checkpoint numbers, retry delays: true but easy.
