# nteedb in Dafny

A model of the storage engine of ntee-db (`nteedb-core`) and of the call gate of its JS binding, with proofs.

The store is an append-only log of JSON lines. Everything else is derived from it: the primary index, the
secondary indexes, the hint file that speeds up boot, and the bookkeeping of the blob side files. The project
proves that the derived things always equal the simple ones: over appends, in-place counter patches, evictions,
lazy expiry, range deletes, compactions, blob relieves, background hint writes, crashes and reboots.

## Layout

| file | what it holds |
|---|---|
| `Text.dfy`, `Wrappers.dfy` | byte strings in Go's order, ascending key sequences, tree walks; `Option` |
| `Counter.dfy`, `CounterSteps.dfy` | the fixed-width counter text; Incr, Topup and Take and runs of them |
| `SecIndex.dfy` | one secondary index: bound searches, value groups, caps, the grouped prefix query |
| `Records.dfy`, `MainLog.dfy` | records, the codec's laws, the counter's place in its line, framing and scanning |
| `SampleCodec.dfy` | one codec that meets the laws |
| `LogIndex.dfy`, `Hints.dfy` | what a log means, the replayed indexes, hints and boot |
| `Engine.dfy` | every operation as a function on what is on disk |
| `EngineInv.dfy`, `EngineView.dfy`, `Ideal.dfy`, `Sizes.dfy`, `Occupancy.dfy` | what every operation and every run keeps, what readers see, live bytes against file sizes |
| `Promises.dfy` | what each operation promises, said about records, bytes and clocks without the functions that define it |
| `Caps.dfy`, `Batch.dfy`, `BatchLimits.dfy`, `BatchSchemas.dfy`, `RunCaps.dfy` | caps: who is evicted, which writes survive, one pass per batch, for exactly which schemas it is enough, and runs |
| `Writes.dfy`, `TornCounter.dfy`, `BlobCrash.dfy`, `StaleHints.dfy` | crashes: between the writes of an operation, inside a patch, around blobs, and with a stale hint |
| `StoreBridge.dfy`, `Loading.dfy`, `Store.dfy` | the open store as a class, proved against `Engine` |
| `HintRace.dfy`, `HintTrace.dfy` | background hints against checkpoints and swaps: safety over all interleavings, what a schedule leaves on disk, progress |
| `Gate.dfy`, `GateTrace.dfy`, `GateProgress.dfy` | the compaction gate: safety over all interleavings, what a schedule does, progress |
| `SlotQueue.dfy` | the FIFO slot queue of the JS binding |

The spine is: a class method of `Store.DB` changes the bytes, the indexes and the blob files; its contract says that
the new disk is a function in `Engine` of the old one and that `Valid()` holds, that is, the log's bytes are exactly
its records, the primary index is their full replay, every secondary index holds exactly the fitting pairs, and the
hint describes a prefix of the log. `Store.DB.Run` extends that to any run of operations, checkpoints, crashes with
torn tails between or inside operations, kills inside a rewrite before its rename, and reboots.
The other modules prove what those functions of the disk guarantee; `Promises.dfy` says it operation by operation.

## Hypotheses

- Codec: `Records.Lawful`. Decoding inverts encoding, a line holds no raw newline, a line that lost its first bytes
  does not decode, every quote inside an escaped key follows a backslash, and a counter's line is the key field, the
  value field and a tail. All results hold for every codec with these laws, and `SampleCodec.SampleIsLawful` shows
  one. A `char` stands for one byte; keys and index strings are assumed to be text that JSON carries unchanged.
- Numbers: an index number is its position in the numeric order of float64 values, so order and equality are exact.
  Results about seen keys take numbers to print distinctly and without NUL (`Batch.SprintLawful`, which
  `Batch.UnaryIsLawful` shows can be met).
- I/O: a write succeeds or the process dies. Crashes fall between any two writes, inside an append, or inside a patch.
- Clock: where a run needs it, times do not go backwards (`Ideal.ClockForward`).
- Go's map iteration order is an explicit `order` argument, and every order is covered.
- Sizes and offsets are unbounded naturals; counters and query limits are int64 with explicit wrap-around.

## Where the code does less than its comments say

- A crash after the rename of a compacted log and before the fresh hint leaves the old hint, which boot accepts
  whenever its watermark fits the file. `Hints.HintBootsCorrectlyIff` says exactly which hints boot correctly, for
  every watermark. With the watermark on a record boundary a deleted key can come back and a live one go missing
  (`StaleHints.StaleHintResurrects`); inside a line, boot also cuts the live log there and the records behind are lost
  for good (`Hints.CutLogForgets`, `StaleHints.StaleHintTruncates`). A watermark beyond the file is ignored, but only
  until the log has grown past it (`StaleHints.IgnoredHintReturns`). All other crash points boot correctly.
- counter.go:28-31 says a torn patch cannot trick recovery into truncating, which holds (`Hints.TornPatchRecovery`).
  The counter itself can be lost: the mixed digits can exceed an int64, and then every counter call is refused
  (`TornCounter.TornIncrementCanLoseTheCounter`, `TornCounter.LostCounterRefuses`).
  `TornCounter.TornPatchReadsIff` says exactly which overwrites can tear so.
- secindex.go:437-438 says an overwrite cannot trigger eviction. In a group left over its cap it can evict itself
  (`Caps.OverCapOverwriteVanishes`); `Caps.WriteSurvivesIff` gives the exact condition. A crash between an append and
  its evictions leaves such a group (`Writes.CrashLeavesGroupOverCap`).
- batch.go:67-69 says one pass at the end equals a pass per item. For batches that take no present key out of a capped
  group this holds exactly for the schemas with at most one capped index whose name neither shadows nor is shadowed
  (`BatchSchemas.PassesAgreeIff`); for all batches, exactly for the schemas without caps
  (`BatchSchemas.MovingPassesAgreeIff`). Per batch, `Batch.OnePassSuffices` asks for at most one capped value per
  record and no key taken out.
- A name shadows another if it belongs to a string index and, followed by a NUL, starts the other. Then two pairs can
  share a seen key and the second is never enforced. Seen keys are exact exactly when no name shadows another
  (`Batch.SeenKeyIsExactIff`), and every batch keeps every cap exactly when no capped index is involved
  (`BatchSchemas.KeepsCapsIff`). These results and `BatchSchemas.PassesAgreeIff` take numbers that differ as float64
  values to print differently; float32 values break that, see "Left out".
- A prefix query with the smallest int64 as limit returns nothing, because negating it wraps (`SecIndex.Prefix`).
- `parseCounter` accepts negative zero besides the formatted forms (`CounterCodec.ParseIsFormatInverse`).

## Model

| member | source | states |
|---|---|---|
| `CounterCodec.FormatCounter` | nteedb-core/counter.go:36-50 | the digit loop yields sign and 19 zero-padded digits for every int64, the minimum included |
| `CounterCodec.ParseCounter` | nteedb-core/counter.go:54-77 | accepts exactly the counter texts whose integer is an int64; the uint64 accumulation never wraps and the wrapping negation gives the right value |
| `CounterCodec.ParseFormat` | nteedb-core/counter.go:25-33 | every int64 has a 20-byte form and is read back from it |
| `CounterCodec.ParseIsFormatInverse` | nteedb-core/counter.go:52-77 | a text parses to v exactly when it is v's form, or is negative zero and v is 0 |
| `CounterCodec.FormatIsInjective` | nteedb-core/counter.go:28-29 | distinct counters have distinct forms |
| `CounterSteps.IncrIsExact` | nteedb-core/counter.go:116-124 | Incr applies exactly when the true sum is an int64, and adds exactly the delta |
| `CounterSteps.TopupIsClampedSum` | nteedb-core/counter.go:126-176 | Topup leaves max(cur, min(cur+amount, max)), and applied plus returned overflow is the amount |
| `CounterSteps.TakeIsGuardedDifference` | nteedb-core/counter.go:178-210 | Take applies exactly when the true difference is at least the floor |
| `CounterSteps.RunConserves` | nteedb-core/counter.go:79-98 | over any run within one window the value is the start plus what the replies report as applied, and the deadline never moves |
| `CounterSteps.LapsedRestarts` | nteedb-core/counter.go:227-234 | a lapsed counter behaves as a missing one |
| `CounterSteps.TakeBudget` | nteedb-core/counter.go:178-210 | takes with floor -P accept at most P per window, each exactly when it still fits |
| `CounterSteps.UnitTakesAcceptMin` | nteedb-core/counter.go:178-210 | n unit takes with floor -P are accepted exactly min(n, P) times |
| `SecIndex.Insert` | nteedb-core/secindex.go:180-182 | the ordered set gains the entry and stays ordered |
| `SecIndex.Remove` | nteedb-core/secindex.go:184-186 | the ordered set loses the entry and stays ordered |
| `SecIndex.RemovePKs` | nteedb-core/secindex.go:191-202 | exactly the entries of the given keys are dropped |
| `SecIndex.LowerBound` | nteedb-core/secindex.go:166-170 | binary search finds the first entry at or after the probe |
| `SecIndex.UpperBoundValue` | nteedb-core/secindex.go:174-178 | binary search finds the first entry with a higher value |
| `SecIndex.FindVictims` | nteedb-core/secindex.go:448-463 | the two bound searches select the group's lowest keys, down to the cap |
| `SecIndex.VictimsAreLowest` | nteedb-core/secindex.go:431-435 | every victim sorts below every survivor, and min(size, cap) keys survive |
| `SecIndex.WouldSelfEvict` | nteedb-core/secindex.go:502-531 | true exactly when the key is new to the group and would be among the victims after insertion |
| `SecIndex.Prefix` | nteedb-core/secindex.go:275-334 | returns all, the first N or the last N keys of each distinct matching value, in value order, and terminates; a number index is refused |
| `SecIndex.PrefixFindsAll` | nteedb-core/secindex.go:280 | without a limit exactly the keys filed under a matching value |
| `SecIndex.PrefixFinds` | nteedb-core/secindex.go:275-284 | with any limit exactly the keys filed under a matching value with fewer than N keys below them, or above them for a negative limit |
| `SecIndex.PrefixInOrder` | nteedb-core/secindex.go:275-284 | the answer runs by ascending value and within a value ascending, or descending for a negative limit |
| `SecIndex.PickIs` | nteedb-core/secindex.go:279-284 | which keys of one group a limit picks, by how many sort below or above |
| `SecIndex.IndexOrderIs` | nteedb-core/secindex.go:135-146 | strings and keys are ordered by their first differing byte, numbers numerically |
| `Text.LtIff` | nteedb-core/pkindex.go:36 | one key sorts before another iff it is a proper prefix or has the smaller byte where they first differ |
| `Text.HasPrefixIff` | nteedb-core/pkindex.go:97 | a key has a prefix iff it is the prefix followed by something |
| `Records.Index` | nteedb-core/counter.go:273 | byte search: the first match, or -1 if there is none |
| `Records.FirstMatchIsValueField` | nteedb-core/counter.go:269-273 | for every key the first match of the value pattern is the real value field |
| `Records.LocateValue` | nteedb-core/counter.go:267-274 | the search lands on the value's digits |
| `Records.PatchedLine` | nteedb-core/counter.go:274 | overwriting the digits gives the line of the new text and moves nothing |
| `Records.TornPatchIsCounterText` | nteedb-core/counter.go:28-31 | any mixture of old and new digits is a counter text |
| `MainLog.RenderPatch` | nteedb-core/mainlog.go:51-52 | a patch that keeps a line's length replaces that record only |
| `MainLog.LineAt` | nteedb-core/mainlog.go:105-132 | the bytes at a record's offset are its line |
| `MainLog.ScanRender` | nteedb-core/mainlog.go:140-147 | scanning a log with a torn tail yields its records and the end of its last whole line |
| `MainLog.TornLineIsRejected` | nteedb-core/mainlog.go:145-147 | an append cut at any byte is never accepted |
| `MainLog.CutLineIsRejected` | nteedb-core/mainlog.go:150-190 | a scan that starts inside a line accepts nothing, whatever follows |
| `MainLog.RescanIsStable` | nteedb-core/db.go:311-315 | after truncation a second scan of any file accepts the same lines and all bytes |
| `MainLog.ScanIs` | nteedb-core/mainlog.go:140-190 | on any bytes a scan accepts consecutive whole lines that decode and whose blobs are on disk, and stops at the first place where none starts |
| `MainLog.MissingBlobStops` | nteedb-core/db.go:295-296 | the scan of a log stops at a record iff its blob ends past its file, whatever follows |
| `LogIndex.ReplayMirrors` | nteedb-core/db.go:294-307 | each replayed entry is the place, length, index values and expiry of the key's last record, which is its content |
| `LogIndex.EntryIsLatestLine` | nteedb-core/db.go:804-811 | an entry's byte range is exactly the line of the key's current record |
| `LogIndex.PatchLatest` | nteedb-core/counter.go:261-283 | patching the latest record changes that key's content and no index entry |
| `LogIndex.SameShapeReplay` | nteedb-core/counter.go:86-91 | records that differ only in counter digits replay alike |
| `Hints.WriteIndexHint` | nteedb-core/indexhint.go:39-73 | the lines are ascending and restore the index |
| `Hints.DescribesSurvives` | nteedb-core/db.go:248-271 | a hint stays a snapshot of a prefix while the log is appended to and counters inside the prefix are patched |
| `Hints.BootIsReplay` | nteedb-core/db.go:252-317 | boot from a good hint, or none, equals the full replay, with or without a torn tail |
| `Hints.BootedFromDisk` | nteedb-core/db.go:252-317 | from any file and hint every booted entry is the hint's or that of a whole line in its place with its blob on disk, and no such line starts where the file is cut |
| `Hints.CrashRecovery` | nteedb-core/mainlog.go:144-147 | a crash at any byte of an append recovers the state before it, and recovering again changes nothing |
| `Hints.TornPatchRecovery` | nteedb-core/counter.go:28-31 | a torn patch never truncates the log and leaves the index as it was, from the hint on disk or without one |
| `TornCounter.TornPatchReadsIff` | nteedb-core/counter.go:28-31 | every tear of an overwrite is a readable counter iff the highest digits of both texts, place by place, are an int64 |
| `TornCounter.TornIncrementCanLoseTheCounter` | nteedb-core/counter.go:54-77 | incrementing 8999999999999999999 can tear into nineteen nines, which the parser refuses |
| `TornCounter.LostCounterRefuses` | nteedb-core/counter.go:252-255 | such a counter answers ErrNotCounter to every call and keeps its digits |
| `Hints.HintBootsCorrectlyIff` | nteedb-core/db.go:252-317 | any hint with any watermark boots correctly iff it claims more than the file or sits on a record boundary and is right about every key the tail does not mention |
| `Hints.OffBoundaryTruncates` | nteedb-core/db.go:311-315 | any other watermark makes boot believe the hint alone and cut the file there |
| `Hints.CutLogForgets` | nteedb-core/db.go:311-315 | after such a cut even a full scan finds only the records before it |
| `Hints.BootsIffHarmless` | nteedb-core/db.go:252-271 | with any hint or none the whole log boots correctly iff the hint is harmless |
| `StaleHints.WindowBootsIff` | nteedb-core/compact.go:188-215 | between the swap and the fresh hint the compacted store boots correctly iff the old hint is harmless |
| `StaleHints.StaleHintResurrects` | nteedb-core/compact.go:188-215 | a good hint, then a compaction: if the watermark is a boundary of the new log, a deleted key comes back and a live one is hidden |
| `StaleHints.StaleHintTruncates` | nteedb-core/compact.go:188-215 | if the watermark is inside the new line, boot cuts the file and the live key is gone for good |
| `StaleHints.IgnoredHintReturns` | nteedb-core/db.go:254-268 | if the watermark is beyond the new log, boot ignores the hint, and believes it again once the log has grown past it |
| `Hints.FittingHintSurvives` | nteedb-core/db.go:254-266 | a hint that fits the log keeps fitting while the log is extended or patched |
| `Engine.BuildIXIff` | nteedb-core/secindex.go:555-594 | exactly which writes are refused; explicit values win, and every other extracted value of a declared index is carried |
| `EngineInv.StepGrows` | nteedb-core/db.go:42-44 | every operation but a rewrite keeps all blob refs inside and only extends or patches the log |
| `EngineInv.RunKeepsInv` | nteedb-core/db.go:276-280 | over every run each record, live or superseded, refers inside an existing blob file |
| `EngineInv.RunExtends` | nteedb-core/db.go:3-7 | a run without rewrites only extends or patches the log |
| `EngineInv.RelieveKeepsInv` | nteedb-core/compact.go:218-226 | after a relieve one generation is left and all of it is referenced |
| `EngineView.PatchRefinesAppend` | nteedb-core/counter.go:86-91 | readers see the same after a patch as after an append, and the log does not grow |
| `EngineView.RewriteCarries` | nteedb-core/compact.go:328-361 | each unexpired key keeps value, flag, expiry and the values of exactly the declared and soft-dropped indexes; no other key appears |
| `EngineView.RewritesKeepVisible` | nteedb-core/compact.go:34-53 | Compact and BlobsRelieve keep exactly what readers see |
| `EngineView.RewriteKeepsIndex` | nteedb-core/compact.go:54-60 | an index declared now, or over a soft-dropped name later, is the same from the rewritten log as from the old one minus expired keys |
| `Promises.RewriteKeeps` | nteedb-core/compact.go:54-107 | the same for Compact and BlobsRelieve, key by key: kept iff without expiry or with one that lies ahead |
| `Promises.PutRefusedIff` | nteedb-core/secindex.go:370-387 | a put is refused, and changes nothing, iff an index value is undeclared, of the wrong kind or given for no object, or a capped group holds cap higher keys and not this one |
| `Promises.IsObjectIff` | nteedb-core/secindex.go:536-545 | a value is taken for an object iff its first character that is no white space is an opening brace |
| `Promises.AppendStores` | nteedb-core/secindex.go:401-429 | a write adds one line with its index values, expiry and flag; a value at or over the threshold goes to the end of the current blob file, any other into the line |
| `Promises.PutShows` | nteedb-core/secindex.go:370-387 | after an accepted put the key, unless evicted, is shown with its value until its expiry, for ever without one; no other key changes |
| `Promises.BatchRefusedIff` | nteedb-core/batch.go:33-59 | a batch is refused, and changes nothing, iff one item has a negative ttl or would be refused alone |
| `Promises.BatchShows` | nteedb-core/batch.go:54-65 | after an accepted batch the last item of a key, unless evicted, is shown until its clock plus its ttl in milliseconds, for ever without a ttl (a sum of zero counts as none) |
| `Promises.BatchSparesOthers` | nteedb-core/batch.go:60-82 | keys the batch does not mention show as before, unless evicted |
| `Promises.DeleteRemoves` | nteedb-core/db.go:656-700 | removes the key, expired or not, and no other; an absent key costs no line |
| `Promises.RangeRemoves` | nteedb-core/rangedel.go:15-48 | removes exactly the keys strictly below, or strictly above, the cutoff |
| `Promises.ReapRemoves` | nteedb-core/db.go:741-761 | removes exactly the keys that are expired and lie where some request saw them |
| `Promises.StepReaps` | nteedb-core/db.go:741-761 | the same as one operation of a run |
| `Promises.OfferedIsReaped` | nteedb-core/db.go:749-761 | a key offered by a read is gone from the primary and every secondary index after reaping |
| `Promises.StepIs` | nteedb-core/counter.go:116-210 | Incr, Topup and Take apply, move and answer as the exact integer operations |
| `Promises.FreshCountShows` | nteedb-core/counter.go:226-243 | on a missing or expired key a call counts from zero and creates the counter with the given expiry if it applies |
| `Promises.LiveCountShows` | nteedb-core/counter.go:245-290 | on a live counter it steps the value, keeps the expiry and adds no line unless the record has index values; anything else alive is refused |
| `Promises.ExpiredIsLapsed` | nteedb-core/pkindex.go:22 | an entry is expired iff it has an expiry and it is not ahead; counters lapse by the same rule |
| `Ideal.CountIsIdeal` | nteedb-core/counter.go:225-289 | counter calls change the visible contents, and answer, as on an ideal map |
| `Ideal.ReapIsInvisible` | nteedb-core/db.go:740-769 | reaping never changes what readers see, whatever stale observations it is given |
| `Ideal.StepIsIdeal` | nteedb-core/db.go:689-702 | each operation acts on the visible contents as on a map that drops keys at their deadline |
| `Ideal.RunIsIdeal` | nteedb-core/db.go:689-702 | for every run with a forward clock and no caps, reads at any later time equal the ideal map |
| `Ideal.RunRepliesAreIdeal` | nteedb-core/counter.go:79-98 | and every counter call after such a run answers as on the ideal map |
| `Ideal.FreshStoreIsIdeal` | nteedb-core/db.go:185-246 | the same from an empty store, whose invariant holds after every run |
| `Caps.VictimIff` | nteedb-core/secindex.go:458-463 | a member is evicted iff at least cap members sort above it |
| `Caps.SelfEvictsIff` | nteedb-core/secindex.go:473-479 | a new key is rejected iff its group holds cap higher keys |
| `Caps.WriteSurvives` | nteedb-core/secindex.go:442-500 | from groups within caps an accepted write stays live and every group is within its cap, for any index order and cascade |
| `Caps.WriteSurvivesIff` | nteedb-core/secindex.go:437-467 | from any state, with any index values in any order, an accepted write survives iff under each capped value fewer than cap members sort above it |
| `Caps.NewKeySurvives` | nteedb-core/secindex.go:473-479 | an accepted new key always survives |
| `Caps.OverCapOverwriteVanishes` | nteedb-core/secindex.go:524-527 | an accepted overwrite in an over-cap group evicts itself |
| `Batch.SharedSeenKey` | nteedb-core/batch.go:70-77 | two pairs share a seen key only if one name shadows the other |
| `Batch.SeenKeyIsExactIff` | nteedb-core/batch.go:70-77 | the seen key tells all pairs of a schema apart iff no declared name shadows another |
| `Batch.BatchKeepsCaps` | nteedb-core/batch.go:67-82 | from groups within caps, if no capped index shadows or is shadowed, any batch leaves every group within its cap, with or without extractors |
| `RunCaps.RunKeepsCaps` | nteedb-core/secindex.go:442-471 | if no capped index shadows or is shadowed, no run of operations from a store within its caps leaves a group over its cap |
| `RunCaps.StepKeepsCaps` | nteedb-core/batch.go:67-82 | the same for every single operation |
| `BatchSchemas.KeepsCapsIff` | nteedb-core/batch.go:67-82 | any schema, whatever its extractors, keeps all caps through every batch iff no capped index shadows or is shadowed |
| `BatchSchemas.ShadowFails` | nteedb-core/batch.go:73-76 | any other schema has a store within its caps and an accepted item that breaks one |
| `Batch.KeepUnion` | nteedb-core/batch.go:67-69 | trimming a group early does not change what a later trim keeps |
| `Batch.OnePassSuffices` | nteedb-core/batch.go:67-82 | with at most one capped value per record and no key taken out of its group, an accepted batch leaves the same records as a pass after every append: the highest keys of each group |
| `BatchSchemas.PassesAgreeIff` | nteedb-core/batch.go:67-69 | all batches of a schema that take no key out of a capped group agree iff at most one index has a cap and no capped index shadows or is shadowed |
| `BatchSchemas.MovingPassesAgreeIff` | nteedb-core/batch.go:67-69 | all batches of a schema agree iff no index has a cap |
| `BatchSchemas.TwoCapsFail` | nteedb-core/batch.go:67-69 | every schema with two caps, whatever they are, has an accepted batch of new keys that ends differently |
| `BatchSchemas.OneCapFails` | nteedb-core/batch.go:67-69 | every schema with a cap has an accepted batch that writes a key and moves it, and ends differently |
| `BatchSchemas.ItemByItemKeepsCaps` | nteedb-core/secindex.go:442-471 | a pass after every append keeps all caps in every schema |
| `BatchLimits.SeveralCapsDiffer` | nteedb-core/batch.go:67-69 | for any two caps a batch that fills one group and then writes a lower key into it and into another full group keeps a record that enforcing after every append evicts |
| `BatchLimits.MovedKeyDiffers` | nteedb-core/batch.go:67-69 | so does every accepted pair of a new key for a full group and a rewrite, without the value, of another key of it, old or new, if no other touched group is over its cap |
| `Batch.ShadowCollides` | nteedb-core/batch.go:73 | for every value of a shadowed index the shadowing index has one with the same seen key |
| `BatchLimits.CollidingPairIsSkipped` | nteedb-core/batch.go:73-76 | an accepted new item that visits two pairs with one seen key first, and has room in its other capped groups, adds its key to the second group whatever its cap: that group is never enforced |
| `Sizes.LiveWithinLog` | nteedb-core/db.go:623-640 | live bytes never exceed the log; equal when it holds each live record once |
| `Sizes.SumLines` | nteedb-core/db.go:634-639 | the walk adds up the live line lengths |
| `Sizes.CompactLeavesNoDeadBytes` | nteedb-core/db.go:623-627 | after Compact the log is exactly its live bytes |
| `Sizes.RelieveLeavesNoOrphans` | nteedb-core/compact.go:271-311 | after a relieve there is one blob file and no orphaned byte |
| `Occupancy.StepSlack` | nteedb-core/secindex.go:401-420 | an operation that does not rewrite leaves the blob bytes on disk minus the bytes all records of the log refer to unchanged |
| `Occupancy.OrphansNeverNegative` | nteedb-core/compact.go:271-311 | over every run of operations from an empty store live blob bytes never exceed the bytes all records refer to, nor those the blob files |
| `BlobCrash.BlobBeforeRecord` | nteedb-core/secindex.go:401-420 | a crash at any byte of the blob or of the record after it only orphans bytes, from a good hint or none |
| `BlobCrash.RelieveBeforeRename` | nteedb-core/compact.go:233-256 | before the commit any crash reopens to the old contents, untruncated, from the old hint or none |
| `BlobCrash.RelieveAfterRename` | nteedb-core/compact.go:202-215 | after the commit, with any old files removed, a crash reopens to every unexpired value, untruncated, iff the hint still on disk is harmless |
| `Writes.StepPerforms` | nteedb-core/secindex.go:400-429 | every operation but a rewrite is a sequence of single writes, each blob before the line that refers to it |
| `Writes.EveryPointGrows` | nteedb-core/rangedel.go:61-64 | after any number of those writes the invariant holds and the log has only grown or been patched |
| `Writes.CrashInsideBoots` | nteedb-core/mainlog.go:140-147 | a crash after any of them, or inside the next line, boots to exactly the lines written |
| `Writes.PointsAreInterrupted` | nteedb-core/secindex.go:400-429 | every point between the writes of an operation is a state an interruption can leave |
| `Writes.InterruptedKeeps` | nteedb-core/secindex.go:401-420 | whatever a killed operation leaves, stopped after some writes, inside a blob or a patch, or before a rename, keeps the invariant and only extends or patches the log |
| `Writes.TornPatchInterrupts` | nteedb-core/counter.go:261-283 | every mixture of old and new digits of a counter that a call moves is such a state |
| `Writes.CrashLeavesGroupOverCap` | nteedb-core/secindex.go:442-471 | a crash between an append and its evictions leaves the group over its cap |
| `Writes.OverwriteEvictsItself` | nteedb-core/secindex.go:524-527 | overwriting a key with cap members above it then evicts it |
| `StoreBridge.SecIsDetermined` | nteedb-core/secindex.go:614-622 | the primary entries determine the secondary indexes |
| `StoreBridge.RetractEntries` | nteedb-core/secindex.go:638-653 | exactly the key's entries leave the indexes |
| `StoreBridge.InsertEntries` | nteedb-core/secindex.go:602-612 | exactly the key's fitting values are filed |
| `StoreBridge.RebuildSec` | nteedb-core/secindex.go:661-669 | the refilled indexes hold exactly the fitting pairs |
| `StoreBridge.PatchLog` | nteedb-core/counter.go:266-283 | the patched bytes are those of the log with the one counter changed; the guards always hold |
| `Loading.ApplyRecord` | nteedb-core/db.go:298-305 | one replayed record keeps both indexes in step |
| `Loading.LoadHint` | nteedb-core/db.go:258-264 | the hint lines restore the primary index and exactly its secondary indexes |
| `Loading.ReplayTail` | nteedb-core/db.go:281-317 | on any file the loop applies exactly the lines before the first torn, corrupt or dangling one and reports where they end |
| `Loading.Load` | nteedb-core/db.go:252-271 | on any file with any ordered hint the loaded indexes and the cut are those of `Boot` |
| `Store.HighestGeneration` | nteedb-core/db.go:206-236 | new blobs go to the highest generation present |
| `Store.DB.Open` | nteedb-core/db.go:185-246 | with any ordered hint the indexes and the cut are those of `Boot`; if that is the replay of the log everything is in step, and with a hint that describes the log, or none, it is |
| `Store.DB.Recover` | nteedb-core/db.go:248-317 | dying and opening what is left of a grown log, torn line included, restores the records left and both indexes |
| `Store.DB.Reopen` | nteedb-core/db.go:248-317 | after a crash between operations every field comes back as it was |
| `Store.DB.AppendLine` | nteedb-core/mainlog.go:114-132 | one line is added at the reported offset and length |
| `Store.DB.ReadRecord` | nteedb-core/db.go:804-811 | the bytes an entry points at decode to the key's current record |
| `Store.DB.DeleteLocked` | nteedb-core/db.go:679-687 | a tombstone is appended and both indexes follow |
| `Store.DB.AppendRecord` | nteedb-core/secindex.go:400-429 | blob, log and both indexes follow the new record |
| `Store.DB.RefreshSec` | nteedb-core/secindex.go:623-630 | the key's old entries go and its new ones come |
| `Store.DB.EnforceMaxPerValue` | nteedb-core/secindex.go:442-471 | the victims of every touched value are deleted, in the given order |
| `Store.DB.CheckSelfEviction` | nteedb-core/secindex.go:483-500 | rejects exactly the writes that would evict themselves |
| `Store.DB.Put` | nteedb-core/secindex.go:370-387 | accepted exactly when valid and not self-evicting; the store stays in step |
| `Store.DB.PutBatch` | nteedb-core/batch.go:27-100 | all or nothing validation, a negative ttl included, then the appends and one enforcement pass; see `Promises.BatchShows` |
| `Store.DB.Delete` | nteedb-core/db.go:656-670 | deletes a present key, expired or not, and ignores an absent one |
| `Store.DB.RemoveByPkLess` | nteedb-core/rangedel.go:15-30 | deletes exactly the keys below the cutoff, counts them, and leaves a fresh hint if there were any |
| `Store.DB.RemoveByPkGreater` | nteedb-core/rangedel.go:34-48 | deletes exactly the keys above the cutoff, counts them, and leaves a fresh hint if there were any |
| `Store.DB.RemovePkEntries` | nteedb-core/rangedel.go:56-91 | exactly the given keys get tombstones and leave all indexes, and the hint is fresh |
| `Store.DB.ReapBatch` | nteedb-core/db.go:741-769 | the primary index loses exactly the keys still in place and still expired |
| `Store.DB.CounterUpdate` | nteedb-core/counter.go:225-289 | creates, restarts, patches, appends or refuses, with the store in step |
| `Store.DB.PatchCounter` | nteedb-core/counter.go:261-283 | the patch changes the counter and neither an index nor the log's length |
| `Store.DB.WriteHint` | nteedb-core/db.go:373-393 | the hint becomes a snapshot of the whole log |
| `Store.DB.BuildRewrite` | nteedb-core/compact.go:317-376 | the new bytes, index and blob file are those of the rewritten records |
| `Store.DB.Compact` | nteedb-core/compact.go:159-216 | the swapped-in store is in step and has a fresh hint; see `Promises.RewriteKeeps` |
| `Store.DB.BlobsRelieve` | nteedb-core/compact.go:227-269 | the same, with all live blobs in one new generation |
| `Store.DB.Get` | nteedb-core/db.go:529-551 | returns the value iff the key is there without an expiry or before it; any other hit is offered to the reaper with its offset |
| `Store.DB.PrefixScan` | nteedb-core/db.go:773-790 | returns exactly the keys with the prefix without an expiry or before it, in order, and offers exactly the others to the reaper |
| `Store.DB.ByIndexPrefix` | nteedb-core/secindex.go:711-726 | answers from the stored index values for every limit, nothing for the smallest int64; unknown and number indexes are refused |
| `Store.DB.LiveSize` | nteedb-core/db.go:628-640 | the live bytes, never more than the log |
| `Store.DB.BlobUsage` | nteedb-core/compact.go:284-311 | the walk gives the size of all generations, the live blob bytes and their difference |
| `Store.DB.Run` | nteedb-core/db.go:3-7 | after any run of operations, checkpoints and reboots, with crashes between or inside operations and inside rewrites before their rename, bytes, indexes and hint are in step with the records |
| `Store.EveryKillHappens` | nteedb-core/secindex.go:401-429 | a kill after any number of an operation's writes, at any byte of the next line or blob, is an event of such a run |
| `Store.RewriteKillHappens` | nteedb-core/compact.go:159-192 | so is a kill inside a rewrite before its rename |
| `Store.PathIsRun` | nteedb-core/db.go:3-7 | if none is interrupted the records are those of the operations alone |
| `HintRace.EveryInterleavingIsSafe` | nteedb-core/db.go:373-466 | in every interleaving of single writes no snapshot older than a completed checkpoint is on disk after it, and outside a swap the hint describes a prefix of the log |
| `HintRace.CrashAnywhereBoots` | nteedb-core/db.go:364-466 | killing the process between any two writes outside a swap, or inside an append, boots to the replay of the log |
| `HintRace.CrashAnywhereBootsIff` | nteedb-core/compact.go:188-215 | killing it anywhere, a swap included, boots correctly iff the hint on disk is harmless |
| `HintRace.OperationIsMoves` | nteedb-core/db.go:373-393 | every operation but a rewrite is a run of single-write moves |
| `HintTrace.EveryScheduleSavesWhatItAsks` | nteedb-core/db.go:373-466 | in every interleaving the hint on disk is the one the last save was given and the store is the mutations and swaps in order, both read off the moves alone |
| `HintTrace.SavesFinish` | nteedb-core/db.go:373-466 | from any point every save and checkpoint can finish within the moves ahead; a checkpoint then leaves a fresh hint, a snapshot not overtaken has landed |
| `HintTrace.NeverStuck` | nteedb-core/db.go:425-466 | as long as a save or checkpoint is under way something can go on |
| `Gate.GateStep` | nteedb-core/compact.go:109-131 | one rebuild at a time, nobody past a raised gate, nobody parked behind a lowered one |
| `Gate.FrozenUnderGate` | nteedb-core/compact.go:151-159 | while the gate is up only the swap changes the disk, and the store cannot be closed |
| `Gate.EveryInterleavingIsSafe` | nteedb-core/compact.go:113-216 | in every interleaving the disk is the result of whole operations in effect order, and a piecemeal rebuild has read exactly the disk it replaces |
| `GateTrace.EveryScheduleDoesWhatItAsks` | nteedb-core/db.go:468-480 | those operations are read off the schedule alone: each thread's write at its turn unless a Close came first, each rebuild at its swap; every call performs at most once |
| `GateTrace.NoWriteIsLost` | nteedb-core/compact.go:109-131 | once a thread that called a write on a store not closed by then is back, the disk holds it from then on |
| `GateProgress.NeverStuck` | nteedb-core/compact.go:109-131 | as long as anyone is inside, someone can go on: no deadlock and no lost wake-up |
| `GateProgress.StepLowers` | nteedb-core/compact.go:109-131 | every step of a call under way lowers a well-founded measure, so no schedule goes on for ever without new calls |
| `GateProgress.EveryCallCanFinish` | nteedb-core/compact.go:109-216 | any schedule can be completed so that all are outside and the gate is down; unless Close was called every thread's last write or rebuild has then taken effect |
| `GateProgress.LoneCallTakesEffect` | nteedb-core/compact.go:109-216 | a write or rebuild called on an idle store gets through |
| `Gate.FrozenWhileReading` | nteedb-core/db.go:529-535 | while anyone reads no step of any thread changes the disk |
| `Gate.ReadsAreCurrent` | nteedb-core/db.go:529-535 | a reader excludes every writer, its disk is the operations performed so far, and no next step changes it |
| `Gate.ReadSpansOneDisk` | nteedb-core/db.go:529-551 | from lock to unlock, whatever runs meanwhile, a reader faces one disk |
| `Gate.ConcurrentReadsAreIdeal` | nteedb-core/db.go:522-551 | without caps every concurrent read reports the ideal map of those operations |
| `SlotQueue.RunIsFair` | nteedb-js/src/native.js:125-170 | over every run slots stay within the limit, a waiter means all are held, admission is in arrival order |
| `SlotQueue.AdmissionIsFifo` | nteedb-js/src/native.js:132-170 | who is in and who waits is told by the calls alone: the callers in order, the first slots plus releases of them admitted |
| `SlotQueue.ReleasesDrain` | nteedb-js/src/native.js:150-170 | no waiter starves: the next n releases admit the n oldest waiters |
| `SlotQueue.SlotGate.Acquire` | nteedb-js/src/native.js:142-148 | takes a slot or queues the caller |
| `SlotQueue.SlotGate.Release` | nteedb-js/src/native.js:150-170 | hands the slot to the oldest waiter or frees it |
| `SlotQueue.SlotGate.DropDeadPrefix` | nteedb-js/src/native.js:154-166 | the queue is unchanged and copying stays within the hand-offs |
| `SlotQueue.SlotGate.Drive` | nteedb-js/src/native.js:132-170 | any run follows the gate, and elements copied never exceed hand-offs |

## Left out

- Tree internals: the ordered trees are sorted sequences and maps; copy-on-write cloning is a value copy.
- JSON and base64: the codec is abstract; keys that are not valid UTF-8, which JSON would alter, are outside the model.
- Float text: float32 inputs are not modelled. Their JSON text rounds differently, and batch.go:73 prints the Go value: float32(0.1) and float64(0.1) both print "0.1" but lie in different groups, so a capped number index can be left over its cap without any shadowing name.
- TTL arithmetic (`ttl.go`): single writes carry the resolved expiry; rejecting a non-positive ttl is modelled for batches only.
- Returned I/O errors, `failStop`, fsync ordering and power loss.
- `reindex.go`, `meta.go` and schema adoption: extractors are one opaque function, soft-dropped names a given set.
- Exact, range and existence queries, GetMany, Has and Stats: simpler than the prefix query and Get.
- Write counting that decides when the background hint starts: it may start after any write.
- The reaper goroutine's queue: any batch of observations may be reaped at any time.
- int32 line lengths: a line over two gigabytes is not modelled.
- The server, the C ABI, the JS client and the rest of the JS wrapper.
- Hint file parsing: a missing, unparseable or wrong-version hint file is no hint; its bytes are not modelled.
- Batch.OnePassSuffices: gives one direction for a single batch. A batch outside its hypothesis can still agree, depending on the whole cascade of evictions; the exact condition is given per schema, by `BatchSchemas.PassesAgreeIff` and `BatchSchemas.MovingPassesAgreeIff`.
- Store.DB.Run: a kill between the rename of a rewrite and its fresh hint is no event, because the store is then not always in step; `StaleHints.WindowBootsIff` and `BlobCrash.RelieveAfterRename` say exactly when it is.
