# Verified models of liblor

liblor is a C library of small building blocks: channels, hash maps and sets, a trace
recorder, a random number generator, arenas, strings, dynamic arrays and a command line
parser, plus a Python tool that joins its modules into one header. This project models the
parts of it whose correctness depends on several functions working together, and proves
what those parts promise. `dafny verify dfyconfig.toml` checks all of it.

Where the source updates an object in place, the model is a class with the same fields, and
each method is proved to act as a function on values (its specification). The theorems are
then about these functions: over one call, over every run, or over every reachable state.
What the system decides (which thread a signal wakes, whether memory is available, how much
of a file fits) is an argument of the operation, so every theorem holds for every choice.

| source | modules | what is proved, in short |
|---|---|---|
| `src/concurrency.c` | `ChannelMonitor` (one critical section), `ChannelSystem` (threads and steps), `ChannelTheorems` (runs), `ChannelCalls` (what callers see), `ChannelFailures` (waits that fail) | conservation and first-in-first-out order of the values passed to the calls, on every run; refinement of an atomic queue; close is final; no lost wakeup unless a signalled wait fails; after failing waits, the exact condition under which somebody is stranded once all woken threads have run; every schedule of woken threads ends in a settled channel |
| `src/map.c` | `Common`, `Bits`, `Growth`, `ProbeIndex`, `MapIndex` (buckets), `HashMaps` | probing and backward-shift deletion keep the index exact; the map stands for one finite map, with all-or-nothing failures, a determined status for every call, and balanced key clones |
| `src/set.c` | `HashSets` | the four operations build the mathematical sets, and fail only when sizes or memory say so; the relations decide them by counting |
| `src/trace.c` | `TraceModel`, `TraceTheorems`, `TraceCodec`, `Json`, `TraceFiles`, `TraceReaders`, `TraceWriters`, `TraceThreads`, `TraceSessions` | room for every end is reserved; exactly what is recorded, dropped and flushed; ends are recorded exactly with their begins; the buffer decodes to its records; from the start of a recorder to the finished file, whatever is called between: the text is JSON that reads back as exactly the recorded calls and the closing ends, event by event |
| `src/random.c` | `Words`, `PcgPeriod`, `Random` | full period for every odd increment; the output permutation is exactly uniform; rejection sampling ends and is exactly unbiased |
| `src/memory.c` | `ArenaBlocks`, `ArenaStates`, `ArenaSuccesses`, `ArenaCommits`, `ArenaScopes`, `Arenas` | live allocations are aligned, disjoint and backed; the newest block is used exactly when it has room; rewinding and nested scratch scopes restore exactly what the mark saw; exactly when memory is committed in multiples of the commit size |
| `tools/gen_single_header.py` | `ModuleGraphs`, `ModuleOrders` | ordering succeeds exactly on acyclic graphs of known names and keeps to the given order; one pass of the emitted blocks gives the least closed selection |
| `src/string.c` | `StringViews` | chopping and joining are inverse exactly when the parts allow it |
| `src/array.c` | `Growth`, `DynArrays` | append and insert take their source as it was at the call, even out of the array itself |
| `src/cli.c` | `CliModel`, `CliTheorems`, `CliMeanings`, `CliParsers` | equivalent spellings leave equal parsers unless a pending numeric positional takes a token, for clusters exactly then; what a command line means, and what its options and positionals hold afterwards |

Places where the code does less than its description suggests are stated as lemmas with a
concrete input beside the exact condition under which the description holds:

- A wait that times out after it was signalled can leave a thread asleep beside a value or free
  room, at once or only later, or a rendezvous value with nobody to take it
  (`ChannelFailures.TimeoutCanStrand`, `SenderTimeoutCanStrand`, `TimeoutCanStrandLater`,
  `TimeoutCanOrphanSlot`). `ChannelFailures.FailureStrandsExactly` says from the state before the
  failure whether it does, whoever runs next.
- `docs/memory.md:139-140` and `include/lor/memory.h:149-150` promise that memory is committed in
  multiples of the commit size. A virtual block keeps that over its whole life exactly if its first
  commit does and every larger size of the block rounds to a multiple, or up to the whole block
  (`ArenaCommits.LifeIsGranularExactly`). The first commit does exactly if the commit size holds the
  header and the request, or they reach the default size, or the pages they need happen to fit
  (`ArenaCommits.FirstCommitExactly`); for a power of two this alone decides
  (`ArenaCommits.NewBlockLife`, `ArenaCommits.AllocGranularExactly`). Initialization keeps commit
  sizes that fail either way: two pages (`ArenaCommits.FirstCommitNoMultiple`) and three pages
  (`ArenaCommits.GrowthNoMultiple`).
- `-12` need not mean `-1 -2`: a pending positional that reads numbers takes `-1`, or takes all of
  `-12` (`CliTheorems.NumbersDiffer`, `CliTheorems.ClusterMeansSinglesExactly`).
- `docs/random.md:23-24` lets different streams give independent sequences. The seeding shifts the
  stream number left, so a stream and the one 2^63 above it are the same (`Random.TopBitIsLost`);
  streams have different increments exactly if they differ in their low 63 bits
  (`Random.StreamsDifferExactly`).
- With a delimiter of several bytes, chopping a join may give other parts than were joined
  (`StringViews.LongDelimiterDiffers`, `StringViews.JoinChopsExactly`).
- A source apart from the elements is refused exactly when it begins in the unused capacity or
  right behind the storage (`DynArrays.ApartYetRefused`, `DynArrays.AppendFromBehindStorage`).

## Model

| member | source | states |
|---|---|---|
| `ChannelMonitor.SendAttempt` | src/concurrency.c:665-702 | a deposit appends the value to what the channel holds and keeps the ring and slot bounds; it blocks or is refused exactly as the loop test and the closed flag say |
| `ChannelMonitor.ReceiveEnter` | src/concurrency.c:720-722 | a rendezvous receiver counts itself in; nothing held changes |
| `ChannelMonitor.ReceiveAttempt` | src/concurrency.c:723-763 | a take removes the oldest held value; CLOSED exactly when closed and nothing is held; otherwise it waits without a change |
| `ChannelMonitor.ReceiveAbandon` | src/concurrency.c:724-731 | a receiver whose wait fails leaves without looking at the slot: what the channel holds stays |
| `ChannelMonitor.RingPush` | src/concurrency.c:698-700 | writing at `(first + count) % capacity` appends to the ring's contents |
| `ChannelMonitor.RingPop` | src/concurrency.c:758-761 | advancing `first` removes the oldest value of the ring |
| `ChannelMonitor.Channel.constructor` | src/concurrency.c:561-598 | a new channel is open and empty, with a ring of the capacity or a one-value slot |
| `ChannelMonitor.Channel.TrySend` | src/concurrency.c:665-702 | the send's critical section acts as SendAttempt on the fields and the buffer |
| `ChannelMonitor.Channel.EnterReceive` | src/concurrency.c:720-722 | the receiver's first lines act as ReceiveEnter |
| `ChannelMonitor.Channel.TryReceive` | src/concurrency.c:723-763 | the receiver's critical section acts as ReceiveAttempt |
| `ChannelMonitor.Channel.AbandonReceive` | src/concurrency.c:724-731 | a failed wait acts as ReceiveAbandon |
| `ChannelMonitor.Channel.Close` | src/concurrency.c:600-612 | close only sets the flag; the broadcasts are the Close step of the system |
| `ChannelSystem.StepIsSafe` | src/concurrency.c:600-764 | every critical section of any thread, spurious wakeup, timeout and close keeps the invariant: bounds, one waiting set per thread, the count of waiting receivers, nobody parked after close, and accepted values == received values + held values |
| `ChannelTheorems.StepRefinesQueue` | src/concurrency.c:600-764 | every step is the one step of a closable first-in-first-out queue that its action names, with the queue's reply: sends are refused exactly when closed, receives take the oldest value whenever there is one, only close closes, failing and waking change nothing |
| `ChannelTheorems.RunIsSafe` | src/concurrency.c:600-764 | the invariant holds on every run of any number of threads, and the histories are those of the replies |
| `ChannelTheorems.ClosedMeansDrained` | src/concurrency.c:682-754 | a receiver is told CLOSED only when every accepted value has been received, and no send succeeds afterwards |
| `ChannelCalls.InsideIsUnanswered` | src/concurrency.c:656-764 | over every run a thread is inside the channel exactly while its latest call has no answer, on the side of that call and with the value it passed: every call is answered once |
| `ChannelCalls.SentIsCalled` | src/concurrency.c:687-702 | a send that succeeds, at once or after any number of waits, deposits the value its thread passed to its latest send call |
| `ChannelCalls.ConservationAndFifo` | src/concurrency.c:656-764 | on every run, with timeouts, spurious wakeups and close, the values passed to the sends that succeeded are the received values followed by those still held, in order; the bounds hold |
| `ChannelCalls.ClosingIsFinal` | src/concurrency.c:600-764 | from a close on the channel is closed for good: every send call and resumed send answers CLOSED, every receive takes the oldest value still held or answers CLOSED, and nobody is parked |
| `ChannelCalls.OpenUntilClosed` | src/concurrency.c:600-612 | on a run without a close the channel is open |
| `ChannelCalls.SendWaitsExactly` | src/concurrency.c:666-697 | a send waits exactly while the channel is open and full, or is a rendezvous without a receiver inside |
| `ChannelCalls.CallsArePossible` | src/concurrency.c:600-764 | any thread outside may call, any thread inside may fail, and anyone may close, in every reachable state |
| `ChannelCalls.WokenTriesAgain` | src/concurrency.c:649-654 | a parked thread that is woken, spuriously or by close, can take its next step |
| `ChannelTheorems.StepKeepsSignals` | src/concurrency.c:600-764 | every step except the failure of a signalled wait keeps a signal under way for every value or free cell that a parked thread could use |
| `ChannelTheorems.NoLostWakeup` | src/concurrency.c:600-612 | on every run whose signalled waits return normally no parked thread is stranded, a full rendezvous slot has a signalled receiver inside, and after close nobody is parked |
| `ChannelTheorems.ResumeShrinksWork` | src/concurrency.c:667-764 | a resumed thread leaves or parks again and wakes at most one other: the weighted number of threads inside falls |
| `ChannelTheorems.ResumingEnds` | src/concurrency.c:667-764 | without new calls every schedule of the signalled threads ends |
| `ChannelTheorems.QuietMeansSettled` | src/concurrency.c:667-764 | when nobody is signalled, not both sides wait; waiting receivers mean an empty channel, waiting senders a full one, a closed channel has nobody inside, and a rendezvous channel has handed over all it accepted |
| `ChannelTheorems.Settle` | src/concurrency.c:667-764 | from every reachable state, also after failed waits, the signalled threads alone reach a quiet state, and lose no signal on the way |
| `ChannelFailures.FailedReceiverLosesSignalExactly` | src/concurrency.c:723-731 | when a signalled receiver's wait fails the balance of signals stays exactly if nobody is parked on its side or there are more signalled receivers than values (rendezvous: unless it alone was to take the deposited value) |
| `ChannelFailures.FailedSenderLosesSignalExactly` | src/concurrency.c:667-675 | the same for a signalled sender and free cells (rendezvous: unless it alone was to serve a waiting receiver while others are parked) |
| `ChannelFailures.FailedReceiverStrandsAtOnce` | src/concurrency.c:723-731 | somebody is stranded, or a slot value orphaned, right after the failure exactly if it was the only signalled receiver and there is work |
| `ChannelFailures.FailedSenderStrandsAtOnce` | src/concurrency.c:667-675 | parked senders are stranded right after the failure exactly if it was the only signalled sender and a send would not have to wait |
| `ChannelFailures.SenderRunKeepsFate` | src/concurrency.c:667-702 | a signalled sender that runs changes neither that a channel is ruined nor that it is not |
| `ChannelFailures.ReceiverRunKeepsFate` | src/concurrency.c:723-763 | the same for a signalled receiver |
| `ChannelFailures.FateIsDecided` | src/concurrency.c:656-764 | from every reachable state, however many waits have failed, every schedule of the signalled threads ends with somebody stranded or a value orphaned exactly if the counts at its start say so: a signal is lost, and more threads are parked than the other side can wake, or nobody can make the first move |
| `ChannelFailures.FailureStrandsExactly` | src/concurrency.c:656-764 | what the failure of one signalled wait costs once all signalled threads have run, read off the state before it, in both directions and for every schedule |
| `ChannelFailures.LostSignalTellsAlone` | src/concurrency.c:656-764 | with nobody inside on the other side a lost signal always ends in stranding |
| `ChannelFailures.ParkedSenderRescues` | src/concurrency.c:656-764 | with a parked sender it need not: a reached state, after three receivers park, two sends, a parked sender and one failed wait, with a lost signal whose every schedule ends well |
| `ChannelFailures.TimeoutCanStrand` | src/concurrency.c:741-748 | a concrete run: a signalled receiver times out and another sleeps beside a value, so the condition of NoLostWakeup is needed |
| `ChannelFailures.SenderTimeoutCanStrand` | src/concurrency.c:687-697 | a concrete run: a signalled sender times out and another sleeps beside free room |
| `ChannelFailures.TimeoutCanStrandLater` | src/concurrency.c:741-764 | a concrete run: after the timeout nobody is stranded yet, but the other signalled receiver leaves one value behind beside a sleeping one |
| `ChannelFailures.TimeoutCanOrphanSlot` | src/concurrency.c:720-731 | a concrete run: a rendezvous send returns OK, the receiver times out, and the value stays in the slot with nobody inside |
| `Bits.AndMaskIsMod` | src/map.c:245-247 | masking with a power of two minus one is the remainder, for every word |
| `MapIndex.BucketFor` | src/map.c:245-247 | the masked hash is the hash modulo the number of buckets |
| `MapIndex.FreeBucket` | src/map.c:266-274 | the probe of an insertion ends at an empty bucket with no empty one between it and the home of the key |
| `MapIndex.NextBucket` | src/map.c:249-264 | the masked increment is the next bucket around the table |
| `MapIndex.ProbeDistance` | src/map.c:571-574 | the masked, wrapping difference is the number of steps forward from the ideal to the actual bucket |
| `ProbeIndex.EmptyBucket` | src/map.c:249-317 | fewer entries than buckets leave an empty bucket, on which every probe ends |
| `MapIndex.FindBucket` | src/map.c:249-264 | the probe ends; it gives the bucket of an entry with an equal key, and None only when no indexed entry has one |
| `MapIndex.InsertBucket` | src/map.c:266-274 | the new entry index is stored once, reachable by probing; all others stay reachable |
| `MapIndex.FillBuckets` | src/map.c:276-284 | a fresh table indexes all entries |
| `MapIndex.HoleOnPath` | src/map.c:576-595 | the two-distance test holds exactly when the hole lies on the cyclic path from the entry's ideal bucket to its actual one |
| `MapIndex.EraseBucket` | src/map.c:576-595 | backward-shift deletion removes exactly the entry index of the given bucket: every other one occurs in exactly one bucket and no empty bucket lies on its path; the loop ends |
| `MapIndex.IndexRenames` | src/map.c:597-629 | after swap-with-last, re-pointing the one bucket of the last entry makes the table index the shortened entries |
| `HashMaps.RepSwapRemove` | src/map.c:608-629 | swap-with-last removal deletes exactly the removed key from the finite map |
| `HashMaps.Repoint` | src/map.c:618-627 | probing for the moved key finds its old bucket, not the erased one, and the new number makes the index exact again |
| `HashMaps.FillGap` | src/map.c:618-627 | the last entry is found, moved into the gap and re-pointed; the buckets index the result |
| `HashMaps.RemoveAt` | src/map.c:608-629 | erasing a bucket and closing the entry gap keeps entries and buckets sound and removes exactly the key's class |
| `HashMaps.EntryCapacity` | src/map.c:286-298 | the loop computes the capacity after growth, which suffices, never shrinks, and doubles unless doubling overflows |
| `HashMaps.BucketCapacity` | src/map.c:300-317 | the table size is a power of two above four thirds of the entries, less than double what that needs; Overflow exactly above SIZE_MAX / 4 |
| `HashMaps.HashMap.constructor` | src/map.c:334-348 | a new map stands for the empty map, without storage |
| `HashMaps.HashMap.Locate` | src/map.c:249-264 | the bucket of a key is found exactly when the finite map has its class |
| `HashMaps.HashMap.Find` | src/map.c:548-559 | lookup agrees with the finite map; invalid keys are never found |
| `HashMaps.HashMap.Reserve` | src/map.c:366-420 | all or nothing, and which: OK, Overflow or OutOfMemory as the sizes and the memory decide; entries stay, the new capacity is the next one, and a failure leaves capacity and buckets alone |
| `Growth.NextCapacity` | src/map.c:286-298 | enough, less than twice what is required beyond the first eight, and at least twice the old capacity up to half the address space |
| `HashMaps.PlainBoundsFit` | src/map.c:366-389 | growth overflows no size when eight plus twice the required entries stay below 2^59 and can be stored |
| `HashMaps.FitsStores` | src/map.c:366-389 | and what cannot be stored always overflows |
| `HashMaps.HashMap.PrepareEntry` | src/map.c:443-469 | the entry is copied or its key cloned exactly when needed, and a failure leaves no clone |
| `HashMaps.HashMap.Overwrite` | src/map.c:512-521 | replacing an entry drops the old key and updates the finite map at that key only |
| `HashMaps.HashMap.Append` | src/map.c:538-544 | the new entry goes last and into the table; the finite map gains it |
| `HashMaps.HashMap.Insert` | src/map.c:523-545 | a new key is added exactly when there is room or it can be made; otherwise the status says why, the prepared clone is dropped, and entries, capacity and bucket contents are as before |
| `HashMaps.HashMap.Set` | src/map.c:480-546 | set adds or replaces exactly the one key; the status of every call is determined (invalid key, failed copy or clone, Overflow, no memory, OK); failures leave entries, capacity and bucket contents unchanged; clones minus drops stays the size |
| `HashMaps.HashMap.Remove` | src/map.c:597-629 | removes exactly the key if present, drops its clone, and otherwise changes nothing |
| `HashMaps.HashMap.Clear` | src/map.c:631-645 | empties the map, drops every key and keeps the capacity |
| `HashSets.Contains` | src/set.c:56-59 | membership is membership of the key's class in the mathematical set |
| `HashSets.IsSubset` | src/set.c:246-259 | true exactly for operands with valid layouts and agreeing clone policies (when both hold and own keys) and a subset; the size test is sound because a set's size is its number of keys |
| `HashSets.SizeIsCount` | src/set.c:38-40 | no key is stored twice: the size is the cardinality of the mathematical set |
| `HashSets.SubsetOfSameSize` | src/set.c:261-270 | between a set and a subset, equal sizes mean equal sets and a smaller size a proper subset |
| `HashSets.IsEqual` | src/set.c:261-264 | size test plus one inclusion decide equality of operands that may be compared |
| `HashSets.IsProperSubset` | src/set.c:266-270 | size test plus one inclusion decide proper inclusion of operands that may be compared |
| `HashSets.IsDisjoint` | src/set.c:282-295 | scanning the smaller operand decides disjointness of operands that may be compared |
| `HashSets.SharesNone` | src/set.c:286-294 | the loop over the smaller operand finds a common key exactly if there is one |
| `HashSets.ResultReadsKeys` | src/set.c:96-106 | the chosen result policy reads keys as both operands do and owns keys exactly if an operand does, also when it comes from an empty owning operand |
| `HashSets.CombinedFits` | src/set.c:113-139 | no operation yields more keys than the capacity it reserves |
| `HashSets.NeededIsReached` | src/set.c:113-139 | and no smaller capacity would do for all operands of these sizes |
| `HashSets.Prepare` | src/set.c:113-139 | the result starts empty, apart from the operands, with the chosen policy; the status is determined by the sizes and the memory, and OK means the needed capacity |
| `HashSets.SmallResultsArePrepared` | src/set.c:113-139 | operands of fewer than about 2^58 keys together, storable twice over, never overflow |
| `HashSets.TwoPasses` | src/set.c:152-210 | the passes over the operands select exactly the keys of the operation |
| `HashSets.Operate` | src/set.c:152-210 | union, intersection, difference and symmetric difference build exactly the mathematical set, each key once, under the chosen policy; an error gives no result; InvalidArgument exactly for operands that may not be combined, Overflow exactly when the sizes overflow, OK whenever there is memory |
| `HashSets.Build` | src/set.c:152-210 | the result built is exactly the combined set when the status is OK; the status follows the sizes and the memory |
| `TraceModel.AppendKeeps` | src/trace.c:472-509 | an append, with or without a flush, adds the record or nothing to the history, counts it, and keeps the reserved room |
| `TraceTheorems.EndHasRoom` | src/trace.c:530-551 | the end of a recorded zone is always recorded, without a flush, in both buffer modes and after failed flushes |
| `TraceTheorems.StepTallies` | src/trace.c:461-551 | every call keeps the reservation invariant and `depth == reserved + suppressed`, adds its record exactly when it says so, and counts every event once as recorded or dropped |
| `TraceTheorems.BeginRecordedExactly` | src/trace.c:511-528 | a zone is recorded exactly when nothing encloses it suppressed, its name fits, and begin plus all open ends fit the buffer, possibly after a working flush |
| `TraceTheorems.MarkRecordedExactly` | src/trace.c:751-771 | an instant or counter is recorded exactly when nothing encloses it suppressed, its name fits, and it fits the buffer beside the reserved ends, possibly after a working flush |
| `TraceTheorems.FlushesExactly` | src/trace.c:412-479 | every call hands records to the file, or finds it failing, exactly when it is a flush or the buffer is full and may be flushed; then all of them |
| `TraceTheorems.RunKeeps` | src/trace.c:461-551 | over every call sequence the open zones of the caller are recorded outside and suppressed inside, and the history is that of the recorded calls |
| `TraceTheorems.EndMatchesBegin` | src/trace.c:511-551 | an end is recorded exactly when the begin it closes was recorded |
| `TraceTheorems.SuppressedZoneIsSilent` | src/trace.c:751-771 | inside a zone that was not recorded nothing is recorded |
| `TraceTheorems.HistoryIsFaithful` | src/trace.c:461-551 | flushed plus buffered records are exactly the recorded calls in order, properly nested; recorded plus dropped is the number of events; the reservation bound holds |
| `TraceTheorems.CloseZonesBalances` | src/trace.c:698-706 | closing the open recorded zones records every end and leaves nesting zero |
| `TraceTheorems.FinishBalances` | src/trace.c:687-719 | after finishing, begins and ends balance exactly, nothing recorded is lost, and the buffer is empty if the file works |
| `TraceCodec.LittleEndianInverts` | src/trace.c:485-505 | a header field is read back from its bytes |
| `TraceCodec.DecodeEncode` | src/trace.c:435-455 | decoding the bytes of a record gives the record, whatever follows |
| `TraceCodec.EncodeAllSplits` | src/trace.c:435-455 | record k begins where the first k records end |
| `TraceCodec.DecodeAt` | src/trace.c:435-455 | at every record boundary of the buffer decoding gives exactly the next record: a flush meets no malformed record |
| `TraceThreads.TraceThread.constructor` | src/trace.c:643-680 | a new recorder is empty with the configured capacity |
| `TraceThreads.StartThread` | src/trace.c:643-680 | a recorder is made exactly when the file admits the thread and takes its name: empty, with the configured buffer, with the number the file gave, its name recorded first |
| `TraceThreads.TraceThread.FlushInternal` | src/trace.c:412-459 | a flush acts as the model's flush; the file gains exactly the pending events, or whole events up to the write that failed while the buffer keeps all |
| `TraceThreads.TraceThread.ReadRecord` | src/trace.c:435-449 | reading at a record boundary always yields the next pending record |
| `TraceThreads.TraceThread.WriteRecords` | src/trace.c:434-455 | the cursor loop writes the pending records in order and succeeds exactly when the file takes them all |
| `TraceThreads.TraceThread.EnsureSpace` | src/trace.c:461-479 | acts as the model's EnsureSpace; success leaves room for the record; unless the file fails, it gains exactly the records that were flushed, as whole events in order |
| `TraceThreads.TraceThread.Append` | src/trace.c:481-509 | acts as the model's Append; the bytes in use stay the encoding of the pending records; unless the file fails, it gains exactly the records that were flushed, as whole events in order |
| `TraceThreads.TraceThread.Store` | src/trace.c:492-507 | header and name are copied behind the used bytes |
| `TraceThreads.TraceThread.BeginValue` | src/trace.c:511-528 | acts as the begin step of the model; unless the file fails, it gains exactly the records that were flushed, as whole events in order |
| `TraceThreads.TraceThread.EndImpl` | src/trace.c:530-551 | acts as the end step of the model; unless the file fails, it gains exactly the records that were flushed, as whole events in order |
| `TraceThreads.TraceThread.MarkEvent` | src/trace.c:751-771 | instants and counters act as the mark step of the model; unless the file fails, it gains exactly the records that were flushed, as whole events in order |
| `TraceThreads.TraceThread.CloseOpenZones` | src/trace.c:699-705 | the finishing loop closes exactly the recorded open zones and never needs a flush |
| `TraceThreads.TraceThread.CloseAndFlush` | src/trace.c:698-708 | closing the open zones and flushing act as the model's Finish |
| `TraceThreads.TraceThread.FinishThread` | src/trace.c:687-719 | acts as the model's Finish; on success the file has gained every pending record and the closing ones; the file has one active thread less |
| `TraceSessions.CloseZonesAdds` | src/trace.c:698-706 | closing adds one end for every open recorded zone, innermost first, behind the history |
| `TraceSessions.Next` | src/trace.c:461-551 | any call keeps the recorder, the file and the run of the model in step: the file holds what it held at the start and the flushed records |
| `TraceSessions.RecordAll` | src/trace.c:461-551 | the same over any sequence of calls |
| `TraceSessions.FinishRecorder` | src/trace.c:687-719 | a successful finish leaves in the file exactly the records of the recorded calls and the closing ends |
| `TraceSessions.Session` | src/trace.c:461-719 | start a recorder, make any calls, finish the thread and the file: when both finishes succeed, a JSON reader of the text gets what the file held before, the thread name, the records of exactly the recorded calls in order, and the closing ends |
| `Json.EscapeIsRead` | src/trace.c:158-187 | every escape the writer emits is read back as its character by section 7 of RFC 8259 |
| `Json.QuotedIsRead` | src/trace.c:149-191 | unescaping a written string gives back the original bytes, whatever follows |
| `Json.ValueIsRead` | src/trace.c:341-409 | a written JSON object is read back as the same value |
| `Json.DocumentIsRead` | src/trace.c:218-224 | a written array of events, with its separators, is read back as exactly these values in order |
| `Json.DecimalIsRead` | src/trace.c:193-198 | decimal numbers are read back |
| `Json.SignedIsRead` | src/trace.c:200-205 | signed decimal numbers are read back |
| `Json.HexIsRead` | src/trace.c:332-338 | the hexadecimal address of an automatic zone is read back |
| `Json.NumberHasChars` | src/trace.c:193-205 | what the grammar of numbers in section 6 of RFC 8259 accepts is a run of number characters, so reading the longest run loses no number |
| `Json.DecimalIsNumber` | src/trace.c:193-198 | written decimals, with or without a fraction, follow that grammar: no superfluous zero |
| `Json.SignedIsNumber` | src/trace.c:200-205 | written signed numbers follow that grammar |
| `TraceFiles.TimestampIsRead` | src/trace.c:207-216 | a time written in microseconds with three decimals gives back the exact nanoseconds |
| `TraceFiles.TimestampIsNumber` | src/trace.c:207-216 | written times follow the grammar of numbers |
| `TraceFiles.TreeIsProper` | src/trace.c:341-409 | every number in every event follows the grammar of numbers |
| `TraceFiles.EventTextIs` | src/trace.c:341-409 | the pieces the writer sends are the rendering of the event as one JSON object |
| `TraceFiles.TreeDetermines` | src/trace.c:341-409 | different events have different JSON objects |
| `TraceFiles.FileIsRead` | src/trace.c:553-636 | the finished file is read, by a reader that accepts only JSON, as an array of exactly the written events in order |
| `TraceFiles.FileDetermines` | src/trace.c:553-636 | two finished files are equal only if they hold the same records |
| `TraceReaders.EventReadsBack` | src/trace.c:341-409 | a reader by the phases of the Trace Event Format gets from each event the record it was written for, its thread and its process: begins, ends, instants of a thread, counters with signed values, automatic zones by category and address, names |
| `TraceReaders.FileReadsBack` | src/trace.c:553-636 | and from the text of a finished file exactly its events, in order |
| `TraceWriters.SentThen` | src/trace.c:119-138 | sending two pieces, the second only if the first arrived, is sending both, also when a write fails half way |
| `TraceWriters.TraceFile.constructor` | src/trace.c:577-592 | a new file holds the opening bracket, or has failed |
| `TraceWriters.TraceFile.Put` | src/trace.c:119-138 | a write appends the piece, or what fits of it and fails |
| `TraceWriters.TraceFile.WriteEscapes` | src/trace.c:155-188 | the switch over the bytes sends the escaped text |
| `TraceWriters.TraceFile.WriteJsonString` | src/trace.c:149-191 | sends the quoted, escaped string |
| `TraceWriters.TraceFile.WriteTime` | src/trace.c:207-216 | sends the time with decimals only when needed |
| `TraceWriters.TraceFile.WriteTraced` | src/trace.c:341-409 | sends one record as one event |
| `TraceWriters.TraceFile.Separator` | src/trace.c:218-224 | nothing before the first event, a comma and a line end before every other |
| `TraceWriters.TraceFile.WriteRecord` | src/trace.c:341-409 | appends a whole event, or fails inside it exactly when the file cannot take it |
| `TraceWriters.TraceFile.WriteMetadata` | src/trace.c:288-303 | the same for process and thread names |
| `TraceWriters.TraceFile.Attach` | src/trace.c:661-671 | a failed or closed file refuses a thread; otherwise it gets the next number, its name is written, and it counts as active if that worked |
| `TraceWriters.TraceFile.Detach` | src/trace.c:709-711 | one active thread less |
| `TraceWriters.TraceFile.Finish` | src/trace.c:613-636 | refused without a change while threads are active; OK exactly when nothing failed and the end fits; then a JSON reader gets exactly the written events |
| `PcgPeriod.StepsAre` | src/random.c:24-30 | n state steps at once, in closed form modulo 2^64 |
| `PcgPeriod.SumDivides` | src/random.c:24-30 | the sum over n steps has exactly the factors of two that n has |
| `PcgPeriod.PowerSum` | src/random.c:24-30 | 2^j steps add an odd multiple of 2^j |
| `PcgPeriod.ReturnsExactly` | src/random.c:24-30 | for every odd increment a state returns after n steps exactly when 2^64 divides n: the full period |
| `PcgPeriod.PowerStepsFlip` | src/random.c:24-30 | 2^j steps put bit j right and leave the bits below it |
| `PcgPeriod.VisitsAll` | src/random.c:24-30 | every state is reached from every state in fewer than 2^64 steps |
| `Random.RotationInverts` | src/random.c:32-34 | the rotation made of two shifts and an or loses nothing |
| `Random.XorshiftUndone` | src/random.c:32 | the xorshift can be undone |
| `Random.StateIsDetermined` | src/random.c:26-35 | a state is determined by its output, its top five bits and its low 27 bits |
| `Random.EveryOutputOccurs` | src/random.c:26-35 | every combination of them occurs: each 32-bit value is the output of exactly 2^32 of the 2^64 states |
| `Random.ThresholdIs` | src/random.c:56 | the threshold is 2^32 modulo the bound |
| `Random.MostAreAccepted` | src/random.c:56-60 | more than half of all values are accepted |
| `Random.EveryRemainderEquallyOften` | src/random.c:56-60 | every remainder is left by exactly floor(2^32 / bound) accepted values |
| `Random.SomeOutputAccepted` | src/random.c:53-61 | from every state, for every bound, some later output is accepted |
| `Random.InitIsSeedZero` | include/lor/random.h:31 | LOR_RANDOM_INIT is what seeding with seed 0 and stream 0 gives |
| `Random.SeedsDiffer` | src/random.c:37-45 | different seeds of one stream give different states |
| `Random.StreamsDifferExactly` | src/random.c:41 | two streams have the same increment if and only if they agree in their low 63 bits |
| `Random.TopBitIsLost` | src/random.c:41 | concrete pairs: a stream and the one 2^63 above it give the same generator for every seed |
| `Random.KnownFirstOutput` | tests/test_random.c:10-20 | seed 42 of stream 54 begins with 0xa15c02b7 |
| `Random.Generator.NextU32` | src/random.c:26-35 | gives the output of the old state and advances once |
| `Random.Generator.Seed` | src/random.c:37-45 | sets the odd increment of the stream and the seeded state |
| `Random.Generator.NextU64` | src/random.c:47-51 | two consecutive outputs, the first as the high half |
| `Random.Generator.BoundedU32` | src/random.c:53-61 | ends from every state for every bound and gives the remainder of the first output not below the threshold; bound 0 gives 0 without a draw |
| `ArenaBlocks.PowerTest` | src/memory.c:112-114 | the mask test accepts exactly the powers of two |
| `ArenaBlocks.RoundUpBounds` | src/memory.c:116-128 | `(v + m) & ~m` lies in `[v, v + m]` for any mask |
| `ArenaBlocks.RoundUpMultiple` | src/memory.c:116-128 | and is a multiple for a power of two |
| `ArenaBlocks.RoundUpNotMultiple` | src/memory.c:116-119 | for any other granularity rounding up the first byte already gives no multiple |
| `ArenaBlocks.RoundUpMultipleExactly` | src/memory.c:116-119 | rounding up gives multiples for all values if and only if the granularity is a power of two; what this means for a whole block is `ArenaCommits.LifeIsGranularExactly` |
| `ArenaBlocks.EnsureCommittedIs` | src/memory.c:447-475 | success means the needed bytes are committed; commitment only grows, never beyond the block, and by less than a granule more than needed |
| `ArenaBlocks.BlockAllocIs` | src/memory.c:477-497 | an allocation is aligned, behind the bytes in use, inside the block and committed; a failure changes nothing |
| `ArenaBlocks.RoomSuffices` | src/memory.c:630-662 | room for the size plus the worst padding always satisfies the request, wherever the block lies, unless the system refuses to commit |
| `ArenaBlocks.HeapBlockIs` | src/memory.c:380-394 | a heap block's usable bytes lie inside its allocation, behind the header |
| `ArenaBlocks.VirtualSizesAre` | src/memory.c:396-415 | the reserved size covers header and request, the committed size covers the header and stays within the reservation |
| `ArenaBlocks.VirtualBlockIs` | src/memory.c:417-436 | a virtual block has at least the wanted usable bytes inside its reservation |
| `ArenaStates.InitIs` | src/memory.c:509-548 | initialization leaves a configuration whose commit size can be rounded to pages again |
| `ArenaStates.InitExactly` | src/memory.c:509-548 | configured sizes are kept, zero stands for the default, virtual sizes are rounded up to the next page; refused exactly when a virtual size overflows |
| `ArenaStates.InitGivesPages` | src/memory.c:535-542 | the commit size of an initialized virtual arena is a positive number of whole pages |
| `ArenaStates.AllocKeeps` | src/memory.c:630-662 | every allocation, successful or not, keeps the arena safe and earlier allocations where they are |
| `ArenaStates.AllocGives` | src/memory.c:630-662 | a success is a new live allocation of the asked size and alignment; a failure adds none |
| `ArenaStates.HeapAllocFailsOnly` | src/memory.c:645-662 | on a heap arena an allocation fails only if the system has no memory or the size overflows |
| `ArenaStates.VirtualAllocFailsOnly` | src/memory.c:630-662 | so does a virtual one that is granted its reservation and its commits: a fresh block satisfies the request it was made for |
| `ArenaSuccesses.RoomIsUsed` | src/memory.c:477-497 | a block with an aligned place behind its use, whose commit is granted, satisfies the request, no further behind |
| `ArenaSuccesses.SuccessHasRoom` | src/memory.c:477-497 | and a success is such a place, the first there is |
| `ArenaSuccesses.AllocReusesExactly` | src/memory.c:642-662 | on both backends an allocation stays in the newest block exactly if that has room, at the least address with room, and otherwise makes one new block |
| `ArenaSuccesses.HeapBlockExactly` | src/memory.c:380-394 | a heap block is made exactly when its size does not overflow and malloc gives it, with the configured size or what the request needs |
| `ArenaSuccesses.VirtualBlockExactly` | src/memory.c:396-436 | a virtual block is made exactly when its reservation does not overflow and the system reserves and commits; it reserves whole pages and less than a page more than wanted |
| `ArenaSuccesses.HeapAllocExactly` | src/memory.c:630-662 | a heap arena gives memory if and only if its newest block has room or malloc gives a block of a size that does not overflow |
| `ArenaStates.LiveAreDisjoint` | src/memory.c:477-497 | live allocations never overlap |
| `ArenaStates.LiveAreBacked` | src/memory.c:477-497 | live allocations are aligned, inside their block's storage behind its header, and committed |
| `ArenaStates.RewindRestores` | src/memory.c:582-628 | rewinding to a mark restores the used bytes and exactly the live allocations at the mark, whatever was allocated since |
| `ArenaStates.RewindIsSafe` | src/memory.c:601-628 | rewinding to any mark whatever leaves a safe arena |
| `ArenaStates.RewindKeepsBlocks` | src/memory.c:601-628 | rewinding releases exactly the blocks made since the mark and cuts the marked one back; a mark before the first block keeps all blocks, unused |
| `ArenaCommits.FirstCommitExactly` | src/memory.c:396-415 | the first commit of a block is a multiple of the commit size, or the whole block, if and only if the commit size holds the header and the request, or they reach the default size, or the pages they need happen to be such a multiple |
| `ArenaCommits.LifeIsGranularExactly` | src/memory.c:447-497 | committed memory is such a multiple after every sequence of allocations and cuts, failures included, if and only if the first commit is and every larger size of the block rounds to one |
| `ArenaCommits.NewBlockLife` | src/memory.c:396-475 | both together, for a block the arena makes; for a power of two the condition on the first commit alone decides |
| `ArenaCommits.NewestUses` | src/memory.c:642-645 | allocating in an arena is such a use of its newest block and leaves the others alone |
| `ArenaCommits.FirstUseCommitsNothing` | src/memory.c:477-497 | the request a block was made for commits nothing more |
| `ArenaCommits.AllocGranularExactly` | src/memory.c:630-662 | with a power of two, an allocation leaves every block of the arena at such multiples if and only if it makes no block whose first commit fails the condition |
| `ArenaCommits.RewindStaysGranular` | src/memory.c:601-628 | rewinding keeps them so |
| `ArenaCommits.FirstCommitNoMultiple` | src/memory.c:407-415 | a concrete run from a zeroed arena: with a commit size of two pages, kept by initialization, allocating 10240 bytes commits three pages |
| `ArenaCommits.GrowthNoMultiple` | src/memory.c:460-468 | a concrete run from a zeroed arena: with a commit size of three pages, kept by initialization, the second allocation commits four pages |
| `ArenaScopes.Chosen` | src/memory.c:794-816 | a scratch scope never uses the arena it is told to avoid |
| `ArenaScopes.FirstFree` | src/memory.c:794-816 | and takes the first of the others |
| `ArenaScopes.Run` | src/memory.c:582-662 | any nesting of scopes and allocations keeps both arenas safe and every allocation made before it |
| `ArenaScopes.ScopeRestores` | src/memory.c:794-821 | however scopes nest, ending one restores the use and the live allocations of its arena and leaves the other as the body left it |
| `ArenaScopes.ResultSurvives` | src/memory.c:794-821 | a result allocated in the conflicting arena outlives the scope |
| `Arenas.Arena.constructor` | include/lor/memory.h:68 | LOR_ARENA_INIT is a safe, empty arena |
| `Arenas.Arena.InitConfig` | src/memory.c:509-559 | succeeds exactly on a zeroed arena with a usable configuration |
| `Arenas.Arena.Alloc` | src/memory.c:630-662 | rejects empty and misaligned requests, initializes a zeroed arena, and then acts as the allocation of the model |
| `Arenas.Arena.AllocNewest` | src/memory.c:642-645 | tries the newest block only |
| `Arenas.Arena.TakeMark` | src/memory.c:582-589 | the mark names the newest block and its use |
| `Arenas.Arena.Reset` | src/memory.c:575-580 | all blocks are kept, unused |
| `Arenas.Arena.Rewind` | src/memory.c:601-628 | pops the newer blocks and cuts the marked one back, as the model's Rewind |
| `Arenas.Arena.Used` | src/memory.c:756-764 | the sum over the blocks |
| `ModuleGraphs.NeededComesBefore` | tools/gen_single_header.py:178-202 | with dependencies first, everything a module needs comes before it |
| `ModuleGraphs.OrderedIsAcyclic` | tools/gen_single_header.py:178-202 | a complete order exists only without cycles and unknown names |
| `ModuleOrders.Walk.Visit` | tools/gen_single_header.py:184-198 | a visit lists the module and only what it needs, dependencies first, or raises an error that is real |
| `ModuleOrders.OrderModules` | tools/gen_single_header.py:178-202 | succeeds exactly when the graph is acyclic and all names are known; then every module is listed once, after its dependencies, and for each beginning of the given list the result begins with exactly that and what it needs; an error names a cycle member or an unknown dependency |
| `ModuleOrders.DependenciesOf` | tools/gen_single_header.py:150-175 | gives exactly the transitive dependencies, each once, dependencies first |
| `ModuleOrders.EmitSelection` | tools/gen_single_header.py:233-241 | one block for each module with dependencies, in the given order, defining exactly what it needs, each once and dependencies first; never an error on an ordered graph |
| `ModuleOrders.OnePassSuffices` | tools/gen_single_header.py:233-241 | one pass of the preprocessor over the blocks enables exactly what was selected or is needed by it, whatever their order |
| `ModuleOrders.OnePassIsLeastClosed` | tools/gen_single_header.py:233-241 | and that is the least dependency-closed set containing the selection |
| `StringViews.Find` | src/string.c:123-143 | found exactly when the needle occurs, at its first occurrence |
| `StringViews.Split` | src/string.c:154-168 | before and after the first delimiter; an empty delimiter is never found |
| `StringViews.Chop` | src/string.c:176-196 | takes the first part off the view, which gets shorter, or all of it |
| `StringViews.ChopAll` | src/string.c:176-196 | repeated chopping ends and gives the parts |
| `StringViews.PartsJoinBack` | src/string.c:154-196 | the parts joined by the delimiter give back the view, and no part contains the delimiter |
| `StringViews.JoinChopsExactly` | src/string.c:154-196 | chopping a join gives the same parts exactly when no delimiter begins inside a part followed by the delimiter, nor in the last part |
| `StringViews.OneByteJoinChops` | src/string.c:170-200 | for a one-byte delimiter, delimiter-free parts are given back |
| `StringViews.LongDelimiterDiffers` | src/string.c:154-196 | for a longer one they need not be: parts "a", "b" and delimiter "aa" |
| `DynArrays.GrowthCapacity` | src/array.c:74-87 | the loop computes the capacity after growth |
| `DynArrays.DynArray.Reserve` | src/array.c:131-165 | elements stay; a failure changes nothing; the status follows element size, overflow and memory, and the new capacity is the next one |
| `DynArrays.DynArray.RoomIsGiven` | src/array.c:131-165 | and is OK whenever room for eight plus twice the wanted elements can be addressed where realloc put it |
| `DynArrays.DynArray.Append` | src/array.c:191-224 | the elements followed by the source as it was at the call, also when the source is part of the array and storage moves; InvalidArgument exactly for refused sources, Overflow exactly for sizes that overflow, OK whenever sizes and memory allow |
| `DynArrays.DynArray.Insert` | src/array.c:239-288 | the source as it was at the call stands at the index, also when it straddles the insertion point; failures change nothing; the status of every call is determined by the source, the sizes and the memory, for the copy of an aliased source too |
| `DynArrays.DynArray.MoveUp` | src/array.c:277-285 | an overlapping move delivers the bytes as they were |
| `DynArrays.DynArray.Splice` | src/array.c:277-285 | opening the gap and filling it inserts the bytes |
| `DynArrays.ApartYetRefused` | src/array.c:91-115 | a source apart from the elements is refused if and only if it begins in the unused capacity or right behind the storage |
| `DynArrays.AppendFromBehindStorage` | src/array.c:191-224 | a concrete array: appending a byte from the address right behind its storage answers InvalidArgument |
| `DynArrays.SplicedIs` | src/array.c:277-285 | moving the tail up and filling the gap is insertion, on the bytes |
| `CliTheorems.ClusterMeansSingles` | src/cli.c:573-604 | `-xyz` of flags and counters means `-x -y -z` on every command line, accepted or not, unless a pending numeric positional takes the cluster, or one of the single options that is reached, as a number |
| `CliTheorems.ClusterMeansSinglesExactly` | src/cli.c:532-604 | at the end of a command line the two spellings leave equal parsers if and only if there is one letter, or neither the cluster nor a single option that is reached is taken as a number |
| `CliTheorems.NumbersDiffer` | src/cli.c:532-546 | concrete spellings: with flags `1` and `2` and a pending whole number, `-12` is accepted and differs from `-1 -2` |
| `CliTheorems.LongValueEitherWay` | src/cli.c:548-571 | `--name=value` means `--name value` on every command line unless a pending numeric positional takes one of the tokens as a number |
| `CliMeanings.ShortValueAnyWay` | src/cli.c:573-604 | `-nvalue`, `-n=value` and `-n value` mean the same, and `-n=` takes the next argument, unless a pending numeric positional takes one of the tokens as a number |
| `CliTheorems.ParseKeepsInv` | src/cli.c:518-626 | parsing keeps the tallies of options and the order of positionals |
| `CliTheorems.AcceptedIsComplete` | src/cli.c:448-626 | on OK no option that may not repeat was applied twice, destinations tell how often their option was given, everything required is filled, and filled positionals are a prefix |
| `CliMeanings.SpellingsMean` | src/cli.c:518-626 | any options with values, spelled by their registered names, then `--` and any arguments whatever they look like: the parser applies exactly these options in order and gives the arguments to the positionals, or stops where that is refused |
| `CliMeanings.AcceptedMeans` | src/cli.c:518-626 | every accepted command line means a list of options and plain arguments whose texts are ends of its arguments |
| `CliMeanings.OptionHolds` | src/cli.c:401-484 | what such a list leaves in the destination of an option: a flag on, a counter counted up, the last value given, or all values in order |
| `CliMeanings.PositionalHolds` | src/cli.c:499-516 | and of a positional: the argument due to it, or for a trailing list all that are left |
| `CliMeanings.ApplyRefusesExactly` | src/cli.c:448-484 | an option is refused as duplicate, with an unexpected, missing or invalid value, exactly in these cases, and otherwise applied |
| `CliMeanings.ConsumeRefusesExactly` | src/cli.c:499-516 | a plain argument is refused exactly when no positional is left or the next cannot read it |
| `CliMeanings.EndsExactly` | src/cli.c:610-626 | at the end the parser accepts exactly if everything required was given, options asked first |
| `CliMeanings.UnknownStops` | src/cli.c:548-558 | an option nobody registered stops the parser without a change |
| `CliMeanings.HelpStops` | src/cli.c:536-539 | so does a question for help |
| `CliParsers.Cli.AddOption` | src/cli.c:201-238 | an option is registered exactly when its names are valid and free |
| `CliParsers.Cli.AddPositional` | src/cli.c:332-352 | a positional is registered exactly before parsing, with a name, not behind a trailing list, and not required behind an optional one |
| `CliParsers.Cli.ApplyOption` | src/cli.c:448-484 | acts as the model's application of one option |
| `CliParsers.Cli.ConsumePositional` | src/cli.c:499-516 | acts as the model's filling of the next positional |
| `CliParsers.Cli.ParseLong` | src/cli.c:548-571 | acts as the model's long option |
| `CliParsers.Cli.ParseShort` | src/cli.c:573-604 | the loop over the letters acts as the model's cluster |
| `CliParsers.Cli.ParseToken` | src/cli.c:532-608 | one argument acts as the model's token |
| `CliParsers.Cli.ParseArguments` | src/cli.c:518-626 | the loop over the arguments computes the model's parse, once per parser |

## Left out

General

- Wrappers of the operating system: threads, mutexes, condition variables, clocks, memory mapping, system randomness and symbol lookup. Their answers are arguments of the modelled operations.
- Null handles and null element pointers where the source only rejects them, except where a row says otherwise (a null set handle is the empty set).
- `src/print.c`, `src/type.c`, `src/status.c`, the numeric macros and the help output: formatting or single-branch dispatch.

Channels

- Failures of locking, unlocking and signalling, argument checks, copying by element size, and destroying a channel: a critical section is one step of the system.
- Thread start and join, task groups and the leak records: bookkeeping around calls of the system.
- Progress under an unfair scheduler: `ChannelTheorems.ResumingEnds` says that woken threads finish when they are run, not that the system runs them.

Hash maps and sets

- Creating the map on the first `set` through a null handle: the model begins with an initialized map.
- The address arithmetic that decides whether an entry argument lies in the map: two flags of `SetEnv` say whether it does, wholly or in part, and the entry's value is what it was at the call.
- Hash functions and the text of keys: any `hash` and `equal` that satisfy the documented contract.
- Whether two clone and drop callbacks are the same functions: a flag of the set operations. Operands whose `hash`, `equal` or key validity differ, which the source refuses when both hold keys, are not modelled.
- Changing a key through a found entry, and destroying a map.
- HashSets.Operate: the new set is a result of the method, so the refusal of a result handle that already holds a set is not modelled.

Trace recorder

- Statistics, scope helpers, the compiler's instrumentation hooks and Windows symbol names: an automatic zone carries its address in hexadecimal.
- The process name written when a file is opened: `TraceWriters.TraceFile.WriteMetadata` models the writing itself.
- TraceModel.AppendKeeps: the 64-bit counters of recorded and dropped events are unbounded numbers, so their wrap-around is not modelled.
- TraceWriters.TraceFile.Put: a failing write is reported at once; a buffered stream of the C library may report it at a later write or at the close.
- Concurrent flushes of several threads: the file is used by one thread at a time, as its mutex guarantees.
- Whether names are valid UTF-8: the reader gives back bytes.

Random numbers

- Floating point results, seeding from the system, and null generators.

Arenas

- `alloc_zero`, arrays, string copies, destroying an arena and leak records: small wrappers.
- Arenas.Arena.TakeMark: a mark names its block by position, not by address; using a mark after its block was released, and marks after a reset, are outside the documented use.
- ArenaStates.AllocKeeps: the addresses the system gives for new blocks do not overlap the blocks in use; an overlapping address counts as a refusal.

Module generator

- Reading, stripping and printing source text, and the enabled-by and enable-all blocks: the selection starts from an arbitrary set of modules, and modules stand for their macros.

Strings and arrays

- Identity of the memory behind a view, trimming and slicing, and owned strings.
- Shrinking, resizing, removing and clearing arrays: no aliasing, easy members.

Command line

- Numeric conversion: which texts are whole numbers is arbitrary, and a number is represented by its text.
- The diagnostics of a result (index, token and option name), null arguments, and lists that run out of memory.
