# Model of the timed module execution engine and its tracing library

This project models, in Dafny, the stateful core of the engine "tmee" and of the
Xpedite tracing library that it carries: the wait-free pool that hands samples from a
traced thread to a collector, the samples themselves, the shared-memory rings through
which modules exchange values, the GOOSE publisher that follows those rings, the
configuration store, the engine's scheduler and event dispatch, and three smaller
structures around them. `dafny verify dfyconfig.toml` checks all of it.

## The parts

- **PoolIndex**, **PoolProtocol**, **WaitFreeBufferPool**: the single-writer,
  single-reader pool. `PoolProtocol` is a state machine in which every load and every
  store of a shared word is a step of its own, sequentially consistent, on 64-bit words;
  a schedule is any sequence of steps of the two threads. `WaitFreeBufferPool` is the
  object with its methods, each a whole call, and `WholeCallsMatch` ties the calls to the
  steps. The header comment's invariants turn out as follows.
  - Invariant #1 (the read index is less than the write index) is not literal: both are
    0 after an attach to an untouched pool (`UntouchedPoolEqual`), and they are equal
    after a reader kept a buffer over a detach, attached again and released it, if
    nothing was written since (`KeepReaches`). `IndicesBounded` says that in a session
    they are equal in exactly these two cases.
  - Invariant #2 (the write index is at most the read index plus the pool size) is
    exceeded by exactly one when a writer call loaded the detached read index before
    `attachReader` stored its own, and was still in flight when `attachReader` returned.
    `OverrunReached` gives the schedule, for every pool size; in it the first buffer that
    the reader is given is the one the writer is writing to. `OverrunExactly` says which
    single step exceeds the bound, and `WholeOpsStrictBound` that calls which do not
    interleave never do.
  - That neither index wraps around is true, but for a price: once the write index is
    within the pool size of 2^64, the retry test of `attachReader` wraps and the call
    never returns (`LimitReached`, `AttachSpinsAtLimit`). Short of that it returns after
    at most two tries, whatever the writer does meanwhile (`AttachInTwoTries`). The class method `AttachReader` therefore
    requires the write index to be below that limit.
  - `detachReader` leaves `_curReadBuf` set. A collector that detaches while it holds a
    buffer loses exactly one batch of its next session: `ReadsAreFifo` has the term and
    `KeptBatchIsSkipped` a run of whole calls. Debug builds stop at the assertion in
    `nextReadableBuffer` instead; the model is of the build without assertions.
- **SamplesBuffer**: the chain of the threads' buffers, with the collector's all-or-nothing
  attach while other threads push buffers and write to them. The state of each buffer that
  the snapshot holds is compared one by one, read index included.
- **Sample**: the variable-length samples. A sample comes back as written exactly when
  its time stamp is below 2^62 and its counters are fewer than 16; the recorders rely on
  that and on at most 11 counters. A batch that is written while the next sample starts
  inside the writable range stays in its buffer and is recovered by walking `next()`.
- **Delivery**: the pool and the samples together. What a session is handed is walked
  into the samples that were recorded there.
- **CfgText**, **CfgStore**: the configuration store, first as a list of entries with its
  text form, then as the linked list that the program changes in place. Saving and
  loading gives the reversed list back exactly when no key has `=`, `#` or a newline, no
  value has `#` or a newline, and key, `=` and value together are at most 1023
  characters (`SaveLoadIff`); everything that was loaded is of that kind
  (`LoadedIsSavable`).
- **MemFile**: the ring on bytes, little-endian, with `int` fields of 32 bits. A write
  waits for the lock, while other processes leave one content after the other, and is one
  step from there. The five typed writers that store their index as an
  integer differ only in type tag and width, which `WriteOutput` has as parameters. `Mod`
  is C's `%` on operands that are not negative, as `ModIsRemainder` says.
- **GoosePublisher**: the index chase of `event` and the retransmission of `run`. The
  indices tell the true lag exactly while fewer than `items` writes are outstanding
  (`DiffIsLag`); a full ring of outstanding writes is not seen at all
  (`FullRingUnseen`). `sent` records every message with its state number, announced
  lifetime and values.
- **Scheduler**: `run_deadline`, with the clock readings as its input.
- **EventDispatch**: event names and numbers, subscriptions, and the re-entrant dispatch;
  what a module's handler publishes is a parameter. Dispatch returns if and only if the
  published events reach no cycle.
- **ObjectRef**: parsing and printing of object references on the Python client's model
  (nested dictionaries and strings), and the update of one node. Looking a name up in a
  string is a substring test in Python, so a path that goes through a string can raise
  `TypeError`; the model has that outcome. A function code that is missing or is not a
  string makes the update raise before anything is stored. Updating a reference that is
  only a logical device's name empties that device, as does updating any node other than
  an attribute when the device's directory cannot be read; `NodeUpdate` states both.
- **ProbeList**: the doubly linked list of probes. Its ids are distinct until an add
  follows a remove; after any removes, an add repeats an id exactly when the probe
  numbered with the remaining size is still listed. A probe without neighbours can be
  removed again and again, and each time the size is counted down; any other second
  removal is refused.
- **ByteQueue**: the growable byte queue. Growing rebases the positions without moving
  the bytes, so the unread bytes survive growth exactly when nothing was consumed before
  or nothing is unread (`GrowthKeepsUnread`). The doubling does not end for a capacity
  of 0, so `EnsureRoom` requires a positive one.

**Prelude** holds what several of these use.

## Model

| member | source | states |
|---|---|---|
| PoolIndex.PoolSizeValidIffPowerOfTwo | xpedite/include/xpedite/common/WaitFreeBufferPool.H:81-83 | the pool-size test accepts exactly the powers of two from 2 upward |
| PoolIndex.MaskIsMod | xpedite/include/xpedite/common/WaitFreeBufferPool.H:236-239 | for an accepted size, masking an index with size - 1 is reduction modulo the size |
| PoolIndex.BufferAtIs | xpedite/include/xpedite/common/WaitFreeBufferPool.H:236-239 | the buffer of an index is that of its remainder by the pool size |
| PoolIndex.SlicesDisjoint | xpedite/include/xpedite/common/WaitFreeBufferPool.H:236-239 | any poolSize consecutive indices denote pairwise disjoint slices inside the storage, and poolSize apart they denote the same slice |
| PoolProtocol.StepKeepsInv | xpedite/include/xpedite/common/WaitFreeBufferPool.H:106-208 | every single load or store of either thread keeps the inductive invariant of the two threads' states |
| PoolProtocol.IndicesBounded | xpedite/include/xpedite/common/WaitFreeBufferPool.H:192-203 | under every schedule rindex <= windex <= rindex + poolSize + 1 in a session, the last value only with a stale writer call in flight at the attach; the indices are equal exactly on an untouched pool, or when a kept buffer was released and nothing written since; nothing wraps |
| PoolProtocol.UntouchedPoolEqual | xpedite/include/xpedite/common/WaitFreeBufferPool.H:110 | an attach to an untouched pool leaves both indices 0 |
| PoolProtocol.KeepReaches | xpedite/include/xpedite/common/WaitFreeBufferPool.H:166-208 | a run of whole calls in which the read index catches up with the write index at 2 |
| PoolProtocol.OverrunExactly | xpedite/include/xpedite/common/WaitFreeBufferPool.H:146-157 | a commit exceeds Invariant #2 exactly if the pool is full for the session and the writer holds the detached read index, short of the 64-bit limit |
| PoolProtocol.ReadsAreFifo | xpedite/include/xpedite/common/WaitFreeBufferPool.H:166-208 | a session is handed consecutive indices, no gap and no duplicate, each buffer with what the writer last left there; the held slot is the writer's slot exactly in the overrun state |
| PoolProtocol.KeptBatchIsSkipped | xpedite/include/xpedite/framework/SamplesBuffer.H:123-137 | a run in which the buffer kept over a detach costs the next session its first batch |
| PoolProtocol.CallsAreAccounted | xpedite/include/xpedite/common/WaitFreeBufferPool.H:126-163 | calls of nextWritableBuffer are the write index plus the counted overflows, and the 64-bit counter is that count modulo 2^64 |
| PoolProtocol.OverflowMeansFull | xpedite/include/xpedite/common/WaitFreeBufferPool.H:126-163 | short of the 64-bit limit a call is counted as an overflow exactly if the step that loaded its read index found the pool full, and then a reader was attaching, or in session with the pool full for it |
| PoolProtocol.WholeOverflowMeansFull | xpedite/include/xpedite/common/WaitFreeBufferPool.H:126-163 | with whole calls as steps a call is counted exactly when a reader is attached and the pool is full for it |
| PoolProtocol.WholeOpsStrictBound | xpedite/include/xpedite/common/WaitFreeBufferPool.H:192-203 | with whole calls as steps Invariant #2 holds as written and the reader never holds the writer's slot |
| PoolProtocol.OverrunReached | xpedite/include/xpedite/common/WaitFreeBufferPool.H:106-163 | for every pool size a schedule that exceeds Invariant #2 by one and hands the reader the writer's slot |
| PoolProtocol.PollingDrains | xpedite/include/xpedite/common/WaitFreeBufferPool.H:165-208 | polling without a pause hands over every finished batch, one per call, and then nothing |
| PoolProtocol.AttachSpinsAtLimit | xpedite/include/xpedite/common/WaitFreeBufferPool.H:106-115 | once attachReader has loaded a write index within poolSize of 2^64 it never returns, whatever the schedule |
| PoolProtocol.AttachInTwoTries | xpedite/include/xpedite/common/WaitFreeBufferPool.H:106-115 | from every reachable state without a reader and under every schedule attachReader returns after one try, or after two exactly if the write index found by the first is at most 2^64 - poolSize |
| PoolProtocol.NextTryReturnsIff | xpedite/include/xpedite/common/WaitFreeBufferPool.H:106-115 | a try that failed is followed by one that succeeds exactly if that write index is at most 2^64 - poolSize |
| PoolProtocol.LimitReached | xpedite/include/xpedite/common/WaitFreeBufferPool.H:106-115 | a run from a new pool of every size that gets there |
| WaitFreeBufferPool.CallsKeepPlace | xpedite/include/xpedite/common/WaitFreeBufferPool.H:192-203 | each whole call keeps the detached read index or the bound between the indices |
| WaitFreeBufferPool.WholeCallsMatch | xpedite/include/xpedite/common/WaitFreeBufferPool.H:106-208 | a call of any of the four methods without interference leaves what the run of its loads and stores leaves |
| WaitFreeBufferPool.Pool.constructor | xpedite/include/xpedite/common/WaitFreeBufferPool.H:101-104 | an empty pool without a reader |
| WaitFreeBufferPool.Pool.AttachReader | xpedite/include/xpedite/common/WaitFreeBufferPool.H:106-115 | the read index becomes one less than the write index, or 0; both are returned |
| WaitFreeBufferPool.Pool.DetachReader | xpedite/include/xpedite/common/WaitFreeBufferPool.H:117-123 | the read index becomes the detached one; the old indices are returned |
| WaitFreeBufferPool.Pool.NextWritableBuffer | xpedite/include/xpedite/common/WaitFreeBufferPool.H:125-163 | always a buffer inside the storage and apart from every unread one; one index further or one overflow more |
| WaitFreeBufferPool.Pool.NextReadableBuffer | xpedite/include/xpedite/common/WaitFreeBufferPool.H:165-208 | releases the held buffer and returns a buffer if and only if one is finished |
| SamplesBuffer.Buffer.AttachReader | xpedite/include/xpedite/framework/SamplesBuffer.H:100-121 | true exactly if no reader was attached and the file opened; otherwise nothing changes for a reader |
| SamplesBuffer.Buffer.DetachReader | xpedite/include/xpedite/framework/SamplesBuffer.H:123-137 | true exactly if a reader was attached; afterwards none is |
| SamplesBuffer.Buffer.NextWritableRange | xpedite/include/xpedite/framework/SamplesBuffer.H:147-151 | the range and the guard behind it belong to one buffer of the storage |
| SamplesBuffer.Buffer.NextReadableRange | xpedite/include/xpedite/framework/SamplesBuffer.H:153-157 | a range exactly if a batch is finished, with the buffer remembered for the next call |
| SamplesBuffer.Chain.Push | xpedite/include/xpedite/framework/SamplesBuffer.H:202-209 | after any number of lost compare-and-swaps the buffer is in front, and the rest of the chain is the old chain |
| SamplesBuffer.Chain.AttachAll | xpedite/include/xpedite/framework/SamplesBuffer.H:61-80 | true exactly if every buffer of the chain at the start could be attached, and then all are, each from a write index of the time of the call; otherwise the attached set and the read indices are as before, while other threads push and write |
| SamplesBuffer.Chain.AttachEach | xpedite/include/xpedite/framework/SamplesBuffer.H:62-69 | the buffers before the first that refuses are attached, no other |
| SamplesBuffer.Chain.RollBack | xpedite/include/xpedite/framework/SamplesBuffer.H:71-78 | the buffers before the one that refused are detached, no other |
| SamplesBuffer.Chain.DetachAll | xpedite/include/xpedite/framework/SamplesBuffer.H:82-90 | every buffer is detached; true exactly if all were attached |
| Sample.RoundTripIff | xpedite/include/xpedite/probes/Sample.H:48-137 | the accessors give back what a constructor wrote exactly for time stamps below 2^62 and fewer than 16 counters, and then size() is the length written |
| Sample.EncodedLayout | xpedite/include/xpedite/probes/Sample.H:37-79 | the words that the constructors write: time stamp with flag bits 62 and 63, return site, data, count and counters |
| Sample.GuardSuffices | xpedite/include/xpedite/framework/SamplesBuffer.H:225-229 | a sample that starts inside the writable range, and everything the accessors look at, stays inside its buffer |
| Sample.Construct | xpedite/include/xpedite/probes/Sample.H:48-79 | the constructors write the header, the data, the number of counters and the counters, and nothing else |
| Sample.WriteBatch | xpedite/include/xpedite/probes/Sample.H:102-109 | samples written one after the other stay inside the buffer for as long as each starts inside the range |
| Sample.Walk | xpedite/include/xpedite/probes/Sample.H:147-153 | stepping with next() collects the records of the walk |
| Sample.WalkRecovers | xpedite/include/xpedite/probes/Sample.H:102-153 | walking a run of constructed samples, to any end behind the start of the last, gives exactly the samples, in order, and reads nothing outside |
| Sample.WriteThenWalk | xpedite/include/xpedite/probes/Sample.H:48-153 | a batch comes back from its buffer as it was written, walked to the end of the range if it fills it, and no other word is touched |
| Delivery.HandedBatchRecovered | xpedite/include/xpedite/framework/SamplesBuffer.H:147-157 | in every reachable state but the overrun one, walking the buffer a session was handed recovers the samples that the writer last recorded at its index |
| CfgText.CfgTrim | cfg_parse.c:41-63 | the two scans leave the string without blanks at its ends |
| CfgText.TrimIff | cfg_parse.c:39-63 | the trimmed string is the one, and the only one, that is left without the blanks at both ends and without anything else |
| CfgText.TrimDrops | cfg_parse.c:49-55 | what goes are spaces, tabs and newlines, and none of them is left at an end |
| CfgText.OperationsRefineMap | cfg_parse.c:117-224 | set, get and delete on the list are those of a finite map from trimmed non-empty keys to trimmed values |
| CfgText.SetPlaces | cfg_parse.c:157-182 | a set changes the value in its place or puts a new entry in front |
| CfgText.SetKeepsWellFormed | cfg_parse.c:138-183 | no duplicate and no empty key after a set |
| CfgText.DeleteKeepsWellFormed | cfg_parse.c:186-224 | no duplicate and no empty key after a delete |
| CfgText.DeleteShifts | cfg_parse.c:186-224 | a delete keeps the order of the other entries |
| CfgText.SaveLoadIff | cfg_parse.c:66-114 | saving and loading into an empty store gives the reversed list exactly when every entry can be expressed in the text form |
| CfgText.SaveLoadTwice | cfg_parse.c:66-114 | the same map comes back, and twice is the identity on the list |
| CfgText.LoadedIsSavable | cfg_parse.c:66-94 | every entry of a loaded store can be saved and loaded again, whatever the file held |
| CfgText.LoadSaved | cfg_parse.c:66-114 | a saved store loads on top of any store with other keys, newest entry last |
| CfgText.SaveAppends | cfg_parse.c:104-111 | the text is one line key=value for each entry, in order, and nothing else |
| CfgText.LoadCommentedLine | cfg_parse.c:74-88 | a line sets its key to its value whatever comment follows |
| CfgText.LoadCommentLine | cfg_parse.c:76-82 | a line without '=' before its comment changes nothing |
| CfgText.LoadPlainLine | cfg_parse.c:74-88 | a line without a comment sets its key to its value |
| CfgText.LoadPiece | cfg_parse.c:74 | a longer line is taken in pieces of 1023 characters |
| CfgText.ZeroEndsLine | cfg_parse.c:77-81 | a zero character ends the line |
| CfgStore.CfgStruct.Get | cfg_parse.c:117-135 | the linked list's get is the list of entries' get |
| CfgStore.CfgStruct.Set | cfg_parse.c:138-183 | overwriting or prepending a node does what the list operation says; the list stays acyclic |
| CfgStore.CfgStruct.Delete | cfg_parse.c:186-224 | splicing does what the list operation says and moves no other node |
| CfgStore.CfgStruct.Load | cfg_parse.c:66-94 | reading the file line by line into the linked list |
| CfgStore.CfgStruct.Save | cfg_parse.c:97-114 | the bytes written are the text form of the entries |
| CfgStore.CfgStruct.Reload | cfg_parse.c:66-114 | a saved and reloaded store is a new list with the same map and the entries reversed |
| MemFile.IntBytes | mem_file.c:287-300 | the four bytes of an int decode to it |
| MemFile.IntBytesAre | mem_file.c:287-300 | byte k of an int is its k-th group of eight bits |
| MemFile.HeaderLayout | mem_file.c:15-19 | size, items and index are the first three words of the header |
| MemFile.TypeIgnoresSemaphore | mem_file.c:162-194 | the type that is read is the same whether the semaphore byte is set or clear |
| MemFile.LockBuffer | mem_file.c:169-184 | waits until the others leave the semaphore byte clear and then sets it |
| MemFile.FirstFreeIsFirst | mem_file.c:180-182 | the wait ends at the first content with the semaphore byte clear |
| MemFile.OffsetIsProduct | mem_file.c:89-92 | the ring is as long as calculate_buffer_size says, and slot i starts i items after the header |
| MemFile.WriteHeader | mem_file.c:263-285 | size, items and index are stored at their offsets under the lock, nothing else changes |
| MemFile.WriteType | mem_file.c:255-261 | the type is stored as two bytes under the lock, the semaphore is free again |
| MemFile.HeaderMakesRing | mem_file.c:255-285 | writing type, size, items and index makes a ring with index 0 from any bytes |
| MemFile.SetUpRing | module_src/si/si.c:162-165 | the four writes with which a module prepares its output make an empty ring of the type from any bytes and leave the items alone |
| MemFile.WriteOutput | mem_file.c:287-360 | a writer of another type or size changes nothing; otherwise the slot after the index and the index are the only bytes that change |
| MemFile.WriteOutputInt | mem_file.c:287-300 | the integer writer, as above |
| MemFile.WriteOutputBool | mem_file.c:302-315 | the writer of booleans, as above |
| MemFile.WriteOutputInt8 | mem_file.c:317-330 | the writer of single bytes, as above |
| MemFile.WriteOutputQuality | mem_file.c:332-345 | the writer of quality words, as above |
| MemFile.WriteOutputTime | mem_file.c:347-360 | the writer of times, as above |
| MemFile.WrittenKeepsRing | mem_file.c:287-300 | a write keeps the header a ring's, frees the lock and moves the index on by one |
| MemFile.WrittenBytes | mem_file.c:295-297 | byte by byte: the item in the slot after the newest, the new index, and everything else as before |
| MemFile.WriteRefinesPush | mem_file.c:287-360 | on the bytes a write is a push on what the readers see: one slot, the index, nothing else |
| MemFile.IndexCountsWrites | mem_file.c:287-300 | after n writes the index is n modulo items and the last `items` values are in the slots of their numbers |
| MemFile.RingHoldsLast | mem_file.c:287-300 | from any index, the k-th of the values not yet overwritten is k slots further |
| GoosePublisher.DiffIsLag | module_src/goose_publisher/publisher_mmap.c:297-298 | the wrapped difference of the indices is the true lag exactly while less than a ring is outstanding |
| GoosePublisher.PublishesFaithfully | module_src/goose_publisher/publisher_mmap.c:206-312 | from any ring and over every paced run the published positions strictly increase, each value is the one written there, and a position is skipped only for a lag above MAX_LAG |
| GoosePublisher.LagAfterEvent | module_src/goose_publisher/publisher_mmap.c:300-308 | after every event the lag is at most max(MAX_LAG - 1, 0) |
| GoosePublisher.FullRingUnseen | module_src/goose_publisher/publisher_mmap.c:291-292 | a whole ring of outstanding writes publishes nothing |
| GoosePublisher.BackOffDoubles | module_src/goose_publisher/publisher_mmap.c:267-277 | after k retransmissions the interval is the fast interval doubled k times, capped at ttl |
| GoosePublisher.Input.ReadInput | mem_file.c:196-219 | an item is read under the lock and every byte is as before |
| GoosePublisher.Input.ChaseIndex | module_src/goose_publisher/publisher_mmap.c:291-311 | one input's turn in place: the index moves by one or jumps, the element is the item there |
| GoosePublisher.NewsIff | module_src/goose_publisher/publisher_mmap.c:287-294 | an event transmits exactly if the write index of some input has moved |
| GoosePublisher.Publisher.Event | module_src/goose_publisher/publisher_mmap.c:283-326 | every input moves by one, or to its index if that is more than MAX_LAG ahead; exactly if any had news one message goes out, with the next state number, the fast interval in thousands and the element of every input, and the deadline moves on by half the interval |
| GoosePublisher.Publisher.constructor | module_src/goose_publisher/publisher_mmap.c:157-257 | the first deadline is half the ttl away |
| GoosePublisher.Publisher.Run | module_src/goose_publisher/publisher_mmap.c:261-281 | the event, or else the retransmission that has become due, with the doubled interval up to ttl, the same state number and the elements, and half the interval until the next |
| Scheduler.RunDeadline | main.c:498-547 | a cycle is run at exactly the polls that find the awaited deadline reached; next_deadline is the first deadline plus interval times cycles and skipped deadlines together; cycles leave the slack before the next |
| Scheduler.RunCycle | main.c:507-544 | one cycle is fair: it skips only when it overran, and stops at the first grid point with twice the slack to spare |
| Scheduler.Skip | main.c:538-543 | the loop that gives deadlines up ends, at the first that leaves the slack |
| Scheduler.GridIsProduct | main.c:501-543 | the j-th deadline is the first plus j intervals |
| Scheduler.FairIsUnique | main.c:532-544 | what a fair cycle skips is determined by its deadline and clock readings |
| Scheduler.RunIsDetermined | main.c:498-547 | the clock readings admit one accounted run only |
| EventDispatch.Registry.RegisterEventId | main.c:372-399 | a known name keeps its id, a new one takes the next, and -1 means that all ids are taken; ids stay dense and names distinct |
| EventDispatch.Registry.FindEventName | main.c:401-413 | the inverse of registration |
| EventDispatch.Subscriptions.SubscribeEventId | main.c:415-440 | the module goes to the end of the event's chain |
| EventDispatch.TerminatesIffAcyclic | main.c:442-458 | dispatch returns exactly when the events it leads to form no cycle, and then nests no deeper than the number of events |
| EventDispatch.CallsExactly | main.c:442-458 | a dispatch that returns calls exactly the modules subscribed to events it leads to |
| EventDispatch.DeeperIsSame | main.c:442-458 | a dispatch that returns makes the same calls, in the same order, whatever nesting it was allowed |
| EventDispatch.DispatchUnfolds | main.c:448-456 | the trace of a dispatch is, subscriber by subscriber in chain order, the call followed at once by the traces of the dispatches of what it publishes, in that order |
| EventDispatch.DispatchEnds | main.c:444-446 | an id out of range makes no call |
| EventDispatch.NestsIff | main.c:448-456 | an event leads to another exactly if one of its subscribers publishes that |
| EventDispatch.SubscribersInOrder | main.c:442-458 | the event's own subscribers are called once per subscription and in that order, whatever is published in between |
| EventDispatch.Engine.RunCallback | main.c:442-458 | the re-entrant walk makes the calls that DispatchUnfolds lays out; an id out of range gives -1 and no call |
| ObjectRef.ParseRef | tools/python_client/libiec61850client.py:477-513 | the loop finds the node that the reference's names lead to, or nothing, or raises |
| ObjectRef.ParseOutcome | tools/python_client/libiec61850client.py:477-513 | a reference leads through dictionaries to a node, or to nothing at a missing name, or raises at a string that has the next name in it |
| ObjectRef.NoPathIff | tools/python_client/libiec61850client.py:483-493 | exactly a reference with more than one '/' names nothing |
| ObjectRef.OccursIff | tools/python_client/libiec61850client.py:507 | the test of a name in a string is the substring test |
| ObjectRef.GetRef | tools/python_client/libiec61850client.py:517-531 | the loop prints a path, as far as it stays inside the model |
| ObjectRef.ParseIff | tools/python_client/libiec61850client.py:477-513 | a reference parses to a path exactly if the path is nameable, prints as the reference and is in the model |
| ObjectRef.PrintThenParse | tools/python_client/libiec61850client.py:477-531 | a path of the model comes back from its reference exactly when it is not the empty name alone, no name has '/', and none after the first has '.' |
| ObjectRef.ParseThenPrint | tools/python_client/libiec61850client.py:477-531 | a reference that parses is what its path prints as |
| ObjectRef.PrintsOnce | tools/python_client/libiec61850client.py:517-531 | what getRef returns is determined, also for a path that leaves the model |
| ObjectRef.UpdateRecurse | tools/python_client/libiec61850client.py:441-469 | the recursion computes the update of the value, whose parts the following rows fix |
| ObjectRef.UpdateFailsIff | tools/python_client/libiec61850client.py:447-449 | an update raises exactly for a string with "reftype" in it and for an attribute whose FC is missing or no string |
| ObjectRef.Model.UpdateValueInModel | tools/python_client/libiec61850client.py:436-473 | raises exactly if the parser does or the node is one of those two; otherwise an attribute gets the value and type read with error 0, or nothing changes with the error of a refused reading, and any other node becomes the directory; no other path changes, and an exception or a reference to nothing changes nothing |
| ObjectRef.OthersParseAsBefore | tools/python_client/libiec61850client.py:436-473 | references that diverge from the updated one parse to the same subtree or failure as before |
| ObjectRef.AttributeUpdate | tools/python_client/libiec61850client.py:447-459 | an attribute's update stores the reading in its value and type and changes no other path; a refused reading changes nothing |
| ObjectRef.NodeUpdate | tools/python_client/libiec61850client.py:461-466 | any other node becomes the device's directory, which empties it when there is none |
| ProbeList.ProbeList.Add | xpedite/include/xpedite/probes/ProbeList.H:37-46 | the probe goes to the front with the current size as its id; the list stays well formed and the ids change as an add changes them |
| ProbeList.ProbeList.Remove | xpedite/include/xpedite/probes/ProbeList.H:48-80 | a probe of the list leaves it, order kept and its id with it; one outside is accepted exactly if it has no neighbours |
| ProbeList.ProbeList.Unlink | xpedite/include/xpedite/probes/ProbeList.H:49-60 | the two writes, and the head, that take a probe out of the chain |
| ProbeList.IdsWithout | xpedite/include/xpedite/probes/ProbeList.H:48-65 | removing a probe removes its id from the ids of the list |
| ProbeList.ProbeList.Find | xpedite/include/xpedite/probes/ProbeList.H:82-100 | what is found are the probes at exactly the positions that match, newest first |
| ProbeList.ProbeList.FindByReturnSite | xpedite/include/xpedite/probes/ProbeList.H:102-109 | the newest probe with the return site, or null exactly if there is none |
| ProbeList.IdsDistinct | xpedite/include/xpedite/probes/ProbeList.H:37-65 | ids are distinct over every run in which no add follows a remove |
| ProbeList.AddAfterRemoves | xpedite/include/xpedite/probes/ProbeList.H:37-65 | after any adds and then any removes, an add repeats an id exactly if the probe numbered with the remaining size is still listed |
| ProbeList.AddAfterRemove | xpedite/include/xpedite/probes/ProbeList.H:37-65 | an add after one remove repeats an id exactly unless the newest probe was removed |
| ByteQueue.Buffer.Read | xpedite/include/xpedite/transport/Buffer.H:68-93 | what the socket brings is appended to the unread bytes; without room, or without data, nothing changes |
| ByteQueue.Buffer.AdvanceRead | xpedite/include/xpedite/transport/Buffer.H:57-62 | consumes from the front and refuses to pass the end, unless the 32-bit sum wraps |
| ByteQueue.AdvanceIff | xpedite/include/xpedite/transport/Buffer.H:57-62 | it refuses exactly to pass the end unless the 32-bit sum wraps, and then it goes back, as with positions 1, 1 and 2^32 - 1 |
| ByteQueue.Buffer.EnsureRoom | xpedite/include/xpedite/transport/Buffer.H:95-119 | room for the bytes asked for, the unread bytes in front, less than twice the need, except that growing exposes the first bytes of the buffer |
| ByteQueue.DoubledIsLeast | xpedite/include/xpedite/transport/Buffer.H:99-102 | the new capacity is the old one times the least sufficient power of two |
| ByteQueue.GrowthKeepsUnread | xpedite/include/xpedite/transport/Buffer.H:105-117 | growing keeps the unread bytes, whatever they are, exactly if nothing was consumed or nothing is unread |

## Left out

- WaitFreeBufferPool.Pool.AttachReader: requires the write index to be at least poolSize below 2^64, because the source does not return otherwise.
- WaitFreeBufferPool.Pool.NextReadableBuffer: does not promise the content of the buffer across interleavings; PoolProtocol does. The bounds it requires of a caller that holds a buffer are those of PoolProtocol.IndicesBounded.
- SamplesBuffer.Buffer.NextReadableRange: requires of a held buffer that a reader is attached, and the same bounds.
- SamplesBuffer.Buffer.AttachReader: requires the same write index as the pool's method, for the same reason.
- SamplesBuffer.Chain.AttachAll: requires the same write indices, and does not interleave the loads and stores of the writers' calls with those of an attach, only whole calls, and keeps the writers short of the 64-bit limit; PoolProtocol has the finer interleavings for one pool.
- GoosePublisher.PublishesFaithfully: does not model 32-bit overflow of interval and deadline arithmetic, nor the MMS value types; a value is its bytes.
- GoosePublisher.Publisher.Run: says nothing of whether a retransmission falls inside the announced lifetime; `event` advances the old deadline, not the current time.
- Scheduler.RunDeadline: does not model the width of `long` and of the counter of skipped deadlines, nor what the modules do in a cycle.
- EventDispatch.Registry.RegisterEventId: does not model that the name's copy is allocated one byte short.
- EventDispatch.Subscriptions.SubscribeEventId: does not model a negative event id, which the source does not check.
- EventDispatch.Engine.RunCallback: does not model subscribing during a dispatch, nor a handler whose publications depend on earlier calls.
- ObjectRef.Model.UpdateValueInModel: does not model dictionaries shared between two places of the tree; the tree is a value that the update reassigns.
- ProbeList.ProbeList.Add: does not model adding a probe that is already in the list; the id stays meaningful while fewer than 2^32 probes are listed.
- ProbeList.ProbeList.Find: takes the test as a parameter, because the comparison of names and locations is not part of this model.
- ByteQueue.Buffer.EnsureRoom: does not model 32-bit wrap-around in its sums and in the signed amount needed; it requires a positive capacity, for which the doubling ends.
- MemFile.WriteOutput: does not model exclusion between writers; `lock_buffer` tests and then sets, so it does not give any, and what follows the wait is one step here. It relies on the lock being freed, and on a ring of the same number of items being there then; so do the five typed writers.
- MemFile.SetUpRing: relies on nobody else taking the lock after its first write.
- Memory orderings weaker than sequential consistency, cache-line padding, prefaulting and mmap allocation of the pool.
- `write_output_float`, which stores the index through a pointer to float; the GOOSE and SMV subscribers, which store one byte of it.
- `peekWithDataRace`, which the source itself declares racy, and the per-thread overflow report.
- The recorders that call the sample constructors, and the readers of hardware counters; the counters are an input.
- The curve of the protection module in `module_src/si/si.c`, which is floating-point arithmetic.
- The MMS server, ZeroMQ, libiec61850, dynamic loading of modules, signals, files, sockets, logging and clocks; where a result is needed it is an input.
- `lib61850.py`, the probe assembly and code patching, `Framer`, `PerfEventsCtl`, and the Python copy of the ring.
- Module set-up and teardown, and all accounting of memory that is allocated and freed.
