# Trigger: shared-memory ring buffer and cursor protocol

Trigger is a notification channel between processes on one host. A named shared-memory
segment holds a 4-byte little-endian `uint` header followed by `QueueSize` slots of `TSize`
bytes. The publisher runs `Set` to advance its write cursor modulo `QueueSize`, write the
record into a slot, store a cursor in the header and raise a named auto-reset event. Each
subscriber's dispatch thread reads the header once as its own cursor. On every event
wake-up it then reads the slot at its cursor, hands the record to a callback and advances
its cursor modulo `QueueSize`. It stops after a wake-up that sees cancellation.

The repository holds two versions of this protocol, and the model keeps them apart:

- **The `Trigger` library** (`Trigger/TriggerPubisher.cs`, `Trigger/TriggerSubscriber.cs`).
  - The write cursor starts at `QueueSize - 1`.
  - `Set` advances the cursor, then writes the header, then the slot, then raises the event.
  - The header therefore names the slot written last.
  - The subscriber catches and discards callback exceptions.
- **The older copy in `Program.cs`** (`TriggerPubisher<T>`, `TriggerSubscriber<T>`).
  - The write cursor starts at 0.
  - `Set` writes the slot, raises the event, then advances the cursor and writes the header.
  - The header therefore names the slot written next.
  - The subscriber calls the callback unguarded.

The model has these parts:

- **Layout.** The segment is an `array<byte>` of exactly `TSize * QueueSize + 4` bytes.
  - The header is encoded and decoded byte by byte.
  - `RingOf` decodes a segment image into its header value and slots.
- **Channel.** The class `SharedChannel.Channel` stands for the mapping, its view accessor
  and the named event.
  - A publisher and a subscriber that open the same name share one `Channel` object.
  - Every publisher write is also appended to a ghost effect log, so the order of a `Set`'s
    effects is part of its contract.
- **Classes.** Each publisher and subscriber is a class whose fields are the source's
  fields and locals.
  - Each method is proved against a pure function on the same state: `Created`/`Publish`
    for publishers, `Start`/`Pass`/`Run` for subscribers.
  - The properties are proved as lemmas about those functions.
- **Integer arithmetic.** `uint` arithmetic is written out modulo 2^32.
  - So the library's `queueSize - 1` wraps for a queue size of 0.
  - With a queue size of 0, the library `Set` throws `DivideByZeroException`.
  - With a queue size of 0, the `Program.cs` `Set` writes past the end of the segment.
  - Both are modelled as outcomes that leave the state unchanged.
- **Wake-ups.** The subscriber's wake-ups are an input sequence. Each `Wake` says:
  - whether the event or the cancellation handle woke the loop;
  - whether the callback throws on this delivery;
  - whether cancellation is requested by the time the loop tests it.

**Where the two versions behave differently:**

- **Late subscribers.**
  - A subscriber reads the header once (Trigger/TriggerSubscriber.cs:35, Program.cs:90)
    and only then waits for the event.
  - `Set` raises an auto-reset event (Trigger/TriggerPubisher.cs:53, Program.cs:50). A
    `Set` that finds no waiting subscriber leaves the event set.
  - The subscriber opens the event by name (Trigger/TriggerSubscriber.cs:29, Program.cs:86)
    and does not reset it. So a subscriber started after `P >= 1` publishes normally finds
    a wake-up pending. It is modelled as one wake-up taken before the first `Set`.
  - Library, wake-up pending: the subscriber delivers the `P`-th record at once, because
    the header names the slot written last. It then delivers exactly the records
    published afterwards (`LibPairing.LateSubscriberPendingWake`).
  - Library, no wake-up pending (another waiter took it): with two or more slots, its
    first delivery, at the next `Set`, is the `P`-th record again, and it then stays one
    record behind. With one slot it delivers exactly the new records
    (`LibPairing.LateSubscriber`).
  - `Program.cs`, wake-up pending: the subscriber reads the slot the publisher writes
    next, and from then on trails it by `Q - 1` records. Before `Q` records have been
    published it delivers zero records from slots not yet written
    (`ProgramPairing.LateSubscriberPendingWake`).
  - `Program.cs`, no wake-up pending: it delivers exactly the records published after it
    started (`ProgramPairing.LateSubscriberStartsAtNext`).
  - With `P = 0` no wake-up is pending, and in both versions a subscriber delivers every
    record (`FreshSubscriberDeliversAll` in each pairing).
- **Write order in `Set`.**
  - The library writes the header (Trigger/TriggerPubisher.cs:50) before the slot (line
    52). Between the two writes the header names a slot that still holds its old record
    (`LibPublisher.HeaderAnnouncesStaleSlot`).
  - `Program.cs` writes the slot (Program.cs:49) and raises the event (line 50) before it
    advances the cursor and writes the header (lines 51-52). When the event is raised, the
    slot is complete (`ProgramPublisher.SlotCompleteBeforeSignal`).
- **Callback errors.**
  - The library invokes the callback inside a `try` whose `catch` discards every
    exception, leaving the client to handle its own problems
    (Trigger/TriggerSubscriber.cs:43-50). The loop then advances and carries on
    (`LibSubscriber.CallbackErrorsSwallowed`).
  - `Program.cs` invokes the callback with no `try` (Program.cs:99). An exception leaves
    the loop before the cursor advances and ends the dispatch thread
    (`ProgramSubscriber.CallbackErrorEndsLoop`).

## Model

| member | source | states |
|---|---|---|
| Layout.AddU32 | Trigger/TriggerPubisher.cs:49 | `uint` addition: the result is below 2^32 and is the exact sum when that sum fits |
| Layout.SubU32 | Trigger/TriggerPubisher.cs:25 | `uint` subtraction: exact when no borrow occurs; otherwise wraps, so `0 - 1` is `2^32 - 1` |
| Layout.SlotFits | Trigger/TriggerPubisher.cs:27-52 | a slot whose index is below the queue size ends within the `TSize * queueSize + 4` byte segment |
| Layout.SlotFitsIff | Trigger/TriggerPubisher.cs:51-52 | for `TSize > 0`, the slot at `HeaderSize + TSize * index` fits in the segment if and only if `index < queueSize` |
| Layout.SlotsDisjoint | Trigger/TriggerPubisher.cs:51 | two different slots never overlap |
| Layout.AllSlotsFit | Trigger/TriggerPubisher.cs:27 | every slot below the queue size lies inside the segment |
| Layout.SegmentLength | Trigger/TriggerPubisher.cs:27 | the segment requested is at least as long as the header |
| Layout.SlotAddress | Trigger/TriggerPubisher.cs:51 | every slot starts after the header |
| Layout.SegmentEndsAtLastSlot | Trigger/TriggerPubisher.cs:27 | the segment ends exactly where the last slot ends, so no byte follows the slots |
| Layout.SlotIndexOfAddress | Trigger/TriggerPubisher.cs:51 | for `TSize > 0`, a slot's address is a whole number of slots past the header, and that number is the slot's index |
| Layout.EncodeU32 | Trigger/TriggerPubisher.cs:50 | a `uint` is written as 4 header bytes that read back as that `uint` |
| Layout.DecodeU32 | Trigger/TriggerSubscriber.cs:35 | 4 bytes read as a `uint`, least significant byte first: the first byte is the value mod 256 and the last is its top byte |
| Layout.EncodeDecode | Trigger/TriggerPubisher.cs:50 | every 4-byte header image is the encoding of the value read from it |
| Layout.RingOf | Trigger/TriggerSubscriber.cs:35-42 | a segment image decodes to a header below 2^32 and exactly `queueSize` slots of `TSize` bytes |
| Layout.ZeroSegmentRing | Trigger/TriggerPubisher.cs:29-33 | an all-zero segment reads as header 0 and all-zero slots |
| Layout.WithHeader | Trigger/TriggerPubisher.cs:50 | writing a `uint` at offset 0 replaces the 4 header bytes with its encoding, which reads back as that value, and keeps every other byte |
| Layout.WithBytes | Trigger/TriggerPubisher.cs:52 | writing a record at an address puts its bytes there and keeps every byte before and after them |
| Layout.HeaderWriteRing | Trigger/TriggerPubisher.cs:50 | writing the header changes the header value to `v` and leaves every slot unchanged |
| Layout.SlotWriteRing | Trigger/TriggerPubisher.cs:51-52 | writing a record at a slot's address replaces exactly that slot; the header and every other slot keep their bytes |
| SharedChannel.ApplyThree | Trigger/TriggerPubisher.cs:50-53 | a three-effect trace applies its effects in order, first to last |
| SharedChannel.Channel.CreateOrOpen | Trigger/TriggerPubisher.cs:27-35 | `CreateOrOpen`: the mapping keeps the bytes of an existing segment with the same name, and the event keeps its state |
| SharedChannel.Channel.ZeroFill | Trigger/TriggerPubisher.cs:29-33 | the byte loop leaves every byte of the segment 0, so the ring reads header 0 and all-zero slots |
| SharedChannel.Channel.WriteHeader | Trigger/TriggerPubisher.cs:50 | the segment becomes the old image with the header replaced, and the write is logged |
| SharedChannel.Channel.WriteRecord | Trigger/TriggerPubisher.cs:52 | succeeds exactly when the record fits; then copies it in at the address and logs it; otherwise changes nothing |
| SharedChannel.Channel.ReadHeader | Trigger/TriggerSubscriber.cs:35 | returns the header value of the current ring |
| SharedChannel.Channel.ReadRecord | Trigger/TriggerSubscriber.cs:41-42 | succeeds exactly when `TSize` bytes at the address fit in the segment, and then returns those bytes |
| SharedChannel.Channel.Raise | Trigger/TriggerPubisher.cs:53 | the event is set and the signal is appended to the effect log |
| SharedChannel.Channel.Reset | Trigger/TriggerPubisher.cs:37 | the event is cleared and the log is unchanged |
| LibPublisher.Created | Trigger/TriggerPubisher.cs:22-39 | the state after `Create` is well formed. Its cursor is `queueSize - 1`, or `2^32 - 1` when the queue size is 0 |
| LibPublisher.Publish | Trigger/TriggerPubisher.cs:47-54 | `Set` throws divide-by-zero, changing nothing, exactly when there are no slots. Otherwise the cursor advances by one modulo `Q`. The header equals the new cursor. That slot holds the record and every other slot is unchanged |
| LibPublisher.SetEffects | Trigger/TriggerPubisher.cs:50-53 | a `Set`'s trace is three effects: the header write, then the record write, then the signal |
| LibPublisher.FirstSetTargetsSlotZero | Trigger/TriggerPubisher.cs:25-49 | the first `Set` after `Create` succeeds, writes slot 0 and announces 0 in the header |
| LibPublisher.HeaderAfterPublishes | Trigger/TriggerPubisher.cs:25-52 | after `K` publishes the cursor is `(K - 1) mod Q` and the header is 0 for `K = 0`, else `(K - 1) mod Q`. The `K`-th record is in slot `(K - 1) mod Q` |
| LibPublisher.RetainsLatest | Trigger/TriggerPubisher.cs:49-52 | after `K` publishes each of the last `Q` records is in slot `i mod Q` (oldest overwritten first); slots not yet reached are zero |
| LibPublisher.SetEffectsRing | Trigger/TriggerPubisher.cs:50-52 | applying a `Set`'s trace to the segment stores the cursor in the header and the record in that slot, and nothing else in the ring |
| LibPublisher.SetTouchesOnlyHeaderAndSlot | Trigger/TriggerPubisher.cs:50-52 | every byte outside the header and the target slot is unchanged by a `Set` |
| LibPublisher.HeaderAnnouncesStaleSlot | Trigger/TriggerPubisher.cs:50-52 | after the header write, before the slot write, the header names slot `c` and slot `c` still holds its old record |
| LibPublisher.PublishAll | Trigger/TriggerPubisher.cs:47-54 | any sequence of `Set`s keeps the publisher's state well formed and its slot count unchanged |
| LibPublisher.TriggerPublisher.Create | Trigger/TriggerPubisher.cs:22-39 | sizes the segment `TSize * queueSize + 4` and zero-fills every byte. The event is clear, and the state is `Created` |
| LibPublisher.TriggerPublisher.Set | Trigger/TriggerPubisher.cs:47-54 | the new state and outcome are those of `Publish`. On success the log gains exactly the header, record and signal effects, and the image is that trace applied. No byte outside the header and the slot changes. On failure nothing changes |
| LibPublisher.SetRefinesPublish | Trigger/TriggerPubisher.cs:47-54 | the bytes a successful `Set` writes, the header first and then the record, decode to the ring and cursor that `Publish` gives |
| Dispatch.Start | Trigger/TriggerSubscriber.cs:35 | the loop's cursor is the header value, nothing is delivered and the loop is running |
| Dispatch.SlotRunAt | Trigger/TriggerSubscriber.cs:41-51 | the `i`-th record of a run of consecutive slots from `c` comes from slot `(c + i) mod Q` |
| Dispatch.BacklogElement | Program.cs:47-51 | after slot `c` is overwritten, each of the `Q - 1` slots after `c + 1` holds the next element of the old run from `c + 1`, and the last holds the new record |
| Dispatch.BacklogAfterWrite | Program.cs:47-51 | overwriting slot `c` moves the run of `Q - 1` slots after `c` forward by one: it loses its first record and gains the new one at its end |
| LibSubscriber.Pass | Trigger/TriggerSubscriber.cs:39-51 | a pass delivers at most one record. It delivers exactly when the event woke it and the cursor names a slot, and then delivers that slot. It faults with an out-of-range read exactly when the event woke it and the cursor names no slot. It stops exactly on cancellation, and a throwing callback never faults it. While running, the cursor moves to the next slot modulo `Q` |
| LibSubscriber.Run | Trigger/TriggerSubscriber.cs:37-54 | a loop that is not running takes no wake-up. The loop delivers at most one record per wake-up. From a cursor that names a slot, it keeps the cursor in range and never faults on a read, and a callback exception never faults it |
| LibSubscriber.RunExtendsDelivered | Trigger/TriggerSubscriber.cs:37-54 | the loop only appends to the records already delivered |
| LibSubscriber.RunDeliversInSlotOrder | Trigger/TriggerSubscriber.cs:37-54 | from a cursor that names a slot the loop never faults. It delivers one record per event wake-up up to the wake-up that observes cancellation, from slots `c, c+1, ...` mod `Q`. Its cursor ends at `(c + n) mod Q` and it stops exactly when some wake-up ends it |
| LibSubscriber.CallbackErrorsSwallowed | Trigger/TriggerSubscriber.cs:43-51 | the loop's result over any wake-ups equals its result when no callback throws |
| LibSubscriber.FirstReadOutOfRange | Trigger/TriggerSubscriber.cs:35-42 | a header that names no slot makes the first event wake-up read past the segment; the loop faults having delivered nothing |
| LibSubscriber.TriggerSubscriber.Create | Trigger/TriggerSubscriber.cs:20-58 | the dispatch state starts from the header as read from the shared segment, and nothing is written |
| LibSubscriber.TriggerSubscriber.Step | Trigger/TriggerSubscriber.cs:39-51 | one pass of the loop body has the effect of `Pass` on the current ring |
| LibSubscriber.TriggerSubscriber.Dispatch | Trigger/TriggerSubscriber.cs:37-54 | the loop over wake-ups `ws` ends in the state `Run` gives |
| LibPairing.OneWake | Trigger/TriggerSubscriber.cs:37-54 | a loop given a single wake-up performs exactly one pass of its body |
| LibPairing.LockstepInStep | Trigger/TriggerSubscriber.cs:41-51 | if the subscriber's cursor is one past the publisher's, lockstep delivers exactly the published records and keeps that relation |
| LibPairing.FreshSubscriberDeliversAll | Trigger/TriggerSubscriber.cs:35-51 | a subscriber created right after the publisher's `Create`, stepping once per `Set`, delivers every published record in order |
| LibPairing.LockstepLagging | Trigger/TriggerSubscriber.cs:41-51 | with `Q >= 2`, if the cursors are equal, lockstep first delivers the record in the publisher's slot, then each record one `Set` late |
| LibPairing.LateSubscriber | Trigger/TriggerSubscriber.cs:35-51 | after `P >= 1` publishes, a new subscriber with no wake-up pending, in lockstep, delivers exactly the new records when `Q = 1`. Otherwise it delivers the `P`-th record again, followed by the new ones minus the last |
| LibPairing.ReplayAfterFourPublishes | Trigger/TriggerSubscriber.cs:35-42 | with 3 slots and 4 earlier records, a new subscriber with no wake-up pending delivers the 4th record after the 5th `Set` |
| LibPairing.LateSubscriberPendingWake | Trigger/TriggerSubscriber.cs:29-51 | after `P >= 1` publishes, a new subscriber that finds the event still set delivers the `P`-th record at once and then, in lockstep, exactly the new records |
| LibPairing.PendingWakeAfterFourPublishes | Trigger/TriggerSubscriber.cs:29-51 | with 3 slots and 4 earlier records, a new subscriber that finds the event set delivers the 4th record and then the 5th |
| ProgramPublisher.Created | Program.cs:18-37 | the state after `Create` has cursor 0, header 0 and `queueSize` all-zero slots, and is well formed exactly when the queue size is a `uint` |
| ProgramPublisher.Publish | Program.cs:45-53 | `Set` fails, changing nothing, exactly when the cursor names no slot. Otherwise the record goes into the slot at the old cursor. The cursor advances by one modulo `Q`, the header equals the new cursor and every other slot is unchanged |
| ProgramPublisher.SetEffects | Program.cs:49-52 | a `Set`'s trace is three effects: the record write, then the signal, then the header write |
| ProgramPublisher.HeaderAfterPublishes | Program.cs:47-52 | after `K` publishes the cursor and header are both `K mod Q`, and the `K`-th record is in slot `(K - 1) mod Q` |
| ProgramPublisher.RetainsLatest | Program.cs:47-52 | after `K` publishes each of the last `Q` records is in slot `i mod Q`; slots not yet reached are zero |
| ProgramPublisher.PublishAll | Program.cs:45-53 | any sequence of `Set`s keeps the publisher's state well formed and its slot count unchanged |
| ProgramPublisher.SlotsHoldHistory | Program.cs:47-52 | after `K` publishes, slot `j mod Q` holds entry `j` of the history (`Q` zero records, then the published records) for every `j` from `K` to `K + Q - 1` |
| ProgramPublisher.SetEffectsRing | Program.cs:47-52 | applying a `Set`'s trace stores the record in the old cursor's slot and the next cursor in the header, and nothing else |
| ProgramPublisher.SetTouchesOnlyHeaderAndSlot | Program.cs:47-52 | every byte outside the header and the written slot is unchanged by a `Set` |
| ProgramPublisher.SlotCompleteBeforeSignal | Program.cs:49-50 | when the event is raised the slot already holds the new record while the header still holds its previous value |
| ProgramPublisher.TriggerPubisher.Create | Program.cs:21-37 | sizes the segment `TSize * queueSize + 4` and zero-fills every byte. The event is clear, and the state is `Created` |
| ProgramPublisher.TriggerPubisher.Set | Program.cs:45-53 | the new state and outcome are those of `Publish`. On success the log gains exactly the record, signal and header effects, and the image is that trace applied. No other byte changes. On failure nothing changes |
| ProgramPublisher.SetRefinesPublish | Program.cs:45-53 | the bytes a successful `Set` writes, the record first and then the header, decode to the ring and cursor that `Publish` gives |
| ProgramSubscriber.Pass | Program.cs:94-100 | a pass delivers at most one record. It delivers exactly when the event woke it and the cursor names a slot, and then delivers that slot. It faults with an out-of-range read exactly when the event woke it and the cursor names no slot. It faults with the callback's exception exactly when the record was delivered and the callback threw, and then the cursor stays. It stops exactly on cancellation after a returning callback, or on the cancellation handle. While running, the cursor moves to the next slot modulo `Q` |
| ProgramSubscriber.Run | Program.cs:92-103 | a loop that is not running takes no wake-up. The loop delivers at most one record per wake-up. From a cursor that names a slot, it keeps the cursor in range and never faults on a read |
| ProgramSubscriber.RunExtendsDelivered | Program.cs:92-103 | the loop only appends to the records already delivered |
| ProgramSubscriber.CallbackErrorEndsLoop | Program.cs:94-103 | a throwing callback ends the loop: its record was delivered, the cursor did not advance and no later wake-up is processed |
| ProgramSubscriber.AgreesWithLibraryWhenQuiet | Program.cs:92-103 | when no callback throws, this loop's result equals the library loop's |
| ProgramSubscriber.RunDeliversInSlotOrder | Program.cs:92-103 | with callbacks that return, it delivers one record per event wake-up from consecutive slots, and stops exactly when some wake-up ends it |
| ProgramSubscriber.TriggerSubscriber.Create | Program.cs:77-107 | the dispatch state starts from the header as read from the shared segment, and nothing is written |
| ProgramSubscriber.TriggerSubscriber.Step | Program.cs:94-100 | one pass of the loop body has the effect of `Pass` on the current ring |
| ProgramSubscriber.TriggerSubscriber.Dispatch | Program.cs:92-103 | the loop over wake-ups `ws` ends in the state `Run` gives |
| ProgramPairing.OneWake | Program.cs:92-103 | a loop given a single wake-up performs exactly one pass of its body |
| ProgramPairing.LockstepInStep | Program.cs:96-100 | if the two cursors are equal, lockstep delivers exactly the published records and keeps them equal |
| ProgramPairing.FreshSubscriberDeliversAll | Program.cs:90-100 | a subscriber created right after `Create`, stepping once per `Set`, delivers every published record in order |
| ProgramPairing.LateSubscriberStartsAtNext | Program.cs:90-100 | after `P` publishes a new subscriber's cursor is `P mod Q`. With no wake-up pending, in lockstep it delivers exactly the records published afterwards, starting with the `(P + 1)`-th |
| ProgramPairing.NoReplayAfterFourPublishes | Program.cs:90-100 | with 3 slots and 4 earlier records, a new subscriber with no wake-up pending delivers the 5th record after the 5th `Set` |
| ProgramPairing.BehindStep | Program.cs:96-100 | with the subscriber's cursor one past the publisher's, one `Set` and one wake-up deliver the first record of the subscriber's backlog; the backlog loses it and gains the new record, and the cursor relation is kept |
| ProgramPairing.BehindAfterStep | Program.cs:96-100 | one more `Set` and wake-up from a subscriber trailing by its backlog delivers the next record of backlog-then-published and keeps the trailing relation |
| ProgramPairing.LockstepBehind | Program.cs:96-100 | with the subscriber's cursor one past the publisher's, lockstep delivers the `Q - 1` backlog records and then the published ones, `Q - 1` records late, keeping the cursor relation |
| ProgramPairing.TrailingDelivers | Program.cs:96-100 | a subscriber one slot past the publisher, having delivered `first` with `backlog` still to read, delivers in lockstep `first` and then as many records of `backlog` followed by the published ones as there were `Set`s |
| ProgramPairing.BacklogIsHistory | Program.cs:47-52 | after `K` publishes, the `Q - 1` slots after slot `(K + 1) mod Q` hold history entries `K + 1` to `K + Q - 1` |
| ProgramPairing.PendingWake | Program.cs:86-100 | a subscriber started after `K` publishes that takes the pending wake-up delivers history entry `K` and ends one slot past the publisher's cursor |
| ProgramPairing.PendingWakeBacklog | Program.cs:86-100 | with `Q >= 2`, after the pending wake-up the subscriber is one slot past the publisher, has delivered history entry `K` and reads history entries `K + 1` onwards next |
| ProgramPairing.PendingWakeThenBehind | Program.cs:86-100 | with `Q >= 2`, after the pending wake-up the subscriber delivers, in lockstep, the history entries after entry `K` and then the new records, `Q - 1` late |
| ProgramPairing.PendingWakeSingleSlot | Program.cs:86-100 | with one slot, after the pending wake-up the subscriber delivers exactly the new records |
| ProgramPairing.LateSubscriberPendingWake | Program.cs:86-100 | a subscriber started after `P` publishes that finds the event set delivers, in lockstep, the history (`Q` zero records, then every record) from entry `P` on, one record more than the number of later `Set`s |
| ProgramPairing.PendingWakeAfterFourPublishes | Program.cs:86-100 | with 3 slots and 4 earlier records, a new subscriber that finds the event set delivers the 2nd record and then the 3rd |

## Left out

- Named OS resources are not modelled: `MemoryMappedFile.CreateOrOpen`, `CreateViewAccessor`, `EventWaitHandle` and the `ev{name}` naming. A `Channel` object shared by reference stands for a name that both sides open.
- A subscriber's `CreateOrOpen` may create a fresh segment when no publisher exists yet. The model starts a subscriber only on an existing channel.
- The subscriber's own `queueSize` argument is not modelled. The model uses the channel's slot count, so a mismatch between the two sides is not represented.
- `WaitHandle.WaitAny` blocking, the dispatch thread's start and `Join` are left out. Wake-ups are an input sequence.
- `Dispatch` runs over a ring that does not change: the model has no interleaving between publisher and subscriber. Lockstep pairings instead interleave one `Set` with one wake-up.
- Auto-reset event semantics are left out except for one wake-up left pending before a late subscriber starts: lost or coalesced wake-ups, and one event shared by several subscribers (starvation).
- LibPairing.LateSubscriber: assumes no wake-up is pending when the subscriber starts, that is, another waiter took the event the last `Set` raised. The pending case is `LibPairing.LateSubscriberPendingWake`.
- LibPairing.ReplayAfterFourPublishes: assumes no wake-up is pending when the subscriber starts. With the wake-up pending it delivers the 4th and then the 5th record (`LibPairing.PendingWakeAfterFourPublishes`).
- ProgramPairing.LateSubscriberStartsAtNext: assumes no wake-up is pending when the subscriber starts. The pending case is `ProgramPairing.LateSubscriberPendingWake`.
- ProgramPairing.NoReplayAfterFourPublishes: assumes no wake-up is pending when the subscriber starts. With the wake-up pending it delivers the 2nd and then the 3rd record (`ProgramPairing.PendingWakeAfterFourPublishes`).
- Cross-process memory visibility and reordering are left out; these are concurrency properties.
- `Dispose` is left out in every class; it is handle lifecycle only.
- `Marshal.SizeOf` and the struct reinterpretation done by `Read<T>`/`Write<T>` are left out. `TSize` is a positive parameter and a record is an opaque `TSize`-byte image.
- `accessor.Capacity` is taken to be exactly `TSize * queueSize + 4`; the operating system may round it up to a page.
- Because of that, with a queue size of 0 the `Program.cs` `Set` is modelled as failing at its first write. With page rounding that write would succeed, the event would be raised, and the `% 0` would then throw.
- The `int` counter of the zero-fill loop would overflow for segments of 2^31 bytes or more. The model's loop index is unbounded.
- An exception that escapes a dispatch thread ends the process in .NET. The model records it only as the loop's `Faulted` status.
- `Program.Main`, `Examples/Publisher/Program.cs` and `Examples/Subscriber/Program.cs` are console I/O, sleeping and latency printing, and are not part of this model.
