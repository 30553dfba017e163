# A model of the platform's memories, bus, timer, interrupt channel, clock and bit tools

The repository is a SystemC/TLM-2.0 virtual platform.  This project models the parts of it that
carry real logic and proves what they promise.

- `Memory.dfy`: the byte memory that starts with one byte and grows on demand refines an array of
  its full size.
- `AddressMap.dfy`: filling the bus's address map, probing the ports, checking for overlaps, and the
  ordered decode.
- `Bus.dfy`: bus, map and memories together are one flat byte store keyed by global address.  The
  final theorem goes from the listed memory map to the byte a read returns.
- `Interrupt.dfy`: over every run the interrupt channel delivers the stable sort by due time of
  what was sent.
- `TimerBeh.dfy`: the kernel event follows the timer's trigger time in every reachable state, and
  the timer measures its load delay exactly.
- `NoClock.dfy`: edge times found by modular arithmetic are those of a clock that ticks.
- `HexFile.dfy`, `HexImage.dfy`: printing and parsing hex files; what any text amounts to in any vector,
  and exactly when a saved file comes back.
- `Log2.dfy`, `Parity.dfy`: the look-up tables against loops and bit counts.
- `TimerRegs.dfy`: what the timer's payload check lets through, and its 64-bit counter.
- `Common.dfy`, `Kernel.dfy`: integer widths, and the rule that an event keeps its earliest timed
  notification (section 5.10 of IEEE Std 1666-2011).

## How the model is built

Each object the program updates in place is a class with the same fields, and its methods are proved
against a step function on values.  Runs of such steps are then compared with an independent
reference: a fixed-size array, one flat store, a stable sort, a ticking clock, a stopwatch, a scan.

Addresses are 64 bits wide and depths 32, with wrap-around and truncation written out.  A failed
assertion and a copy outside a buffer are an explicit outcome, `Fault`, so that theorems say when it
can happen.  Vectors are fields of type `seq`; ordered maps and multimaps are sequences in iteration
order.  Simulation time is a parameter of each call, in whole ticks.  Reported errors do not stop the
program, because `top/options.cpp:245` sets them to be displayed and logged only.

## Where the code and its intent differ

The model follows the code.  These differences are theorems:

- A memory refuses an access that ends exactly at its size; only accesses ending before it are
  served (`Memory.AccessRefines`, `Bus.SameRefusal`).
- A memory that expands near 4 GiB computes its new size in 32 bits and fails
  (`Memory.FaultsExactly`, `Memory.SafeSizesExactly`).
- The debug call's comment at `memory/memory.cpp:118` says that over-long accesses are truncated; they
  are always refused (`Memory.DebugExactly`, `Memory.TruncationExactly`).
- A configuration sent to a memory without a target size sets that size to the default, zero, and the
  resize assertion fails (`Memory.ReconfigureExactly`).
- The port guard of the bus admits one index too many; probing never assigns it
  (`AddressMap.GuardIsEnough`, `AddressMap.ProbedPortsSafe`).
- The bus publishes its size one byte short (`Bus.AdvertisedRangeExactly`).
- A range reaching the two reserved addresses decodes differently from a linear scan
  (`AddressMap.DecodeAgreesWithScan`).
- A delayed interrupt notification does not arm the wake-up (`Interrupt.SendLaterArmsExactly`).
- Stopping and restarting a timer in the instant of its event breaks its assertion
  (`TimerBeh.RestartRace`); its start time goes stale in continuous mode with reload off
  (`TimerBeh.StartTracksExactly`).
  Starting a paused timer resumes it and ignores the delay argument (`TimerBeh.WatchTimed`).
- The clock's constructor and period setter let an edge fall at or beyond the period, and then level and
  edges come out wrong (`NoClock.ReadIsLevelExactly`, `NoClock.LateEdge`, `NoClock.ConstructedReadsExactly`,
  `NoClock.UntilCountsEdges`).
- On an edge the clock's next edge of either kind skips the other one
  (`NoClock.NextAnyedgeExactly`, `NoClock.NextAnyedgeCounts`);
  the set-edge test uses the sample offset (`NoClock.AtSetedgeExactly`); each period change after the
  first counts earlier cycles twice, and each change counts the shift again
  (`NoClock.PeriodChangeExactly`, `NoClock.CyclesExactly`).
- A saved hex file does not come back when it is empty, and at the all-ones address only a single byte or
  nothing does.  A file name with further lines is in part read as contents, and such a file comes
  back only under an exact condition (`HexImage.RoundTripExactly`, `HexImage.SecondLines`).
- The generic logarithm narrows its argument to 32 bits (`Log2.Log2`).

## Model

| member | source | states |
|---|---|---|
| `Memory.FaultsExactly` | memory/memory.cpp:412-453 | An accepted read or write trips an assertion or copies at a place outside a buffer (if only of no bytes) if and only if address plus length wraps 64 bits, or the expansion it needs (length plus 1 KiB, kept in 32 bits) overflows |
| `Memory.SafeSizesExactly` | memory/memory.cpp:424-430 | No state and no accepted, non-wrapping access can fault if and only if the target size is at most 4 GiB less 1 KiB |
| `Memory.AcceptedExactly` | memory/memory.cpp:353-410 | An access is accepted if and only if its end (in 64 bits) lies before the target size, it has no byte enables, no streaming, is no write to a read-only memory, and in a burst keeps the limit |
| `Memory.RefusedExactly` | memory/memory.cpp:363-406 | A refused access gets the error of the first reason that applies, in the order of the tests |
| `Memory.GrownLength` | memory/memory.cpp:424-430 | An expansion ends 1024 bytes beyond the access, or at the target size |
| `Memory.CutLeavesOne` | memory/memory.cpp:121-123 | An over-long debug access that starts within the target is cut to end one byte beyond it |
| `Memory.GrownKeepsFlat` | memory/memory.cpp:162-167 | Expansion makes room, stays within the target size, and changes no byte and no used mark of the fixed-size array the vector stands for |
| `Memory.WriteRefines` | memory/memory.cpp:439-447 | Writing bytes and marking them in long-enough vectors is writing and marking them in the fixed array |
| `Memory.TransportRefines` | memory/memory.cpp:412-453 | An accepted access returns, stores and marks what the fixed array would, and never shrinks the vector |
| `Memory.AccessRefines` | memory/memory.cpp:86-99 | One access, refused or not and in either coding style, gives the reply and contents of a fixed-size array |
| `Memory.AccessMarks` | memory/memory.cpp:443-447 | After an access an address is marked used if and only if it was before or the access was an accepted write covering it |
| `Memory.RunRefines` | memory/memory.cpp:353-453 | Over every run of accesses: replies and contents are those of a fixed-size array, nothing faults, length never shrinks or passes the target size, and the used marks are exactly the addresses covered by accepted writes |
| `Memory.TruncationExactly` | memory/memory.cpp:118-127 | Every over-long debug access, cut as the code cuts it, still ends at or beyond the target size, if and only if that size is not the largest 32-bit one |
| `Memory.DebugExactly` | memory/memory.cpp:109-130 | With its configuration settled, the debug call fills the vectors to the target size without changing any byte, then answers as the blocking call does, except that every access meant to be truncated is refused with an address error |
| `Memory.ReconfigureExactly` | memory/memory.cpp:134-159 | A configuring debug call fails if and only if the new settings lack a target size or give zero; otherwise access mode, burst limit and record are the new ones or defaults, all bytes and marks below both sizes are kept, and a larger memory is filled up |
| `Memory.AskExactly` | memory/memory.cpp:102-117 | Asking for the configuration brings back the record and changes no byte, mark or setting |
| `Memory.MemoryModule.constructor` | memory/memory.cpp:26-73 | A new memory holds one byte of value zero, unmarked, and records its own settings |
| `Memory.MemoryModule.PayloadIsOk` | memory/memory.cpp:353-410 | The check answers with the first applicable refusal, reports it (or success, under the global error flag), and leaves the status alone when it accepts |
| `Memory.MemoryModule.Resize` | memory/memory.cpp:162-167 | The assertion holds for exactly the depths 1 to target size, and then both vectors keep their old elements and gain the fill value |
| `Memory.MemoryModule.DoTransport` | memory/memory.cpp:412-453 | In place: contents, marks, returned data, status, byte count and faults are those of the specified access, with nothing else changed |
| `Memory.MemoryModule.Expand` | memory/memory.cpp:424-430 | The in-place expansion: whether it is needed, to which size, and whether its assertion holds |
| `Memory.MemoryModule.ConfigureFrom` | memory/memory.cpp:134-159 | An empty configuration is filled in, any other is merged into the record and read back, missing keys as defaults; the result tells whether that was all |
| `Memory.MemoryModule.MarkUsed` | memory/memory.cpp:443-447 | The loop marks exactly the addressed bytes |
| `Memory.MemoryModule.BTransport` | memory/memory.cpp:86-99 | The in-place blocking call is the specified access |
| `Memory.MemoryModule.ExecuteTransaction` | memory/memory.cpp:170-178 | The in-place non-blocking execution is the specified access with the burst limit in force |
| `Memory.MemoryModule.TransportDbg` | memory/memory.cpp:102-130 | The in-place debug call is the specified configuration step and debug access; the count is the length served when the access was accepted (the whole length within the target), and zero otherwise |
| `AddressMap.Put` | bus/memory_map.cpp:187 | Assigning to a key keeps the map in descending key order and brings in nothing else |
| `AddressMap.FindPut` | bus/memory_map.cpp:180-187 | After an assignment the key finds the new value, all other keys find what they did, and the map grew exactly if the key was new |
| `AddressMap.GetAddressMap` | bus/memory_map.cpp:168-190 | The loop builds the map of all listed targets, and every listed target is either an entry or counted as a duplicate |
| `AddressMap.FilledIsMapOf` | bus/memory_map.cpp:178-188 | The filled map is ordered, every key is its entry's base, and each base holds the last target listed there |
| `AddressMap.MappedNamesDistinct` | bus/memory_map.hpp:44 | Entries of a map filled from a name-keyed listing have distinct names |
| `AddressMap.ProbingKeepsIdentity` | bus/bus.cpp:399-417 | No sequence of probe replies changes an entry's name or base |
| `AddressMap.ProbedTargetExactly` | bus/bus.cpp:374-428 | An entry ends with the last socket that answered with its name (and that reply's kind and a recomputed last address), or is untouched if none did |
| `AddressMap.ProbedSizeExactly` | bus/bus.cpp:407-415 | Its size is the last one reported under its name that is not zero, else the listed one |
| `AddressMap.ProbedPortsSafe` | bus/bus.cpp:353-433 | After probing every port is unassigned or below the socket count, and no socket serves two entries |
| `AddressMap.CheckPortMap` | bus/bus.cpp:462-529 | The nested loops count the malformed entries plus the overlapping pairs and fold the lowest base and highest last address |
| `AddressMap.ErrorsExactly` | bus/bus.cpp:471-533 | The errors up to any entry are the malformed entries and the overlapping pairs, each once |
| `AddressMap.LimitsTight` | bus/bus.cpp:497-503 | The folded limits enclose every well-formed range, and each is attained by one (or keeps its start value) |
| `AddressMap.OverlapCountExactly` | bus/bus.cpp:506-528 | The inner count is the number of entries overlapped |
| `AddressMap.CheckerExactly` | bus/bus.cpp:471-529 | No error is counted if and only if every base is valid, no range wraps, and all ranges are pairwise disjoint |
| `AddressMap.LowerBound` | bus/bus.cpp:290 | With descending keys it finds the greatest key not above the address: all entries before it lie above |
| `AddressMap.GuardIsEnough` | bus/bus.cpp:58-69 | With safe ports, a decoded port the guard lets through is always a socket, although the guard would pass one index too many |
| `AddressMap.LookupExactly` | bus/bus.cpp:274-306 | On a checked map the decoder settles on an entry if and only if the address lies in its range and is not the reserved one; base plus decoded address is the address |
| `AddressMap.Scan` | bus/bus.cpp:233-245 | The reference scan finds an entry that masks the address exactly when there is one |
| `AddressMap.MaskExactly` | bus/bus.cpp:233-245 | Without wrap-around an address fits from the start on for the depth, and the start plus the masked address is the address |
| `AddressMap.DecodeAgreesWithScan` | bus/bus.cpp:233-306 | The ordered decode and the linear scan agree on every address if and only if no range reaches the two reserved addresses |
| `AddressMap.DecodeMeetsScan` | bus/bus.cpp:274-306 | With ranges below the reserved addresses, the ordered decode is the linear scan |
| `AddressMap.DecodeMissesScan` | bus/bus.cpp:233-245 | A range that reaches them is decoded and scanned differently at some address |
| `AddressMap.SameMask` | bus/bus.cpp:233-306 | Where decode and scan answer, the masked address is the same |
| `Bus.ServeForwards` | bus/bus.cpp:56-74 | An access to an address of a mapped memory goes to that memory, at the address less its base |
| `Bus.SameRefusal` | bus/bus.cpp:72-73 | Behind the bus, the memory refuses exactly what the flat memory refuses, for the same reason |
| `Bus.BothUnmapped` | bus/bus.cpp:61-69 | An address in no memory's range decodes to no port and is an address error of the flat memory |
| `Bus.StoreAfter` | memory/memory.cpp:439-447 | Changing one memory changes the flat store at exactly the global addresses written: no other target is disturbed |
| `Bus.ReadAfter` | memory/memory.cpp:434-438 | A slice of one memory is the slice of the flat store at the global address |
| `Bus.ServeIsFlat` | bus/bus.cpp:56-74 | One access through bus and memories is one access to the flat store: same reply, same contents, no fault |
| `Bus.RunIsFlat` | bus/bus.cpp:56-74 | Over every run, bus and memories together are one flat byte store keyed by global address |
| `Bus.FlatRunLastWrites` | bus/bus.cpp:56-74 | In the flat store every address holds what the last accepted write covering it put there |
| `Bus.ReadReturnsLastWrite` | bus/bus.cpp:56-74 | After any run, an accepted read through the bus returns for each address the byte last written there |
| `Bus.BuiltIsWired` | bus/bus.cpp:353-433 | A map filled from a listing, probed, and passing the check meets everything the flat-memory theorem needs |
| `Bus.BuiltPortsExactly` | bus/bus.cpp:374-428 | On a built platform an entry leads to the last memory of its name and has that memory's kind and size; an entry no memory is named for stays as listed |
| `Bus.BuiltPlatformReadsBack` | bus/bus.cpp:353-529 | From the listing to a read: fill the map, probe new memories, check without errors, run any accesses; a read returns the last written byte, or else 0 at a memory's first address and 0xEA elsewhere |
| `Bus.AdvertisedRangeExactly` | bus/bus.cpp:538-543 | The base and size the bus publishes fit exactly the addresses from the lowest base on, one byte less than the span, or than what a longer span leaves in 32 bits |
| `Bus.BusModule.ProbePorts` | bus/bus.cpp:374-428 | The loop sends a probe through every socket and updates the map as the memories' answers say; every memory is filled up; it faults exactly at a memory without a target size |
| `Bus.BusModule.ProbeOne` | bus/bus.cpp:375-397 | One probe brings back the configuration of the memory on that socket and touches no other memory |
| `Bus.BusModule.ApplyReply` | bus/bus.cpp:398-417 | One reply updates exactly the entries of its name |
| `Bus.BusModule.BuildPortMap` | bus/bus.cpp:353-433 | The built map is the listing probed through the sockets, ordered and with safe ports; error count and published limits are the checker's |
| `Bus.BusModule.CheckAndPublish` | bus/bus.cpp:462-546 | The check counts the map's errors and publishes the folded base and size |
| `Bus.BusModule.DecodeAddress` | bus/bus.cpp:274-306 | Decoding in place gives the specified port and masked address |
| `Bus.BusModule.BTransport` | bus/bus.cpp:56-74 | The in-place call changes payload and memories as specified, replaces the payload address exactly when forwarding, and never indexes past the sockets |
| `Interrupt.InsertSorted` | interrupt/interrupt.hpp:47 | Insertion keeps due times in order |
| `Interrupt.InsertKeepsAll` | interrupt/interrupt.hpp:47 | Insertion adds the event and loses none |
| `Interrupt.InsertAt` | interrupt/interrupt.hpp:47 | Among events due at the same time, the inserted one comes last |
| `Interrupt.SortIsStable` | interrupt/interrupt.hpp:45-57 | Inserting a sequence one by one sorts it stably and loses nothing |
| `Interrupt.StableSortUnique` | interrupt/interrupt.hpp:45-57 | A sorted sequence with the same events at each time in the same order is unique |
| `Interrupt.InsertBeyond` | interrupt/interrupt.hpp:53-57 | An event due now or later never goes before one already delivered |
| `Interrupt.StepKeeps` | interrupt/interrupt.hpp:45-99 | Every call keeps the queue, the deliveries and the counters consistent with what was sent |
| `Interrupt.RunKeeps` | interrupt/interrupt.hpp:45-99 | So does every run |
| `Interrupt.DeliversStableSort` | interrupt/interrupt.hpp:45-92 | Over every run: deliveries followed by the queue are the stable sort by due time of everything sent since the last clear; deliveries never go back in time and none comes before it is due |
| `Interrupt.CountersExactly` | interrupt/interrupt.hpp:124-133 | Without a clear, sent equals taken plus outstanding, and both count what really went in and out |
| `Interrupt.CountersEver` | interrupt/interrupt.hpp:45-99 | Clears included, the counters count every notification and every delivery, and nothing resets them |
| `Interrupt.GetNextExactly` | interrupt/interrupt.hpp:74-92 | A take delivers if and only if some queued event is due, then the first one, and removes nothing else |
| `Interrupt.GetNextArms` | interrupt/interrupt.hpp:89 | Asking too early leaves the wake-up armed no later than the first due event |
| `Interrupt.GetNextWake` | interrupt/interrupt.hpp:89 | The wake-up then is the earlier of the one armed before and the first due time |
| `Interrupt.StepArmed` | interrupt/interrupt.hpp:45-99 | An immediate notification and a clear leave no wake-up pending, a delayed one leaves it as it is |
| `Interrupt.RunArmed` | interrupt/interrupt.hpp:45-99 | In every run a wake-up still pending lies ahead and belongs to an event still queued |
| `Interrupt.SendLaterArmsExactly` | interrupt/interrupt.hpp:53-57 | A delayed notification keeps the receiver woken in time if and only if the armed wake-up is early enough already |
| `Interrupt.SleepsThrough` | interrupt/interrupt.hpp:53-57 | A receiver waiting on an empty channel is not woken for a delayed notification |
| `Interrupt.InterruptChannel.Notify` | interrupt/interrupt.hpp:45-50 | Queues an event due now, counts it, and the immediate notification clears a pending wake-up |
| `Interrupt.InterruptChannel.NotifyDelayed` | interrupt/interrupt.hpp:53-57 | Queues an event due after the delay and counts it, with the wake-up untouched |
| `Interrupt.InterruptChannel.TakeNext` | interrupt/interrupt.hpp:74-92 | Returns a source if and only if some queued event is due, and then removes the first; otherwise removes nothing and arms the wake-up |
| `Interrupt.InterruptChannel.Clear` | interrupt/interrupt.hpp:95-99 | Empties the queue and cancels the wake-up, and leaves the counters |
| `Interrupt.InterruptChannel.HasPending` | interrupt/interrupt.hpp:102-106 | True exactly when some queued event is due |
| `Interrupt.InterruptChannel.Pending` | interrupt/interrupt.hpp:109-121 | Stopping at the first event not due, the loop counts exactly the queued events due now or before; it is positive if and only if there is one |
| `TimerBeh.StepInStep` | timer/timer_beh.cpp:44-94 | A permitted call, time advance, firing or thread turn holds every assertion and keeps the event pending exactly when the timer runs, at the trigger time |
| `TimerBeh.RunInStep` | timer/timer_beh.cpp:136-166 | In every reachable state event and trigger time agree, so the assertion that the trigger time is now never fails |
| `TimerBeh.AssertsExactly` | timer/timer_beh.cpp:44-166 | In a reachable state the only calls that fail an assertion are a start without load delay and a resume of an unpaused timer |
| `TimerBeh.StartExactly` | timer/timer_beh.cpp:44-57 | After starting an unpaused timer no assertion can fail in any later run if and only if the thread has no turn outstanding and no earlier notification is pending |
| `TimerBeh.RestartRace` | timer/timer_beh.cpp:138-143 | Stop and start in the instant the event fired, before the thread runs, makes its assertion fail |
| `TimerBeh.WatchTimed` | timer/timer_beh.cpp:44-94 | Through every run, delay arguments included, the time on the stopwatch plus the time left is the load delay, also across pauses |
| `TimerBeh.ElapsedIsLoadDelay` | timer/timer_beh.cpp:44-166 | However a run starts, pauses and resumes, the stopwatch, which counts unpaused time and takes delay arguments for what they say, shows the load delay at every trigger |
| `TimerBeh.TriggersPeriodically` | timer/timer_beh.cpp:136-166 | A continuous timer started at s and left alone triggers at s + k load for every k, without drift, and none is missed |
| `TimerBeh.OneTriggerPerStart` | timer/timer_beh.cpp:156-164 | Outside continuous mode there are never more triggers than starts |
| `TimerBeh.FlagExactly` | timer/timer_beh.cpp:145 | The trigger flag is up exactly when there was a trigger since it was last asked or reset |
| `TimerBeh.OneAnswerPerTrigger` | timer/timer_beh.hpp:60-65 | Asking and clearing answers true at most once per trigger |
| `TimerBeh.StartTracksExactly` | timer/timer_beh.cpp:44-94 | One step, with any delay argument, keeps the recorded start one load delay before the trigger time, and recoverable across a pause, if and only if it is neither a continuous trigger with reload off nor a pause whose delay exceeds the recorded start |
| `TimerBeh.StartTracksThroughout` | timer/timer_beh.cpp:44-166 | Over a whole run the recorded start stays right throughout if and only if no step of it is one of these two |
| `TimerBeh.TriggerStart` | timer/timer_beh.cpp:151-154 | A trigger records its own time as the start exactly with reload on |
| `TimerBeh.SettingsExactly` | timer/timer_beh.hpp:21-33 | Each setting is changed by its setter, cleared by a reset and left alone by everything else; the recorded start changes only at a start, resume, trigger or reset |
| `TimerBeh.ResetExactly` | timer/timer_beh.cpp:191-203 | A reset clears every field, however the timer stood, but not a turn the thread already owes |
| `TimerBeh.QueriesAhead` | timer/timer_beh.cpp:97-133 | Asking for the time left or for running with a delay is asking that much later |
| `TimerBeh.RunningExactly` | timer/timer_beh.cpp:103-133 | Except in the instant of a trigger, running means an event is pending, and the time left is the time to it |
| `TimerBeh.Timer.DoStart` | timer/timer_beh.cpp:44-57 | In place: the specified start, resuming when paused, and which assertions held |
| `TimerBeh.Timer.DoStop` | timer/timer_beh.cpp:60-70 | In place: event cancelled, trigger time and pause cleared, start time and flags kept |
| `TimerBeh.Timer.DoPause` | timer/timer_beh.cpp:73-80 | In place: event cancelled and the time left remembered |
| `TimerBeh.Timer.DoResume` | timer/timer_beh.cpp:83-94 | In place: the trigger moves to now plus the time left, the start one load delay before it |
| `TimerBeh.Timer.TriggerThread` | timer/timer_beh.cpp:138-164 | In place: one turn of the thread, ignored when paused or stopped, with its assertions |
| `TimerBeh.Timer.DoReset` | timer/timer_beh.cpp:191-203 | In place: everything back to its initial value except a turn the thread already owes |
| `TimerBeh.Timer.TestAndClearTriggered` | timer/timer_beh.hpp:60-65 | Returns the flag and clears it |
| `TimerBeh.Timer.SetLoadDelay` | timer/timer_beh.hpp:21 | Sets the load delay and nothing else |
| `NoClock.DelayExactly` | no_clock/no_clock.hpp:256-266 | The delay ends on the edge of the offset (taken modulo the period), and skips none if and only if the offset is less than a period ahead of the current phase |
| `NoClock.DelayRest` | no_clock/no_clock.hpp:256-266 | Modulo the period, the delay is the wait to the first edge from now on |
| `NoClock.EdgesFromEdge` | no_clock/no_clock.hpp:302-325 | From an edge, k periods see exactly k edges and end on an edge |
| `NoClock.UntilCountsEdges` | no_clock/no_clock.hpp:302-325 | The until functions for k: an edge at the end, and k plus the whole periods in the delay as many edges of the ticking clock from now to then; exactly k if and only if the offset is less than a period ahead of the phase |
| `NoClock.NextCountsEdges` | no_clock/no_clock.hpp:328-355 | The next functions for k: never zero, an edge at the end, and exactly k edges strictly in between if and only if the offset is at most a period ahead of the phase |
| `NoClock.OnEdgeNow` | no_clock/no_clock.hpp:394-412 | The at functions: zero delay if and only if on an edge with an offset below the period |
| `NoClock.LastEdge` | no_clock/no_clock.hpp:302-310 | The delay less one period is an edge, the most recent one strictly before now if and only if the offset is less than a period ahead of the phase |
| `NoClock.ReadIsLevelExactly` | no_clock/no_clock.hpp:460-463 | For a clock with two edges, the level read is at every time that of the ticking clock if and only if both offsets are below the period |
| `NoClock.LevelIs` | no_clock/no_clock.hpp:460-463 | The ticking clock is high exactly when the expression with the offsets reduced modulo the period says so |
| `NoClock.LateEdge` | no_clock/no_clock.cpp:91-106 | Period 10, offset 8, half duty: at time 0 the level is high and is read as low |
| `NoClock.ConstructedReadsExactly` | no_clock/no_clock.cpp:78-113 | A clock the constructor accepts has two edges if and only if the duty cycle rounds to neither nothing nor the period, and then reads right at every time if and only if the second edge falls within the period |
| `NoClock.ConstructedLevel` | no_clock/no_clock.cpp:78-113 | Where both edges fall within the period, an accepted clock is high at t if and only if t lies in the active part of its period, or, with negative polarity, in the rest; the active part is within half a tick of duty times period |
| `NoClock.RunKeepsEdges` | no_clock/no_clock.cpp:166-176 | Over every run the edges, sample and set offsets stay, each period change is counted once, and the period is the last one set, zero refused |
| `NoClock.UntilAnyedgeIsNearest` | no_clock/no_clock.hpp:312-315 | It ends on an edge, the nearest of either kind if and only if the offset of the edge that comes next is less than a period ahead of the phase |
| `NoClock.UntilAnyedgeCounts` | no_clock/no_clock.hpp:312-315 | For a count k it ends on an edge after exactly k edges of each kind under the same condition, and only then |
| `NoClock.NextAnyedgeCounts` | no_clock/no_clock.hpp:340-343 | For a count k it is never zero, ends on an edge, and has strictly in between exactly 2k edges when it is right for zero and only then; with both offsets below the period, 2k + 1 on an edge |
| `NoClock.AtAnyedgeExactly` | no_clock/no_clock.hpp:404-407 | True if and only if on an edge whose offset is below the period |
| `NoClock.NextAnyedgeExactly` | no_clock/no_clock.hpp:340-343 | It finds the nearest later edge under an exact condition on the two offsets, which for offsets below the period is that the clock is not on an edge now |
| `NoClock.AtSetedgeExactly` | no_clock/no_clock.hpp:414-417 | The set-edge test is right at every time if and only if the sample offset is the set edge's within the period |
| `NoClock.CyclesNeverDecrease` | no_clock/no_clock.cpp:166-176 | With a fixed shift the cycle count never goes back over any run of time advances and period changes |
| `NoClock.PeriodChangeExactly` | no_clock/no_clock.cpp:166-176 | Changing the period leaves the count as it is if and only if nothing was counted up to an earlier change and the shift is less than the new period |
| `NoClock.CyclesExactly` | no_clock/no_clock.hpp:291-294 | Over every run the count is the edges of a clock ticked through stretch by stretch from each change, the shift counted once, plus the base as each change finds it, plus the shift counted again after each change |
| `NoClock.CyclesRightExactly` | no_clock/no_clock.cpp:166-176 | A clock not changed before counts right if and only if no change finds a base and no later stretch gains from the shift: always without a change, and without a shift up to the second one |
| `NoClock.ClockModule.Create` | no_clock/no_clock.cpp:78-113 | Gives a clock if and only if no fatal check fires, with the given period, sample and set edge, the offset and the duty cycle as its two edges in the order the polarity says, and counters at zero |
| `NoClock.ClockModule.SetTimeShift` | no_clock/no_clock.hpp:246 | Sets the shift and nothing else |
| `NoClock.ClockModule.SetPeriodTime` | no_clock/no_clock.cpp:166-176 | A zero period changes nothing; otherwise the specified change of period and counters, edge offsets untouched |
| `NoClock.ClockModule.SetSampleTime` | no_clock/no_clock.cpp:198-205 | Accepts exactly the offsets below the period |
| `HexFile.StoullOfPrinted` | utility/hexfile.cpp:93-152 | The number conversion reads back every printed address, whatever its zero fill |
| `HexFile.StoiOfPrinted` | utility/hexfile.cpp:97-177 | The two-digit conversion reads back every printed byte |
| `HexFile.DigitsExactly` | utility/hexfile.cpp:17 | The digits are those of the list, with the same value in either case |
| `HexFile.HexOfExactly` | utility/hexfile.cpp:93-97 | Numbers are printed in lower case, addresses without needless zeros |
| `HexFile.PaddedExactly` | utility/hexfile.cpp:93 | Filling puts zeros in front up to the width and no more |
| `HexFile.StoullExactly` | utility/hexfile.cpp:152 | An address is an optional sign and digits, taken modulo 64 bits when negative, refused when too large; what follows is ignored |
| `HexFile.StoullPrefixed` | utility/hexfile.cpp:152 | A zero and an x of either case may precede the digits |
| `HexFile.StoullNeedsDigits` | utility/hexfile.cpp:152 | Without a digit the conversion throws |
| `HexFile.StoiExactly` | utility/hexfile.cpp:177 | Two digits, one digit with anything after it, or a sign and a digit convert; anything else throws |
| `HexFile.TokensOfAppend` | utility/hexfile.cpp:125-149 | A line break separates: the tokens of two pieces of text are those of the first, then those of the second |
| `HexFile.PlainLine` | utility/hexfile.cpp:130-139 | Stripping a line without comment signs and underscores changes none of its tokens |
| `HexFile.OneToken` | utility/hexfile.cpp:148-149 | Only the six white space characters end a token |
| `HexFile.CommentText` | utility/hexfile.cpp:130-136 | A comment changes nothing about what a text loads, wherever on its line it begins |
| `HexFile.UnderscoreText` | utility/hexfile.cpp:41-51 | Nor does an underscore anywhere, but for one between two slashes |
| `HexFile.BodyTokens` | utility/hexfile.cpp:96-99 | The printed bytes tokenise to one two-digit token each, in order |
| `HexFile.HeaderTokens` | utility/hexfile.cpp:91-94 | The printed header tokenises to what its first line, with the file name, leaves, then the address token |
| `HexFile.TrailerTokens` | utility/hexfile.cpp:101-103 | The printed trailer adds no token |
| `HexFile.SavedTokens` | utility/hexfile.cpp:82-106 | Printing then tokenising gives, for any file name, what the name leaves, one address token, then one token for each byte |
| `HexFile.SavedLines` | utility/hexfile.cpp:82-106 | A saved file line by line: name, blank, address of at least eight digits, the data lines, and the trailer |
| `HexFile.RowsExactly` | utility/hexfile.cpp:96-99 | Every data line but the last holds the next sixteen bytes, without a space at its end; the last one holds the rest |
| `HexFile.RowsCount` | utility/hexfile.cpp:96-99 | There is one data line for each sixteen bytes and one for the rest |
| `HexImage.LoadOver` | utility/hexfile.cpp:110-191 | Whenever a saved file comes back, loading it over an existing vector replaces its first bytes and keeps the rest |
| `HexImage.RoundTripExactly` | utility/hexfile.cpp:82-191 | For every file name, address and bytes: loading what was saved into an empty vector gives them back without complaint if and only if the tokens the name leaves are well formed and store nothing that counts, with at least one byte (at the all-ones address exactly one, or nothing), or store from the address on and only below the last byte |
| `HexImage.OneLineNames` | utility/hexfile.cpp:91-94 | For a one-line file name the condition is at least one byte, or at the all-ones address at most one |
| `HexImage.SecondLines` | utility/hexfile.cpp:91 | A second line of the name that spells a byte is stored at address 0, so only a non-empty file for that address comes back |
| `HexImage.SavedStores` | utility/hexfile.cpp:82-106 | A saved file stores what its name spells on further lines, then its bytes from the address on |
| `HexFile.OffsetStays` | utility/hexfile.cpp:166-168 | Once set, the returned offset never changes |
| `HexFile.NeverShrinks` | utility/hexfile.cpp:170-174 | No text makes the vector shorter |
| `HexFile.ReportsExactly` | utility/hexfile.cpp:151-183 | Unless an exception ends the loading, each bad token is reported once and nothing else is |
| `HexFile.BadDigits` | utility/hexfile.cpp:154-179 | A token that begins with digits and goes wrong is reported once, its digits are stored, and the first two characters that are no number throw |
| `HexImage.SpelledExactly` | utility/hexfile.cpp:159-178 | A token of digits stores its number, highest byte first, in as few bytes as its digits need |
| `HexFile.SplitText` | utility/hexfile.cpp:160-179 | White space put into a token of digits at an even position changes nothing about the result, whatever other lines stand before and after and whatever plain text around it |
| `HexImage.LoadsImage` | utility/hexfile.cpp:110-191 | Any text into any vector: it loads without exception or report if and only if its tokens are well formed and no address lies too far from the first (usually: below it); then each place holds the last byte stored for its address, or what it held, or zero, up to the highest place stored to |
| `HexImage.TokensLeave` | utility/hexfile.cpp:149-184 | Each token keeps the vector the image of all stores made so far, or ends in the exception exactly when they do not fit |
| `HexImage.SilentTokens` | utility/hexfile.cpp:151-183 | Loading without exception and without report takes well-formed tokens |
| `HexFile.Save` | utility/hexfile.cpp:82-106 | The loop prints the specified text |
| `HexFile.StripLeading` | utility/hexfile.cpp:21-28 | Leaves the text from its first character that is not white space |
| `HexFile.StripTrailing` | utility/hexfile.cpp:31-38 | Leaves the text up to its last character that is not white space |
| `HexFile.StripUnderscores` | utility/hexfile.cpp:41-51 | Erasing in place removes every underscore and nothing else |
| `HexFile.Load` | utility/hexfile.cpp:110-191 | The nested loops leave the vector, offset, address, reports and exception of the specified loader |
| `HexFile.LoadTokens` | utility/hexfile.cpp:149-184 | The loop over the tokens of a line does |
| `HexFile.StoreDigits` | utility/hexfile.cpp:164-179 | The loop over the digits of a token does |
| `Log2.BitsIsLog` | common/log2.hpp:17-25 | For every non-zero word, 2^n <= value < 2^(n+1), where n is the shifting loop's result |
| `Log2.Bits` | common/log2.hpp:17-25 | The loop computes that n, and -1 for zero |
| `Log2.Log2_32` | common/log2.c:3-16 | For every non-zero 32-bit word the smear-and-look-up form is the floor of the base-2 logarithm and agrees with the loop; zero gives 0 |
| `Log2.Log2_64` | common/log2.c:18-37 | The same for 64 bits; zero gives 63 |
| `Log2.SmearDown32` | common/log2.c:10-14 | Smearing sets all bits below the highest one and does not move that one |
| `Log2.SmearDown64` | common/log2.c:30-35 | The same for 64 bits |
| `Log2.MaskAgrees32` | common/log2.c:4-15 | For every smeared 32-bit word the multiplicative table look-up gives the loop's result |
| `Log2.MaskAgrees64` | common/log2.c:20-36 | The same for 64 bits |
| `Log2.Log2` | common/log2.hpp:9-13 | The generic form narrows to 32 bits: it is right if and only if the argument fits 32 bits |
| `Log2.IsPowerOfTwoExactly` | common/log2.hpp:3-7 | True if and only if the word is not zero and its value is 2^n for the loop's n |
| `Parity.OddIsParity` | uart/parity.cpp:14-21 | The exclusive-or of the two nibble entries is the parity of the octet's one bits |
| `Parity.Table.constructor` | uart/parity.cpp:7-13 | The table holds the parity of every octet |
| `Parity.Table.OddOf` | uart/parity.cpp:31-38 | The parity of an array is that of its total number of one bits, for every length |
| `Parity.ParityAppend` | uart/parity.cpp:31-38 | The parity of a concatenation is the exclusive-or of the parts |
| `Parity.FlipDetected` | uart/parity.cpp:31-38 | Flipping any one bit of any octet changes the parity |
| `TimerRegs.AcceptedInsideExactly` | timer/timer.cpp:390-412 | An accepted access stays inside the registers if and only if its end does not wrap 64 bits |
| `TimerRegs.AcceptedSplitsExactly` | timer/timer.cpp:557-563 | Without wrap, shifting gives address / 32 and address % 32, and the timer exists if and only if the access is not the empty one at the very end |
| `TimerRegs.AcceptedExactly` | timer/timer.cpp:390-436 | Accepted are, in both styles, whole aligned words that end within the registers (in 64 bits), without byte enables or streaming, and in a burst at most two |
| `TimerRegs.RefusedExactly` | timer/timer.cpp:390-432 | A refused access gets the error of the first reason that applies |
| `TimerRegs.WordRoundTrip` | timer/timer.cpp:727-728 | Four register bytes give back the 32-bit word |
| `TimerRegs.TornReadExactly` | timer/timer.cpp:691-706 | Low and high words read at different times give the first count if and only if the high word did not change |
| `TimerRegs.Registers.ReadCounter` | timer/timer.cpp:722-729 | A double-word read returns the 64-bit count, lowest byte first, and changes no other register |

## Left out

Contracts weaker or narrower than one might ask:

- Memory.RunRefines: assumes that address plus length does not wrap 64 bits and that the target size is at most 4 GiB less 1 KiB; Memory.FaultsExactly and Memory.SafeSizesExactly prove that the code needs exactly this.
- Memory.DebugExactly: for target sizes below 4 GiB less one byte, the sizes for which it holds (Memory.TruncationExactly); a zero-length access at address 0 counts as over-long, as in the code.
- Memory.MemoryModule.DoTransport: after a fault nothing is promised, because the original stops or has undefined behaviour.
- Bus.RunIsFlat: every target behind the bus is a memory; other peripherals and nested buses behind it are not modelled.
- Bus.BuiltIsWired: every socket leads to a memory; AddressMap.ProbedTargetExactly and AddressMap.ProbedPortsSafe cover sockets that do not answer or answer without a configuration.
- AddressMap.DecodeAgreesWithScan: speaks of entries with an assigned size and the last address that goes with it; an entry listed without a size and never probed has last address 0 and a size the scan cannot use.
- TimerBeh.RunInStep: callers start a timer only when idle (with no thread turn owed) or paused, pause it only when running and before its trigger time, and change the load delay only when stopped; TimerBeh.StartExactly gives the exact condition for starting.
- Interrupt.DeliversStableSort: safety and order only; that a waiting receiver is woken is false for delayed notifications (Interrupt.SleepsThrough).
- NoClock.ReadIsLevelExactly: and the lemmas on either kind of edge are for clocks whose two edges do not coincide; a clock with coinciding edges has no level.
- NoClock.CyclesExactly: for a fixed shift; times and cycle counts are exact, where the original multiplies counts by times in floating point.
- NoClock.ConstructedReadsExactly: the duty cycle is a real number and its product with the period is rounded half up to a tick, where the original computes in floating point.
- HexImage.LoadOver: one direction; over a vector that already holds bytes, a name may store beyond the file what was there anyway.
- HexFile.SplitText: the text around the token on its lines is plain, without comment signs and underscores; other lines are arbitrary.
- HexImage.LoadsImage: for vectors within the largest size; what a text that ends in an exception or is reported leaves in the vector is specified by HexFile.Load, but only HexFile.NeverShrinks and HexFile.ReportsExactly are proved of it.
- TimerRegs.AcceptedInsideExactly: assumes that the default target size fits 32 bits.

Parts of the program not modelled:

- Transaction timing (the delay arguments of memory and timer registers), reports, logs and dumps.
- The four-phase non-blocking protocol, repeated in every target: the guard on new requests is the opposite of its comment, so runs of a compliant initiator get stuck.
- Configuration keys other than name, kind, target size, access and burst limit; the bus's own configuration extension.
- Direct memory pointers and their invalidation; null data pointers.
- `Bus_module::reconstruct_address` and `Memory_map::find_target_info`, which are unfinished, and reading the YAML memory map.
- The masked address after an attempt to decode the reserved address, which the original leaves unset and no caller uses.
- The pulse event of the timer, its `set_triggered`, elapsed-time query and text form.
- The effects of timer register writes, status updates and all register reads but the current count.
- `wait`, `wait_n_get` and the lookup of the calling module in the interrupt channel.
- The frequency setter; the clock constructor without sample and set edges, which never sets the edge offsets; and the remaining clock setters.
- 64-bit overflow of simulation times, except that subtraction below zero wraps.
- File system errors, tokens of more than 4 GiB, and memory exhaustion when loading hex files.
- Interrupt controller, GPIO, UART registers, CPU, MMU, DMA, cache and other peripherals: mostly stubs or thin register files.
