# Timer stores, wire responders and lazy initialisation of the wreath benchmarks

The benchmark suite of wreath carries several small systems whose results are only meaningful if they
are right: five Python timer stores that are raced against each other, two in-process upstreams that
answer PostgreSQL and HTTP, the lazily built dependencies those upstreams hang off, a descriptor parser
and a process-tree walk. This project models them in Dafny and proves what they promise.

* **Timer stores.** `TimerSpec` is the reference: a clock with a set of pending timers. Each design has a
  value model (`HeapModel`, `HashedWheelModel`, `HierWheelModel`, `FixedListModel`) and a class with the
  source's own in-place updates (`HeapStores`, `HashedWheels`, `HierWheels`, `FixedLists`, on the linked
  nodes of `Links`). Every class method is proved to do to its links what the value model does to its
  tables. `Agreement` proves the theorems over whole runs of schedule, cancel and advance on the value
  models, `FixedListRuns` those of a fixed list of any quantum, `Resolutions` those of the wheels with ticks
  of any length, `HierOrder`, `HierRuns` and `FixedListOrder` the order in which the last two designs return
  timers, and `Shootout` drives the four objects through any such run and carries the results to them.
* **Wire responders.** `Delimiters` and `Streams` are about searching a byte stream that arrives in
  pieces. `HttpResponders` is the keep-alive HTTP responder. `PgModel`, `PgFraming`, `PgSessions`,
  `PgEndings`, `PgHot`, `PgTraffic`, `PgReplies`, `PgAnswers`, `PgResponders` and `PgConnections` are the
  PostgreSQL responder: framing, flights, sessions over every chunking, which frames end one, the
  delimiter-counting arm, the traffic it is meant for, the answers counted as messages and then spelled out
  byte by byte, the protocol object itself, and that object over a whole connection. `Wire` has integers,
  UTF-8 and white space, `Unicode` what UTF-8 is, `Spelling` bytes written as text; `Options` is shared.
* **Lazy initialisation.** `LazyInit` is a step system of any number of tasks under one lock, interleaved
  at awaits, any of which may raise; the repository's four protocols are instances.
* **Parsing and walking.** `Records` and `Wmd1` are the WMD1 descriptor, `ProcessTree` the worklist.

Ten properties that one might expect are false of the code, and each is stated with its exact condition and
an input that breaks it:

* the hashed wheel keeps a delay exactly if and only if it is not a multiple of the slot count
  (`HashedWheelExact`, witness `LateByARotation`);
* the fixed list returns every timer when it is due, for all runs with delays from a given set, if and only
  if no two different delays of the set share a key (`FixedListExact`, witness `Missed`); for every set it is
  late by less than a quantum, a bound that `LateTimer` shows to be tight;
* a wheel with ticks of several time units keeps a delay, however it is advanced next, if and only if what the
  time and the delay lose to rounding is what the wheel adds (`KeptExactly`); a timer can come back two ticks
  less two time units early, but no earlier (`RoundedExactly`, witness `EarlyTimer`);
* the hierarchical wheel returns the sized wheel's sequences, in all runs with delays of 1 to `max` ticks, if and
  only if `max` is below 64 (`SameAsSizedExactly`, witness `TurnedRound`: a cascade turns timers of one deadline
  round);
* the heap's counter is the number of cancelled nodes in it throughout a run if and only if every cancel of a
  fired handle makes the heap compact (`CounterExact`, witness `CountedForNothing`);
* the general PostgreSQL parser says the same in every chunking if and only if no frame ends the session, or
  the frame that does comes before any Sync and any Flush after a Parse (`PgEndings.ChunkingIndependent`: an
  ending drops what the same call had gathered; witness `TerminateDrops`, the benchmark's own traffic with a
  Terminate behind it);
* a statement is described alike, as one with rows or without, when it is prepared and when it is answered, unless
  it is a select with white space in front that is not ASCII's (`RowsAgree`, witness `NoBreakSpace`);
* the HTTP responder answers each head of a stream in every chunking if and only if no head is longer than
  16385 bytes (`AnswersExactly`, witness `LongHead`);
* it stays open in every chunking if and only if, besides, the tail is at most 16384 bytes
  (`HttpResponders.ChunkingIndependent`, witness `EndlessHead`);
* the double-checked lock returns complete state if and only if nothing is assigned after the guard's stage
  (`CompleteExactly`, witness `DependenciesReturnEarly`).

## Model

| member | source | states |
|---|---|---|
| `Agreement.FourDesignsAgree` | benchmarks/bench_timer_shootout.py:77-356 | over every run with delays of 1 to `max` ticks, each operation on heap, sized wheel, hierarchical wheel and fixed list (quantum one tick) returns exactly the timers the handle-to-deadline clock returns, in the design's order |
| `Agreement.RunRefines` | benchmarks/bench_timer_shootout.py:77-356 | every run of any of the designs, the fixed list with any quantum, from any state that simulates a clock: each operation returns only timers due, each once and in the design's order; each advance leaves nothing pending that came due a quantum ago (for the exact designs, nothing due); and the run ends simulating what is left, with delays changed only by the wheels' rules |
| `Agreement.RunExact` | benchmarks/bench_timer_shootout.py:77-356 | every run of a design without slack, from any state that simulates a clock, returns exactly what the clock returns and ends simulating it |
| `Agreement.StepRefines` | benchmarks/bench_timer_shootout.py:77-356 | one operation of any design, the fixed list with any quantum: only timers due come back, each once, what an advance leaves is late by less than the design's slack, and the simulation is kept |
| `Agreement.SizedWheelOrder` | benchmarks/bench_timer_shootout.py:73-186 | in every run, with cancels mixed in, each advance of the sized wheel returns the heap's sequence with every block of equal deadlines reversed |
| `Agreement.HashedWheelLaw` | benchmarks/bench_timer_shootout.py:128-177 | every run of an n-slot wheel is a run of the clock in which a delay that is an exact multiple of n is one rotation longer |
| `Agreement.HashedWheelExact` | benchmarks/bench_timer_shootout.py:128-177 | a delay is kept exactly in every run using it if and only if it is not a multiple of n |
| `Agreement.LateByARotation` | benchmarks/bench_timer_shootout.py:128-177 | for every n and every multiple of it: nothing comes back when due, the timer comes back n ticks later |
| `Resolutions.WheelLaw` | benchmarks/bench_timer_shootout.py:128-283 | every run, from empty, of a hashed or hierarchical wheel with ticks of any number of time units is a run of the clock in time units, in the wheel's order, in which each timer is released at the start of the tick counted for it: the tick of the time it was scheduled, plus the delay's whole ticks, at least one, plus the rotation of exact multiples |
| `Resolutions.ReturnedAt` | benchmarks/bench_timer_shootout.py:128-283 | scheduled on an empty wheel at any time, a timer comes back from the next advance if and only if that reaches its release |
| `Resolutions.RoundedExactly` | benchmarks/bench_timer_shootout.py:128-134 | the release differs from the deadline asked for by exactly what time and delay lose to rounding, less what the wheel adds; so no timer is early by more than two ticks less two time units |
| `Resolutions.KeptExactly` | benchmarks/bench_timer_shootout.py:128-283 | scheduled at a given time, a delay is kept whenever the wheel is advanced next if and only if those two amounts are equal |
| `Resolutions.RoundedSame` | benchmarks/bench_timer_shootout.py:128-283 | a whole run is the clock's own, delay for delay, if and only if that holds at each of its schedules |
| `Resolutions.EarlyTimer` | benchmarks/bench_timer_shootout.py:128-283 | for every resolution of two time units or more: a timer returned as early as the bound allows |
| `Agreement.StoreConservation` | benchmarks/bench_timer_shootout.py:77-356 | after any run of any design, the fixed list with any quantum included, each handle is exactly one of pending, cancelled or fired, and no handle is returned twice, by one operation or by two |
| `Agreement.GarbageInvisible` | benchmarks/bench_timer_shootout.py:92-111 | two heaps with the same live timers return the same sequences in every run, whatever cancelled nodes they hold |
| `Agreement.CompactionInvisible` | benchmarks/bench_timer_shootout.py:92-99 | compacting never changes what any later run returns |
| `Agreement.HeapAccounting` | benchmarks/bench_timer_shootout.py:92-111 | over any run the counter covers the cancelled nodes in the heap, and all compactions together scanned fewer than two nodes for each effective cancel |
| `Agreement.CounterExact` | benchmarks/bench_timer_shootout.py:92-111 | from a heap that counts right, the counter equals the number of cancelled nodes in the heap after every operation of a run if and only if every cancel of a fired handle meets the compaction test of line 96 |
| `Agreement.CountedForNothing` | benchmarks/bench_timer_shootout.py:86-111 | schedule, advance to the deadline, cancel: for every delay the counter is one and the heap empty |
| `Agreement.AdvancesBatch` | benchmarks/bench_timer_shootout.py:101-356 | advance(a) then advance(b) returns and leaves what advance(b) alone would: the same sequence, for the fixed list the same multiset |
| `TimerSpec.Conservation` | benchmarks/bench_timer_shootout.py:77-356 | over every run that returns only due timers, however late, pending, cancelled and fired partition the handles and none is returned twice; for returns that are exact this is the reference clock |
| `TimerSpec.Ascending` | benchmarks/bench_timer_shootout.py:64-74 | a set of timers has a listing sorted by deadline, then schedule order |
| `TimerSpec.ReverseTiesLifo` | benchmarks/bench_timer_shootout.py:137-141 | reversing each block of equal deadlines turns heap order into newest-first order |
| `HierWheelModel.TickView` | benchmarks/bench_timer_shootout.py:254-283 | one tick returns precisely the timers whose deadline is that tick, wherever they were cascaded, and loses none; their order is `HierOrder.TickLined` |
| `HierWheelModel.AdvanceView` | benchmarks/bench_timer_shootout.py:254-283 | advancing returns exactly the timers due in between, in deadline order, for every deadline however far; the order within a deadline is `HierOrder.AdvanceLined` |
| `HierRuns.HierTieOrder` | benchmarks/bench_timer_shootout.py:206-283 | in every run each advance returns its timers by deadline, and those of one deadline the latest linked first: linked by their schedule or by the last cascade that moved them, and if one cascade moved two, in reverse of the order they had; when each is moved follows from its deadline and schedule time alone |
| `HierOrder.NearerOneWay` | benchmarks/bench_timer_shootout.py:216-225 | of two different handles exactly one comes first by that rule, so the order of every returned set is settled |
| `HierOrder.TickLined` | benchmarks/bench_timer_shootout.py:254-283 | one tick keeps every list in that order and fires in it |
| `HierOrder.AdvanceLined` | benchmarks/bench_timer_shootout.py:254-283 | so does an advance over any number of ticks |
| `HierOrder.CascadeLined` | benchmarks/bench_timer_shootout.py:260-273 | the bottom-up cascade keeps every list in that order, on every level |
| `HierOrder.ScheduledTogether` | benchmarks/bench_timer_shootout.py:206-283 | timers scheduled together for one deadline come back newest first if each was moved an even number of times, in schedule order if odd |
| `HierOrder.TiesUpTo4095` | benchmarks/bench_timer_shootout.py:206-283 | for delays below 4096 ticks the rule in closed form: two never moved, newest first; two moved once, in schedule order; one of each, the moved one first just when the other was scheduled before the tick that enters their block of 64 |
| `HierRuns.ShortDelaysAreSized` | benchmarks/bench_timer_shootout.py:178-283 | over every run with delays of 1 to 63 ticks the hierarchical wheel returns the sized wheel's own sequences, by deadline and newest first |
| `HierRuns.SameAsSizedExactly` | benchmarks/bench_timer_shootout.py:178-283 | all runs with delays of 1 to `max` give the same sequences if and only if `max` is below 64 |
| `HierRuns.TurnedRound` | benchmarks/bench_timer_shootout.py:206-283 | two timers of 64 ticks scheduled together come back in schedule order |
| `HierWheelModel.InsertView` | benchmarks/bench_timer_shootout.py:216-234 | scheduling keeps the placement invariant and adds that one timer |
| `HierWheelModel.RemoveView` | benchmarks/bench_timer_shootout.py:236-247 | cancelling keeps the invariant and removes that one timer |
| `HierWheelModel.DrainedSettled` | benchmarks/bench_timer_shootout.py:206-225 | an entry drained on its block's tick lands strictly lower, or stays on the top level only while 64^4 ticks or more remain, and never in a block already drained |
| `HierWheelModel.CascadeSettled` | benchmarks/bench_timer_shootout.py:260-273 | the bottom-up cascade of a tick leaves every entry in a block not yet entered |
| `HierWheelModel.CascadeBound` | benchmarks/bench_timer_shootout.py:260-273 | a timer is moved at most three times plus once for each 64^4 ticks of its delay |
| `HierWheelModel.AdvanceBatches` | benchmarks/bench_timer_shootout.py:254-283 | advancing in two goes is advancing in one |
| `HashedWheelModel.ScheduledFireTick` | benchmarks/bench_timer_shootout.py:128-142 | slot and rounds chosen by schedule make the visit that fires fall at the asked tick, or a rotation later for exact multiples |
| `HashedWheelModel.TickView` | benchmarks/bench_timer_shootout.py:155-177 | one tick fires exactly the timers whose rounds have run out in that slot and keeps every other firing tick |
| `HashedWheelModel.AdvanceView` | benchmarks/bench_timer_shootout.py:155-177 | advancing returns the timers due by then, sorted by tick and newest first within a tick |
| `HashedWheelModel.InsertView` | benchmarks/bench_timer_shootout.py:128-142 | scheduling keeps every slot newest-first and adds one timer |
| `HashedWheelModel.RemoveView` | benchmarks/bench_timer_shootout.py:144-153 | cancelling removes that timer and no other |
| `HashedWheelModel.AdvanceBatches` | benchmarks/bench_timer_shootout.py:155-177 | advancing in two goes is advancing in one |
| `FixedListModel.AdvanceView` | benchmarks/bench_timer_shootout.py:341-356 | nothing returned is early, nothing is lost, and whatever stays pending is late by less than a quantum; the order is `FixedListOrder.FifoAdvance` |
| `FixedListRuns.FixedListLaw` | benchmarks/bench_timer_shootout.py:299-356 | over every run of a fixed list with any quantum nothing is returned early or twice, what each advance leaves came due less than a quantum ago, and pending, cancelled and fired partition the handles |
| `FixedListRuns.FixedListExact` | benchmarks/bench_timer_shootout.py:299-356 | all runs with delays from a given set return exactly what the clock returns, if and only if no two different delays of the set share a key |
| `FixedListRuns.Missed` | benchmarks/bench_timer_shootout.py:307-356 | for every quantum and any two different delays with one key: schedule the longer, then the shorter, and the advance to the shorter one's deadline returns nothing |
| `FixedListModel.HeldBack` | benchmarks/bench_timer_shootout.py:307-356 | a longer delay scheduled first holds a shorter one of the same key back at every time before its own deadline |
| `FixedListModel.TidyAdvance` | benchmarks/bench_timer_shootout.py:341-356 | where no two delays share a key every bucket stays in deadline order, and an advance leaves nothing due |
| `FixedListModel.LateTimer` | benchmarks/bench_timer_shootout.py:307-356 | the bound on lateness is tight for every quantum of two ticks or more: a timer is still pending at the last tick the bound allows |
| `FixedListModel.RestInv` | benchmarks/bench_timer_shootout.py:341-356 | what an advance leaves of a bucket keeps its bounds although the bucket is not sorted |
| `FixedListModel.InsertView` | benchmarks/bench_timer_shootout.py:307-325 | scheduling keeps keys distinct and deadlines within a bucket less than a quantum out of order |
| `FixedListModel.RemoveView` | benchmarks/bench_timer_shootout.py:327-339 | cancelling removes that timer and no other |
| `FixedListModel.AdvanceBatches` | benchmarks/bench_timer_shootout.py:341-356 | advancing in two goes leaves the same store and returns the same multiset |
| `FixedListOrder.BucketOrder` | benchmarks/bench_timer_shootout.py:299-356 | in every run of any quantum each advance returns buckets in the order in which their keys were first scheduled, and the timers of a bucket in schedule order |
| `FixedListOrder.FifoAdvance` | benchmarks/bench_timer_shootout.py:341-356 | an advance keeps buckets and their timers in that order and returns the due fronts in it |
| `FixedListOrder.OneDelayIsHeap` | benchmarks/bench_timer_shootout.py:77-356 | with one delay throughout, a fixed list of any quantum returns the very sequences the heap returns, cancels mixed in |
| `HeapModel.AdvanceLive` | benchmarks/bench_timer_shootout.py:101-111 | advancing returns the live timers due, sorted, and the counter falls by exactly the cancelled nodes popped |
| `HeapModel.RemoveLive` | benchmarks/bench_timer_shootout.py:92-99 | an effective cancel leaves at most 100 nodes or at most twice the live ones, and the counter's error changes only by cancelling a fired handle |
| `HeapModel.InsertLive` | benchmarks/bench_timer_shootout.py:86-90 | scheduling adds one live timer and no garbage |
| `HeapModel.AdvanceBatches` | benchmarks/bench_timer_shootout.py:101-111 | advancing in two goes is advancing in one |
| `Links.LinkFront` | benchmarks/bench_timer_shootout.py:137-141 | pushing a node in place keeps prev and next a list, now with the node first |
| `Links.Unlink` | benchmarks/bench_timer_shootout.py:144-153 | unlinking in place yields the list without that node and changes no other list |
| `HashedWheels.HashedWheel.Schedule` | benchmarks/bench_timer_shootout.py:128-142 | the linked wheel holds the value model's slots with one more entry; the node is new and handles stay numbered |
| `HashedWheels.HashedWheel.Cancel` | benchmarks/bench_timer_shootout.py:144-153 | exactly this node leaves its list; cancelling a fired or cancelled handle changes nothing |
| `HashedWheels.HashedWheel.Advance` | benchmarks/bench_timer_shootout.py:155-177 | the nodes returned are those of the value model's advance, in order, and only they become cancelled |
| `HierWheels.BucketOf` | benchmarks/bench_timer_shootout.py:206-214 | the level search and slot arithmetic give the bucket of the deadline |
| `HierWheels.Cascade` | benchmarks/bench_timer_shootout.py:260-273 | the linked levels after the cascade hold the value model's cascade, prev and next still disjoint lists of exactly the pending nodes |
| `HierWheels.HierWheel.Schedule` | benchmarks/bench_timer_shootout.py:227-234 | the linked levels hold the value model's with one more entry |
| `HierWheels.HierWheel.Cancel` | benchmarks/bench_timer_shootout.py:236-247 | exactly this node leaves its list, on whichever level it is |
| `HierWheels.HierWheel.Advance` | benchmarks/bench_timer_shootout.py:254-283 | the nodes returned are those of the value model's advance, in order, and only they become cancelled |
| `FixedLists.FixedList.Schedule` | benchmarks/bench_timer_shootout.py:307-325 | the node is last in the bucket of its delay, made if missing |
| `FixedLists.FixedList.Cancel` | benchmarks/bench_timer_shootout.py:327-339 | exactly this node leaves its bucket, head and tail kept right |
| `FixedLists.FixedList.Advance` | benchmarks/bench_timer_shootout.py:341-356 | every bucket loses exactly its due leading nodes, which are returned |
| `HeapStores.HeapTimers.Schedule` | benchmarks/bench_timer_shootout.py:86-90 | one new node with the next sequence number |
| `HeapStores.HeapTimers.Cancel` | benchmarks/bench_timer_shootout.py:92-99 | marks the node once, counts it once, and compacts as the value model does |
| `HeapStores.HeapTimers.Advance` | benchmarks/bench_timer_shootout.py:101-111 | popping least nodes one by one returns the sorted live timers due and drops the cancelled ones |
| `Shootout.Compare` | benchmarks/bench_timer_shootout.py:408-415 | the four stores as linked objects, driven through any admissible run, each give out one new handle, unlike all others, for each schedule, and return from every operation exactly the very handles of the timers due then, each once |
| `Shootout.DriveHier` | benchmarks/bench_timer_shootout.py:194-283 | the linked hierarchical wheel of any resolution returns, operation by operation and in order, the handles of its value model's run in ticks; the handles are fresh, pairwise distinct and one for each schedule |
| `Shootout.DriveHashed` | benchmarks/bench_timer_shootout.py:119-186 | the same for the linked hashed wheel of any size and resolution |
| `Shootout.DriveFixed` | benchmarks/bench_timer_shootout.py:299-356 | the same for the linked fixed list with any quantum |
| `Shootout.DriveHeap` | benchmarks/bench_timer_shootout.py:77-111 | the same for the heap |
| `PgHot.HotRefinesGeneral` | benchmarks/e2e_upstream.py:71-186 | over every orderly stream the output is the same with the delimiter-counting arm and without, wherever either session's chunks split |
| `PgHot.CleanCounts` | benchmarks/e2e_upstream.py:73-88 | on every prefix of a clean stream, even one ending inside a frame, Sync delimiters and Sync frames are equally many |
| `PgHot.WarmRun` | benchmarks/e2e_upstream.py:150-186 | the general parser answers warm flights with the canned response, once for each Sync, and nothing else |
| `PgHot.CalmRun` | benchmarks/e2e_upstream.py:101-127 | what is left of an orderly stream is orderly for the state reached |
| `PgHot.CountedAll` | benchmarks/e2e_upstream.py:82-88 | counting chunk by chunk with the tail kept counts the whole stream's delimiters |
| `PgHot.PlainIsClean` | benchmarks/e2e_upstream.py:47-47 | frames of which only the Syncs hold an S byte, with such a tail, encode to a clean stream: delimiters stand nowhere but at its Syncs |
| `PgTraffic.TrafficIsOrderly` | benchmarks/e2e_upstream.py:47-186 | startup, frames that parse the hot statement up to a Sync or, as asyncpg prepares, a Flush, then any number of Bind, Execute and Sync flights naming it with no other S byte, and a tail with none: the stream is orderly, so the refinement covers it |
| `PgTraffic.HotAfterOne` | benchmarks/e2e_upstream.py:150-167 | after the first such warm flight the session is hot, and keeps just that statement |
| `PgTraffic.ArmTakesOver` | benchmarks/e2e_upstream.py:71-129 | fed that traffic up to its first warm flight, a new session is left hot with an empty buffer, so that the counting arm takes all that follows |
| `PgTraffic.TerminateDrops` | benchmarks/e2e_upstream.py:89-129 | that traffic with a Terminate behind it, any number of warm flights included: in one piece it hears the startup answer alone, and some chunking hears more |
| `PgTraffic.LeastTraffic` | benchmarks/e2e_upstream.py:89-129 | a startup packet and such traffic exist, with either ending of the parsing frames |
| `PgReplies.OneReadyPerSync` | benchmarks/e2e_upstream.py:111-186 | whatever the frames and the state, what is said reads back as whole frames with exactly one ReadyForQuery for each Sync |
| `PgReplies.SessionSpeaks` | benchmarks/e2e_upstream.py:71-129 | a whole orderly session, counting arm included and in any chunking, says whole frames with one ReadyForQuery for the startup and one for each Sync |
| `PgAnswers.ColdFlight` | benchmarks/e2e_upstream.py:150-186 | a flight that parses its statement, with any other frames that only wait, closed by a Sync: the statement is kept, and the messages are, byte for byte, ParseComplete, the declared number of int4 parameters, the row description or NoData, BindComplete, the description once more if a portal's was asked for, one column with the text 42 and "SELECT 1" or else "UPDATE 1", and ReadyForQuery |
| `PgAnswers.WarmFlight` | benchmarks/e2e_upstream.py:150-186 | a flight that binds a statement parsed before: the same from BindComplete on, with 42 in binary; the hot statement alone switches the counting arm on |
| `PgAnswers.PreparingFlight` | benchmarks/e2e_upstream.py:131-148 | a flight that parses its statement, closed by a Flush: the preparation's messages only, byte for byte, with one parameter for the hot statement and the declared number for any other |
| `PgAnswers.HotPrepared` | benchmarks/e2e_upstream.py:131-148 | preparing the hot statement, whatever count is declared, is answered with one int4 parameter and one int4 column |
| `PgAnswers.HotAnswer` | benchmarks/e2e_upstream.py:49-54 | the canned answer of the counting arm, byte for byte |
| `PgAnswers.StartupAnswer` | benchmarks/e2e_upstream.py:40-45 | the answer to a startup packet, byte for byte |
| `PgAnswers.CancelExactly` | benchmarks/e2e_upstream.py:92-100 | a first packet is a cancel request if and only if it starts with length 16 and code 80877102; it alone is told nothing, and closes the connection |
| `PgAnswers.RowsAgree` | benchmarks/e2e_upstream.py:146-165 | preparation and answer agree on whether a statement returns rows unless it is a select behind white space that is not ASCII's |
| `PgAnswers.NoBreakSpace` | benchmarks/e2e_upstream.py:146-165 | behind a no-break space any select is prepared without rows and answered with one |
| `PgAnswers.SelectsSpelled` | benchmarks/e2e_upstream.py:146-165 | a statement returns rows if and only if its first six letters are `select`, each in either case |
| `PgAnswers.StripBytesIs` | benchmarks/e2e_upstream.py:147-147 | stripping bytes drops the ASCII white space in front, all of it and nothing else |
| `PgAnswers.SpaceIs` | benchmarks/e2e_upstream.py:165-165 | stripping text drops a character if and only if it is white space in Unicode, and drops it whole |
| `PgSessions.GeneralSession` | benchmarks/e2e_upstream.py:89-129 | a stream that does not end its session leaves the same state and the same total output in every chunking |
| `PgSessions.QuietSession` | benchmarks/e2e_upstream.py:111-129 | a stream that ends its session before anything was said is heard alike in every chunking |
| `PgSessions.HeardOtherwise` | benchmarks/e2e_upstream.py:111-129 | any other ending stream has a chunking that hears what the stream in one piece hears and, after it, all that was said before the end |
| `PgEndings.ChunkingIndependent` | benchmarks/e2e_upstream.py:89-129 | every chunking hears what the stream in one piece hears if and only if no frame ends the session, or no Sync and no Flush after a Parse comes before the frame that does |
| `PgEndings.RunEndless` | benchmarks/e2e_upstream.py:111-162 | the parser goes on to the end if and only if no frame is a Terminate, and none asks for an answer when the flight's first Parse is unreadable or, without a Parse, its first Bind is missing or names a statement never parsed |
| `PgEndings.SpokenSilent` | benchmarks/e2e_upstream.py:115-127 | nothing is said before the end if and only if no Sync, and no Flush after a Parse, comes before it |
| `PgEndings.StepDesk` | benchmarks/e2e_upstream.py:111-162 | whether one frame ends the session, and whether it is answered, is told by the names parsed so far and the frames since the last answer |
| `PgFraming.FramesInvertEncode` | benchmarks/e2e_upstream.py:26-110 | the framing loop recovers exactly the frames that were encoded |
| `PgFraming.FramesAppend` | benchmarks/e2e_upstream.py:102-110 | a cut anywhere with the remainder carried over finds the same frames and remainder |
| `PgFraming.CutBefore` | benchmarks/e2e_upstream.py:102-110 | there is a cut with the first k frames whole and the next not, also past frames that declare too short a length |
| `PgResponders.PgResponder.DataReceived` | benchmarks/e2e_upstream.py:71-129 | the protocol object moves and writes as the session model does, the counting arm included |
| `PgResponders.PgResponder.DrainBuffer` | benchmarks/e2e_upstream.py:101-129 | the loop consumes all complete frames, terminates, and drops its output when the session ends |
| `PgResponders.PgResponder.Handle` | benchmarks/e2e_upstream.py:111-127 | one frame: Terminate, prepare on Flush, respond on Sync, or append |
| `PgResponders.PgResponder.Prepare` | benchmarks/e2e_upstream.py:131-148 | the statement is stored and described as `PgAnswers.PreparingFlight` spells out; undecodable SQL or a missing count fails |
| `PgResponders.PgResponder.Respond` | benchmarks/e2e_upstream.py:150-186 | cold and warm flights are answered as `PgAnswers.ColdFlight` and `PgAnswers.WarmFlight` spell out, the hot statement noticed; a missing Bind or unknown name fails |
| `PgResponders.PgResponder.CountSyncs` | benchmarks/e2e_upstream.py:82-88 | count and rfind consume through the last delimiter and keep exactly the scan's remainder |
| `PgConnections.Converse` | benchmarks/e2e_upstream.py:57-129 | the protocol object driven through any chunks ends in the session model's state and has written its output; on an orderly stream that is what the general parser says to the stream in one piece, in whole frames with one ReadyForQuery for the startup and one for each Sync |
| `Delimiters.ScanAppend` | benchmarks/e2e_upstream.py:225-240 | counting and remainder of a leftmost scan do not depend on where a stream is cut |
| `Delimiters.LastDelimiter` | benchmarks/e2e_upstream.py:82-86 | for a delimiter that cannot overlap itself, what follows the rightmost occurrence is what the left-to-right scan leaves |
| `Wire.Partition` | benchmarks/e2e_upstream.py:133-134 | the pieces around the first zero byte rebuild the input |
| `Unicode.DecodesExactly` | benchmarks/e2e_upstream.py:135-135 | a byte string decodes if and only if it is characters one after the other in UTF-8, surrogates excluded |
| `HttpResponders.ChunkingIndependent` | benchmarks/e2e_upstream.py:225-240 | no chunking closes the connection if and only if every head is at most 16385 bytes with its terminator and the tail at most 16384; then every chunking keeps the tail as well |
| `HttpResponders.AnswersExactly` | benchmarks/e2e_upstream.py:225-240 | every chunking gets one answer for each head of the stream if and only if every head is at most 16385 bytes with its terminator, however long the tail |
| `HttpResponders.Limits` | benchmarks/e2e_upstream.py:229-231 | the terminator is two line ends and the limit 16384 bytes |
| `HttpResponders.LongHead` | benchmarks/e2e_upstream.py:225-240 | any head over 16385 bytes with its terminator, sent as one letter repeated: answered in one piece, not answered when cut after 16385 bytes |
| `HttpResponders.EndlessHead` | benchmarks/e2e_upstream.py:230-233 | over 16384 bytes without a terminator hold no head and close the connection |
| `HttpResponders.OpenSession` | benchmarks/e2e_upstream.py:225-240 | any session still open has answered exactly the heads of its stream |
| `HttpResponders.HeadsSplit` | benchmarks/e2e_upstream.py:229-235 | heads and tail rebuild the stream, and the terminators counted are the heads |
| `HttpResponders.HttpResponder.DataReceived` | benchmarks/e2e_upstream.py:225-240 | the loop answers every complete head, keeps the rest, and closes on an overlong rest |
| `HttpResponders.Serve` | benchmarks/e2e_upstream.py:218-240 | the protocol object driven through any chunks: one answer for each head when no head is too long, and still open with the tail kept when the tail is not either |
| `LazyInit.SafePublication` | benchmarks/e2e_peer.py:8-42 | in every interleaving of any number of tasks, with failures, one task builds at a time, the guard is assigned at most once, and every return sees all fields assigned no later than the guard |
| `LazyInit.CompleteExactly` | benchmarks/e2e_stack.py:79-131 | every return sees the complete state in every run if and only if no field is first assigned after the guard's stage |
| `LazyInit.EarlyReturn` | benchmarks/e2e_stack.py:79-131 | for any design with stages after the guard's, a run in which a second task returns while the first still builds |
| `LazyInit.LostForGood` | benchmarks/e2e_stack.py:79-131 | a task raising right after publishing the guard leaves the later fields unset in every continuation |
| `LazyInit.Settled` | benchmarks/e2e_stack.py:80-86 | once the guard is set and nobody builds, no run changes a field again |
| `LazyInit.BuilderReturns` | benchmarks/e2e_peer.py:8-42 | from any reachable world, whatever the other tasks do, a builder that does not raise has after each of its awaits done one stage more, and with the last one returned the complete state |
| `LazyInit.AcquireServes` | benchmarks/e2e_stack.py:80-86 | a task that finds the lock free returns what is there, or is the builder |
| `LazyInit.NobodyStuck` | benchmarks/e2e_stack.py:79-131 | after every run, failures included, every task that has not failed can still be brought to return: the lock is never stuck |
| `LazyInit.LoneReturns` | benchmarks/e2e_peer.py:8-42 | for every design one task alone returns the complete state, with the lock free and the guard assigned once |
| `LazyInit.PeerAndPoolAreSafe` | benchmarks/lifecycle_apps.py:99-107 | the pool, and the end-to-end peer with its single update, are complete for whoever returns, and a task alone does return with them |
| `LazyInit.DependenciesReturnEarly` | benchmarks/holistic_fastapi.py:92-118 | `_Dependencies` guarantees the database side only; some run returns with no HTTP client, which the handler at line 349 refuses |
| `Wmd1.ParseExactly` | benchmarks/bench_migration_resolution.py:222-240 | a descriptor is accepted with given rows if and only if it is the canonical print of those rows and they fit; so no truncated slice is ever accepted |
| `Wmd1.ParsePrinted` | benchmarks/bench_migration_resolution.py:222-240 | whatever rows fit come back from their descriptor |
| `Wmd1.OneRow` | benchmarks/bench_migration_resolution.py:222-240 | the bytes of a descriptor with one row of short fields, spelled out: magic, version, count, lengths, kind, texts |
| `Wmd1.CatalogRows` | benchmarks/bench_migration_resolution.py:222-240 | the nested loops compute the specified parse, every error path included |
| `Wmd1.ReadRow` | benchmarks/bench_migration_resolution.py:230-237 | one row: header and four slices, or nothing when the header does not fit or a field does not decode |
| `Records.AllSound` | benchmarks/bench_migration_resolution.py:229-239 | records that end inside the string were read whole |
| `Records.AllRead` | benchmarks/bench_migration_resolution.py:229-239 | records read up to the very end of the string print as the part they were read from |
| `Records.AllComplete` | benchmarks/bench_migration_resolution.py:229-239 | records that fit are all read back where they stand |
| `ProcessTree.ProcessTreePids` | benchmarks/bench_holistic_stack_instructions.py:421-436 | terminates and returns exactly the pids reachable from the root, strictly increasing, for shared, cyclic and unreadable entries |
| `ProcessTree.WalkDone` | benchmarks/bench_holistic_stack_instructions.py:424-435 | when nothing is pending, found is exactly what the root reaches |

## Left out

- Floating-point time: times, delays and the resolution are whole numbers of a time unit; of `int(delay / res)` the truncation and the rule that no ticks become one are kept. Negative delays are not modelled.
- heapq: taken at its contract, a set of nodes from which the least is popped; the heap array is not modelled.
- The hierarchical wheel's four slot arrays are one array of 256 heads, and a node's `head_list` and slot are one index; the fixed list's dictionary is a pair of parallel sequences in insertion order.
- The test for a cancelled node while a wheel list is walked: a linked node is never cancelled there, which is part of what is proved, so the branch is not written.
- HeapStores.HeapTimers.Advance: the least node is chosen as such, and what a comparison costs is not modelled.
- PgHot.HotRefinesGeneral: is stated for streams whose traffic after the hot statement is warm and clean; Parse, Terminate, portal descriptions and stray Sync bytes after that point are excluded, as the source's comment on the arm intends.
- PgResponders.PgResponder.DataReceived: `count` and `rfind` are taken as functions on bytes; the transport is the bytes written and whether it was closed, and an exception is the session failing.
- `connection_lost`, the servers that host the protocols, and the canned HTTP body: no behaviour to prove.
- SQL text is held as the UTF-8 bytes it came from; lower-casing is modelled for the letters of `select`, which no other character lower-cases to.
- Lazy initialisation is modelled between awaits; what the awaited calls do, and `close`, are not.
- ProcessTree.ProcessTreePids: reads one snapshot of the child lists; procfs changing under the walk is not modelled.
- The native C stores, router, pool and codecs, timing loops, statistics, argument parsing and report output: only call sites or plumbing are in these files.
- The framework comparison applications: thin wrappers over libraries.
