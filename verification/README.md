# GServer in Dafny

GServer is a coroutine server runtime: a block-chained byte buffer, a scheduler that runs coroutines on worker
threads, timers and epoll events that wake them, hooked system calls built on both, an HTTP parser, internet addresses
and a log formatter. This project models the parts whose correctness is not visible from any one function and proves
what they keep over every call, every run and every interleaving. Where the code does not keep what it promises, the
exact condition under which it does is proved, and the failure is shown at a concrete input.

Check everything with `dafny verify dfyconfig.toml` (Dafny 4.11).

## The modules

| file | models |
|---|---|
| `FlatBuffer.dfy`, `FlatRuns.dfy` | the byte sequence with a cursor that callers of `ByteArray` see; when a run of writes survives; what callers observe of any run |
| `ByteArray.dfy` | `ByteArray` itself: a linked chain of blocks on the heap, proved to refine the flat sequence |
| `Codec.dfy`, `TypedValues.dfy`, `TypedAccess.dfy`, `WireFormats.dfy` | byte order, varints, zigzag, prefixed strings; lists of typed values written and read back; the reading and writing loops; the encodings bit by bit |
| `Timer.dfy` | `Timer` and `TimerManager`: an ordered set keyed by a mutable field, expiry, wake-up flag, and the sleep of `idle` |
| `EventLog.dfy`, `IoManager.dfy` | event registration: bit masks, slots, pending count and epoll table, and the log of registrations and wake-ups |
| `HookedIo.dfy`, `HookedTimeouts.dfy`, `HookedCallbacks.dfy`, `HookedLate.dfy`, `HookedStages.dfy`, `HookedVerdicts.dfy`, `HookedEvents.dfy` | the retry and timeout protocol of `do_io` as a state machine over all interleavings; when a timeout is lost, and what a call reports; what callbacks can still do for a waiting call and after a call has returned; its runs as runs of the event slots |
| `TaskQueue.dfy`, `Workers.dfy`, `WorkerQueues.dfy`, `WorkerLeaks.dfy` | the scheduler's list, and any number of workers running coroutines from it; waiting in the workers' own runs; what the count and the ledger are off by without discipline |
| `HttpHeader.dfy`, `HttpGrammar.dfy`, `HttpDumps.dfy`, `HttpSplit.dfy`, `HttpPieces.dfy`, `HttpBody.dfy` | the header states of the request automaton against `dump`, and against a reading line by line; what `dump` prints; headers cut into pieces; `recvRequest` |
| `Prefix.dfy`, `Address.dfy`, `AddressText.dfy`, `AddressForms.dfy` | prefix arithmetic on IPv4 and IPv6 addresses, and the text of an IPv6 address |
| `LogPattern.dfy`, `LogDirectives.dfy`, `LogPercent.dfy` | the pattern scanner of `LogFormatter::init` against a printer; what a directive takes; the doubled percent sign |
| `Prelude.dfy` | shared vocabulary |

## What came out

* A write that has to start where the memory ends follows a null pointer, and so does a read of nothing there. Whether
  a run of writes survives depends on the lengths alone: `FlatBuffers.WriteAllSurvives`.
* A list of typed values comes back unchanged unless it ends in an empty string exactly at the capacity:
  `TypedValues.RoundTrip`, `TypedValues.EmptyStringFails`.
* A recurring timer's deadline at least doubles at each expiry, because `m_next += now + ms` adds the clock:
  `Timers.RecurringRecedes`. A timer already due makes `idle` sleep its full three seconds, and one more than 2^31 ms away
  can make it sleep without limit: `Timers.SleepEndsInTime`. `refresh` keeps the no-lost-wake-up guarantee iff it does
  not move the timer before the deadline seen last: `Timers.TimerManager.Refresh`, `Timers.RefreshLosesWakeUp`.
* `triggerEvent` leaves the old callback in its slot; a coroutine registered there later is not woken, the callback runs
  again, and the registration after that fails an assertion with the bit, the count and the kernel's table already
  changed: `EventLogs.WakeUpMatches`, `EventLogs.AssertionsHold`, `EventLogs.LeftCallbackShadows`. Slots that coroutines
  alone use, as those of `do_io`, are safe: `HookedEvents.WakeUpsMatch`.
* The timeout callback of `do_io` locks its weak pointer, tests the mark and cancels in three steps. Overtaken between
  them it wakes a later call on the same descriptor, even for a call that had returned without a timeout:
  `HookedIo.FinishedCallCancelsLaterOne`, `HookedIo.ReturnedCallCancelsLaterOne`. After the return it can do so iff a
  callback of the call has set the mark and not cancelled yet, or holds the locked pointer while there is no mark, and
  only if one could at the return: `HookedLate.ReturnedHitsIff`, `HookedLate.LateOnlyIfHeldAtReturn`. Holding the
  pointer alone is not enough: `HookedLate.HeldWithoutEffect`.
* A waiting call has lost its timeout iff one of its own timers had already cancelled when it registered, as happens to
  one that expires between the creation of the timer and `addEvent`: `HookedTimeouts.LostIffCancelledTooSoon`,
  `HookedTimeouts.EarlyTimeoutIsLost`. Lost means that no steps of its timers schedule it, and not lost that some do:
  `HookedCallbacks.CanStillMeansWillWake`.
* A task whose coroutine has ended leaks the active count, and a coroutine scheduled twice gets there:
  `Workers.EndedTaskLeaksTheCount`, `Workers.LeakHappens`. Over every run the count is too high by the number of such
  tasks, and they are what the ledger misses: `WorkerLeaks.RunLoses`, `WorkerLeaks.RightIffNothingDropped`.
* A header that arrives in pieces goes through the same states, but reports the same fields iff it is cut between lines:
  `HttpSplits.SplitHeader`. So a `content-length` line cut inside its name announces no body, and the request comes back
  without one; with clean cuts the stream alone decides: `HttpSessions.CutLengthIsLost`, `HttpSessions.RecvRequest`.
* The automaton accepts exactly the headers that are lines with an empty one behind. Their names may hold any control
  character but NUL and HT, LF and CR among them: `HttpGrammar.AcceptsExactly`.
* Without a body, `dump` prints one CR LF too many: `HttpHeaders.DumpParses`.
* `recvRequest` fails for a body whose missing part has a length that looks negative as an `int`, and drops bytes that
  arrived behind the body: `HttpSessions.RecvRequest`, `HttpSessions.LongBodyIsRefused`.
* The IPv6 operations do not check the prefix; from 128 on they go past the sixteen bytes:
  `Addresses.IPv6Address.BroadcastAddress`. The IPv4 mask is undefined for prefixes 0 and 1 and above 32:
  `Addresses.IPv4Address.SubnetMaskAddress`.
* `%%` in a log pattern is meant as a percent sign (test/test_log.cpp:10), but passes over one of its two characters
  only. It is one iff it ends the pattern, or what follows is no letter, digit, closing brace or percent sign, or is an
  opening brace with no percent sign anywhere behind; `%%d` is a percent sign and a date, and a format behind it
  disappears: `LogPercents.DoubledPercent`, `LogPercents.FormatIsSwallowed`, `LogPercents.PercentBeforeLetter`.
* A literal at the end of a log pattern is lost: `LogPatterns.ScanOfPrinted`.

## Assumptions

* One step of a state machine, or one method of a class, is one critical section. The code does not always make it one:
  the scheduler takes tasks under `m_uni_mutex` and adds them under `m_mutex`, and `delEvent` and `cancelEvent`
  (src/iomanager.cpp:125, 160) lock a temporary that unlocks at once.
* A coroutine's yield and its worker's return are one step. In the code the state is HOLD before the switch, so another
  worker could take the coroutine in between, and the first worker then assigns HOLD once more.
* The clock, readiness reports, chunk sizes of the transport and refusals of `epoll_ctl` are inputs. In `idle`
  `epoll_ctl` succeeds.
* Callbacks given to timers and events are not null. Deadlines stay below 2^64, sizes and buffer lengths below 2^31.
* The byte order of the machine is a parameter, and floating-point and signed integers stand for their bit patterns;
  zigzag wraps in two's complement.
* Blocks hold unspecified bytes when they are new.

## Model

| member | source | states |
|---|---|---|
| `FlatBuffers.CeilDivCovers` | src/bytearray.cpp:456-457 | the number of blocks asked for holds the missing bytes, and one fewer would not |
| `FlatBuffers.BlockOfUnique` | src/bytearray.cpp:479-490 | a position lies in block position / base and in no other |
| `FlatBuffers.GrownFits` | src/bytearray.cpp:447-473 | growth makes the write fit, by whole blocks, with less than one block to spare |
| `FlatBuffers.StepKeepsValid` | src/bytearray.cpp:254-300 | write, read, setPosition and clear keep position <= size <= capacity and whole blocks |
| `FlatBuffers.WriteThenRead` | src/bytearray.cpp:267-300 | writing and reading back from the same place gives the bytes written |
| `FlatBuffers.WriteAllIsOneWrite` | src/bytearray.cpp:267-300 | a run of writes has the effect of one write of everything |
| `FlatBuffers.CursorAtEnd` | src/bytearray.cpp:267-300 | a write leaves the cursor at the end of the memory iff it ends on a block boundary at or past the old end |
| `FlatBuffers.WriteAllSurvives` | src/bytearray.cpp:267-300 | a run of writes never follows a null block iff no non-empty write starts on a boundary at or past the initial capacity |
| `FlatBuffers.SecondFullBlockFails` | src/bytearray.cpp:447-473 | two writes into a fresh buffer, the first of exactly one block: the second follows a null block |
| `FlatRuns.ClearForgets` | src/bytearray.cpp:254-265 | after a clear every run of operations shows what it shows on a fresh buffer of the same block size |
| `FlatRuns.ClearedIsEmpty` | src/bytearray.cpp:254-265 | a cleared buffer has nothing to read, and the first thing written is all it holds |
| `FlatRuns.ReadsFromAnywhere` | src/bytearray.cpp:384-411 | the cursor goes to every position up to the size, forward or back, and to no other; what is read there are the contents from there |
| `FlatRuns.WriteKeepsRest` | src/bytearray.cpp:267-300 | a write changes the bytes it covers, no other, and cuts nothing off |
| `ByteArrays.ByteArray.constructor` | src/bytearray.cpp:37-45 | a fresh buffer shows the empty sequence with one block of capacity, unless its block size is zero |
| `ByteArrays.ByteArray.CursorNull` | src/bytearray.cpp:286-288 | `m_cur` is null iff the position equals the capacity |
| `ByteArrays.ByteArray.CursorBlock` | src/bytearray.cpp:479-490 | otherwise it is block position / base |
| `ByteArrays.ByteArray.ViewValid` | src/bytearray.cpp:37-45 | a consistent chain shows a well-formed flat buffer |
| `ByteArrays.ByteArray.Clear` | src/bytearray.cpp:254-265 | the buffer shows the empty sequence with one block again |
| `ByteArrays.ByteArray.AddCapacity` | src/bytearray.cpp:447-473 | the chain grows to the flat capacity, contents and cursor stay; the walk starts at a block that exists |
| `ByteArrays.ByteArray.CopyOver` | src/bytearray.cpp:273-293 | the copying loop of write puts the bytes across block boundaries at the position |
| `ByteArrays.ByteArray.Write` | src/bytearray.cpp:267-300 | write refines the flat write, for non-empty data below the capacity and for empty data anywhere |
| `ByteArrays.ByteArray.Read` | src/bytearray.cpp:384-411 | read returns the slice at the position and moves on, or reports that too few bytes are left |
| `ByteArrays.ByteArray.SetPosition` | src/bytearray.cpp:475-491 | the cursor moves to any position within size and capacity and stands in that position's block |
| `ByteArrays.ByteArray.Windows` | src/bytearray.cpp:567-589 | the windows lie inside their blocks and together show the next n bytes of memory |
| `ByteArrays.ByteArray.GetReadBuffers` | src/bytearray.cpp:561-590 | the windows together are the unread bytes, at most as many as asked for |
| `ByteArrays.ByteArray.GetWriteBuffers` | src/bytearray.cpp:629-657 | there is room for all that was asked for, and the windows show the memory behind the position |
| `Codecs.Swap64Twice` | src/endian.hpp:45-63 | swapping the bytes twice restores the value |
| `Codecs.SwapIsOtherOrder64` | src/endian.hpp:89-110 | a swapped value in memory looks like the value on a machine of the other order |
| `Codecs.Zigzag32Inverse` | src/bytearray.cpp:118-140 | 32-bit zigzag decoding undoes encoding for every value |
| `Codecs.Zigzag64Inverse` | src/bytearray.cpp:126-140 | 64-bit zigzag decoding undoes encoding for every value |
| `TypedValues.PutIsWireOrder` | src/bytearray.cpp:76-116 | fixed-width integers stand in the buffer in the chosen order, whatever the machine's |
| `TypedValues.Var32Reads` | src/bytearray.cpp:306-318 | the shifting loop gathers exactly the 32-bit value whose groups lie ahead, from any intermediate state |
| `TypedValues.Var64Reads` | src/bytearray.cpp:324-336 | the same for 64 bits |
| `TypedValues.ReadsBack` | src/bytearray.cpp:208-382 | every value within its prefix range is read back from its bytes and the cursor stands behind them |
| `TypedValues.PrefixDecides` | src/bytearray.cpp:184-206 | a string comes back iff its length fits its prefix; otherwise it is cut |
| `TypedValues.ListReadsBack` | src/bytearray.cpp:208-382 | a list of values lying ahead is read back in order |
| `TypedValues.RoundTrip` | src/bytearray.cpp:69-382 | any list of values written and read back from the start is the same list and ends at the same position, iff it does not end in an empty string at the capacity |
| `TypedValues.EmptyStringFails` | src/bytearray.cpp:376-382 | an empty string written to a fresh buffer of one byte is not read back: the read follows a null block |
| `TypedAccess.EncodeVarint32` | src/bytearray.cpp:146-155 | the loop produces the base-128 groups, least first, at most five of them |
| `TypedAccess.EncodeVarint64` | src/bytearray.cpp:161-170 | the same for 64 bits, at most ten |
| `TypedAccess.ReadUint32` | src/bytearray.cpp:306-318 | the reading loop on the heap buffer does what the flat reader does |
| `TypedAccess.ReadUint64` | src/bytearray.cpp:324-336 | the same for 64 bits |
| `TypedAccess.WriteValue` | src/bytearray.cpp:69-206 | each typed write on the heap buffer is the flat write of its chunks |
| `TypedAccess.ReadOne` | src/bytearray.cpp:208-382 | each typed read on the heap buffer is the flat read |
| `WireFormats.Wire16` | src/bytearray.cpp:84-97 | most significant byte first in big-endian order, last in little-endian, whatever the machine's |
| `WireFormats.Wire32` | src/bytearray.cpp:99-107 | the same for four bytes |
| `WireFormats.Wire64` | src/bytearray.cpp:109-116 | the same for eight |
| `WireFormats.Varint32Delimited` | src/bytearray.cpp:146-155 | every byte of a varint but the last has its top bit set |
| `WireFormats.Varint64Delimited` | src/bytearray.cpp:161-170 | the same for 64 bits |
| `WireFormats.Varint32Groups` | src/bytearray.cpp:146-155 | byte k of a varint carries the k-th group of seven bits |
| `WireFormats.Varint64Groups` | src/bytearray.cpp:161-170 | the same for 64 bits |
| `WireFormats.ZigzagIs32` | src/bytearray.cpp:118-124 | zigzag puts the sign lowest and the other bits above it, inverted for a negative number |
| `WireFormats.ZigzagIs64` | src/bytearray.cpp:126-132 | the same for 64 bits |
| `WireFormats.StringWire` | src/bytearray.cpp:184-202 | the bytes of a string of 258 bytes with each kind of prefix, in both orders |
| `Timers.Timer.constructor` | src/timer.cpp:30-36 | the deadline is the clock plus the period |
| `Timers.SplitOrdered` | src/timer.cpp:162-163 | cutting the expired prefix off leaves two ordered lists without a common timer |
| `Timers.TimerManager.constructor` | src/timer.cpp:92-94 | a new manager holds no timer and owes no notification |
| `Timers.TimerManager.SetInsert` | src/timer.cpp:183 | the place of a new timer is the one deadline and address give it, and the set stays strictly ordered |
| `Timers.TimerManager.SetErase` | src/timer.cpp:45-46 | the search by the order finds an armed timer, and only it goes |
| `Timers.TimerManager.InsertAndNotify` | src/timer.cpp:182-193 | at most one notification between two looks at the front, and none is missing |
| `Timers.TimerManager.AddTimer` | src/timer.cpp:99-104 | a new timer is armed, perhaps at the address of a freed one; the set stays ordered, nobody's wake-up is lost, and there is a notification iff the newcomer is first and nobody has been notified |
| `Timers.TimerManager.Cancel` | src/timer.cpp:41-50 | succeeds iff the timer was armed, and takes exactly it out of the set |
| `Timers.TimerManager.Refresh` | src/timer.cpp:51-64 | the deadline restarts from now; no wake-up is lost iff the new deadline is not before the one seen last, or somebody has been notified |
| `Timers.TimerManager.Reset` | src/timer.cpp:66-90 | the period changes, from now or from the old start, which is never before zero, with a notification as for a new timer; nothing happens to a cancelled timer |
| `Timers.TimerManager.GetNextTimer` | src/timer.cpp:117-130 | the time to the earliest of all deadlines, 0 when it has passed |
| `Timers.TimerManager.DetectClockRoller` | src/timer.cpp:195-203 | reports a rollover iff the clock is more than an hour behind, or, in its first hour, behind at all, and remembers the time |
| `Timers.TimerManager.LowerBound` | src/timer.cpp:155-156 | the search for a fresh timer due now splits the set by deadline and address |
| `Timers.TimerManager.ExpiredEnd` | src/timer.cpp:156-160 | wherever among the timers due now the search lands, the prefix ends behind the last deadline <= now |
| `Timers.TimerManager.FireAll` | src/timer.cpp:166-174 | each expired timer is disarmed or armed again, in order, and the set stays ordered |
| `Timers.TimerManager.ListExpiredCb` | src/timer.cpp:132-175 | the callbacks of exactly the timers due, in order; of all after a rollover; those stay in the set iff they recur, with their deadlines moved on |
| `Timers.TimerManager.IdleRound` | src/iomanager.cpp:299-331 | the sleep lasts three seconds without a timer, with one already due, or with the first due later than that, and as long as to the first otherwise; the callbacks are those of the timers due after it, at least one if the first was due within three seconds |
| `Timers.Sleep` | src/iomanager.cpp:308-323 | any number of interruptions leaves the limit of the sleep as it was |
| `Timers.TimeoutIs` | src/iomanager.cpp:309-316 | the milliseconds passed to epoll_wait, as numbers, for every time to the first deadline |
| `Timers.TimerManager.SetBackIs` | src/timer.cpp:195-203 | a clock counts as set back by more than 3600000 milliseconds, or at all within the first 3600000 |
| `Timers.SleepEndsInTime` | src/iomanager.cpp:309-316 | the sleep ends by the first deadline iff that is ahead and its low 32 bits do not look negative; a deadline already reached is slept through |
| `Timers.RefreshLosesWakeUp` | src/timer.cpp:51-64 | a recurring timer that has fired and is refreshed: whoever sleeps until the deadline seen last misses it |
| `Timers.RecurringRecedes` | src/timer.cpp:168-170 | after n timely expiries a recurring timer's deadline is at least 2^n times the first; it is one period after its expiry iff it was 0 |
| `EventLogs.LegalExtends` | src/iomanager.cpp:63-115 | a run stays legal when an enabled action follows it |
| `EventLogs.Conservation` | src/iomanager.cpp:63-284 | on every slot, over every run, registrations = wake-ups + deletions + currently armed |
| `EventLogs.SlotTellsOutstanding` | src/iomanager.cpp:102-112 | the slot is armed iff a registration is outstanding, and holds its waiter |
| `EventLogs.WakeUpMatches` | src/iomanager.cpp:273-284 | a wake-up resumes the waiter of the outstanding registration iff that is not a coroutine behind a callback left in the slot |
| `EventLogs.AssertionsHold` | src/iomanager.cpp:103-104 | the two assertions about a slot hold iff nobody waits there and not both kinds of waiter have been there since the last deletion |
| `EventLogs.CoroutineSlotsMatch` | src/iomanager.cpp:106-112 | on slots used by coroutines alone every wake-up resumes the coroutine that waits |
| `EventLogs.LeftCallbackShadows` | src/iomanager.cpp:273-284 | a legal run in which a coroutine's event runs an old callback instead, and after which the slot fails the assertion of the next registration |
| `IoManagers.BitsUpdate` | src/iomanager.cpp:100-101 | the total of armed bits changes by the change of one mask |
| `IoManagers.ChosenOpLegal` | src/iomanager.cpp:87-93 | ADD for the first bit, DEL for the last and MOD between is legal but for the manager's own descriptors, and keeps the kernel's table in agreement |
| `IoManagers.WakesStep` | src/iomanager.cpp:375-382 | waking readers and then writers is two separate wake-ups of the log |
| `IoManagers.WakesSchedule` | src/iomanager.cpp:185-231 | a wake-up of some kinds schedules the waiter of each that is armed, the reader before the writer |
| `IoManagers.IOManager.constructor` | src/iomanager.cpp:17-46 | 32 empty contexts, nothing pending, nothing watched but the pipe and the eventfd |
| `IoManagers.IOManager.ContextResize` | src/iomanager.cpp:236-244 | growing adds empty contexts and changes no other |
| `IoManagers.IOManager.Apply` | src/iomanager.cpp:100-112 | mask, slot, pending count and log change together and stay in agreement |
| `IoManagers.IOManager.TriggerEvent` | src/iomanager.cpp:273-284 | the slot's waiter is scheduled once, its bit and the count go down |
| `IoManagers.IOManager.Register` | src/iomanager.cpp:79-114 | for a bit that is not set: bit, slot, count and epoll table, or -1 and nothing, or the third assertion fails, iff both kinds of waiter are left, after bit, count and table have changed |
| `IoManagers.IOManager.AddEvent` | src/iomanager.cpp:63-115 | the same for any descriptor; the table of contexts grows iff the descriptor is behind its end, to one and a half times the descriptor |
| `IoManagers.IOManager.DelEvent` | src/iomanager.cpp:117-149 | removes exactly the armed event without waking anybody, or does nothing; reads past the end iff the descriptor is the number of contexts |
| `IoManagers.IOManager.CancelEvent` | src/iomanager.cpp:151-183 | wakes exactly the waiter of the armed event, or does nothing; reads past the end as delEvent does |
| `IoManagers.IOManager.CancelAll` | src/iomanager.cpp:185-229 | wakes readers and then writers and leaves no bit, which the source asserts; reads past the end as delEvent does |
| `IoManagers.IOManager.Ready` | src/iomanager.cpp:341-382 | one report wakes exactly the armed waiters it names, and count, masks and epoll table stay in agreement; a null scheduler is followed iff it reaches a set bit and names another that is not |
| `HookedIo.StepKeepsInv` | src/hook.cpp:107-153 | every step of every party keeps the protocol invariant |
| `HookedIo.RunKeepsInv` | src/hook.cpp:107-153 | it holds in every reachable state |
| `HookedIo.SuspendedHasOneWakeUp` | src/hook.cpp:132-140 | a suspended call has its own coroutine armed and nothing pending, or exactly one pending wake-up |
| `HookedIo.ReturnedCallLeavesNothing` | src/hook.cpp:133-153 | a call that has returned has no live timer, and an armed slot or a wake-up of its coroutine belongs to a later call |
| `HookedIo.TimersHaveHistory` | src/hook.cpp:121-130 | every timer was created by the call it belongs to, and expired by its own expiry |
| `HookedIo.TimedOutMeansExpired` | src/hook.cpp:144-147 | ETIMEDOUT is reported only if a timer created by that call expired |
| `HookedVerdicts.VerdictIsTimeout` | src/hook.cpp:144-150 | after a wake-up a call reports ETIMEDOUT iff one of its callbacks has come to its test, and makes its system call again otherwise |
| `HookedVerdicts.MarkedIffTimeoutCame` | src/hook.cpp:123-128 | in every reachable state a call is marked iff one of its callbacks has come to its test |
| `HookedVerdicts.ResultTellsTheEnd` | src/hook.cpp:132-154 | a call has returned with the system call's result iff that step has come, with the failure of addEvent iff that has, and with ETIMEDOUT only after its timeout |
| `HookedVerdicts.TimeoutIsReported` | src/hook.cpp:121-147 | a waiting call whose timeout can still come is brought by its own timers' steps and its return to report it |
| `HookedVerdicts.CanReturn` | src/hook.cpp:105-154 | from every reachable state every call can be brought to its return |
| `HookedStages.TimersAreTold` | src/hook.cpp:122-130 | over every run: a callback has been handed out and waits to lock iff its timer has expired and it has not locked; one that marked its call has yet to cancel until it does |
| `HookedStages.HandedOutCallbacksRun` | src/timer.cpp:166-174 | a callback that has been handed out is not taken back by cancelling its timer |
| `HookedIo.CallbackEffect` | src/timer.cpp:106-111 | uninterrupted, a callback whose tinfo is gone or marked does nothing, any other cancels its slot |
| `HookedIo.CancelHitsAnother` | src/hook.cpp:123-128 | the cancellation reaches another call iff the slot is armed and its own call no longer waits on it; the other call is not marked |
| `HookedIo.FinishedCallCancelsLaterOne` | src/hook.cpp:123-128 | a run in which it does, for a call that reported ETIMEDOUT |
| `HookedIo.ReturnedCallCancelsLaterOne` | src/timer.cpp:106-111 | and one for a call that returned without a timeout after its callback had locked tinfo |
| `HookedTimeouts.TimeoutStillComing` | src/hook.cpp:121-132 | a waiting timed call can still time out iff it is not marked, or marked by a callback that has yet to cancel |
| `HookedTimeouts.CancelIsLastChance` | src/hook.cpp:122-132 | the cancellation is a call's last chance to time out: it wakes the call iff that is registered, and a call that has only set its timer is not woken |
| `HookedTimeouts.StepKeepsHistory` | src/hook.cpp:107-153 | every step keeps what the cancellations so far say about marks and registrations |
| `HookedTimeouts.LostIffCancelledTooSoon` | src/hook.cpp:121-140 | in every reachable state a registered, waiting, timed call will never time out iff one of its timers cancelled before it last registered |
| `HookedTimeouts.EarlyTimeoutIsLost` | src/hook.cpp:121-140 | a run in which the timer expires before addEvent and the call waits without a timeout |
| `HookedTimeouts.LostStaysLost` | src/hook.cpp:122-130 | no step of the call's timers wakes it after that |
| `HookedCallbacks.TimerWakes` | src/hook.cpp:122-130 | left to itself, a timer that can still time out its waiting call expires, marks it and schedules it |
| `HookedCallbacks.LostForGood` | src/hook.cpp:122-130 | however many steps its own timers take, a lost call is not scheduled |
| `HookedCallbacks.CanStillMeansWillWake` | src/hook.cpp:121-131 | a waiting timed call can still time out iff steps of its own timers alone can bring it to be scheduled |
| `HookedCallbacks.NeverWokenIffCancelledTooSoon` | src/hook.cpp:121-140 | in every reachable state they cannot iff one of them cancelled before the call last registered |
| `HookedLate.ReturnedHitsIff` | src/hook.cpp:122-130 | once a call has returned, some continuation lets one of its callbacks cancel what another call has registered iff one has set the mark and has yet to cancel, or holds `tinfo` while there is no mark |
| `HookedLate.LockSucceedsIff` | src/hook.cpp:123-124 | a callback gets `tinfo` iff its call has not returned or another callback holds it |
| `HookedLate.StepOfMayCancel` | src/hook.cpp:122-130 | no step, of whatever party, gives a returned call such a callback |
| `HookedLate.LateOnlyIfHeldAtReturn` | src/hook.cpp:123-129 | a callback that holds `tinfo` after the return takes one that locked it before and held it then; one that may still cancel takes one that could then |
| `HookedLate.HeldWithoutEffect` | src/hook.cpp:123-129 | a run in which a returned call's callback holds `tinfo` and can do nothing |
| `HookedEvents.RunProjects` | src/hook.cpp:132-140 | every run of the protocol is a legal run of the event slots with coroutines alone waiting, and both agree on what is armed |
| `HookedEvents.WakeUpsMatch` | src/hook.cpp:132-140 | every wake-up in do_io resumes the coroutine whose registration it ends |
| `HookedEvents.RegistrationsBalance` | src/hook.cpp:132-140 | on every slot the protocol's registrations = wake-ups + armed |
| `TaskQueues.TaskList.ScheduleNoLock` | src/scheduler.h:66-76 | a task goes to the end of the list, a null one nowhere; the flag says whether the list was empty |
| `TaskQueues.TaskList.ScheduleAll` | src/scheduler.h:48-64 | a batch is appended in order, unpinned |
| `TaskQueues.UnpinnedAre` | src/scheduler.h:48-64 | of a batch every task that is not null is appended, unpinned, in the order given |
| `TaskQueues.Pick` | src/scheduler.cpp:132-152 | the scan finds the first task that is eligible for the thread, if any |
| `TaskQueues.TaskList.Take` | src/scheduler.cpp:132-152 | that task alone leaves the list |
| `TaskQueues.FateTracks` | src/scheduler.cpp:132-152 | the bookkeeping of one task follows the list through any events |
| `TaskQueues.WaitingMovesForward` | src/scheduler.cpp:132-152 | a waiting task only moves forward, by every chance it is passed over for |
| `TaskQueues.TakenByItsThread` | src/scheduler.cpp:135-139 | a pinned task is taken by no other thread |
| `TaskQueues.BoundedWaiting` | src/scheduler.cpp:132-152 | a task at index k is taken after at most k + 1 scans that could have taken it, by its thread if it is pinned, whatever is added meanwhile |
| `TaskQueues.CoroutineWaiting` | src/scheduler.cpp:132-152 | for a coroutine they are the scans, by any worker or by its thread, during which it runs nowhere |
| `TaskQueues.CallbackWaiting` | src/scheduler.cpp:132-152 | for a callback those are all scans, or all of its thread |
| `Workers.CountUpdate` | src/scheduler.cpp:148-213 | what one worker's change does to every count |
| `Workers.DequeueKeepsInv` | src/scheduler.cpp:132-152 | a dequeue keeps ledger, order and count |
| `Workers.SwapInKeepsInv` | src/coroutine.cpp:120-132 | so does entering a coroutine |
| `Workers.ReturnConserves` | src/scheduler.cpp:161-203 | so does coming back, for the ledger and the count, disciplined or not |
| `Workers.ReturnKeepsInv` | src/scheduler.cpp:161-203 | and for the order of the coroutines under the discipline of one schedule per suspension |
| `Workers.ScheduleKeepsInv` | src/scheduler.h:36-47 | so does scheduling |
| `Workers.IdleKeepsInv` | src/scheduler.cpp:212-220 | so do entry to and return from the idle coroutine |
| `Workers.StepKeepsInv` | src/scheduler.cpp:122-222 | every disciplined step keeps all three |
| `Workers.RunKeepsInv` | src/scheduler.cpp:122-222 | in every reachable state: each piece of work is queued, in hand, being run or returned, and the active count is the number of busy workers |
| `WorkerQueues.StepMovesList` | src/scheduler.cpp:122-222 | every step of the workers moves the list as one event of the task list, or not at all |
| `WorkerQueues.RunMovesList` | src/scheduler.cpp:122-222 | and so does every run |
| `WorkerQueues.RunsAreOnward` | src/scheduler.cpp:122-222 | the runs of the workers, with discipline and without, are such runs |
| `WorkerQueues.WaitingInRuns` | src/scheduler.cpp:132-152 | in a workers' run a waiting task is where the list's bookkeeping says, and has moved forward with every scan that could have taken it |
| `WorkerQueues.TakenInHand` | src/scheduler.cpp:132-152 | a task at index k is taken in hand by a worker, by its thread if it is pinned, within k + 1 scans that could have taken it |
| `WorkerQueues.ReadyIffQueued` | src/scheduler.cpp:161-203 | a coroutine that gives control back goes to the end of the list iff it is left READY, and is left as it gave control back |
| `WorkerQueues.ReadyIsPending` | src/scheduler.cpp:161-203 | in disciplined runs a READY coroutine has exactly one task waiting or in hand |
| `WorkerQueues.FreeWorkerTakes` | src/scheduler.cpp:132-152 | a free worker takes the first eligible task, and idles iff there is none |
| `WorkerQueues.ExecutingIsInside` | src/scheduler.cpp:141-145 | the coroutines the scan passes over are those a worker is inside |
| `WorkerQueues.WorkersGoOn` | src/scheduler.cpp:122-222 | in every reachable state every worker can take a step that keeps the run disciplined |
| `Workers.HeldCanRun` | src/coroutine.cpp:125 | the assertion of swapIn holds: the coroutine in hand is not running, and has not ended |
| `Workers.NeverOnTwoWorkers` | src/scheduler.cpp:141-145 | no coroutine is ever in two workers |
| `Workers.EndedTaskLeaksTheCount` | src/scheduler.cpp:155-214 | a task taken in hand keeps count and ledger iff its coroutine has not ended |
| `Workers.LeakHappens` | src/scheduler.cpp:155-214 | a run with a coroutine scheduled twice, after which the count is wrong |
| `WorkerLeaks.StepLoses` | src/scheduler.cpp:122-222 | a step of any run moves count and ledger off by exactly the task it drops |
| `WorkerLeaks.RunLoses` | src/scheduler.cpp:122-222 | after every run, disciplined or not: active count = busy workers + tasks dropped, and work scheduled = queued + in hand + being run + returned + dropped |
| `WorkerLeaks.RightIffNothingDropped` | src/scheduler.cpp:155-214 | the count is right iff no task of an ended coroutine has been taken in hand, and so is the ledger |
| `HttpHeaders.HttpParser.constructor` | src/http/http11_parser.cpp:67-87 | the parser as it stands behind the request line |
| `HttpHeaders.HttpParser.Transition` | src/http/http11_parser.cpp:370-628 | one transition of the table with its action |
| `HttpHeaders.HttpParser.Run` | src/http/http11_parser.cpp:6650-6671 | the loop is the scan, and the closing assertions hold |
| `HttpHeaders.ScanLine` | src/http/http11_parser.cpp:370-554 | a printed line at the scan position is reported as its field |
| `HttpHeaders.ScanLines` | src/http/http11_parser.cpp:370-554 | and so is a list of lines, in order |
| `HttpHeaders.ScanBlankLine` | src/http/http11_parser.cpp:554-628 | the blank line ends the header and the body starts behind it |
| `HttpHeaders.DumpParses` | src/http/http.cpp:143-155 | parsing what dump prints gives the printed fields in order and stops behind the blank line, in front of the body, or of one CR LF too many |
| `HttpDumps.DumpReports` | src/http/http.cpp:143-155 | a parse of the dump reports every header not named connection and no other; then one of that name, which says close or keep-alive; then, with a body, its length |
| `HttpDumps.KeptAre` | src/http/http.cpp:143-148 | the headers printed are those not named connection; without such a one, all of them, unchanged |
| `HttpDumps.KeptInOrder` | src/http/http.cpp:143-148 | in the order given |
| `HttpDumps.SameNameIs` | src/http/http.cpp:144 | two names are the same iff they agree letter by letter, whatever the case |
| `HttpDumps.DumpTailIs` | src/http/http.cpp:149-155 | the text behind the headers, character by character |
| `HttpDumps.DecimalReads` | src/http/http.cpp:152 | the digits of the length read back as the number |
| `HttpGrammar.AcceptsExactly` | src/http/http11_parser.cpp:370-628 | the header states accept exactly the lines with an empty one behind, report their fields in order and stop right behind; they fail on exactly the headers with a malformed line |
| `HttpGrammar.TokensAre` | src/http/http11_parser.cpp:370-554 | the token characters are the printable ones of a name |
| `HttpSplits.UnfinishedConsumesAll` | src/http/http11_parser.cpp:6650-6670 | a call that neither fails nor finishes has consumed its buffer |
| `HttpSplits.SplitStates` | src/http/http11_parser.cpp:91-115 | two calls go through the same states as one, for every cut |
| `HttpSplits.SplitHeader` | src/http/http11_parser.cpp:94-97 | they report the same fields iff the cut falls between lines or inside a line end, or nothing more is reported |
| `HttpSplits.CleanPiecesAreOne` | src/http/http_session.cpp:26-66 | a header in any number of cleanly cut pieces is parsed as if in one |
| `HttpPieces.WholeLinesAreClean` | src/http/http_session.cpp:26-66 | a header is cleanly cut if every piece in front of the last holds whole lines |
| `HttpPieces.WholeLinesArrive` | src/http/http_session.cpp:26-66 | a header that arrives in pieces of whole lines is complete and reports every line, however they are grouped |
| `HttpSplits.CutNameIsLost` | src/http/http11_parser.cpp:94-97 | a line cut inside its name loses the first part of the name, for every name and value |
| `HttpSessions.ReadFixSize` | src/stream.cpp:4-16 | the next bytes arrive in order however the reads cut them; the result is the length as an int |
| `HttpSessions.WriteFixSize` | src/stream.cpp:30-42 | the peer gets the bytes in order, or as many as it takes |
| `HttpSessions.FeedAppend` | src/http/http_session.cpp:26-66 | one more piece continues what the pieces before have reported |
| `HttpSessions.NextPiece` | src/http/http_session.cpp:46-64 | after any piece the header goes on with nothing left over, or has failed or ended where the whole stream says |
| `HttpSessions.ParseAndShift` | src/http/http_parser.cpp:161-165 | the parse, and what is left moved to the front |
| `HttpSessions.ParsePiece` | src/http/http_session.cpp:46-64 | one call of the parser on the next bytes ends the header, breaks it, or leaves it going on with nothing left over |
| `HttpSessions.ReadHeader` | src/http/http_session.cpp:24-66 | succeeds iff the stream holds a complete header, with exactly the bytes behind it left |
| `HttpSessions.ReadBody` | src/http/http_session.cpp:68-90 | the body is the first bytes of what was left and what follows |
| `HttpSessions.CleanDelivery` | src/http/http_session.cpp:26-66 | a cleanly cut header reports the fields of the stream |
| `HttpSessions.Complete` | src/http/http_session.cpp:68-92 | behind a header: succeeds iff the body arrives and its missing length is positive as an int; the body is the bytes behind the header |
| `HttpSessions.RecvRequest` | src/http/http_session.cpp:14-92 | fails without a complete header; with one, the length is looked up in the fields reported for these cuts, the body is the bytes behind the header, and for lengths below 2^31 success means that they are all there; cleanly cut, the fields are those of the stream, so that the stream alone decides |
| `HttpSessions.CutHeaderIsLost` | src/http/http_session.cpp:46-66 | a header cut inside a name ends at the same byte as in one piece, and reports the line without the first part of its name |
| `HttpSessions.CutLengthIsLost` | src/http/http_session.cpp:46-69 | a `content-length` line cut anywhere inside its name announces no body, for every body and every lookup that answers 0 where there is no such field |
| `HttpSessions.LongBodyIsRefused` | src/http/http_session.cpp:82-88 | a body of 2^31 bytes behind an empty header, all of it there, is refused |
| `Prefixes.PrefixRounds` | src/address.cpp:435-451 | network = address rounded down to a multiple of 2^(bits - p), broadcast = the last of that block |
| `Prefixes.SameSubnet` | src/address.cpp:435-451 | two addresses have the same network, and the same broadcast, iff they agree on the prefix |
| `Prefixes.SubnetEnds` | src/address.cpp:435-451 | taking network or broadcast again changes nothing |
| `Prefixes.MaskSelects` | src/address.cpp:452-462 | mask AND address = network, for every address |
| `Prefixes.MaskIsHighest` | src/address.cpp:452-462 | the mask is 2^bits - 2^(bits - p) |
| `Prefixes.MaskRounds` | src/address.cpp:20-23 | CreateMask<uint8_t> cuts one byte at a multiple of 2^(8 - bits) |
| `Prefixes.CountBytes8` | src/address.cpp:25-32 | the loop counts the bits that are set |
| `Prefixes.CountBytes32` | src/address.cpp:25-32 | the same on 32 bits |
| `Prefixes.MaskCounts` | src/address.cpp:147-150 | the bits of a mask of p bits sum to p |
| `Addresses.Mask32Bytes` | src/address.cpp:20-23 | CreateMask<uint32_t>, byte by byte |
| `Addresses.SwappedInMemory` | src/endian.hpp:101-104 | the swapped word stands in network order on either machine |
| `Addresses.Ipv4Operations` | src/address.cpp:329-357 | the IPv4 word operations are the prefix operations on the four bytes in memory, for 2 to 32 bits |
| `Addresses.Ipv4MaskCounts` | src/address.cpp:139-140 | counting the bits of an IPv4 mask word gives its prefix length back, on either machine |
| `Addresses.IPv4Address.BroadcastAddress` | src/address.cpp:329-338 | a new address with the host bits set; none iff the prefix is above 32, undefined iff it is below 2 |
| `Addresses.IPv4Address.NetworkAddress` | src/address.cpp:340-349 | a new address with the host bits cleared; none iff the prefix is above 32, undefined iff it is below 2 |
| `Addresses.IPv4Address.SubnetMaskAddress` | src/address.cpp:351-357 | the mask of p bits, with port zero; undefined iff p is below 2 or above 32 |
| `Addresses.IPv6Address.BroadcastAddress` | src/address.cpp:435-442 | the loop sets every bit behind the prefix in a copy; an access behind the sixteen bytes iff the prefix is 128 or more |
| `Addresses.IPv6Address.NetworkAddress` | src/address.cpp:444-451 | the loop clears every bit behind the prefix in a copy, with the same exception |
| `Addresses.IPv6Address.SubnetMaskAddress` | src/address.cpp:452-462 | the loops fill in p ones and then zeros, with the same exception |
| `Addresses.PrefixLength` | src/address.cpp:143-151 | the prefix length read off a mask is the one it was made with |
| `AddressTexts.HexBack` | src/address.cpp:411 | what `std::hex` prints reads back as the number |
| `AddressTexts.WordIsGroup` | src/address.cpp:401-411 | a word of the machine is zero iff its group is, and swapped it is the group |
| `AddressTexts.WrittenAppend` | src/address.cpp:400-412 | one round of the loop writes what the text of one more group needs |
| `AddressTexts.Insert` | src/address.cpp:395-415 | the loop prints the groups with the first maximal run of zeros as `::` |
| `AddressTexts.TextExpands` | src/address.cpp:395-415 | a `::` occurs iff a group is zero, once, and the text expands to the eight groups by section 2.2 (form 2) of RFC 4291 |
| `AddressTexts.TextInjective` | src/address.cpp:395-415 | different addresses have different texts |
| `AddressForms.HexIsLower` | src/address.cpp:411 | a group is written in lower-case digits, at most four, without a zero in front |
| `AddressForms.ElidesFirstRun` | src/address.cpp:395-415 | `::` stands for the first run of zero groups, for all of it and for nothing else |
| `AddressForms.JoinTwo` | src/address.cpp:407-409 | groups side by side have one colon between them |
| `AddressForms.ShortTexts` | src/address.cpp:395-415 | the unspecified and the loopback address |
| `AddressForms.TwoRuns` | src/address.cpp:395-415 | of two runs of zeros the first is left out, even if the second is longer |
| `LogPatterns.ScanDirective` | src/log.cpp:307-355 | symbol, format and end of one directive, with every index within the pattern or its terminating NUL |
| `LogPatterns.Scan` | src/log.cpp:284-356 | the scan terminates on every pattern and collects the items of the reference parse |
| `LogPatterns.ScanOfPrinted` | src/log.cpp:284-356 | a printed list of items is scanned back, all of it iff it does not end in a literal |
| `LogDirectives.SymbolLetters` | src/log.cpp:315-320 | a symbol is made of letters, digits and closing braces |
| `LogDirectives.BareDirectiveIs` | src/log.cpp:315-320 | a directive without a format, behind any literal and in front of anything |
| `LogDirectives.ClosedDirectiveIs` | src/log.cpp:321-333 | a directive with a format; an empty one leaves no trace |
| `LogDirectives.UnclosedFormatIsDropped` | src/log.cpp:314-355 | a format that is not closed is dropped with the rest of the pattern |
| `LogDirectives.DefaultStartIs` | src/log.cpp:528 | how the pattern that a logger is made with begins, item by item |
| `LogPercents.PercentRun` | src/log.cpp:290-296 | of a run of n percent signs n - 1 go into the literal, and the last begins a directive |
| `LogPercents.NothingSwallowed` | src/log.cpp:317-351 | that directive is empty and passes over nothing iff what follows is nothing, or begins with a character that ends a symbol and opens no format |
| `LogPercents.DoubledPercent` | src/log.cpp:290-296 | `%%` is the percent sign test/test_log.cpp:10 promises iff it ends the pattern, or no letter, digit, closing brace or percent sign follows, or an opening brace follows with no percent sign anywhere behind; a letter, digit or closing brace begins a directive instead |
| `LogPercents.FormatIsSwallowed` | src/log.cpp:317-351 | a format behind `%%` disappears |
| `LogPercents.FormatAddsItems` | src/log.cpp:284-356 | a format with a percent sign in it, read as plain pattern text in front of anything, always changes what is collected |
| `LogPercents.BraceSwallows` | src/log.cpp:317-351 | what a brace behind `%%` opens is passed over without loss iff there is no percent sign anywhere behind |
| `LogPercents.PercentBeforeLetter` | src/log.cpp:290-296 | `%%d` is a percent sign and a date, `%%%%` three percent signs |

## Left out

- epoll, eventfd, ucontext switching, pthread locks, sockets and files: represented by the epoll table and by inputs only.
- `read(buf, size, position) const`, `toString`, `toHexString`, `writeToFile`, `readFromFile`, `getReadBuffers` with a position: the const read copies from the wrong block across a boundary, the rest is built on it or on files.
- `SocketStream::read(ByteArray)`: it moves the position past the size, which throws.
- Two's complement and floating point inside the codecs: values stand for their bit patterns.
- FlatBuffers.CeilDivCovers: integer ceiling, without the `double` rounding and the narrowing to int of src/bytearray.cpp:456.
- ByteArrays.ByteArray.AddCapacity: the same, so that block counts from 2^31 on are not modelled.
- ByteArrays.ByteArray.Write: requires a position below the capacity for non-empty data, which the code needs and does not check; `FlatBuffers.WriteAllSurvives` says when a run meets it.
- ByteArrays.ByteArray.GetWriteBuffers: requires the same of its position.
- ByteArrays.ByteArray.Read: excludes a read of nothing at the capacity, which follows the null block in the code.
- Timers.TimerManager.AddTimer: deadlines do not wrap around at 2^64; callbacks are not null.
- Timers.TimerManager.SetInsert: stands for std::set with a linear search; the comparison of null pointers is not modelled.
- Timers.TimerManager.IdleRound: the test of `stopping` in front of the sleep, and the readiness reports behind it, are not part of it.
- IoManagers.IOManager.AddEvent: two threads growing the contexts at once are not modelled, nor is what a failed assertion leaves behind for others.
- IoManagers.IOManager.Ready: says nothing about the state once a null scheduler has been followed; reports of the pipe and the eventfd are handled apart in the source.
- Timers.TimerManager.InsertAndNotify: a notification is the call of `onTimerInsertedAtFront`; the `tickle` behind it (src/iomanager.cpp:286-290) writes the value 0 to the eventfd, which does not make it readable, so that no sleeper wakes up.
- IoManagers.IOManager.constructor: the pipe and the eventfd are in the table as readable; what their reports do is not modelled.
- HookedIo.StepKeepsInv: the registration of an event while another coroutine waits on the same slot is excluded, as the source asserts; the branches of do_io that call straight through have no protocol.
- Workers.StepKeepsInv: is for runs in which a coroutine is scheduled once per suspension and not after it has ended; the shutdown, when a finished idle coroutine ends its worker, is not modelled.
- WorkerLeaks.StepLoses: undisciplined runs go on where the assertion of swapIn, that the coroutine is not running already, would stop them.
- TaskQueues.BoundedWaiting: counts the scans that could have taken the task; a coroutine still running elsewhere is passed over.
- A task scheduled again loses its pin, as in the source. Each callback runs in a new coroutine, as in the source, where the pointer to the old one is always reset.
- HttpHeaders.HttpParser.constructor: starts in the state behind the request line, where the source starts in front of it.
- HttpHeaders.HttpParser.Run: starts in the header states; the states of the request line, of URIs and the client parser are generated tables with little more to say.
- HttpHeaders.DumpParses: says which headers are printed through `Kept`; `HttpDumps.DumpReports` says it plainly. Headers are the sequence in which the map is walked, since the map's order is not an order; an empty name, which the field callback drops, cannot be printed here.
- HttpSessions.RecvRequest: the lookup of the Content-Length in the header map is any function of the fields reported; the first line is taken as read, and the transport as returning a positive number of bytes or 0 at the end.
- HttpSessions.ReadFixSize: an error return of -1, which becomes a huge unsigned length, is not modelled.
- HttpSessions.WriteFixSize: the same.
- Addresses.Ipv4Operations: excludes prefixes 0 and 1, whose shift leaves the range of int.
- AddressTexts.Insert: is the text between the brackets; the port behind them is printed in hexadecimal as well.
- LogPatterns.Scan: patterns shorter than 2^31; the table from symbols to formatters and the error flag for unknown symbols.
- `FdManager`, `ServletDispatch`, `Config`, the appenders, `TcpServer`, `Thread`, `Singleton`: they would add easy members only.
