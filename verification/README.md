# StallGov (`memutil`): a verified model

StallGov is a cpufreq governor for Linux. Its scheduler hook reads three performance
counters, turns them into a frequency, hands the frequency to the driver (through an
interrupt and a kernel thread where the driver cannot switch fast), and writes a log entry
into a per-CPU ring. A debugfs file drains the rings as text. The events to count are
configured by strings that a tokenizer cuts in place.

The project models that logic and proves what it guarantees over all inputs, all runs and
all interleavings.

| file | content |
|---|---|
| `Basics.dfy`, `CInt.dfy` | shared helpers; C integer widths and truncating division |
| `Heuristics.dfy` | both fixed-point heuristics, in C widths and unbounded |
| `Governor.dfy` | one policy over a run of hook calls: counters, choice, rate limit, log |
| `DeferredSwitch.dfy` | the hand-over protocol as atomic steps of hook, interrupt, worker, start and stop |
| `MemutilPolicy.dfy` | `struct memutil_policy` as a class, its methods proved against the two files above |
| `LogFormat.dfy`, `Logfile.dfy`, `RingBuffer.dfy`, `Debugfs.dfy` | the text format, and the classes of the logging path |
| `HookHistory.dfy` | a run of the hook call by call: which calls update, what they request and log |
| `SafeSwitching.dfy` | governor and protocol together: what reaches the driver |
| `LogPipeline.dfy`, `LogNoLoss.dfy`, `GovernedLog.dfy` | runs of the logging path, when it is complete, and the end-to-end result |
| `EventConfig.dfy`, `EventTokenizer.dfy` | bit-field packing; the in-place tokenizer and its grammar |
| `PerfEvents.dfy`, `ResourceLedger.dfy` | perf event arrays; who owns rings and events while cpus start and stop |

Where the source changes fields or arrays in place, the model is a class or a method over
arrays, proved against a specification function; the theorems are lemmas about those
functions. A section under a lock is one atomic step. Memory allocation is a parameter that
says whether it succeeds, `kstrtoull` is an arbitrary function parameter, a counter read is
an arbitrary value or an error, and time is a parameter of each call. Ghost fields and ghost
histories record what was written, requested and given to the driver.

## What the proofs say about the code

* A stop can lose the newest request (`DeferredSwitch.StopMayLoseARequest`). It does so
  exactly when the work item is still queued as `memutil_stop` cancels it, and the worker has
  neither taken nor applied that request with an earlier item
  (`DeferredSwitch.StopLosesIff`); a cancelled item alone is not a loss
  (`DeferredSwitch.CancelledYetApplied`). A cancelled item leaves the in-progress flag set,
  which the next start repairs.
* The arithmetic is exact for counter differences up to 9 * 10^14. As long as the first
  product, `count * 100`, fits 64 bits, the exact condition is on the second one,
  `(percent - min) * 100`: the factor is right if and only if that fits too, or what wrapping
  makes of it happens to lie on the same side of the band
  (`Heuristics.FactorExactIffHarmless`). While the second product lies between 2^63 and 2^64
  the opposite end of the frequency range is picked (`Heuristics.OverflowInvertsTheChoice`);
  with one cycle and the default band this starts at 922,337,203,685,478 stalls
  (`Heuristics.OverflowExample`), and at 1,900,000,000,000,000 stalls the choice is right again
  (`Heuristics.HarmlessOverflowExample`). The result is within the policy's limits all the
  same, for counters of any size.
* The ring's wraparound flag is missed exactly when `insert_offset + count` reaches 2^32
  (`RingBuffer.FlagMissedIffWrapped`). The governor writes single entries and cannot get there.
* The drain warns about a loss whenever the flag is set. The warning is false exactly when
  the ring was filled and no further (`RingBuffer.WarningIsFalseIff`).
* The tokenizer steps over the character behind a delimiter without looking at it. It stays
  within the string if and only if each delimiter it recognises is followed by a character,
  up to the comma behind the eighth pair (`EventTokenizer.EveryOutcome`); `a=` is a string on
  which it does not.
* The comment on `user_read_log` says that rings and log are cleared after a complete read.
  The code clears the log when the next read starts at position 0, and each ring when it is
  drained; the model follows the code.
* `frequency_factor` is rounded down by the IPC heuristic and up by the stalls heuristic, so
  the first errs only towards the lower frequency and the second almost only towards the higher.

## Model

| member | source | states |
|---|---|---|
| DeferredSwitch.NoUpdateLost | src/memutil_main.c:275-319 | in every reachable interleaving, once no hook, interrupt or worker is under way, the last driver call is for the newest request since the start |
| DeferredSwitch.FlagIsOneToken | src/memutil_main.c:278-283 | `freq_update_in_progress` is set exactly while one token (interrupt pending or running, work queued, worker before its locked section) exists, or after a stop cancelled it; there are never two, and no queue call is ever dropped |
| DeferredSwitch.CoalescingKeepsOrder | src/memutil_main.c:514-519 | driver calls are requests in non-decreasing order of request, never more calls than requests, and none from before the last start |
| DeferredSwitch.FinalRequestIsApplied | src/memutil_main.c:496-533 | once requests stop, any maximal run of protocol steps has at most 12 steps and ends with the last request applied |
| DeferredSwitch.InternalRunsAreShort | src/memutil_main.c:275-284 | every run of protocol steps is bounded by a measure that each step lowers |
| DeferredSwitch.StuckIsQuiescent | src/memutil_main.c:496-533 | if no protocol step is possible, nothing is pending: the protocol cannot deadlock half-way |
| DeferredSwitch.StopDrains | src/memutil_main.c:931-942 | after a stop nothing is pending; the flag is stale exactly when a queued work item was cancelled, and otherwise the newest request was applied |
| DeferredSwitch.StopLosesIff | src/memutil_main.c:937-942 | a stop loses the newest request if and only if its cancellation finds the work item queued and the worker has neither taken nor applied that request |
| DeferredSwitch.CancelLosesIff | src/memutil_main.c:940-940 | the same from any state that satisfies the invariant, whatever steps follow the cancellation |
| DeferredSwitch.CancelledYetApplied | src/memutil_main.c:514-517 | a run in which an item is cancelled and the newest request is applied all the same |
| DeferredSwitch.NoDriverCallAfterStop | src/memutil_main.c:924-942 | after a stop there is no driver call until a successful start |
| DeferredSwitch.StartRestoresTokens | src/memutil_main.c:876-880 | a start, also a failing one, makes flag and tokens agree again |
| DeferredSwitch.StopMayLoseARequest | src/memutil_main.c:938-941 | a concrete run in which stop cancels the only request: no driver call, stale flag |
| DeferredSwitch.ReachableInv | src/memutil_main.c:275-319 | the invariant "flag set, or hook mid-call, or worker holds the newest request, or newest applied", with token and order bookkeeping, holds in every reachable state |
| Heuristics.StallsAccuracy | src/memutil_main.c:365-381 | the stalls frequency differs from exact clamped interpolation by more than -1 and at most D * (1/R + 1/100), in spite of three truncating divisions |
| Heuristics.IpcAccuracy | src/memutil_main.c:336-352 | the IPC frequency is never above the exact one and below it by less than 1 + D * (1/R + 1/100) |
| Heuristics.PositionAccuracy | src/memutil_main.c:375-379 | the clamped position in the band is rounded down by less than 1 + 100/R |
| Heuristics.FrequencyMonotone | src/memutil_main.c:336-381 | stalls never raise and cycles never lower the stalls frequency; for IPC the reverse |
| Heuristics.FrequencyScaleInvariant | src/memutil_main.c:336-381 | multiplying both counts by k > 0 changes nothing |
| Heuristics.HeuristicsMirror | src/memutil_main.c:350-380 | with equal band and counts the two results add up to max + min or one less, the former exactly when the last division leaves no remainder |
| Heuristics.EndsOfTheBand | src/memutil_main.c:375-380 | a ratio at or below the lower percentage (compared without dividing) gives the stalls heuristic's maximum and IPC's minimum, one at or above the upper percentage the reverse |
| Heuristics.MiddleExample | src/memutil_main.c:365-381 | 50 stalls in 100 cycles give 1,696,000 kHz, 30 instructions 2,624,000 kHz, with the default bands between 800,000 and 4,000,000 kHz |
| Heuristics.NoOverflowInPosition | src/memutil_main.c:375-379 | for counts up to 9 * 10^14 in magnitude both divisions can be performed and no s64 intermediate wraps |
| Heuristics.FrequencyInRange | src/memutil_main.c:379-380 | whatever the counters, the last step does not overflow and the result lies between min and max |
| Heuristics.FrequencyInExact | src/memutil_main.c:365-381 | within that bound the C function in its own widths equals the unbounded formula |
| Heuristics.PercentExactIff | src/memutil_main.c:375-375 | for all counters whose division can be performed, the percentage is right if and only if the first product fits 64 bits |
| Heuristics.FactorExactIff | src/memutil_main.c:375-379 | for all such counters, and max above min, the factor is right if and only if the wrapped offset lies in the hundredth of the band that the unbounded position names |
| Heuristics.FactorExactIffHarmless | src/memutil_main.c:379-379 | if the first product fits, the factor is right if and only if the second one fits, or wraps to the same side of the band |
| Heuristics.FrequencyExactIffHarmless | src/memutil_main.c:365-381 | with limits 100 kHz apart that is also the exact condition for the frequency |
| Heuristics.OverflowInvertsTheChoice | src/memutil_main.c:379-379 | while the product on this line lies between 2^63 and 2^64, the heuristics return the opposite limit |
| Heuristics.OverflowExample | src/memutil_main.c:188-190 | with the default band, one cycle and 922,337,203,685,478 stalls the highest frequency is returned, not the lowest |
| Heuristics.BelowTheExample | src/memutil_main.c:188-190 | every lower number of stalls gives the right factor |
| Heuristics.HarmlessOverflowExample | src/memutil_main.c:379-379 | with 1,900,000,000,000,000 stalls the product wraps and the factor is right |
| CInt.TruncDivLaw | src/memutil_main.c:346-351 | the division used throughout is C's: the remainder is smaller than the divisor and has the dividend's sign |
| SafeSwitching.DriverStaysInLimits | src/memutil_main.c:302-325 | in every interleaving, through any number of stops and starts (each resetting the time and the delay), every frequency the driver is called for was chosen by a hook call, in the order of the calls, and lies in [min, max] |
| MemutilPolicy.RequestIsHandedOver | src/memutil_main.c:302-319 | from any state of the protocol's invariant, the deferred hand-over records the request, leaves the flag set, and queues an interrupt exactly if nothing was under way |
| MemutilPolicy.RequestIsApplied | src/memutil_main.c:302-319 | if no other request follows, every schedule ends within 12 steps with the driver called last for this frequency |
| MemutilPolicy.StepKeepsWithinLimits | src/memutil_main.c:496-533 | every step of the protocol keeps everything requested, taken or given to the driver within the limits if requests are |
| HookHistory.DueCallsUpdate | src/memutil_main.c:703-740 | over runs with times below 2^63: a call updates if and only if it is local and at least the delay after the last accepted call (or the update before the run), in plain integers |
| HookHistory.DueCallIsAccepted | src/memutil_main.c:715-717 | so no due call is refused: its time is among the accepted ones |
| HookHistory.ShouldUpdateIff | src/memutil_main.c:703-718 | the same for one call and a given last update |
| HookHistory.DueCallRequests | src/memutil_main.c:412-450 | a due call requests the maximum if any counter is missing or fails, the last request again without cycles, and otherwise the heuristic of events 2 and 1 (stalls, cycles) or 0 and 1 (instructions, cycles) |
| HookHistory.DueCallReads | src/memutil_main.c:412-422 | it reads its events in order up to the first that is missing or fails |
| HookHistory.DueCallLogs | src/memutil_main.c:452-452 | it logs one entry if all counters can be read: its time, the growth of events 0, 1, 2 in this order since their last good readings modulo 2^64, the frequency it requested, the cpu; no other call logs anything |
| HookHistory.LoggedValuesTelescope | src/memutil_main.c:206-230 | if no read fails, the logged values of each event add up, modulo 2^64, to the last value read minus the baseline |
| Governor.FrequencyStaysInLimits | src/memutil_main.c:390-453 | every frequency requested or logged in any run lies in [min, max], through read errors, missing events, samples without cycles and wrapped counters |
| Governor.BoundedRunsAreSafe | src/memutil_main.c:390-453 | if the counter differences stay within the bound, the run cannot trap and stays within the limits |
| Governor.BoundedCallIsExact | src/memutil_main.c:424-448 | such a call requests the frequency of the unbounded formula |
| Governor.ChosenReactsToCounters | src/memutil_main.c:425-447 | in the C widths: more stalls (event 2) in fewer cycles (event 1) never raise the frequency and more instructions (event 0) in fewer cycles never lower it |
| Governor.DeltasTelescope | src/memutil_main.c:243-265 | over any mix of good and failed reads, the sum of an event's deltas modulo 2^64 is its last value read minus the baseline |
| Governor.AcceptedAreSpaced | src/memutil_main.c:703-718 | with times below 2^63 accepted updates are at least the delay apart |
| Governor.LogIsSpaced | src/memutil_main.c:452-452 | so are the entries a hook logs, and all carry the policy's cpu |
| MemutilPolicy.MemutilPolicy.constructor | src/memutil_main.c:462-478 | a new policy is zeroed with the maximum as last request, which is the protocol's initial state |
| MemutilPolicy.MemutilPolicy.DeferredSetFrequency | src/memutil_main.c:275-284 | the locked section is the protocol's hook step: one interrupt queued unless one is under way |
| MemutilPolicy.MemutilPolicy.IrqWork | src/memutil_main.c:527-533 | the interrupt handler is the protocol step that queues the work |
| MemutilPolicy.MemutilPolicy.WorkSnapshot | src/memutil_main.c:514-517 | the worker's locked section takes the newest request and clears the flag |
| MemutilPolicy.MemutilPolicy.DriverTarget | src/memutil_main.c:519-519 | the driver call outside the lock is the protocol's driver step, for the frequency taken, and within the limits |
| MemutilPolicy.MemutilPolicy.SetFrequencyTo | src/memutil_main.c:302-325 | frequency and time are recorded in every case; a shared policy is an error, a fast switch goes straight to the driver, anything else is one request and one locked section of the protocol, after which the flag is set and an interrupt pending if one was or the flag was clear |
| MemutilPolicy.MemutilPolicy.ReadPerfEvent | src/memutil_main.c:243-265 | the difference modulo 2^64 to the last value, which is replaced; an error changes nothing and yields 0 |
| MemutilPolicy.MemutilPolicy.ReadEvents | src/memutil_main.c:412-422 | events are read in order up to the first failure, and only those read have a new last value |
| MemutilPolicy.MemutilPolicy.NewFrequency | src/memutil_main.c:424-448 | after a complete read: the last request without cycles, otherwise the heuristic on signed counts |
| MemutilPolicy.MemutilPolicy.UpdateFrequency | src/memutil_main.c:390-453 | one governor step, one ring entry if all events were read, one request to the protocol or one fast switch |
| MemutilPolicy.MemutilPolicy.ShouldUpdateFrequency | src/memutil_main.c:703-718 | true exactly on the policy's cpu and when the signed time difference reaches the delay; below 2^63, when the plain difference does |
| MemutilPolicy.MemutilPolicy.UpdateFrequencyHook | src/memutil_main.c:727-740 | the hook makes one governor step with its log and its request, or changes nothing; everything requested, set or applied stays within the limits |
| MemutilPolicy.MemutilPolicy.ResetForStart | src/memutil_main.c:876-880 | start resets the time, the delay and the flag: the protocol's start step |
| MemutilPolicy.StartDelay | src/memutil_main.c:877-877 | the delay is the greater of 5 ms and the policy's transition delay |
| RingBuffer.RingBuffer.Write | src/memutil_ringbuffer_log.c:106-118 | for batches of any size, also larger than the ring, cells and offset represent everything written; the flag is right if and only if the u32 sum does not wrap or it was set before |
| RingBuffer.FlagMissedIffWrapped | src/memutil_ringbuffer_log.c:110-112 | the u32 comparison recognises a wraparound exactly when offset plus count stays below 2^32 |
| RingBuffer.RingRefinesList | src/memutil_ringbuffer_log.c:45-58 | the offset is the total written modulo the size, the flag says whether the total reached the size, and the cells in drain order are the last min(total, size) entries written, oldest first |
| RingBuffer.WarningIsFalseIff | src/memutil_ringbuffer_log.c:48-50 | a drain that finds the flag set has lost nothing if and only if exactly `size` entries were written |
| RingBuffer.NextIsModulo | src/memutil_ringbuffer_log.c:115-115 | the model's step to the next cell, used in the write and in the read loop, is `(offset + 1) % size` |
| RingBuffer.OffsetIsModulo | src/memutil_ringbuffer_log.c:115-115 | stepping the offset `total` times from 0 gives total modulo size |
| RingBuffer.RingBuffer.CopyAndClear | src/memutil_ringbuffer_log.c:127-149 | the copy holds all the ring held though only the used cells are copied, and the ring is empty |
| RingBuffer.RingBuffer.OutputElement | src/memutil_ringbuffer_log.c:26-38 | one formatted record is appended to the log |
| RingBuffer.RingBuffer.OutputData | src/memutil_ringbuffer_log.c:45-58 | the records of the newest `size` entries are appended to the log, oldest first |
| RingBuffer.RingBuffer.AppendToLogfile | src/memutil_ringbuffer_log.c:120-154 | a drain appends the newest `size` entries and empties the ring; if its allocation fails, ring and log are unchanged |
| RingBuffer.ConcatRecords | src/memutil_ringbuffer_log.c:31-37 | the records handed to the log, put together, are the untruncated text of the entries |
| LogFormat.LineFields | src/memutil_ringbuffer_log.c:31-36 | the fields in their order: cpu, timestamp, the three values, frequency |
| LogFormat.LineExample | src/memutil_ringbuffer_log.c:31-36 | one line, character by character |
| LogFormat.NoLeadingZero | src/memutil_ringbuffer_log.c:31-31 | a numeral starts with 0 only for 0 |
| LogFormat.LineLength | src/memutil_ringbuffer_log.c:28-36 | every combination of field values formats to at most 106 characters |
| LogFormat.RecordIsLine | src/memutil_ringbuffer_log.c:31-36 | so `scnprintf` into 130 bytes never truncates a line |
| LogFormat.ParseLineRoundTrip | src/memutil_ringbuffer_log.c:31-36 | parsing a formatted line gives the entry back |
| LogFormat.ParseLogRoundTrip | src/memutil_ringbuffer_log.c:31-36 | parsing a concatenation of lines gives all entries back, in order |
| LogFormat.PrefixMeansCpu | src/copy-log.sh:17-19 | a line starts with `<cpu>,` if and only if it is an entry of that cpu |
| LogFormat.GrepSelectsCpu | src/copy-log.sh:17-19 | filtering a log by that prefix gives exactly that cpu's lines, in order |
| Logfile.Logfile.Append | src/memutil_debugfs_logfile.c:181-194 | a record is appended whole, after emptying a log it does not fit, and refused (with the log emptied) if it can never fit |
| Logfile.Logfile.ReadFromBuffer | src/memutil_debugfs_logfile.c:110-111 | a read delivers the next piece, of exactly the size asked for or what is left if that is less, and moves on by its length |
| Logfile.LogIsSuffix | src/memutil_debugfs_logfile.c:181-194 | after any appends the log is the concatenation of a contiguous suffix of the records, within capacity, the newest record included |
| Logfile.LogIsCompleteIffItFits | src/memutil_debugfs_logfile.c:181-194 | it is all of them if and only if they fit together |
| Logfile.ChunksConcatenate | src/memutil_debugfs_logfile.c:95-112 | whatever sizes a reader asks for, the chunks up to the first empty one are the snapshot |
| Debugfs.DebugfsLog.UserReadLog | src/memutil_debugfs_logfile.c:95-112 | at position 0 the log becomes the output of every registered ring in turn and those with memory are emptied; elsewhere nothing changes; the chunk is the next piece of the log, of the size asked for or what is left |
| Debugfs.DebugfsLog.ReadToEnd | src/memutil_debugfs_logfile.c:95-112 | a complete read in pieces of any nonzero sizes delivers the output of every registered ring in turn |
| Debugfs.DebugfsLog.DrainRings | src/memutil_debugfs_logfile.c:103-106 | the drain loop, ring after ring, each with or without memory for its copy |
| Debugfs.GatheredInOrder | src/memutil_debugfs_logfile.c:104-106 | what the rings give is what the first rings give, then what the rest gives; of one ring it is all or, without memory, nothing (`GatheredOfOne`) |
| Debugfs.ReadHoldsSuffix | src/memutil_debugfs_logfile.c:103-106 | what a read holds is the text of a suffix of the drained rings' entries, in registration order and never part of a line; it is all of them if and only if that fits, and includes the newest if one line fits |
| Debugfs.DebugfsLog.RegisterRingbuffer | src/memutil_debugfs_logfile.c:170-179 | below 32 the ring becomes the last entry, the others keep their places and the result is 0; at 32 nothing changes and the result is -22 |
| Debugfs.DebugfsLog.LogfileExit | src/memutil_debugfs_logfile.c:160-168 | the registry is emptied and the logfile is gone |
| Debugfs.DebugfsLog.Init | src/memutil_debugfs.c:22-55 | the directory and an empty log of 2,000,000 bytes are there afterwards exactly if they were or all three parts could be created, and otherwise neither is left; a second call changes nothing |
| Debugfs.DebugfsLog.Exit | src/memutil_debugfs.c:57-63 | everything is gone, the registry too |
| Debugfs.LifecycleStaysConsistent | src/memutil_debugfs.c:22-63 | log and registry exist exactly while the directory does |
| LogPipeline.DeliveredAtMostOnceInOrder | src/memutil_debugfs_logfile.c:95-112 | for any rings, writes and sequential reads: the reader gets only entries that were written, each at most once, per ring in order |
| LogPipeline.DeliveredIsDrained | src/memutil_ringbuffer_log.c:120-154 | from any state on, while reads fit the log: what the reader gets of a ring is exactly what its drains took, drain by drain its newest min(size, pending) entries, overrun or not |
| LogPipeline.DeliveredExactlyOnceIff | src/memutil_ringbuffer_log.c:106-154 | while reads fit the log: every drained entry of a ring is delivered exactly once, in order, if and only if no drain of that ring finds more than `size` new entries; other rings and failed copies do not matter |
| LogPipeline.OtherSteps | src/memutil_debugfs_logfile.c:99-111 | a write adds one entry to one ring, a read starts with an empty log and ends by delivering it, a failed drain only moves on |
| LogPipeline.DrainIsAppendToLogfile | src/memutil_ringbuffer_log.c:120-154 | the record-level drain step produces the text that `AppendToLogfile` produces |
| LogNoLoss.TimelyRingIsNeverOverrun | src/memutil_main.c:703-718 | a ring with updates `delay` apart, timestamps right up to a skew, and each drain before `size * delay` (less twice the skew) has passed since its opening or last drain, is never overrun (not even when filled exactly), whatever happens to other rings |
| LogNoLoss.RoomForAllRings | src/memutil_debugfs_logfile.c:181-194 | a log with room for `size` lines of every ring holds every read, however late or often the rings are drained |
| LogNoLoss.FileIsWhatWasDrained | src/copy-log.sh:77-92 | in such a log, after any run, overrun or not, each core's file is the text of what was drained from its ring |
| LogNoLoss.NoUpdateIsMissing | src/copy-log.sh:77-92 | if in addition a core's own ring is drained in time, its file is, character by character, its history up to the last drain; the other cores' rings may be drained late, without memory, or overrun |
| LogNoLoss.CoreFileOfParts | src/copy-log.sh:85-90 | filtering two reads one after the other is filtering both together |
| GovernedLog.EveryUpdateReachesItsFile | src/memutil_main.c:703-740 | end to end: whatever the other cores do and whenever the rings were opened, the file of a core whose own ring is drained in time parses to exactly what its hook logged up to the last drain |
| GovernedLog.ShippedConfiguration | src/copy-log.sh:33-33 | with rings of 2000, a log of 2,000,000 bytes and a delay of 5 ms, of up to nine cores any core loses nothing whose own ring is drained within ten seconds (less twice the skew) of its opening and of each drain |
| GovernedLog.OneReadAnytime | src/copy-log.sh:77-92 | the conditions hold of a ring opened at any time that is read within ten seconds |
| EventTokenizer.SplitPrint | src/memutil_perf_counter.c:322-341 | printing any list of well-formed pairs and splitting gives the list back |
| EventTokenizer.PrintSplit | src/memutil_perf_counter.c:322-341 | every string of the grammar is the print of the pairs it is split into |
| EventTokenizer.Tokenize | src/memutil_perf_counter.c:329-351 | on its exact domain the in-place loop stays in bounds and terminates, and fails exactly if there is a comma after the eighth pair; on a string of the grammar it otherwise leaves exactly the listed keys and values as C strings in the buffer |
| EventTokenizer.EveryOutcome | src/memutil_perf_counter.c:329-351 | for every string: the loop reads outside if and only if some delimiter it recognises, up to the comma after the eighth pair, is followed by nothing; it refuses if and only if there is that comma; it finds all pairs if and only if the grammar lists at most eight |
| EventTokenizer.SplitExample | src/memutil_perf_counter.c:322-341 | the two pairs of `event=0x2,umask=1` |
| EventTokenizer.OutOfBoundsExample | src/memutil_perf_counter.c:331-335 | on `a=` the loop reads outside the buffer |
| EventTokenizer.GrammarOutcome | src/memutil_perf_counter.c:341-346 | a string of the grammar keeps the loop inside, and is refused exactly for more than eight pairs |
| EventTokenizer.ParsePlatformEvent | src/memutil_perf_counter.c:308-364 | for every string that the loop refuses, or of which it finds every value: the result is the error, or that of its pairs in order; no memory is an error too |
| EventTokenizer.ParsePrinted | src/memutil_perf_counter.c:308-364 | parsing the print of a list parses the list |
| EventTokenizer.AcceptedIff | src/memutil_perf_counter.c:262-364 | such a string is accepted if and only if it is of the grammar, with at most eight pairs, all with a known key and a value that converts |
| EventTokenizer.ConfigRoundTrip | src/memutil_perf_counter.c:262-364 | any configuration within the layout, written as an event string and parsed, comes back unchanged |
| EventConfig.ParseEventPair | src/memutil_perf_counter.c:262-296 | one pair sets the field or period it names; a failure changes neither config nor period |
| EventConfig.InterpretByName | src/memutil_perf_counter.c:266-293 | a pair fails if and only if its value does not convert or its key is not one of the seven |
| EventConfig.NamedPairs | src/memutil_perf_counter.c:273-290 | each of the seven keys by name: which bits of the value it or-s into the config, and where |
| EventConfig.OrIsOr | src/memutil_perf_counter.c:274-288 | the packing operation is the bitwise or |
| EventConfig.FailedPairs | src/memutil_perf_counter.c:266-293 | a value that does not convert gives its own error, an unknown key -22, and neither changes anything |
| EventConfig.FirstBadDecides | src/memutil_perf_counter.c:353-358 | the first pair that fails decides the code, and the pairs before it the config and period |
| EventConfig.SucceedsIffAllGood | src/memutil_perf_counter.c:353-358 | a list is parsed if and only if each of its pairs is |
| EventConfig.PackingRoundTrip | src/memutil_perf_counter.c:272-290 | with distinct keys each named field decodes to its masked value, and a field not named is 0 |
| EventConfig.ConfigDecodes | src/memutil_perf_counter.c:272-290 | also with repeated keys each field is the or of its values, and no bit outside the layout is set |
| EventConfig.FieldsDetermineConfig | src/memutil_perf_counter.c:272-288 | a configuration within the layout is determined by its fields |
| EventConfig.PackingIgnoresOrder | src/memutil_perf_counter.c:353-358 | neither success nor the configuration depends on the order of the pairs |
| EventConfig.PeriodIsLast | src/memutil_perf_counter.c:289-290 | the period is that of the last pair that sets it |
| PerfEvents.AllocatePerfCountersForCpu | src/memutil_perf_counter.c:479-505 | on success entry i is event i; after a first failure at n the n created ones are released, last first, their entries are null and the others untouched |
| PerfEvents.ReleasePerfEvents | src/memutil_perf_counter.c:507-517 | exactly the events in the array are released, null entries are skipped |
| ResourceLedger.OpenedRingIsRegistered | src/memutil_main.c:775-812 | after init_logging the log is there if it was or the first cpu could create it; the new ring belongs to the cpu and is registered last exactly if the log is there and fewer than 32 were registered |
| ResourceLedger.RegisteredRingsAreOpen | src/memutil_main.c:798-812 | over any interleaving of starts, failed starts and stops: a registered ring is open and registered once, and without the log nothing is registered |
| ResourceLedger.RunningGovernorsRingIsOpen | src/memutil_main.c:924-958 | a started governor's ring has not been closed |
| ResourceLedger.EverythingIsReleasedOnce | src/memutil_main.c:870-958 | no event or ring is released twice or without having been created, and once all cpus are down each was released exactly once, though stop leaves stale pointers |

## Left out

- The kernel primitives (spin locks, RCU, `irq_work`, kernel threads, `kvmalloc`, debugfs): locked sections are atomic steps; `irq_work_sync` and `kthread_cancel_work_sync` mean that nothing is pending or running afterwards.
- Reading a counter from hardware (`src/memutil_perf_read_local.c`): a read gives any u64 or an error.
- Matching the events map by CPUID (`src/memutil_perf_counter.c:174-204`): line 196 takes the first table for which `memutil_cpuid_matches` is false, against its comment, so "selects the matching table" does not hold of the code; the lookups are linear scans.
- The portable event table, the infofile text, start-up messages and module parameters: constants and plumbing.
- Fast switch, the driver and the thread's scheduling attributes: only the frequency given to the driver is recorded.
- MemutilPolicy.MemutilPolicy.SetFrequencyTo: models the build with deferred switching; the build without it reports an error instead. The method is one hook call; what other contexts do between its write and its locked section is in `DeferredSwitch`.
- Governor.FrequencyStaysInLimits: assumes that the policy's limits do not change during the run, and that no division traps, which `BoundedRunsAreSafe` proves for counts within the bound.
- EventTokenizer.Tokenize: of a string within its domain whose last key has no `=`, only that the loop stays in bounds and ends; the code leaves that pair without a value.
- EventTokenizer.ParsePlatformEvent: strings on which the loop leaves the buffer, or leaves a key without a value, have no result; on them the code reads memory that nobody wrote.
- EventConfig.ParseEventPair: `kstrtoull` is any function from strings to a number or a nonzero error code.
- LogPipeline.DeliveredAtMostOnceInOrder: one reader at a time that reads to the end with non-zero sizes. The code shares one log without a lock, so concurrent readers, abandoned reads, and reads during an exit are not modelled; nor are faults while copying to user space.
- Debugfs.DebugfsLog.ReadToEnd: no writes between its requests; writes at any time are in `LogPipeline`.
- Heuristics.FactorExactIffHarmless: `max` above `min`, as documented; for a first product that does not fit, which takes a difference beyond 9.2 * 10^16, the exact condition is the one of `Heuristics.FactorExactIff`.
- RingBuffer.RingBuffer.Write: batches of 2^31 entries or more, which the int loop variable cannot count, are excluded; the governor writes one entry at a time. A ring of size 0 is never opened and not modelled.
- Logfile.Logfile.Append: overflow of `size_t` is not modelled; the sizes are far below it.
- ResourceLedger.EverythingIsReleasedOnce: a counter's creation and release are foreign calls, recorded in order; what the kernel does with them is not modelled.
