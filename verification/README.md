# Verified model of the firmware's hard core

A Dafny 4.11 project that models the parts of this ESP32-S3 firmware whose correctness is not visible from
reading one function, and proves what they promise. Check it with `dafny verify dfyconfig.toml`.

| file | models |
|---|---|
| `CxxGuards.dfy` | guards of C++ function-local statics: a protocol between any number of tasks and guards |
| `OtaWriter.dfy`, `Sectors.dfy` | the streaming OTA writer with 16-byte buffering and erase-ahead |
| `OtaBoot.dfy` | the two-sector boot record: selection, crash-safe switch, rollback, and otatool's second implementation |
| `AudioArbiter.dfy` | three audio tasks and the user interface sharing two I2S controllers without locks |
| `AudioRuns.dfy` | what each audio task does from a start, a stop or a failed call to its end |
| `AudioDsp.dfy` | integer square root, meter scale, gain and saturation stage of the loopback |
| `TraceRing.dfy` | the trace ring buffer that shortens itself to offer contiguous regions |
| `TraceMembufs.dfy` | the two trace blocks, their record format, and the transfer of host data into the ring |
| `TraceSession.dfy` | whole runs of the two blocks: users, late users, the host writing into its block, and any number of swaps |
| `SplitArgv.dfy` | the in-place console argument splitter |
| `DacWriter.dfy` | cutting DAC data into DMA descriptors, streaming and cyclic |
| `BlockDevices.dfy` | block devices over memory and partitions nested to any depth |
| `Common.dfy` | small shared types |

## How the source appears here

Protocols between tasks (`CxxGuards`, `AudioArbiter`) are step relations with a program counter per task. Every
access to a shared variable and every blocking or driver call is a step, a schedule is any sequence of steps, and
the theorems range over all schedules. Code that updates memory step by step is imperative: classes with the
source's fields, arrays for buffers, loops with invariants. Each method is proved against a function, and the
properties are lemmas about that function. Fixed-width arithmetic is explicit wherever it can matter.

Functions the repository calls but does not define are parameters or are modelled from their documented effect:
the CRC routine, the image check, FreeRTOS primitives, flash and I2S drivers, and the DMA. The
`bootloader_common_*` helpers are not part of the repository; the selection of the active entry follows the
comment at `components/app_update/esp_ota_ops.c:650-664` and the uses at 1024-1028 and 1127-1142. An interrupted
flash operation leaves an arbitrary entry with a wrong CRC.

## Findings: where the code and what is said about it differ

* `cxx_guards.cpp:78-82` says that a sleeping task's next take succeeds immediately. It need not: a waiter of
  another guard can take two tokens (`TokensCanBeStolen`). What holds instead is a promise over all guards together
  (`Safety`), and it is enough: once no initialization is in progress nobody stays asleep (`NoWaiterIsStuck`).
* The erase formula of `esp_ota_write` ignores the buffered bytes. That is harmless for everything
  `esp_ota_write` itself writes (`EraseCovers`, `OtaSession.Write`), but the padding block of `esp_ota_end` can fall
  on a sector that was never erased: `ExposedEndsDirty` drives every such session to the unerased write, and
  `PaddingCanMissItsErase` is one of 4088 and 12 bytes. `Update` and `Install` give the exact condition for every
  partition and both ways of erasing.
* An encrypted image of fewer than 16 bytes is written without complaint and then refused as if there were no data,
  because only whole blocks count as written (`Install` says exactly which updates succeed).
* The magic check of a partition table reads two bytes of the first chunk even if it has only one; the byte behind
  it is a parameter here (`beyond`), and the verdict depends on it.
* Switching to the slot that is already active rewrites the active entry in place and is not crash-safe, and
  neither is confirming the running app; `InPlaceIsAtomicIff`, `ConfirmIsAtomicIff` and `FactoryIsAtomicIff` say
  exactly when these calls are. The test app's subtype 0x20 masks to slot 0 (`OtaData.SetBootPartition`). The comment
  promises a number above the current one; the loop stops at one that is at least the current one, which is above
  it except in place and for an active number 0 with the last slot requested (`SwitchCountsUp`). At the end of the 32-bit numbers the search wraps and then finds no number of
  the requested slot; with a number of slots that is a power of two it never ends (`WrappedSearchFails`).
* otatool does not look at the image state and keeps it. It agrees with the firmware exactly if both start from
  the same entry, up to a coincidence (`ToolAgrees`), and after a rollback its switch can have no effect;
  `ToolSelectsIff` says on which records the requested slot boots, and `ToolCanMiss` is one where it does not.
* A stop request that races with a task's cleanup leaves the status word at STOPPING with no task behind it, and
  start is then refused (`StaleArises`, `StaleIsReachable`); one more stop request clears it (`StopClears`).
* A ring request, to write or to read, is granted beyond the buffer exactly if it wraps a 32-bit sum
  (`WritesStayInsideIff`, `ReadsStayInsideIff`, `WrappedRequestsBreak`).
* The argument splitter separates at the space character only, although its description says whitespace, and
  drops unknown escapes (`OnlySpaceSeparates`, `UnknownEscapeVanishes`).
* A cyclic DAC write of exactly the documented maximum loses half a buffer and still reports success
  (`CyclicLoadsAll`, `FullRingLosesHalf`). One of empty data passes the checks and links the descriptor of index -1
  (`Dac.WriteCyclically`).
* An odd DAC buffer size is not rejected. Expanding data to 16 bits then stores one byte behind the buffer exactly
  if the data fills it (`StoresInsideIff`). Any write of at least the buffer size does, and of more than half of it
  if an earlier write timed out between its last two descriptors and left the split flag set (`OddBufferWrites`,
  `LeftoverFlagOverruns`).
* Address translation of partitions reports addresses of 2 GiB and more as errors, because of its signed result
  (`TranslationsInvert`).
* The range check of block devices adds in 64 bits and lets requests pass whose sum wraps to a small address
  (`PassesIff`). Through a partition they are all refused one level down (`Read`, `WrapIsRefused`); the memory
  device itself follows them out of its buffer (`MemoryFollowsWrap`, `TenBytesWrap`).
* A trace region is handed out after a swap without another look at the space. With 2-byte headers the largest
  request leaves a block of fewer than 257 bytes, and with 4-byte headers one of fewer than 4 (`GrantsFitIff`).

## Model

| member | source | states |
|---|---|---|
| CxxGuards.StepLocks | components/cxx/cxx_guards.cpp:66-211 | no assertion fires, and a task holds the mutex exactly at the statements between its take and its give |
| CxxGuards.StepGuards | components/cxx/cxx_guards.cpp:153-211 | only a successful acquire and the matching release or abort change a guard, and they move it together with the caller's stack of open initializations |
| CxxGuards.KeepsInv | components/cxx/cxx_guards.cpp:66-211 | every step of every task keeps mutex ownership, guard ownership, the waiter count and the token promise |
| CxxGuards.Safety | components/cxx/cxx_guards.cpp:113-211 | in every interleaving: pending means exactly one initializing task, never ready and pending, mutual exclusion, the waiter count is exact, and with no guard pending there are tokens for all waiters that need one |
| CxxGuards.RunKeepsInv | components/cxx/cxx_guards.cpp:66-211 | the invariant holds along every schedule, from any state in which it holds |
| CxxGuards.ReadyStays | components/cxx/cxx_guards.cpp:170-190 | a guard that is ready stays ready |
| CxxGuards.ReadyStep | components/cxx/cxx_guards.cpp:180-183 | a guard becomes ready exactly by a release, never twice |
| CxxGuards.InitializedAtMostOnce | components/cxx/cxx_guards.cpp:113-190 | over any run at most one initialization of a guard completes, none if it was ready |
| CxxGuards.Progress | components/cxx/cxx_guards.cpp:75-101 | with no guard pending, some task inside a guard function can run, whatever the others wait for |
| CxxGuards.QuietRunsEnd | components/cxx/cxx_guards.cpp:66-111 | runs without new calls and without pending guards have bounded length under every scheduler |
| CxxGuards.NoWaiterIsStuck | components/cxx/cxx_guards.cpp:66-111 | when such a run cannot go on, every task has left its guard function or a guard is pending again |
| CxxGuards.AcquireAlone | components/cxx/cxx_guards.cpp:113-168 | an undisturbed acquire of a free guard makes the caller its initializer and changes nothing else |
| CxxGuards.AcquireReady | components/cxx/cxx_guards.cpp:113-168 | an undisturbed acquire of a guard that is ready changes nothing |
| CxxGuards.AcquireSleeps | components/cxx/cxx_guards.cpp:66-83 | an undisturbed acquire of a pending guard counts the caller as a waiter and puts it to sleep without the mutex |
| CxxGuards.SignalsAll | components/cxx/cxx_guards.cpp:105-111 | the signalling loop gives exactly as many tokens as it counted waiters |
| CxxGuards.ReleaseAlone | components/cxx/cxx_guards.cpp:170-190 | an undisturbed release makes the guard ready and gives one token per waiter |
| CxxGuards.AbortAlone | components/cxx/cxx_guards.cpp:193-211 | an undisturbed abort leaves the guard as if nothing had happened and gives one token per waiter |
| CxxGuards.WaiterLeaves | components/cxx/cxx_guards.cpp:75-101 | a woken waiter whose guard is no longer pending returns if it is ready and initializes it otherwise |
| CxxGuards.AssertionsBite | components/cxx/cxx_guards.cpp:66-211 | the states in which an assertion of the source would fire, which Safety excludes |
| CxxGuards.StepCaps | components/cxx/cxx_guards.cpp:105-111 | the semaphore stays within its maximum, and a give adds one token below it |
| CxxGuards.WaiterTakesTwo | components/cxx/cxx_guards.cpp:75-100 | a waiter whose guard is still pending takes a second token |
| CxxGuards.TokensCanBeStolen | components/cxx/cxx_guards.cpp:76-84 | a reachable state in which a guard is ready, its only waiter needs a token and there is none: the claim per guard is false |
| OtaWriter.EraseCovers | components/app_update/esp_ota_ops.c:316-330 | erasing up to the sector of the last input byte covers everything written, buffered bytes included, and leaves at most one erased sector ahead |
| OtaWriter.OtaSession.Begin | components/app_update/esp_ota_ops.c:143-212 | a new session is empty and erases nothing, or the announced size rounded up to sectors |
| OtaWriter.OtaSession.Write | components/app_update/esp_ota_ops.c:297-390 | the exact errors; nothing written before changes; no byte is written on unerased flash if and only if all of them fall on the erased part, which erasing ahead always ensures, and then flash plus buffer grow by exactly the input |
| OtaWriter.OtaSession.Prepare | components/app_update/esp_ota_ops.c:316-346 | erasing ahead and the magic number check, for every first chunk, with their errors, leave what is stored untouched |
| OtaWriter.MagicNumbers | components/app_update/esp_ota_ops.c:333-346 | the magic numbers as the image formats define them |
| OtaWriter.WrongMagicIsRefused | components/app_update/esp_ota_ops.c:333-339 | an app image with a wrong first byte is refused and the session stays empty |
| OtaWriter.OtaSession.EraseAhead | components/app_update/esp_ota_ops.c:316-330 | erases up to the end of the sector of the last input byte and nothing below the write offset |
| OtaWriter.OtaSession.FillPartial | components/app_update/esp_ota_ops.c:351-369 | the 16-byte buffer takes the next bytes and goes to flash once full |
| OtaWriter.OtaSession.StoreRest | components/app_update/esp_ota_ops.c:371-383 | whole blocks go to flash, the rest stays buffered |
| OtaWriter.OtaSession.Append | components/app_update/esp_ota_ops.c:347-383 | both parts together append the input, however it straddles the buffer |
| OtaWriter.OtaSession.End | components/app_update/esp_ota_ops.c:566-612 | the exact errors; the image is what was stored plus padding of the last block, cleanly written if and only if that block was erased |
| OtaWriter.Update | components/app_update/esp_ota_ops.c:297-390 | over every sequence of writes, with sequential or bulk erase and on any partition: what is stored equals the concatenated input, whatever the chunking, if nothing fell on unerased flash; exactly when that is so, and exactly when the padding block will be erased; input that fits is taken if and only if it starts with the magic number |
| OtaWriter.Install | components/app_update/esp_ota_ops.c:566-612 | succeeds if and only if the image fits, starts with the magic number, fills a block and is verified; the partition then begins with the delivered bytes followed by less than a block of padding; with sequential erase that fails if and only if the last block was Exposed and not erased before, with bulk erase if and only if something lies beyond the erased part and was not erased before |
| OtaWriter.PaddingVerdict | components/app_update/esp_ota_ops.c:583-592 | the padding block lies on erased bytes if and only if there is none, the last chunk did not leave it Exposed, or it was erased before |
| OtaWriter.BulkIsClean | components/app_update/esp_ota_ops.c:191-203 | with bulk erase of at least the delivered bytes, padding included, nothing falls on unerased flash |
| OtaWriter.ExposedBy | components/app_update/esp_ota_ops.c:316-330 | the session's erase bookkeeping fails to cover the padding block exactly under that condition |
| OtaWriter.ExposedEndsDirty | components/app_update/esp_ota_ops.c:583-592 | whenever two chunks leave the block Exposed on an unerased sector, the session succeeds and has written unerased bytes |
| OtaWriter.PaddingCanMissItsErase | components/app_update/esp_ota_ops.c:583-592 | a session on an unerased partition that takes 4088 and then 12 bytes ends with a write on unerased flash |
| OtaBoot.CountApps | components/app_update/esp_ota_ops.c:693-701 | the counting loop finds the number of consecutive OTA slots from 0 |
| OtaBoot.DefaultBootIs | components/app_update/esp_ota_ops.c:806-832 | without a selection: factory, else the lowest slot, else the test app, exactly |
| OtaBoot.SlotOfWraps | components/app_update/esp_ota_ops.c:853-853 | the slot of a number is its 32-bit predecessor modulo the number of slots |
| OtaBoot.NextSeqLeast | components/app_update/esp_ota_ops.c:645-691 | the computed number is the least one from the current number on that belongs to the slot |
| OtaBoot.SeqSelectsSlot | components/app_update/esp_ota_ops.c:845-859 | a number selects a slot exactly if it has the remainder of the slot's number |
| OtaBoot.ComputeSeq | components/app_update/esp_ota_ops.c:645-691 | the search loop ends and returns that least number, as far as it fits 32 bits |
| OtaBoot.WrappedSearchFails | components/app_update/esp_ota_ops.c:687-690 | if the least number does not fit, nothing the wrapped search stops at selects the slot, and with a number of slots dividing 2^32 it stops nowhere |
| OtaBoot.SwitchSelects | components/app_update/esp_ota_ops.c:727-760 | on every record: after the switch the requested slot boots if and only if the new number is not the erased pattern and not a new 0; numbers of valid entries stay positive |
| OtaBoot.FirstSwitch | components/app_update/esp_ota_ops.c:754-760 | with no valid entry the first sector gets the slot counted from 1, on trial if rollback is configured |
| OtaBoot.SwitchCountsUp | components/app_update/esp_ota_ops.c:672-690 | the new number is never below the active one, and above it if and only if the entry is not rewritten in place and the two are not both 0 |
| OtaBoot.LosingASector | components/app_update/esp_ota_ops.c:834-861 | a blank or torn entry drops out of the selection; losing the inactive one changes nothing |
| OtaBoot.RewriteExposes | components/app_update/esp_ota_ops.c:614-628 | a reset during a rewrite finds either the fall-back on the other entry or the final record |
| OtaBoot.SwitchIsAtomic | components/app_update/esp_ota_ops.c:739-760 | at every moment of a switch the old or the new partition boots, if the slot was not already active |
| OtaBoot.InPlaceIsAtomicIff | components/app_update/esp_ota_ops.c:744-749 | in place the switch is atomic if and only if losing the active entry would boot the same slot |
| OtaBoot.FactoryIsAtomicIff | components/app_update/esp_ota_ops.c:775-781 | going back to factory is atomic if and only if the second entry alone selects no third partition |
| OtaBoot.RollbackBootsChecked | components/app_update/esp_ota_ops.c:1012-1064 | what boots after marking the active entry invalid is the partition whose image was just checked, at every moment of the rewrite |
| OtaBoot.RollbackPossibleIff | components/app_update/esp_ota_ops.c:1012-1064 | rollback is possible if and only if what would boot without the active entry is a valid slot or the factory app with a good image |
| OtaBoot.OtaData.RewriteOtaSeq | components/app_update/esp_ota_ops.c:614-628 | erases and writes one entry with the new number and its CRC and keeps its state |
| OtaBoot.OtaData.RewriteOtaData | components/app_update/esp_ota_ops.c:727-760 | the exact errors, the record written, atomicity outside the in-place case, and exactly when the requested slot boots; valid numbers stay positive |
| OtaBoot.ConfirmIsAtomicIff | components/app_update/esp_ota_ops.c:1078-1082 | confirming keeps the boot selection, and a reset on the way boots the same partition if and only if the other entry would boot it too |
| OtaBoot.OtaData.MarkValid | components/app_update/esp_ota_ops.c:1068-1089 | confirms the active entry, changes neither it nor the boot selection otherwise, and writes nothing if it was confirmed already; valid numbers stay positive |
| OtaBoot.OtaData.MarkInvalid | components/app_update/esp_ota_ops.c:1068-1106 | succeeds if and only if there is a valid other slot or a factory app to fall back on and its image is good; then only the state of the active entry changes, that app boots, and no reset on the way boots anything else; valid numbers stay positive |
| OtaBoot.OtaData.SetBootPartition | components/app_update/esp_ota_ops.c:763-804 | succeeds exactly for a checked app partition that exists; boots what was asked for if and only if that is an OTA slot and the new number is a good one; the new entry is on trial if and only if rollback is configured; valid numbers stay positive |
| OtaBoot.SubtypesMean | components/app_update/esp_ota_ops.c:763-804 | which partition each subtype names |
| OtaBoot.ToolSwitch | components/app_update/otatool.py:110-210 | the tool's choice of base entry, number and sector, with the image state left in place, and its two failures |
| OtaBoot.ToolOverlooksState | components/app_update/otatool.py:114-117 | the tool takes an entry for valid if and only if the firmware would with a good state |
| OtaBoot.FirstFrom | components/app_update/otatool.py:177-184 | the tool's search loop finds the same number as the firmware's |
| OtaBoot.ToolAgrees | components/app_update/otatool.py:153-198 | on every record: same sector and number as the firmware if and only if both start from the same entry, up to one coincidence of numbers; with the slot already active, if and only if both entries carry its number and the firmware skips entry 0 (a number 0 only for the last slot) |
| OtaBoot.ToolSelectsIff | components/app_update/otatool.py:188-206 | on every record: the requested slot boots after the tool if and only if the entry it wrote has a good state and number or the other entry selects the slot anyway |
| OtaBoot.ToolCanMiss | components/app_update/otatool.py:153-198 | a record on which the tool's switch has no effect |
| AudioArbiter.SpawnKeeps | main/main.c:2317-2325 | creating a task that is dead, with the loopback dead too, keeps every ownership rule |
| AudioArbiter.UiKeepsOwners | main/main.c:2281-2352 | no step of the user interface breaks the ownership of handles and channels |
| AudioArbiter.WorkerKeeps | main/main.c:1978-2276 | no step of the meter or tone task opens a controller in use, touches a NULL channel or breaks the invariant |
| AudioArbiter.LoopReaches | main/main.c:2763-2811 | the loopback's requests and polls change no handle or channel, and passing its four tests means both other tasks are dead |
| AudioArbiter.LoopKeeps | main/main.c:2750-3374 | no step of the loopback breaks the invariant |
| AudioArbiter.KeepsInv | main/main.c:2236-2334 | every step of every actor keeps the invariant, and no task is created twice |
| AudioArbiter.RunKeepsInv | main/main.c:2236-3430 | so does every schedule |
| AudioArbiter.Safety | main/main.c:2236-3430 | in every interleaving: meter and loopback never both own I2S0, tone and loopback never both I2S1, a NULL handle means no task and no channels, and while the loopback owns a channel the other handles are NULL |
| AudioArbiter.OwnStepSinks | main/main.c:2090-2276 | a task whose stop flag is set can always go on and gets nearer to its end |
| AudioArbiter.OthersLeaveDoomed | main/main.c:2339-2352 | nobody else moves it or takes the request back |
| AudioArbiter.StopIsHonoured | main/main.c:3296-3453 | whatever the others do, a task asked to stop has dropped its handle and channels after at most 37 steps of its own |
| AudioArbiter.StaleArises | main/main.c:2339-2352 | a status word becomes stale in exactly two ways, both races of a stop request with a task's end |
| AudioArbiter.StaleIsReachable | main/main.c:2236-2276 | a schedule from power-up that leaves all tasks dead and the meter refused |
| AudioArbiter.StartVerdict | main/main.c:2281-2334 | an undisturbed start creates the worker with its stop flag clear if the tests pass, and otherwise changes nothing |
| AudioArbiter.StopClears | main/main.c:2339-2352 | a stop request for a dead task resets its status word, except an error |
| AudioArbiter.StopsReopen | main/main.c:2281-2352 | with the tasks dead, a start is refused exactly because of a stale word, and two stop requests cure it |
| AudioRuns.StopButton | main/main.c:2339-2352 | under every scheduler: pressing stop for a task that exists ends it and drops its handle, after three turns of the user interface and 37 of its own |
| AudioRuns.RequestEndsWorker | main/main.c:2763-2764 | the same for a request of the loopback, or of anyone, once begun |
| AudioRuns.PressDooms | main/main.c:2339-2352 | an undisturbed stop request sets the status word to STOPPING and the flag |
| AudioRuns.ClashMeans | main/main.c:2236-3430 | what Safety excludes: a task created twice, a controller opened twice, a NULL channel used, and nothing else |
| AudioRuns.StartedOpens | main/main.c:2281-2334 | a task that was started runs with its channel open if every call succeeds |
| AudioRuns.FailedStartIsError | main/main.c:2317-2334 | a task that could not be created leaves status ERROR and no handle |
| AudioRuns.ActiveMeans | main/main.c:2290-2300 | every status but STOPPED and ERROR counts as active |
| AudioRuns.FailureEnds | main/main.c:2090-2276 | a failed call ends a meter or tone task with status ERROR, its channel deleted |
| AudioRuns.StopEnds | main/main.c:2090-2276 | a task that finds its flag set deletes its channel and ends with STOPPED |
| AudioRuns.WorkerGoesOn | main/main.c:2090-2230 | without a request it goes on; a read of the meter may time out |
| AudioRuns.LoopAsksBoth | main/main.c:2761-2764 | the loopback begins by asking both other workers, exactly |
| AudioRuns.PollsAll | main/main.c:2783-2788 | it polls the two handles and the two channels of the others |
| AudioRuns.LoopPasses | main/main.c:2783-2811 | with both controllers free it passes its checks |
| AudioRuns.LoopGivesUp | main/main.c:2780-2811 | while the meter holds on it polls a hundred times more and gives up with an error |
| AudioRuns.LoopStopsWaiting | main/main.c:2783-2797 | once asked to stop it does not wait any longer |
| AudioRuns.LoopOpens | main/main.c:2813-3060 | it opens both controllers, one call after the other, and says that it runs |
| AudioRuns.LoopFailureIsError | main/main.c:2834-3110 | any failed call except a read that times out leads to the error path |
| AudioRuns.LoopCleansUp | main/main.c:3296-3374 | from the cleanup everything open is closed, and the status is ERROR or STOPPED |
| AudioRuns.LoopGoesOn | main/main.c:3062-3290 | without a request it copies block after block |
| AudioDsp.RootRound | main/main.c:1900-1913 | one round decides one binary digit of the root; the sum compared with the remainder fits 64 bits |
| AudioDsp.Isqrt | main/main.c:1890-1916 | the result is the integer square root for every 64-bit value and fits 32 bits |
| AudioDsp.MeterBand | main/main.c:1946-1971 | between the ends of the scale the clamps are idle and the 32-bit product does not overflow |
| AudioDsp.MeterInterpolates | main/main.c:1950-1961 | inside a band the meter is proportional to the amplitude, rounded down to tenths |
| AudioDsp.MeterAt96 | main/main.c:1950-1961 | half way between two powers the meter stands at 15 |
| AudioDsp.MeterRange | main/main.c:1934-1973 | the meter is within 0..100, and 100 exactly from 32767 on |
| AudioDsp.MeterMonotone | main/main.c:1934-1973 | a larger amplitude never shows less |
| AudioDsp.MeterDoubles | main/main.c:1918-1933 | each doubling of the amplitude is worth exactly ten points |
| AudioDsp.MeterAtPowers | main/main.c:1918-1933 | the documented scale at the powers of two |
| AudioDsp.MeterOfPower | main/main.c:3224-3235 | the meter is monotone in the signal power |
| AudioDsp.CenteredFits | main/main.c:3121-3130 | the mean is a 16-bit value and centered samples stay within 65535 |
| AudioDsp.DcIsRemoved | main/main.c:3121-3130 | centered samples sum to less than the sample count in absolute value |
| AudioDsp.OffsetIsSilence | main/main.c:3121-3130 | a constant input of any size is removed completely: every meter shows 0 |
| AudioDsp.Play | main/main.c:3179-3216 | gain, truncating division and saturation of one sample, without overflow |
| AudioDsp.GainLaw | main/main.c:3179-3195 | percent of the amplitude, fractions dropped towards zero, and the documented values at 0, 50, 100 and 200 |
| AudioDsp.SaturateIsNearest | main/main.c:3196-3215 | saturation takes the nearest 16-bit value |
| AudioDsp.ClampGainIsNearest | main/main.c:3150-3161 | the gain is limited to 0..200 |
| AudioDsp.RmsOfConstant | main/main.c:3224-3234 | a signal of constant amplitude measures that amplitude |
| AudioDsp.LoopbackStage.MeasureDc | main/main.c:3121-3130 | the first pass computes the truncated mean |
| AudioDsp.LoopbackStage.ApplyGain | main/main.c:3163-3222 | the second pass writes the saturated samples, sums both squares and counts exactly the saturated samples |
| AudioDsp.LoopbackStage.Process | main/main.c:3106-3236 | one block from input to output and telemetry; samples behind the block are untouched |
| AudioDsp.OutputRmsFits | main/main.c:3224-3234 | output RMS is at most 32768, input RMS at most 65535 |
| AudioDsp.MuteSilences | main/main.c:3179-3222 | mute or zero gain sends silence, measures 0 and clips nothing |
| AudioDsp.GainIsMonotone | main/main.c:3145-3216 | more gain makes no sample quieter, unclips none and never lowers the output meter |
| AudioDsp.NoBoostBelowUnity | main/main.c:3181-3195 | up to 100 percent the output is never stronger than the input |
| AudioDsp.UnityPasses | main/main.c:3181-3216 | at 100 percent a sample passes unchanged exactly if it fits 16 bits |
| AudioDsp.DefaultGainNeverClips | main/main.c:458-460 | at the default gain no block clips |
| AudioDsp.OneMorePercentCanClip | main/main.c:3206-3215 | one percent more can clip |
| TraceRing.ProduceCases | components/app_trace/app_trace_util.c:95-135 | the four ways a region is granted and the fields after each |
| TraceRing.ProduceAppends | components/app_trace/app_trace_util.c:95-135 | a granted region is inside the buffer, away from unread bytes, and filling it appends to the queue, through shortening and wrapping |
| TraceRing.ProduceIff | components/app_trace/app_trace_util.c:95-135 | exactly which requests are granted, for every 32-bit size |
| TraceRing.ConsumeTakes | components/app_trace/app_trace_util.c:137-161 | a read whose sum does not wrap hands out the oldest bytes in one piece and leaves the rest of the queue |
| TraceRing.ConsumeIff | components/app_trace/app_trace_util.c:137-161 | exactly which reads are refused, for every 32-bit size |
| TraceRing.SizesAreSafe | components/app_trace/app_trace_util.c:163-190 | both reported sizes are safe requests, and asking for the write size never shortens the ring |
| TraceRing.Room | components/app_trace/app_trace_util.c:176-190 | one byte of the capacity stays free, and the write size is 0 exactly when only that one is left |
| TraceRing.WritesStayInsideIff | components/app_trace/app_trace_util.c:95-135 | a granted write lies inside the buffer if and only if its 32-bit sum does not wrap |
| TraceRing.ReadsStayInsideIff | components/app_trace/app_trace_util.c:137-161 | a granted read lies inside the buffer if and only if its 32-bit sum does not wrap |
| TraceRing.WrappedRequestsBreak | components/app_trace/app_trace_util.c:95-161 | a wrapped read makes two unread bytes ten, a wrapped write loses five |
| TraceRing.DoCounts | components/app_trace/app_trace_util.c:95-161 | a granted request counts in full, a refused one changes nothing |
| TraceRing.PlayIs | components/app_trace/app_trace_util.c:95-161 | a run is all its operations, one after the other |
| TraceRing.PlayKeepsFifo | components/app_trace/app_trace_util.c:95-161 | every run of writes and reads that never wraps a sum keeps: accepted bytes = delivered bytes followed by the queue |
| TraceRing.RingIsFifo | components/app_trace/app_trace_util.c:95-161 | over every such run what was read is a prefix of what was written and the rest is still queued |
| TraceRing.Ring.Produce | components/app_trace/app_trace_util.c:95-135 | the imperative code computes the specified fields and region |
| TraceRing.Ring.Consume | components/app_trace/app_trace_util.c:137-161 | likewise for reading |
| TraceRing.Ring.DownBufferWrite | components/app_trace/app_trace_membufs_proto.c:178-205 | appends exactly the first min(size, free) bytes, ends, and never shortens the ring |
| TraceMembufs.ParseSerialize | components/app_trace/app_trace_membufs_proto.c:14-31 | a block of records parses back into exactly their headers and payloads, in order |
| TraceMembufs.DoneIsVisible | components/app_trace/app_trace_membufs_proto.c:14-20 | finished and unfinished records differ in the header, except an empty record whose size field is 0 |
| TraceMembufs.Membufs.BlockParses | components/app_trace/app_trace_membufs_proto.c:71-110 | a block up to its marker parses into exactly the records allocated since it was swapped in |
| TraceMembufs.Membufs.HostWrites | components/app_trace/app_trace_membufs_proto.c:33-37 | the host may overwrite the block it was given, and what it wrote is what the next swap will deliver |
| TraceMembufs.Membufs.Receive | components/app_trace/app_trace_membufs_proto.c:88-107 | host data goes into the ring as far as it fits |
| TraceMembufs.Membufs.Swap | components/app_trace/app_trace_membufs_proto.c:71-110 | a refused swap changes nothing; a granted one empties the block swapped in, whatever was left there, hands the other one over complete, and delivers its host data if there is any |
| TraceMembufs.Membufs.SwapWait | components/app_trace/app_trace_membufs_proto.c:112-135 | succeeds exactly if one attempt in time does, and swaps once |
| TraceMembufs.Membufs.DownBufferPoll | components/app_trace/app_trace_membufs_proto.c:137-169 | one turn of the polling loop: the oldest queued bytes, as many as asked for unless there are fewer or the ring ends there, or a swap exactly if the host has data and the hardware agrees |
| TraceMembufs.Membufs.UpBufferGet | components/app_trace/app_trace_membufs_proto.c:213-244 | exactly when a region is refused; otherwise a new unfinished record at the end of the current block |
| TraceMembufs.GrantsFitIff | components/app_trace/app_trace_membufs_proto.c:207-222 | the size check keeps every region inside its block, and inside its header field, if and only if the blocks have these sizes |
| TraceMembufs.Membufs.UpBufferPut | components/app_trace/app_trace_membufs_proto.c:246-262 | marks exactly the record of that pointer as finished |
| TraceMembufs.Membufs.LastPayload | components/app_trace/app_trace_membufs_proto.c:213-244 | the pointer handed out last is the payload of the last record |
| TraceMembufs.Membufs.Flush | components/app_trace/app_trace_membufs_proto.c:264-287 | swaps at most once, and on success at most the threshold is left |
| TraceSession.HandOver | components/app_trace/app_trace_membufs_proto.c:71-110 | the block handed over at a swap is, byte for byte, the records handed out since the last one |
| TraceSession.NextKeeps | components/app_trace/app_trace_membufs_proto.c:71-287 | an event answered as specified leaves the book balanced: blocks parse, no region is lost, mail is in order |
| TraceSession.LogGrows | components/app_trace/app_trace_membufs_proto.c:71-287 | one event adds to the log exactly its grant, its bytes, its block and the message waiting at its swap |
| TraceSession.SessionTells | components/app_trace/app_trace_membufs_proto.c:71-287 | over every run of correctly answered events: the log is what events and answers say, every block handed over parses into the records handed out in between, and what was received is a prefix of what the ring took of the messages waiting at the swaps |
| TraceSession.FitsToTheLastByte | components/app_trace/app_trace_membufs_proto.c:221-226 | a record that fills the block stays in it, one byte more swaps |
| TraceSession.FlushesAboveThreshold | components/app_trace/app_trace_membufs_proto.c:269-274 | a block with just the threshold is left alone, one with a byte more is handed over |
| TraceSession.PartIsAllThatFits | components/app_trace/app_trace_membufs_proto.c:100-105 | the ring takes the whole message or fills up to its last free byte |
| TraceSession.WrittenIsHanded | components/app_trace/app_trace_membufs_proto.c:213-262 | what a user writes and puts back is what the host finds at the next swap, finished, and every other record is as it was |
| TraceSession.LatePutFinishes | components/app_trace/app_trace_membufs_proto.c:246-262 | a late put finishes its record until the host writes over the block |
| TraceSession.Get | components/app_trace/app_trace_membufs_proto.c:213-244 | exactly when a region is granted, where, and with what swap; the block handed over is returned |
| TraceSession.PollHost | components/app_trace/app_trace_membufs_proto.c:137-169 | exactly which bytes are received, or what is fetched by a swap |
| TraceSession.Handle | components/app_trace/app_trace_membufs_proto.c:71-287 | every request, write, put, late put, flush, poll and host message is answered exactly as specified, and memory is then what the specification says |
| TraceSession.Run | components/app_trace/app_trace_membufs_proto.c:71-287 | for every sequence of events: every answer is the specified one, memory ends as specified, the blocks returned parse into every region granted in order, one block per swap, and the bytes received are a prefix of what the ring took of the host's messages |
| SplitArgv.FeedEmits | components/console/split_argv.c:49-96 | one character emits at most one byte or ends one argument, and never a NUL inside an argument |
| SplitArgv.Decide | components/console/split_argv.c:49-95 | the state machine of the source agrees with the tokenizer on mode, output and argument start |
| SplitArgv.OneChar | components/console/split_argv.c:43-101 | the loop body keeps memory and argument vector in step with the tokenizer and writes at most one byte, at the write position |
| SplitArgv.Tokenize | components/console/split_argv.c:33-101 | the loop ends, the write position never passes the read position, and memory holds the tokenizer's state |
| SplitArgv.Terminate | components/console/split_argv.c:102-111 | the last argument is terminated and the vector ends with NULL |
| SplitArgv.SplitInPlace | components/console/split_argv.c:33-112 | on every line: at most size - 1 arguments, each NUL-terminated, disjoint and in order, equal to the pure tokenizer's; nothing behind the line's NUL changes |
| SplitArgv.ArgvReads | components/console/split_argv.c:26-31 | through the vector the memory reads as exactly the arguments |
| SplitArgv.SplitTruncates | components/console/esp_console.h:280-281 | a shorter vector gets the same arguments, cut off |
| SplitArgv.SplitUndoesPrint | components/console/esp_console.h:264-279 | printing any arguments in either style with any spacing and splitting gives them back |
| SplitArgv.OnlySpaceSeparates | components/console/split_argv.c:50-64 | tabs and newlines are ordinary characters |
| SplitArgv.QuoteSeparates | components/console/split_argv.c:66-74 | text right after a closing quote is a new argument |
| SplitArgv.QuoteInsideIsLiteral | components/console/split_argv.c:86-94 | a quote inside a plain argument is an ordinary character |
| SplitArgv.UnknownEscapeVanishes | components/console/split_argv.c:76-84 | an unknown escape outside quotes disappears with its character |
| SplitArgv.QuotedEscapeVanishes | components/console/split_argv.c:76-84 | so does one inside quotes, where an escaped space stays |
| SplitArgv.GrammarDecides | components/console/split_argv.c:33-112 | every line of the grammar (gaps, quoted and plain arguments, escapes, an unclosed quote or a backslash at the end) splits into what it denotes, up to the size of the vector |
| SplitArgv.EveryLineIsLegal | components/console/split_argv.c:33-112 | every text whatever is such a line |
| DacWriter.PlanCovers | components/esp_driver_dac/dac_continuous.c:547-577 | the planned payloads add up to the data and fit their buffers |
| DacWriter.PlanLength | components/esp_driver_dac/dac_continuous.c:547-577 | how many descriptors a write takes |
| DacWriter.PlanIsEven | components/esp_driver_dac/dac_continuous.c:526-527 | all payloads are full except the last two, which differ by at most one byte |
| DacWriter.SentStep | components/esp_driver_dac/dac_continuous.c:556-566 | one descriptor extends what was sent according to plan and lowers the measure 2 * size + (flag ? 0 : 1), even if it loads nothing |
| DacWriter.Dac.LoadDataIntoBuf | components/esp_driver_dac/dac_continuous.c:457-474 | whenever it stores inside the buffer, the buffer carries the shifted data, in the high bytes when expanding to 16 bits |
| DacWriter.HighBytesCarry | components/esp_driver_dac/dac_continuous.c:457-465 | when data is expanded, the high bytes of the 16-bit words are the payload |
| DacWriter.BytesCarry | components/esp_driver_dac/dac_continuous.c:466-472 | otherwise the buffer starts with the payload |
| DacWriter.ShiftedBy | components/esp_driver_dac/dac_continuous.c:463-471 | what is played differs from the data by the offset modulo 256 |
| DacWriter.StoresInsideIff | components/esp_driver_dac/dac_continuous.c:461-464 | expanding stores inside the buffer if and only if its size is even or the data does not fill it |
| DacWriter.OddBufferWrites | components/esp_driver_dac/dac_continuous.c:556-568 | for every size, flag and buffer: all loads of a write stay inside if and only if the buffer size is even, or the data is shorter than the buffer and, with the flag set, at most half of it |
| DacWriter.LeftoverFlagOverruns | components/esp_driver_dac/dac_continuous.c:556-568 | three bytes for buffers of five fit with the flag clear and overrun with the flag set |
| DacWriter.Dac.WaitToLoad | components/esp_driver_dac/dac_continuous.c:547-577 | a timeout changes nothing; otherwise one descriptor holds the next planned payload |
| DacWriter.Dac.Write | components/esp_driver_dac/dac_continuous.c:580-636 | payloads concatenate to the loaded prefix plus offset modulo 256, the byte count is exact even on timeout, success means everything, and the call ends |
| DacWriter.Dac.WriteCyclically | components/esp_driver_dac/dac_continuous.c:500-545 | descriptor k holds payload k of the plan; everything is loaded if and only if the data is shorter than all descriptors together; the tail index is -1 if and only if there is no data |
| DacWriter.CyclicLoadsAll | components/esp_driver_dac/dac_continuous.c:500-545 | the plan fits the ring if and only if the data is strictly shorter than the ring |
| DacWriter.FullRingLosesHalf | components/esp_driver_dac/dac_continuous.c:505-507 | data of exactly the ring's size loses the second half of a buffer |
| BlockDevices.GetMemory | components/esp_blockdev_util/memory.c:116-155 | which geometries make a memory device |
| BlockDevices.GetPartition | components/esp_blockdev_util/generic_partition.c:187-226 | exactly the ranges inside the parent make a partition |
| BlockDevices.TranslationsInvert | components/esp_blockdev_util/generic_partition.c:27-56 | the two translations are inverse on the partition's addresses below 2 GiB and negative elsewhere, -1 outside the partition |
| BlockDevices.ToBaseIsOffset | components/esp_blockdev_util/generic_partition.c:27-43 | through any nesting an access reaches the sum of the offsets or is refused |
| BlockDevices.StaysInEveryAncestor | components/esp_blockdev_util/generic_partition.c:187-226 | a nested device lies inside every ancestor |
| BlockDevices.SiblingsStayApart | components/esp_blockdev_util/generic_partition.c:187-226 | whatever is nested in disjoint siblings is disjoint in memory |
| BlockDevices.ApartIff | components/esp_blockdev_util/generic_partition.c:187-226 | partitions are disjoint siblings if and only if no byte of the parent lies in both |
| BlockDevices.AlignedStartsSuffice | components/esp_blockdev_util/generic_partition.c:67-69 | aligned starts and an aligned request satisfy the assertions of every level |
| BlockDevices.PassesIff | components/esp_blockdev_util/generic_partition.c:62-62 | the 64-bit range check is exact but for requests whose sum wraps to an address of the device |
| BlockDevices.WrapIsRefused | components/esp_blockdev_util/generic_partition.c:27-75 | what a partition translates a wrapped request to, its parent refuses |
| BlockDevices.MemoryFollowsWrap | components/esp_blockdev_util/memory.c:34-39 | of the requests that pass, exactly those in range stay inside a memory device after the cast to size_t |
| BlockDevices.TenBytesWrap | components/esp_blockdev_util/memory.c:34-39 | ten bytes from five below 2^64 on pass the check and leave the device |
| BlockDevices.Read | components/esp_blockdev_util/generic_partition.c:57-75 | for every 64-bit address: the exact errors; on success the bytes at the sum of the offsets |
| BlockDevices.Write | components/esp_blockdev_util/generic_partition.c:77-100 | for every 64-bit address: the exact errors; on success the bytes at the sum of the offsets change and no others |
| BlockDevices.Erase | components/esp_blockdev_util/generic_partition.c:102-120 | likewise for erasing |
| BlockDevices.CopyOut | components/esp_blockdev_util/memory.c:29-42 | the memory device reads from its buffer |
| BlockDevices.CopyIn | components/esp_blockdev_util/memory.c:44-74 | the memory device changes exactly the addressed bytes of its buffer |
| BlockDevices.ReadsView | components/esp_blockdev_util/generic_partition.c:57-75 | a read returns the bytes of the device's own view |
| BlockDevices.WritesView | components/esp_blockdev_util/generic_partition.c:77-100 | a write splices the device's own view and can be read back |
| BlockDevices.AncestorsSeeWrite | components/esp_blockdev_util/generic_partition.c:77-100 | every ancestor sees the same change at the translated address |
| BlockDevices.SiblingsSeeNothing | components/esp_blockdev_util/generic_partition.c:77-100 | nothing nested in a disjoint sibling sees a change |
| BlockDevices.WriteThenRead | components/esp_blockdev_util/generic_partition.c:57-100 | reading back returns what was written, at any depth, whenever both are accepted |
| BlockDevices.EraseThenRead | components/esp_blockdev_util/generic_partition.c:102-120 | what has been erased reads as zeros, at any depth, whenever both are accepted |

## Left out

- C++ guards: the path before the scheduler starts, creation of the two semaphores, and the debug maximum of waiters; the count of the wait semaphore is capped at INT_MAX and the number of tasks is at most that.
- OtaWriter.OtaSession.Write: a session object stands for the looked-up handle and NULL arguments are not modelled; sizes are assumed not to wrap 32 bits, and a flash write fails only when it is out of range. The byte behind a one-byte chunk is a parameter.
- OtaWriter.OtaSession.Begin: partition table and state checks of esp_ota_begin are not modelled; an unknown image size is treated like size 0.
- OtaWriter.OtaSession.End: image verification is one verdict, and the final copy between partitions is not part of this model.
- OTA: resuming an update and writing at explicit offsets.
- OtaBoot.ComputeSeq: requires that the least number fits 32 bits; of the search that wraps, WrappedSearchFails says what it cannot find, not where it ends.
- OtaBoot.OtaData.RewriteOtaData: the same requirement on the new number.
- OtaBoot.OtaData.SetBootPartition: the same requirement on the new number.
- OtaBoot: anti-rollback, efuse and secure-boot configurations, erasing of the last boot partition, and the running partition.
- AudioArbiter.StartVerdict: the comparisons of one status word in a start function are one read; the loopback thread, the only other writer, is dead at that point.
- AudioArbiter: what the driver does inside one call, failing deletion of a channel, and real time; a timeout is one possible answer of a call.
- AudioDsp: the meter task's two-slot selection and the tone generator's waveform.
- TraceRing.RingIsFifo: runs with a request that wraps a 32-bit sum are excluded; WritesStayInsideIff and ReadsStayInsideIff show that exactly these leave the buffer.
- TraceMembufs.Membufs.UpBufferPut: requires the put to come before the block is reused; the late put is an open item in the source.
- TraceMembufs.Membufs.UpBufferGet: requires the block sizes of GrantsFitIff; with 2-byte headers on fewer than 257 bytes the source hands out a region beyond the block.
- TraceMembufs.Membufs.Receive: requires, as Swap, SwapWait, DownBufferPoll, UpBufferGet and Flush do, that the length of a pending host message lies inside its block; the source copies from beyond the block otherwise, as far as the ring has room.
- TraceSession.Run: starts with a ring of full size, as its initialization leaves it; a put of a region whose block the host has overwritten does not occur.
- TraceMembufs: the polling loop of down_buffer_get is one call per turn; unequal block sizes are left out; the hardware's answers and the deadline are a sequence of booleans.
- SplitArgv.SplitInPlace: requires a vector of at least one element and a NUL in the line, as C strings have.
- DacWriter.Dac.Write: the interrupt handler, the descriptor chain and the order in which the DMA frees descriptors are one nondeterministic answer; the split flag, a static variable of the function, belongs to one device here.
- DacWriter.Dac.LoadDataIntoBuf: requires that it stores inside the buffer; StoresInsideIff says when. Dac.WaitToLoad, Dac.Write and Dac.WriteCyclically require an even buffer size when data is expanded to 16 bits.
- BlockDevices.Read: on a memory device itself, not through a partition, address plus length must not wrap 64 bits, as for Write and Erase; assertions of the source are preconditions.
- Block devices: ioctl, sync and release, which forward or do nothing.
- User interface pages, displays, BLE, TLS and sockets, storage drivers, I2C devices, ADC, camera: foreign calls with little logic of their own.
