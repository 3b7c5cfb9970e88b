# Proofs about the TASTE SAMV71/SAMRH71 RTEMS runtime

A Dafny model of the platform-independent core of the runtime and proofs of what that core promises.
`dafny verify dfyconfig.toml` checks the whole project.

| files | part of the runtime |
|---|---|
| `MachineIntegers.dfy`, `FixedPoint.dfy`, `ElapsedClock.dfy` | the elapsed-time clock: Q32.32 scaling in 64-bit arithmetic, and the reader that retries against the timer interrupt |
| `Gf2.dfy`, `BitString.dfy`, `Crc.dfy`, `CrcDetection.dfy`, `CrcPowers.dfy`, `CrcOrder.dfy`, `DeathReport.dfy` | the death report: its CRC as division of polynomials over GF(2), what that detects, and generation of the report in memory |
| `HandshakeTable.dfy`, `Xdmac.dfy`, `DmaModel.dfy`, `DmaDriver.dfy`, `DmaRuns.dfy`, `DmaCalls.dfy` | the DMA channel driver: handshake table, register layer, calls, runs of calls, and what each call answers and changes |
| `CyclicScheduler.dfy`, `ExecutionStatistics.dfy`, `RequestProcessing.dfy` | cyclic requests, execution statistics, and one request processed by a thread |
| `ActivationLog.dfy`, `StackScan.dfy` | the cyclic activation log and the stack high-water mark |

Code that updates state is modelled by classes, arrays and loops with the source's branches. Each such method is
proved against a function of its old state, and lemmas about that function carry the properties, in the states,
register fields, status bits, bytes and addresses themselves rather than through the function's own helpers. Integers are
unbounded; a `uint8_t`, `uint16_t`, `uint32_t` or `uint64_t` is the number it holds, with wrap-around and truncation
written out. Bitwise exclusive-or is `Gf2.Add`; a status register is the set of its one bits.

## Premises

- Clock: a counter wrap and its interrupt are one step as the reader sees it. The counter register shows at most
  65535. The shared modified flag is one boolean with set, reset and check.
- Clock: `SingleReader` says that no other task resets the shared flag between this reader's reset and its check; calls of
  other tasks at any other time are in the schedules. The flag is one static shared by all callers (`src/Hal/Hal.c:54`), so
  this is a premise about the callers, and only `SnapshotConsistent` and `OneReaderMonotone` need it. The other results hold
  for any number of readers, or under the weaker `NoHiddenWrap`, which `SnapshotExactIff` shows to be the exact condition.
- Death report: memory is one byte array indexed by address; the stack bytes to be saved are mapped. The end of the
  stack is the value the code reads through `bsp_section_rtemsstack_end` (`src/FaultHandler/DeathReportWriter.c:38`).
- DMA: each call is one atomic step; the hardware reports at most 24 channels (the array size) and a request count
  inside the 45-row table; callbacks do not touch the driver; one handler pass reads one value of each status register.
- DMA: peripheral identifiers belong to the board support package, so the table lemmas hold for any assignment of
  identifiers to peripherals.
- Scheduler: the conversion of nanoseconds to ticks is an input; the tick clock is the true tick count modulo 2^32.
- Statistics: the mean is a real number.
- Log and requests: a log indication with its clock reading is one step, and so is each reading around the user function:
  the threads of `EveryInterleavingFits` interleave between readings, each of which runs the retry loop against its own
  timer schedule.
- Stack: a scanned stack lies in 32-bit memory, neither at address 0 nor reaching the last address (`InAddressSpace`); at
  those two ends the code's null pointer and its 32-bit bound mean something else.

## What the proofs say about the code

- The snapshot protocol, the split multiplication, the CRC, the cyclic re-arming and the streaming mean are right for
  all inputs under the premises above.
- A second task that calls the clock between another's reset and check can hide a wrap from it (`HiddenByReset`), and the
  clock then jumps back (`SecondReaderTearsSnapshot`). Until the 32-bit reload count wraps, it never jumps back by more than
  one reload period, whatever the number of readers (`JumpBackBounded`).
- A cyclic callback exactly one interval late computes a delay of zero, and one later than that slips by 2^32 ticks
  (`RearmLate`). The first release comes one interval after the dispatch offset, not at it (`CreatedOnGrid`).
- The log query reports index 0xFFFFFFFF whenever the number of entries is a positive multiple of the buffer size
  (`IndexReportedIff`).
- Stopping a free channel takes it out of the pool without an allocation (`StopsFree` in `Conservation`). A callback
  survives freeing and re-allocating its channel (`CallbackIsLastSet`). A pending free channel keeps the handler from
  serving the pending channels above it (`DispatcherPass`).
- Allocation does not check the direction of a peripheral's handshake interface (`AllocatedWithoutInterface`), and the second
  `Dacc` row of the table can never be found (`Interface31Unreachable`).
- Up to three flipped bits in a death report of up to 32767 bits are always found (`SmallDamageFails`); two flipped bits pass
  exactly when they are a multiple of 32767 bits apart (`TwoBitsPassIff`).
- With an initial minimum of zero the reported minimum execution time stays zero (`MinimumIsMeasuredIff`).

## Where the code and its comments differ

The model follows the code.

- `src/Monitor/Monitor.h:223-224` says all activation logs are lost after freezing; freezing keeps the buffer and the count.
- `src/Xdmac/xdma_hardware_interface.c:119` says a lookup returns 0 to 15; the table holds interfaces up to 43.
- `src/Hal/Hal.h` promises the elapsed time without a condition on concurrent callers; see the premises above.

## Model

| member | source | states |
|---|---|---|
| FixedPoint.Scale | src/Hal/Hal.c:218-228 | the 64-bit split computation equals the wide-multiply reference, floor(total * q / 2^32) mod 2^64, for all 32-bit reloads and ticks and any 64-bit factor |
| FixedPoint.TotalBelow | src/Hal/Hal.c:218-219 | total ticks stay below 2^48 |
| FixedPoint.LowHalfFits | src/Hal/Hal.c:225-226 | none of the three operations on the low half of the ticks overflows 64 bits |
| FixedPoint.NoWrap | src/Hal/Hal.c:218-228 | the reference result is not truncated for factors up to 2^48 |
| FixedPoint.FactorFits | src/Hal/Hal.c:195-201 | the factor set up for a prescaled frequency is at most 2^48 exactly from 15259 Hz on |
| FixedPoint.Accuracy | src/Hal/Hal.c:195-228 | the result never exceeds total * 10^9 / f and lags it by less than 1 + total / 2^32 ns, in integers |
| FixedPoint.Lag | src/Hal/Hal.c:195-228 | the same as real numbers, with the bound 65537 ns over the whole range |
| ElapsedClock.Clock.constructor | src/Hal/Hal.c:146-204 | initialization starts the clock at zero with the factor of the master clock and its split halves |
| ElapsedClock.Clock.SetNsPerTickQ32 | src/Hal/Hal.c:70-75 | the stored halves always recombine to the factor |
| ElapsedClock.Clock.TimerIrqHandler | src/Hal/Hal.c:135-144 | one reload is counted, in 32 bits, and the flag is raised |
| ElapsedClock.Clock.GetElapsedTimeInNs | src/Hal/Hal.c:206-229 | the retry loop, run against any schedule of ticks, wraps and foreign resets, terminates and returns the scaled pair of its accepted pass, after as many passes as the bound below speaks of |
| ElapsedClock.RejectedIff | src/Hal/Hal.c:212-216 | a pass is rejected exactly when, between its reset and its check, the last event that touches the flag is a wrap |
| ElapsedClock.SnapshotConsistent | src/Hal/Hal.c:212-216 | with one reader at a time the reload count used is the true one at the instant of the last tick read, an instant between start and end of the call |
| ElapsedClock.SnapshotExactIff | src/Hal/Hal.c:206-216 | with any number of readers, the reload count used is that of the tick read exactly when no wrap falls between the two loads of the first pass of the schedule that is not rejected; in 32 bits, exactly when a multiple of 2^32 wraps does |
| ElapsedClock.HiddenByReset | src/Hal/Hal.c:212-216 | such a wrap can stay unseen only because another reader reset the flag before the check of the same pass |
| ElapsedClock.PassesBounded | src/Hal/Hal.c:212-216 | the loop runs at most once more than the timer wraps between the start and the end of the call, whoever else resets the flag |
| ElapsedClock.TimeNeverGoesBack | src/Hal/Hal.c:206-229 | the values of successive calls never decrease, through any number of wraps, until the 32-bit reload count wraps, as long as no wrap is hidden from a call |
| ElapsedClock.OneReaderMonotone | src/Hal/Hal.c:206-229 | with one reader at a time nothing is hidden and the values of successive calls never decrease |
| ElapsedClock.TornBound | src/Hal/Hal.c:206-219 | with any number of readers, the ticks used are at most those at the tick read, and at most one reload period behind the start of the call |
| ElapsedClock.JumpBackBounded | src/Hal/Hal.c:206-229 | with any number of readers, no call returns less than an earlier one by more than one reload period in ns, rounded up |
| ElapsedClock.SecondReaderTearsSnapshot | src/Hal/Hal.c:212-216 | a schedule with a second reader in which the clock falls from 65534 to 0 |
| Crc.CalculateCrc | src/FaultHandler/DeathReportWriter.c:56-71 | the nested loop returns the remainder of M(x) x^16 + 0xFFFF x^(8n) modulo x^16 + x^12 + x^5 + 1 |
| Crc.ChecksumIsRemainder | src/FaultHandler/DeathReportWriter.c:56-71 | the same for every byte string, as a lemma |
| Crc.MessageBitAt | src/FaultHandler/DeathReportWriter.c:60-67 | the message polynomial has the bytes in order, each with its most significant bit first |
| Crc.RemainderUnique | src/FaultHandler/DeathReportWriter.c:56-71 | a polynomial has only one remainder of degree below 16, so the previous row determines the checksum |
| Crc.BitStepCongruent | src/FaultHandler/DeathReportWriter.c:62-67 | one pass of the inner loop multiplies the register by x modulo the generator |
| Crc.ByteStepCongruent | src/FaultHandler/DeathReportWriter.c:60-68 | one pass of the outer loop multiplies by x^8 and adds the byte times x^16, modulo the generator |
| CrcDetection.UndetectedIff | src/FaultHandler/DeathReportWriter.c:73-82 | a damaged codeword is accepted exactly when the generator divides the error polynomial |
| CrcDetection.BurstDetected | src/FaultHandler/DeathReportWriter.c:73-82 | any change confined to 16 consecutive bits of payload and check word is detected, for payloads of any length |
| CrcDetection.PayloadBurst | src/FaultHandler/DeathReportWriter.c:73-82 | two different payloads of equal length that differ only within 16 consecutive bits have different checksums |
| CrcDetection.WideBurst | src/FaultHandler/DeathReportWriter.c:73-82 | among changes within 17 consecutive bits only the generator's own pattern passes |
| CrcDetection.OddDetected | src/FaultHandler/DeathReportWriter.c:73-82 | any odd number of flipped bits is detected |
| CrcOrder.OrderOfX | src/FaultHandler/DeathReportWriter.c:56-71 | x^d is 1 modulo the generator exactly when d is a multiple of 32767 |
| CrcOrder.TwoBitsPassIff | src/FaultHandler/DeathReportWriter.c:73-82 | two flipped bits, in a payload of any length, are accepted exactly when their distance is a multiple of 32767 |
| CrcOrder.FewBitsDetected | src/FaultHandler/DeathReportWriter.c:73-82 | one to three flipped bits in a codeword of up to 32767 bits are detected |
| DeathReport.ReportSize | src/FaultHandler/DeathReport.h:57-108 | the report's size is a multiple of four with room for every field and fewer than four bytes of padding |
| DeathReport.SaveStack | src/FaultHandler/DeathReportWriter.c:30-54 | the stored length is at most 512, never leads past the stack's end, reaches it exactly if below 512, and is 512 only with at least 512 bytes left (modulo 2^32); exactly that many bytes are copied, and no other byte changes |
| DeathReport.LengthDetermined | src/FaultHandler/DeathReportWriter.c:37-47 | only one length has these properties |
| DeathReport.LittleEndian | src/FaultHandler/DeathReportWriter.c:30-54 | the pointer and length fields are read and written low byte first |
| DeathReport.GenerateDeathReport | src/FaultHandler/DeathReportWriter.c:89-104 | the finished report passes its own check; was_seen and padding are cleared; it holds the length above and that part of the stack; registers, exception id, the rest of the trace and all other memory are unchanged |
| DeathReport.CalculateReportCrc | src/FaultHandler/DeathReportWriter.c:73-82 | the checksum covers the report past its checksum field |
| DeathReport.DamagedBurstFails | src/FaultHandler/DeathReportWriter.c:73-104 | a verified report damaged within 16 consecutive covered bits no longer verifies |
| DeathReport.OddDamageFails | src/FaultHandler/DeathReportWriter.c:73-104 | a verified report with an odd number of flipped bits anywhere, checksum field included, no longer verifies |
| DeathReport.SmallDamageFails | src/FaultHandler/DeathReportWriter.c:73-104 | a verified report of up to 32767 bits with one to three flipped bits anywhere no longer verifies |
| HandshakeTable.GetChannelNumber | src/Xdmac/xdma_hardware_interface.c:122-133 | the search loop returns the interface of the first matching row, or 0xFF |
| HandshakeTable.IsValidatedPeripheral | src/Xdmac/xdma_hardware_interface.c:144-159 | the validation loop accepts memory and exactly the peripherals that have a row |
| HandshakeTable.LookupIff | src/Xdmac/xdma_hardware_interface.c:122-133 | a lookup succeeds exactly when a row in range has the peripheral and the direction |
| HandshakeTable.ValidatedIff | src/Xdmac/xdma_hardware_interface.c:122-159 | an identifier is accepted exactly when it is 0xFF or has an interface in some direction |
| HandshakeTable.InterfacesDistinct | src/Xdmac/xdma_hardware_interface.c:60-107 | no two peripheral directions share an interface, apart from interface 0 |
| HandshakeTable.Interface31Unreachable | src/Xdmac/xdma_hardware_interface.c:93-94 | no lookup ever returns interface 31 |
| HandshakeTable.DirectionNotValidated | src/Xdmac/xdma_hardware_interface.c:144-159 | with distinct identifiers, Pwm0 is accepted although it has no receive interface |
| Xdmac.Controller.Issue | src/Xdmac/xdmac.c:97-187 | a strobe adds one command to the log and touches no transfer register |
| Xdmac.Controller.SetBlockControl | src/Xdmac/xdmac.c:460-465 | the length is stored in 12 bits, whatever the 16-bit parameter drops |
| DmaDriver.Driver.Initialize | src/Xdmac/xdmad.c:162-196 | the first call clears every reported channel, later calls change nothing |
| DmaDriver.Driver.AllocateXdmacChannel | src/Xdmac/xdmad.c:103-149 | the first free channel is claimed with its handshake interfaces, or nothing changes and 0xFFFF is returned |
| DmaDriver.Driver.AllocateChannel | src/Xdmac/xdmad.c:206-221 | the same under the allocation lock, failing without it |
| DmaDriver.Driver.FreeChannel | src/Xdmac/xdmad.c:228-245 | only a done or halted channel becomes free; allocated and started ones report busy |
| DmaDriver.Driver.SetCallback | src/Xdmac/xdmad.c:254-270 | the callback changes unless the channel is free, started or out of range |
| DmaDriver.Driver.PrepareChannel | src/Xdmac/xdmad.c:279-312 | the transfer registers it clears and the disable commands it issues |
| DmaDriver.Driver.ConfigureWithDescriptorFetch | src/Xdmac/xdmad.c:477-493 | which registers each descriptor view writes, the rest keeping their contents |
| DmaDriver.Driver.ConfigureWithoutDescriptorFetch | src/Xdmac/xdmad.c:495-513 | all ten transfer registers end as the masked parameters, in whatever order they are written |
| DmaDriver.Driver.ConfigureTransfer | src/Xdmac/xdmad.c:520-548 | a free, started or out-of-range channel is refused untouched, any other is configured by descriptor fetch or without |
| DmaDriver.Driver.StartTransfer | src/Xdmac/xdmad.c:555-578 | the channel becomes started and is enabled, with its interrupt unless polling |
| DmaDriver.Driver.StopTransfer | src/Xdmac/xdmad.c:585-602 | the channel becomes halted from any state and is disabled |
| DmaDriver.Driver.HandleChannelInterruptStatus | src/Xdmac/xdmad.c:321-361 | the channel is marked done exactly for a block end with list end masked off, a list end or a disable end |
| DmaDriver.Driver.HandleChannelInterrupts | src/Xdmac/xdmad.c:371-383 | the callback is wanted exactly when the channel has ended, or is live and at a block end |
| DmaDriver.Driver.HandleChannel | src/Xdmac/xdmad.c:393-410 | one channel is served, or the pass is told to stop at a pending free one |
| DmaDriver.Driver.Handler | src/Xdmac/xdmad.c:421-448 | the loop equals one dispatcher pass, with its callbacks in order |
| DmaDriver.Driver.IsTransferDone | src/Xdmac/xdmad.c:456-475 | the answer for each state, and the handler pass in polling mode |
| DmaModel.FirstFree | src/Xdmac/xdmad.c:128-145 | the least free channel, with every channel before it owned |
| DmaModel.Barrier | src/Xdmac/xdmad.c:397-400 | the least pending free channel, or the channel count |
| DmaRuns.InitializedIsFresh | src/Xdmac/xdmad.c:162-196 | initialization leaves every channel free, the start of the runs below |
| DmaRuns.StepOwnership | src/Xdmac/xdmad.c:103-602 | a channel changes between free and owned exactly by an allocation, a Free that finds it done or halted, or a Stop that finds it free |
| DmaRuns.ExclusiveOwnership | src/Xdmac/xdmad.c:103-245 | between two allocations of one channel in a run lies a Free that found it done or halted |
| DmaRuns.Conservation | src/Xdmac/xdmad.c:103-602 | in every run, owned channels = successful allocations - releasing frees + stops of a free channel |
| DmaRuns.NeverInTransfer | src/Xdmac/xdmad.c:103-602 | no run reaches the in-transfer state |
| DmaRuns.StepFrozen | src/Xdmac/xdmad.c:279-602 | no call writes the transfer registers of a started channel |
| DmaRuns.FrozenWhileStarted | src/Xdmac/xdmad.c:279-602 | over any stretch of a run in which a channel is started its transfer registers keep their contents |
| DmaRuns.RegistersMatchHistory | src/Xdmac/xdmad.c:279-548 | in every run, field by field, the ten registers hold the parameters of the last accepted Configure without descriptor fetch, lengths and strides cut to 24 or 12 bits and the descriptor cleared, if no Prepare or fetching Configure followed |
| DmaRuns.CallbackIsLastSet | src/Xdmac/xdmad.c:254-270 | in every run a channel's callback is the last one accepted for it, across frees and re-allocations |
| DmaRuns.CommandsMatchStates | src/Xdmac/xdmad.c:555-602 | in every run a started channel was last told to enable, a halted one last told to disable |
| DmaRuns.AllocatedHasInterface | src/Xdmac/xdmad.c:103-149 | a successful allocation has memory on one end, claims the first free channel for its two ends, stores for each of the four interfaces that of the first matching table row (0xFF without one), and its peripheral end has one |
| DmaRuns.AllocatedWithoutInterface | src/Xdmac/xdmad.c:109-143 | allocating from Pwm0 to memory claims a channel although Pwm0 has no receive interface |
| DmaRuns.AllocationFailsIff | src/Xdmac/xdmad.c:103-221 | allocation fails exactly without the lock, between two peripherals, for a peripheral that no row up to the last names, or with every channel owned |
| DmaRuns.DispatcherPass | src/Xdmac/xdmad.c:321-448 | with k the least pending free channel or the channel count, a pass serves exactly the pending channels below k in order: an inactive one is marked done and called back at a block end with list end masked off, a list end or a disable end, each unmasked; an active one is called back at a raw block end and not marked; nothing else changes |
| DmaRuns.SingleBlockEnds | src/Xdmac/xdmad.c:321-448 | a started single-block transfer at its block end becomes done and is called back once |
| DmaCalls.Answers | src/Xdmac/xdmad.c:228-602 | which states make each call answer error or busy |
| DmaCalls.RefusedChangesNothing | src/Xdmac/xdmad.c:228-602 | a refused call leaves the whole driver and controller as they were |
| DmaCalls.CompletionAnswer | src/Xdmac/xdmad.c:456-475 | the answer of a completion query by state, and that it runs a handler pass exactly when busy and polling |
| DmaCalls.StateGraph | src/Xdmac/xdmad.c:103-602 | every change of a channel's state, and the call that makes it |
| DmaCalls.Untouched | src/Xdmac/xdmad.c:103-602 | a call changes no channel that it neither names nor claims nor serves, and no registers but those it prepares or configures |
| DmaCalls.InitializedOnce | src/Xdmac/xdmad.c:162-196 | initialization sets mode and channel count, and a second one changes nothing |
| DmaCalls.TypeFields | src/Xdmac/xdmad.c:180 | the channel count and the last request are the fields of the type register |
| DmaCalls.ChannelByLowByte | src/Xdmac/xdmad.c:230 | a channel is named by the low byte, whatever controller number is above it |
| DmaCalls.Prepared | src/Xdmac/xdmad.c:279-312 | the fields and commands of a prepared channel |
| DmaCalls.ConfiguredFetching | src/Xdmac/xdmad.c:477-493 | with descriptor fetch, what bits 3 and 4 of the descriptor configuration make the call write, field by field, and the interrupts it sets |
| DmaCalls.StartedAndStopped | src/Xdmac/xdmad.c:555-602 | the commands of a start, by mode, and of a stop |
| DmaCalls.InterruptsMatchMode | src/Xdmac/xdmad.c:279-602 | in every run a polling driver leaves every channel's interrupt off, and otherwise each started channel's is on |
| CyclicScheduler.Scheduler.ScheduleNextTick | src/ThreadsCommon/ThreadsCommon.c:55-70 | the wakeup advances by one interval in 32 bits and the timer is armed with the difference to now |
| CyclicScheduler.Scheduler.TimerCallback | src/ThreadsCommon/ThreadsCommon.c:72-83 | one request is sent, then the timer is re-armed; other requests are untouched |
| CyclicScheduler.Scheduler.CreateCyclicRequest | src/ThreadsCommon/ThreadsCommon.c:111-143 | a request is added and armed, or nothing is armed when the table is full or the timer cannot be created |
| CyclicScheduler.RearmTargetIff | src/ThreadsCommon/ThreadsCommon.c:61-69 | the timer targets the next grid instant exactly when that instant is not past and less than 2^32 ticks ahead |
| CyclicScheduler.RearmOnTime | src/ThreadsCommon/ThreadsCommon.c:61-69 | a callback less than one interval late re-arms after 1 to `interval` ticks, for exactly the next grid instant |
| CyclicScheduler.RearmLate | src/ThreadsCommon/ThreadsCommon.c:61-69 | one interval late the delay is zero; later the release slips by 2^32 ticks |
| CyclicScheduler.CreatedOnGrid | src/ThreadsCommon/ThreadsCommon.c:130-141 | creation arms the first release one interval after the offset |
| CyclicScheduler.FireServesInstant | src/ThreadsCommon/ThreadsCommon.c:72-83 | a punctual callback serves its own grid instant and leaves every request on its grid |
| CyclicScheduler.Scheduler.ServeExpiries | src/ThreadsCommon/ThreadsCommon.c:55-83 | a run of timer callbacks appends exactly the sends and re-armings of the run, and leaves its entries |
| CyclicScheduler.DriftFree | src/ThreadsCommon/ThreadsCommon.c:55-83 | over every run of punctual callbacks of all requests and every 32-bit wrap, each timer targets exactly offset + (k + 1) * interval after k callbacks |
| CyclicScheduler.EveryFiringServes | src/ThreadsCommon/ThreadsCommon.c:55-83 | in such a run the n-th callback of a request falls between its instants n and n + 1, sends that request's message once, and arms its timer for exactly instant n + 1; nothing else is sent or armed |
| CyclicScheduler.EachInstantServedOnce | src/ThreadsCommon/ThreadsCommon.c:55-83 | in such a run each grid instant of a request, up to its last run, is served by exactly one callback, which sends the request |
| ExecutionStatistics.ThreadInfo.UpdateExecutionTimeData | src/ThreadsCommon/ThreadsCommon.c:85-109 | one measurement is folded into the statistics, which stay the fold of all measurements since the start |
| ExecutionStatistics.ThreadInfo.GetUsageData | src/Monitor/Monitor.c:214-225 | the reported average is the integer quotient of the sum of all measurements by their number, between the reported extremes, which bound every measurement |
| ExecutionStatistics.MeanIsAverage | src/ThreadsCommon/ThreadsCommon.c:101-108 | after n measurements the mean is their sum over n, whatever the initial mean |
| ExecutionStatistics.ReportedAverage | src/Monitor/Monitor.c:222-223 | the mean without its fraction is the sum divided by the count, rounded down |
| ExecutionStatistics.ExtremesOfHistory | src/ThreadsCommon/ThreadsCommon.c:89-99 | minimum and maximum are those of the history joined with the initial values |
| ExecutionStatistics.MeanBetweenExtremes | src/ThreadsCommon/ThreadsCommon.c:85-109 | minimum <= mean <= maximum, also for the reported integer average |
| ExecutionStatistics.MinimumIsMeasuredIff | src/ThreadsCommon/ThreadsCommon.c:89-93 | the minimum is a measured one exactly when the initial minimum is no smaller than some measurement |
| RequestProcessing.Indicate | src/Monitor/Monitor.c:283-293 | one entry with the clock's reading is appended, or with a frozen log nothing happens and the clock is not read |
| RequestProcessing.ProcessRequest | src/ThreadsCommon/ThreadsCommon.c:145-169 | an activation, two readings around the user function and a deactivation, in this order, and the difference recorded, or with a frozen log only the two readings; in either case the recorded time is at least that from the start to the end of the user function, and the two log entries enclose both |
| RequestProcessing.MeasurementCovers | src/ThreadsCommon/ThreadsCommon.c:156-164 | the first reading is no later than the start of the user function, the second no earlier than its end |
| RequestProcessing.MeasuredTimeFitsBracket | src/ThreadsCommon/ThreadsCommon.c:152-164 | the measured time is at most the difference of the two log timestamps around it, and the log stays in time order |
| RequestProcessing.EveryInterleavingFits | src/ThreadsCommon/ThreadsCommon.c:145-169 | the same for every completed request in every interleaving of several threads' requests, and that its measured time covers its user function; each reading taken through the retry loop against any timer schedule that hides no wrap from it |
| ActivationLog.Log.Indicate | src/Monitor/Monitor.c:59-82 | an unfrozen log appends the entry to its history and the buffer keeps agreeing with it; a frozen one changes nothing |
| ActivationLog.Log.GetEntryLog | src/Monitor/Monitor.c:295-325 | the size is min(c, N) and the index names the newest entry, except at positive multiples of N |
| ActivationLog.Log.Freeze | src/Monitor/Monitor.c:327-340 | the log is frozen with its history kept; success only with a non-empty buffer |
| ActivationLog.Log.Unfreeze | src/Monitor/Monitor.c:342-355 | a log without a buffer stays frozen, so no entry is ever taken modulo zero |
| ActivationLog.Log.Clear | src/Monitor/Monitor.c:357-370 | the history restarts empty |
| ActivationLog.AppendAgrees | src/Monitor/Monitor.c:72-78 | slot i mod N keeps holding entry i for each of the last min(c, N) entries |
| ActivationLog.IndexReportedIff | src/Monitor/Monitor.c:308-321 | the reported index names the newest entry exactly when c mod N is not 0, and is 0xFFFFFFFF otherwise |
| ActivationLog.ReadBack | src/Monitor/Monitor.c:295-325 | reading backwards from the reported index recovers the last entries, newest first |
| StackScan.FindHighWaterMark | src/Monitor/Monitor.c:120-145 | the scan returns the address of the first word without the pattern, or none |
| StackScan.GetMaximumStackUsage | src/Monitor/Monitor.c:162-252 | the usage of the first task with the identifier, or -1 without such a task or without a stack area |
| StackScan.UsageTight | src/Monitor/Monitor.c:120-189 | reported usage is the size less the longest untouched prefix, 0 exactly if everything is untouched |
| StackScan.UsageInStack | src/Monitor/Monitor.c:162-252 | the reported number is -1 without a stack area; for less than 2^31 bytes it is 0 exactly if every word keeps the pattern, and otherwise leads to the first word that lost it |
| StackScan.UsageMonotone | src/Monitor/Monitor.c:120-189 | usage never decreases while words lose the pattern and none regain it |

## Left out

- RTEMS semaphores, queues, timers and tasks: only status codes, sent requests and armed delays appear. What the kernel does with a delay of zero is not part of this model.
- The board support package (Pmc, Tic, Wdt, Mpu, Nvic, Scb, Rstc): frequencies and register reads are inputs; the real period of the timer is not derived from its configuration.
- Races inside a DMA call or inside a log indication: both are single steps here.
- The controller's own updates of channel registers during a transfer: only what the driver writes is tracked, and enable and disable strobes are kept as a log of commands.
- The register setters of `Xdmac.dfy` have no row each: their contracts are their bodies, and `DmaRuns.RegistersMatchHistory` says what they come to.
- Callbacks that call the driver from within a handler pass.
- The software flush poll and the suspend, resume and request setters of the register layer, which the driver does not use.
- `Hal_SleepNs`, the millisecond-to-tick conversion and the idle CPU percentage: floating point.
- `ThreadsCommon_SendRequest`, the queue getters, HAL semaphores, watchdog and boot helpers: single branches around kernel calls.
- Fault entry in assembly and the vector table; the preprocessor clock presets.
- The build configurations without the activation log or without stack measurement, and stacks that grow upward.
- ExecutionStatistics.MeanIsAverage: stated for fewer than 2^64 measurements, after which the 64-bit counter restarts.
- ActivationLog.Log.Indicate: agreement with the history is kept for fewer than 2^64 entries since the last clear, after which the 64-bit counter restarts.
