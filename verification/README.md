# edge-omni in Dafny

edge-omni is a sensor daemon for an Orange Pi: an MPU6050 and an SHT30 are read by a collector
thread, stored in SQLite, shown over Modbus and HTTP, and watched by a hardware-watchdog thread.
This project models the parts of it that carry state or arithmetic and proves what they keep over
every run.

`dafny verify dfyconfig.toml` checks everything.

| file | models |
|---|---|
| Words32, CArith, Circular, Bytes, Options | `uint32_t` arithmetic and `&`, C division and casts, round-robin slots, bytes as bits, optional values |
| Sensor | the data point of app/include/sensor_hal.h |
| RingBuffer, RingRuns, RingTears | app/core/ring_buffer.c, as a class, as interleaved atomic steps, and with stores and copies that take time |
| Fsm, FsmMonitor | app/core/fsm.c, sequentially and as a monitor with any number of threads |
| Collector, CollectorHistory | the collector loop of app/main.c, with the start of the Modbus server beside it, and its effects told from what it met |
| RegisterRuns | the four Modbus registers as interleaved stores, loads and zeroing |
| Metrics, MetricsRuns | app/core/metrics.c, sequentially and with a concurrent reader |
| Crc8, CrcErrors, CrcDivision, Sht30 | the measurement part of kernel-drivers/sht30/sht30.c |
| Blacklist, BlacklistRuns, BlacklistBans, BlacklistEvictions, BlacklistSessions | the blacklist and request handling of app/modbus/modbus_server.c |
| DbBatch | the insert batch of app/core/db_manager.c |
| Watchdog | the monitor loop of app/core/watchdog.c |
| MpuHal | mpu6050_hal_read of app/hal/mpu6050_hal.c |

Each C object is a class whose methods follow the C functions statement by statement; a method's
contract says that the new state is a specification function of the old one. The theorems are about
those functions and about runs of them. Clocks, bus results, input events, allocation results and
SQLite step results are parameters.

## What the proofs found

- Ring buffer: the full test compares the masked `w + 1` with the unmasked read index
  (app/core/ring_buffer.c:52). It is right exactly while the read index is at most the mask or the
  buffer is not full (`FullTestMeans`, `DecidesAsIntended`, `WriteKeepsBound`). Past that point every
  write is accepted, and the next read is right exactly while the unread items still fit the slots
  (`BurstThenRead`). A run hands its items out in order exactly if every copy ends with fewer than
  `capacity` items stored since its own, or just as many and no store under way (`FifoIffInTime`).
  For every capacity from 2 there is a run that hands out the wrong item (`AsWrittenCanLose`) and one
  whose last copy overlaps a store to its slot and may hand out anything (`CopyCanTear`), although
  app/core/ring_buffer_test.c:99-100 announces zero data loss. The variant `Masked`, which masks both
  sides, is the intended queue and is proved FIFO, and free of such overlaps, for all runs. A buffer
  of capacity 1 never accepts anything.
- Collector: RECOVERING needs an SHT30 read that *fails* in a turn that ends with both streaks at
  three. For an SHT30 that returns 0 bytes the plainer statement "both streaks reached three" would be
  wrong; the repository's SHT30 HAL (app/hal/sht30_hal.c:70-101) never does, and for it the plainer
  statement is proved. Nothing raises BUS_RECOVERED, so RECOVERING is never left.
- Modbus registers: main starts the collector (app/main.c:718) before the Modbus server
  (app/main.c:775), whose start zeroes the registers (app/modbus/modbus_server.c:218). A reading
  stored before that is gone until the next good one (`RegistersShowLatest`, `ReadingIsShownIff`,
  `StartHidesReading`): with the SHT30 failing from then on the registers show 0 for good. A reply
  can also mix two updates, a register being at most one update behind an earlier one
  (`ReplyMixesLittle`, `NewerFirst`, `OlderFirst`).
- FSM monitor: a wait whose timeout fires returns -1 even if the state has become the target
  (`ExpiryWins`, `ExpiryCanWin`).
- Latency window: the signed index leaves the array at call number 2^31 + 1 (`IndexInWindow`).
- SHT30: the factor 21965 (kernel-drivers/sht30/sht30.c:96) is not the datasheet's; the reported
  temperature is high by an amount that grows with it, up to 717 milli-degrees.
- Database: with the database closed, the eleventh insert would write past the buffer
  (`InsertFitsBuffer`); results of SQLite calls are not looked at, so a failed step loses its record
  (`FlushConserves`), and a run keeps everything exactly if no step failed (`HeldIffClean`). The clock
  comparison rounds up when the nanosecond fields are out of order, so a batch may be flushed up to
  one millisecond early.
- Blacklist: a seventeenth distinct offender takes over slot 0, and with it the table forgets a
  running ban (`EvictionLosesBan`, `SeventeenthFreesFirst`); nothing else makes the table end one
  early (`BanEndsEarlyIff`). This is about what the table answers: the firewall rule added when the
  ban started (app/modbus/modbus_server.c:96) is not modelled, and an eviction does not remove it.
- MPU6050 HAL: the drain hands out slots by position, so the start of an interrupted frame is
  misread (`SplitFrame`), the frame that follows loses as many channels as were left over
  (`LeftoversPushOut`), and while the stream stays busy every later call mixes two frames
  (`CutKeepsMixing`); the first pause after the next frame heals it (`PauseHealsCut`). A read error
  loses the points drained by the same call (`DryCall`). One frame that arrives with fewer than six axes does the same
  (`ShortFrameKeepsMixing`). Six events that repeat a channel leave an old point in the frame
  (`FrameIsWhole`).

## Model

| member | source | states |
|---|---|---|
| Words32.AndMaskIsMod | app/core/ring_buffer.c:36-66 | `x & (2^k - 1)` is the remainder of x by 2^k, for the bitwise definition of `&` |
| Words32.PowerOfTwoTest | app/core/ring_buffer.c:21 | `c & (c - 1)` is 0 for a positive c exactly when c is a power of two |
| Words32.WrapKeepsSlot | app/core/ring_buffer.c:55-66 | masking an index that wraps at 2^32 gives the slot of the unbounded index, for every capacity a word can hold |
| Words32.MinusExact | app/core/ring_buffer.c:76 | the wrapped difference of two counters is the true one while it fits a word |
| RingBuffer.RingBuffer.Create | app/core/ring_buffer.c:20-38 | succeeds exactly for powers of two (and when both allocations succeed), with both indices 0 and that many slots |
| RingBuffer.RingBuffer.Write | app/core/ring_buffer.c:49-58 | refuses exactly when the test as written fires; otherwise stores at index mod capacity and advances the write index, and nothing else changes |
| RingBuffer.RingBuffer.Read | app/core/ring_buffer.c:60-69 | refuses exactly when the indices are equal; otherwise returns the slot at read index mod capacity and advances the read index; a refused read leaves the caller's item alone |
| RingBuffer.RingBuffer.Count | app/core/ring_buffer.c:73-77 | the wrapped difference of the indices modulo the capacity |
| RingBuffer.RingBuffer.Capacity | app/core/ring_buffer.c:79-81 | the number of slots |
| RingRuns.AlwaysStep | app/core/ring_buffer.c:49-69 | every atomic step of either variant keeps the words equal to the unbounded counters, the threads' local copies consistent, and each slot holding the newest item with its residue |
| RingRuns.CopyReadsNewest | app/core/ring_buffer.c:66 | in every run of either variant a read that no store to its slot overlaps copies the newest stored item congruent to its number; it is its own item exactly when at most `capacity` items have been stored since |
| RingRuns.FullTestMeans | app/core/ring_buffer.c:52-54 | the masked full test fires exactly when mask items are held; the test as written fires exactly when moreover the read index is at most the mask |
| RingRuns.DecidesAsIntended | app/core/ring_buffer.c:52-54 | in any reachable good state the test step of the code as written acts as the masked one exactly when the loaded read index is at most the mask or the buffer does not look full |
| RingRuns.FifoStep | app/core/ring_buffer.c:49-69 | every atomic step keeps FIFO order, the free slot and the threads' knowledge, for the masked variant always and for the code as written when its test decides correctly |
| RingRuns.MaskedIsFifo | app/core/ring_buffer.c:49-69 | intended queue: in every interleaving of one producer and one consumer the items read are a prefix of the items accepted, in order, and at most capacity - 1 are held |
| RingRuns.AsWrittenIsFifo | app/core/ring_buffer.c:49-69 | code as written: the same in every interleaving whose test steps see a read index at most the mask or a buffer that does not look full |
| RingRuns.AsWrittenIsFifoAtFirst | app/core/ring_buffer.c:49-69 | code as written: the same in every interleaving in which at most mask reads have finished |
| RingRuns.WriterSlotIsFree | app/core/ring_buffer.c:55-66 | the slot being written is never the slot being read nor one that holds an unread item |
| RingRuns.RefusalsAreHonest | app/core/ring_buffer.c:50-65 | a write is refused exactly when the buffer was full as the read index was loaded, a read exactly when it was empty as the write index was loaded |
| RingRuns.CountMeans | app/core/ring_buffer.c:73-77 | for the indices as loaded one after the other, R perhaps later than W: the count is their difference modulo the capacity, hence the number of items held below the capacity, 0 for `capacity` items, and short of the capacity by the reads that overtook the loaded W |
| RingRuns.UninterruptedWrite | app/core/ring_buffer.c:49-58 | the five atomic steps of an uninterrupted write have the effect of the class's Write |
| RingRuns.UninterruptedRead | app/core/ring_buffer.c:60-69 | an uninterrupted read of a non-empty buffer returns the newest item congruent to its number and changes nothing of the producer's |
| RingRuns.WriteKeepsBound | app/core/ring_buffer.c:49-58 | an uninterrupted write keeps a slot free if and only if the read index is at most the mask or the buffer was not full (always, in the masked variant) |
| RingRuns.BurstIsAccepted | app/core/ring_buffer.c:52-54 | code as written: once the read index has passed the mask, any number of writes in a row is accepted |
| RingRuns.BurstThenRead | app/core/ring_buffer.c:49-69 | code as written: with the read index past the mask, the read after a burst of writes returns its own item if and only if the unread items fit the slots, and a later item otherwise |
| RingRuns.AsWrittenCanLose | app/core/ring_buffer.c:49-69 | code as written: for every capacity from 2 there is a run, starting empty, whose reads are not a prefix of its writes |
| RingRuns.CapacityOneHoldsNothing | app/core/ring_buffer.c:52-54 | with capacity 1 no run of either variant ever accepts or returns an item |
| RingTears.SplitStepKeepsInv | app/core/ring_buffer.c:49-69 | with stores and copies split into a begin and an end, every step of either variant keeps what AlwaysStep keeps, and a copy is torn only while more than `capacity` items have been stored since its own, or just as many and another store is under way |
| RingTears.SameSlotMeans | app/core/ring_buffer.c:55-66 | when a store and a copy are both due, they are for one slot only if at least `capacity` items have been stored since the copy's own, and always if just as many have |
| RingTears.UntornSlotIsSteady | app/core/ring_buffer.c:66 | during a copy that is not torn its slot holds the same item throughout |
| RingTears.CopyHandsOut | app/core/ring_buffer.c:66 | in every run of either variant a torn copy hands out anything, another one the newest stored item congruent to its number; it is untorn and its own item exactly if fewer than `capacity` items have been stored since, or just as many and no store is under way |
| RingTears.OrderStep | app/core/ring_buffer.c:49-69 | a step that ends no copy late keeps the handed-out items a prefix of the stored ones; with items and torn copies told apart, only such a step does |
| RingTears.FifoIffInTime | app/core/ring_buffer.c:49-69 | either variant, every interleaving: if every copy ends in time the items handed out are the stored ones in order, whatever torn copies would yield; with distinct items and torn copies unlike any of them, only then |
| RingTears.MaskedNeverTears | app/core/ring_buffer.c:49-69 | intended queue: no copy overlaps a store to its slot, the items read are a prefix of the items accepted, at most capacity - 1 are held |
| RingTears.AsWrittenNeverTears | app/core/ring_buffer.c:49-69 | code as written: the same in every interleaving whose test steps see a read index at most the mask or a buffer that does not look full |
| RingTears.AsWrittenNeverTearsAtFirst | app/core/ring_buffer.c:49-69 | code as written: the same in every interleaving in which at most mask reads have finished |
| RingTears.WholeRunIsSplitRun | app/core/ring_buffer.c:49-69 | every run of RingRuns is a run of the split system in which nothing overlaps |
| RingTears.CopyCanTear | app/core/ring_buffer.c:49-69 | code as written: for every capacity from 2 there is a run with only one item ever written, and no more than `capacity` stored since, whose last read overlaps a store to its slot and hands out anything |
| Fsm.FsmContext.constructor | app/core/fsm.c:96-121 | starts in INIT with all counters 0 |
| Fsm.FsmContext.Transition | app/core/fsm.c:124-142 | moves along the transition table and returns 0, or returns -1 and leaves the state |
| Fsm.FsmContext.GetState | app/core/fsm.c:144-155 | the current state |
| Fsm.EventHasOneTarget | app/core/fsm.c:30-94 | the table by event: the states in which each of the eight events is legal, and the one state it then leads to |
| Fsm.InitOnlyThroughFault | app/core/fsm.c:30-94 | for every event sequence: a run that starts outside INIT and ends in it was in FAULT and took a watchdog reset there |
| FsmMonitor.StepKeepsInv | app/core/fsm.c:124-190 | every step of every thread keeps the lock exclusive, blocked waiters' targets different from the state (or a broadcast pending), and returned codes true |
| FsmMonitor.MonitorIsSafe | app/core/fsm.c:124-190 | in every interleaving of any number of transitions and waiters: one lock holder, no lost wake-up, 0 only with the state equal to the target under the lock, -1 only with a timeout, and the state that of the sequential machine after the same events in lock order |
| FsmMonitor.WaiterGetsThrough | app/core/fsm.c:162-190 | in every reachable state with the lock free and the state equal to a waiter's target, the waiter is not blocked, and if no timeout of its own has fired three of its own steps return 0 |
| FsmMonitor.ExpiryWins | app/core/fsm.c:180-185 | a waiter woken by its timeout returns -1 whatever the state is by then |
| FsmMonitor.ExpiryCanWin | app/core/fsm.c:162-190 | a run in which a wait for RUNNING returns -1 while the state is RUNNING |
| FsmMonitor.FailuresAreTimeouts | app/core/fsm.c:162-190 | in every interleaving a thread's waits have returned -1 exactly as often as its own timeouts have fired, but for one still on its way |
| FsmMonitor.CodesAreSequential | app/core/fsm.c:124-142 | in every interleaving the transitions return, in lock order, what the sequential machine returns for the same events |
| FsmMonitor.TransitionGetsThrough | app/core/fsm.c:124-142 | in every reachable state with the lock free a transition's own steps move the state as the table says, return its code, and wake every blocked waiter exactly if the event was legal |
| FsmMonitor.Deadline | app/core/fsm.c:173-179 | the deadline has nanoseconds below one second and is exactly now plus the timeout |
| Collector.Collector.constructor | app/main.c:695-711 | the loop starts in RUNNING, after INIT_OK, with all streaks 0 |
| Collector.Collector.TryOpen | app/main.c:139-148 | a handle is open afterwards exactly when one was or one of the four devices opens |
| Collector.Collector.Iterate | app/main.c:131-302 | one turn of the loop has exactly the effect Turn describes on streaks, handles, state, counters, rows, registers and heartbeat |
| Collector.Collector.StoreReadings | app/main.c:209-215 | one row per point, in order, and the latest X and Y accelerations are the last points on channels 0 and 1 |
| Collector.Collector.ServerStart | app/modbus/modbus_server.c:217-218 | zeroes the four registers and touches nothing else of the collector |
| Collector.WarmUp | app/main.c:76-116 | the start-up probe keeps the first of four devices that opens and delivers data within fifty reads, and none if there is none |
| Collector.StateFromHistory | app/main.c:131-299 | for every run, RECOVERING exactly if some turn whose SHT30 read failed ended with both streaks at least 3; otherwise DEGRADED exactly if the MPU streak is at least 3; otherwise RUNNING |
| Collector.RecoveringIffBothOffline | app/main.c:252-268 | if SHT30 reads never return 0 bytes, RECOVERING exactly if some turn ended with both streaks at least 3 |
| Collector.RecoveringIsEnteredFromDegraded | app/main.c:264-267 | in every run RECOVERING is never left, and is entered only from DEGRADED |
| Collector.TurnMeasure | app/main.c:138-244 | 10 * fail streak + no-data streak falls to 0 on data, rises by 1 to 10 on any other turn; the no-data streak stays below 10; the failure counter rises with the streak |
| Collector.MeasureTracksSilence | app/main.c:138-244 | for every run the measure lies between the number of silent turns and ten times it |
| Collector.SilenceIsNoticed | app/main.c:138-244 | thirty turns in a row without data end in DEGRADED or RECOVERING; DEGRADED never comes before three |
| Collector.EmptyReadsTakeThirty | app/main.c:217-243 | with reads that are always empty the state is still RUNNING after n turns if and only if n is below 30 |
| Collector.LatestIsKept | app/main.c:209-215 | for every run the stored accelerations are those of the last delivered points on their channels |
| Collector.StartTouchesRegistersOnly | app/main.c:718-775 | in every run, but for the registers, everything is as if the Modbus server had not started |
| Collector.RegistersShowLatest | app/main.c:268-296 | for every run, whenever the server start zeroes which register: each shows the last good SHT30 reading or newest acceleration delivered by then if that was stored after its zeroing or there was none, and 0 otherwise |
| Collector.ReadingIsShownIff | app/main.c:290-296 | the registers hold the last good reading if and only if each register that is not 0 in it was stored after it was last zeroed |
| Collector.StartHidesReading | app/main.c:718-775 | a good reading, then the server start, then any number of failing reads: all registers show 0 |
| Collector.RegistersDecode | app/main.c:290-295 | the temperature register read as int16 is temp / 10 truncated, exactly when that fits; an acceleration register restores the sensor's 16-bit word |
| CollectorHistory.RowsAreReadings | app/main.c:205-284 | for every run the rows are, turn by turn, the points delivered in order, channels 0 to 5 named AX, AY, AZ, GX, GY, GZ with their values, then the good SHT30 reading as temperature and humidity |
| CollectorHistory.MpuHistory | app/main.c:138-244 | for every run: the handle is open after data or an empty read, after a failure or tenth empty read exactly if the probe then opened one, and not while none can be had; the no-data streak is the empty reads since the last other read modulo 10; a failure is a turn without a device, a failed read or a tenth empty one, counted in all and since the last data |
| CollectorHistory.ShtHistory | app/main.c:134-301 | for every run: two heartbeats a turn, the raw values of the last good SHT30 reading, and its failed reads in all and since then |
| CollectorHistory.AccelerationsAreNewest | app/main.c:211-213 | the accelerations kept are the values of the last delivered points on channels 0 and 1, 0 before there is one |
| RegisterRuns.StepKeepsInv | app/modbus/modbus_server.c:114-157 | every single store, load and zeroing keeps each register equal to its last store unless zeroed since, and the loads of a reply in step |
| RegisterRuns.ReplyMixesLittle | app/modbus/modbus_server.c:153-157 | in every interleaving each register of a reply comes from one update (0 if the zeroing undid it), none older than the last complete when the reply began, none more than one update behind an earlier register; a reply with no update under way is a single update |
| RegisterRuns.NewerFirst | app/modbus/modbus_server.c:153-157 | a run whose reply shows register 0 newer than the others |
| RegisterRuns.OlderFirst | app/modbus/modbus_server.c:153-157 | a run whose reply shows register 0 older than the others |
| Metrics.IndexInWindow | app/core/metrics.c:20-21 | call number n stores inside the window, and in slot n mod 1024, if and only if its signed index has not wrapped below zero or is a multiple of 1024 |
| Metrics.Latency.Record | app/core/metrics.c:19-26 | appends to the history while index, count and window stay what the history says |
| Metrics.WindowIsRecent | app/core/metrics.c:19-26 | the window's multiset is that of the last min(n, 1024) samples |
| Metrics.SortPrefix | app/core/metrics.c:48-56 | the nested loops sort the copied samples and permute them |
| Metrics.SortedHasRanks | app/core/metrics.c:57-58 | the element at position r of a sorted sequence has rank r: at most r elements are smaller and more than r are not larger |
| Metrics.CountPermuted | app/core/metrics.c:48-56 | how many elements lie below a value does not depend on their order |
| Metrics.RankIsMonotone | app/core/metrics.c:57-58 | a rank determines its value, and a higher rank has no smaller value |
| Metrics.Latency.Percentiles | app/core/metrics.c:28-59 | p50 and p99 are the values of ranks count*50/100 and count*99/100 of the last min(n, 1024) samples, p50 <= p99, and both 0 before the first sample |
| MetricsRuns.StepKeepsInv | app/core/metrics.c:19-46 | every atomic step of writer and reader keeps the window, the counters and the snapshot consistent |
| MetricsRuns.SnapshotIsRecent | app/core/metrics.c:19-46 | in every interleaving of one writer and one reader a finished snapshot holds distinct recorded samples no older than the window at its start; the count never exceeds the samples stored and is 1024 or 1025 once the window is full |
| MetricsRuns.SnapshotPercentiles | app/core/metrics.c:43-58 | in every interleaving a finished snapshot, put in order, shows at count*50/100 and count*99/100 the values of those ranks among the recorded samples it loaded, the first at most the second |
| MetricsRuns.LoadsOnlyWritten | app/core/metrics.c:33-45 | the reader never loads a slot nobody has written |
| Crc8.Checksum | kernel-drivers/sht30/sht30.c:19-35 | the loops compute Crc of the given part of the buffer |
| Crc8.BitStepsInjective | kernel-drivers/sht30/sht30.c:27-32 | any number of inner-loop turns is injective on the register |
| Crc8.CrcLinear | kernel-drivers/sht30/sht30.c:19-35 | flipping bits of register and message flips the checksum by the checksum of the flipped bits, for every length |
| Crc8.AcceptsMeansZero | kernel-drivers/sht30/sht30.c:84-91 | a message with its checksum byte is accepted exactly when the checksum of all of it is 0 |
| Crc8.CrcOfCheckedIsZero | kernel-drivers/sht30/sht30.c:84-91 | the checksum of a message and one more byte is 0 exactly when that byte is the message's checksum |
| Crc8.AcceptsFlipped | kernel-drivers/sht30/sht30.c:84-91 | whether an error in an accepted frame goes unseen depends only on the error |
| Crc8.DatasheetExample | kernel-drivers/sht30/sht30.c:19-35 | the bytes 0xBE 0xEF have the checksum 0x92, the example of the SHT3x-DIS datasheet (section 4.12) |
| CrcErrors.CrcIsBitFeed | kernel-drivers/sht30/sht30.c:25-33 | the bytewise register is the bitwise one |
| CrcErrors.BurstsAreDetected | kernel-drivers/sht30/sht30.c:84-91 | for every frame length, every burst of up to eight bits is detected wherever it falls; in particular any change confined to one byte |
| CrcErrors.AcceptedFramesAreEven | kernel-drivers/sht30/sht30.c:84-91 | an accepted frame of any length has an even number of ones |
| CrcErrors.OddErrorsAreDetected | kernel-drivers/sht30/sht30.c:84-91 | any odd number of flipped bits is detected, for every frame length |
| CrcErrors.PeriodMeans | kernel-drivers/sht30/sht30.c:21-31 | n inner-loop turns bring the one-bit register back exactly when n is a multiple of 127 |
| CrcErrors.TwoFlippedBits | kernel-drivers/sht30/sht30.c:84-91 | two flipped bits go unseen if and only if they are a multiple of 127 places apart, hence never in frames of up to 15 bytes |
| CrcDivision.DivisionIsUnique | kernel-drivers/sht30/sht30.c:21 | long division over GF(2) finds the only quotient and remainder with p = q * G + r, G = x^8 + x^5 + x^4 + 1 |
| CrcDivision.CrcIsRemainder | kernel-drivers/sht30/sht30.c:19-35 | for every message length the checksum is the one remainder by G of the message times x^8 with initial value 0xFF added at the front |
| Sht30.Device.Work | kernel-drivers/sht30/sht30.c:62-105 | when both bus calls succeed and both frames are accepted, sets valid and stores, within their errors, the datasheet's temperature of the bits of bytes 0 and 1, most significant first, and its humidity of those of bytes 3 and 4; changes nothing otherwise |
| Sht30.WordIsNumber | kernel-drivers/sht30/sht30.c:93-94 | the word is the number the sixteen bits of its two bytes write |
| Sht30.AcceptedIsStored | kernel-drivers/sht30/sht30.c:84-98 | the same as Work, for the specification function |
| Sht30.DisturbedTransferIsIgnored | kernel-drivers/sht30/sht30.c:84-98 | a transfer with an odd number of flipped bits, any two, or any burst of up to eight in either frame leaves the previous reading in place |
| Sht30.NoOverflow | kernel-drivers/sht30/sht30.c:93-97 | for every raw word the products fit 32 bits, and the results lie in [-45000, 130717] and [0, 99998] |
| Sht30.ConversionsAreMonotone | kernel-drivers/sht30/sht30.c:96-97 | a larger raw word never gives a smaller reading |
| Sht30.TemperatureError | kernel-drivers/sht30/sht30.c:96 | the error against the datasheet lies in (raw * EXCESS - 1, raw * EXCESS], hence in (-1, 718) milli-degrees, and is 717 at full scale |
| Sht30.HumidityError | kernel-drivers/sht30/sht30.c:97 | the reading is below the datasheet value by raw * SHORTFALL and the rounding, 0 to less than 3 milli-percent |
| Sht30.TemperatureFitsRegister | app/main.c:291 | every temperature the driver can report survives the 16-bit register as temp / 10 truncated |
| Blacklist.Server.IsBanned | app/modbus/modbus_server.c:51-68 | answers whether the address's first slot is banned; if it is not, that slot's count and ban become 0; every other slot is left alone |
| Blacklist.Server.FindSlot | app/modbus/modbus_server.c:73-82 | the address's own slot, else the first free one, else -1 |
| Blacklist.Server.RecordIllegal | app/modbus/modbus_server.c:70-102 | charges that slot, taking over slot 0 when there is none; at the fifth error a ban of 300 seconds starts and the count restarts |
| Blacklist.Server.HandleClient | app/modbus/modbus_server.c:123-171 | a banned address gets no reply and no record; otherwise every request gets, in order, the registers if and only if its code is 3 and every register it asks for is one of 0 to 3, the illegal-function exception if and only if its code is not 3, and each exception is one offence at the time of its request |
| Blacklist.SessionMeans | app/modbus/modbus_server.c:123-171 | the same, for the specification functions |
| BlacklistSessions.TableAfterSession | app/modbus/modbus_server.c:200-208 | connections are served one after the other, each on the table the one before left |
| BlacklistSessions.HonestClientIsServed | app/modbus/modbus_server.c:123-171 | over any run of connections of any number of clients, one that only ever reads registers 0 to 3 is never banned and always answered with the registers |
| BlacklistSessions.FourRegisters | app/modbus/modbus_test_client.c:35 | all four registers at once are answered; a range that ends one register later never is |
| BlacklistRuns.CheckedKeepsInv | app/modbus/modbus_server.c:51-68 | a check keeps occupied slots a prefix, addresses distinct, counts below 5, and every owner |
| BlacklistRuns.RecordedKeepsInv | app/modbus/modbus_server.c:70-102 | so does a recorded offence of a nonzero address, except that an eviction changes the owner of slot 0 |
| BlacklistRuns.CheckedAccounts | app/modbus/modbus_server.c:51-68 | a check resets only the account of its address, and only when it is not banned |
| BlacklistRuns.RecordedAccounts | app/modbus/modbus_server.c:70-102 | an offence charges only the offender's account; an eviction forgets the owner of slot 0 and nobody else |
| BlacklistRuns.EvictionNeedsSeventeen | app/modbus/modbus_server.c:83-86 | for every history slot 0 is taken over if and only if more than sixteen distinct addresses have offended |
| BlacklistRuns.TableRefinesLedger | app/modbus/modbus_server.c:51-102 | up to then the sixteen slots answer for every address as an unbounded map does |
| BlacklistBans.BannedIffRecentTrigger | app/modbus/modbus_server.c:51-102 | with a clock that never runs backwards an address is banned exactly when one of its count-completing offences is less than 300 seconds old, whatever else happened |
| BlacklistBans.BanOnlyExtends | app/modbus/modbus_server.c:56-91 | in the unbounded ledger no call makes a running ban end earlier |
| BlacklistBans.CountIsSinceReset | app/modbus/modbus_server.c:60-92 | the error count is the number of offences since the last reset (an unbanned check or a ban), and below 5 |
| BlacklistBans.TriggerIsFifth | app/modbus/modbus_server.c:90-92 | an offence starts a ban exactly when it is the fifth since the last reset |
| BlacklistBans.ConnectionVerdict | app/modbus/modbus_server.c:127-131 | with at most sixteen distinct offenders, a connection is rejected exactly when a fifth offence is less than 300 seconds old |
| BlacklistEvictions.SeatsAreOwners | app/modbus/modbus_server.c:70-88 | for every history the owners of the slots are the offenders in order of arrival, a newcomer to a full table replacing the first |
| BlacklistEvictions.TableIsLedgerSince | app/modbus/modbus_server.c:51-102 | for every history, evictions included, the table answers for an address as an unbounded ledger begun anew when the address was last driven out |
| BlacklistEvictions.VerdictAlways | app/modbus/modbus_server.c:127-131 | for every history a connection is rejected exactly when a fifth offence, counted since its address was last driven out, is less than 300 seconds old |
| BlacklistEvictions.BanEndsEarlyIff | app/modbus/modbus_server.c:51-102 | a call makes a running ban of the table end earlier if and only if it drives that address out: a new offender, a full table, and the address in slot 0 |
| BlacklistEvictions.EvictionLosesBan | app/modbus/modbus_server.c:83-88 | when a new offender finds a full table whose first owner is banned, that owner's fifth offence is still recent and it is no longer banned |
| BlacklistEvictions.SeventeenthFreesFirst | app/modbus/modbus_server.c:83-88 | a history of seventeen offenders in one second in which the first is banned and then free |
| DbBatch.Cut | app/core/db_manager.c:114-117 | the first 15 characters of a longer name, and all of a name that fits |
| DbBatch.InsertFitsBuffer | app/core/db_manager.c:107-119 | an insert writes inside the buffer exactly when the database is open or the buffer is not full |
| DbBatch.Manager.Flush | app/core/db_manager.c:132-161 | appends the rows whose step succeeds, empties the batch and notes the time; nothing for an empty batch or a closed database |
| DbBatch.Manager.Insert | app/core/db_manager.c:107-129 | flushes a full buffer, adds the cut record, and flushes again when 50 ms have passed |
| DbBatch.Manager.Close | app/core/db_manager.c:98-104 | flushes and closes an open database |
| DbBatch.FlushConserves | app/core/db_manager.c:139-157 | a flush keeps every record if and only if no SQLite step of its batch fails; the batch is empty afterwards in any case |
| DbBatch.InsertHolds | app/core/db_manager.c:107-129 | an insert adds exactly its record to table and batch; afterwards the batch is empty or less than 50 computed milliseconds old |
| DbBatch.NothingIsLost | app/core/db_manager.c:98-161 | for every run without SQLite failures the table followed by the batch is every record inserted, in order, and the batch has at most ten |
| DbBatch.CloseStoresAll | app/core/db_manager.c:98-104 | after closing, the table is the whole history |
| DbBatch.HeldIffClean | app/core/db_manager.c:107-161 | for every run table and batch are every record inserted, in order, if and only if no SQLite step of any flush failed on a record of its batch; otherwise they are fewer; the batch has at most ten |
| DbBatch.CloseStoresAllIffClean | app/core/db_manager.c:98-161 | after closing, the table is the whole history if and only if no such step failed, the closing flush included; the database is closed and the batch empty in any case |
| DbBatch.BatchIsSinceLastFlush | app/core/db_manager.c:107-161 | for every run the batch is exactly the records handed in since the last flush that had any to write, or the opening, ten at most, and the time kept is the time of that |
| DbBatch.YoungBatchWaits | app/core/db_manager.c:122-127 | an insert leaves its record waiting if and only if less than 50 computed milliseconds have passed since the last flush before it or the opening |
| DbBatch.CollectorRowsReachTable | app/main.c:201-285 | when the rows of any collector run are inserted in order, with any flushes between, and the database is closed, the table is exactly those rows if and only if no step of any flush failed |
| DbBatch.CollectorNamesFit | app/main.c:201-285 | no sensor or channel name of any collector run is cut |
| DbBatch.ElapsedMeans | app/core/db_manager.c:124 | the computed milliseconds are off the true time by less than one: rounded down when the nanosecond fields are in order, up when not |
| DbBatch.TimeoutWindow | app/core/db_manager.c:125-127 | the clock never flushes a batch of 49 ms or less and always one of 51 ms |
| Watchdog.Monitor | app/core/watchdog.c:38-96 | normal mode feeds at every tick before the first one at which a heartbeat has stood still for five seconds, stops there and blames 2 for HTTP, else 1; test mode feeds at every tick, blames a thread exactly if one stood still, and then the one of the last such tick by the same rule |
| Watchdog.CounterStep | app/core/watchdog.c:49-60 | the incremental counter stays the longest still stretch ending at the current tick |
| Watchdog.MonotoneWindow | app/core/watchdog.c:49-63 | a heartbeat that never falls is dead at tick t exactly when t is at least 4 and h(t) = h(t - 5), with 0 before the first tick |
| Watchdog.HungThreadIsNoticed | app/core/watchdog.c:49-63 | a thread whose last beat was seen at tick s is dead from tick s + 5 on and not before |
| MpuHal.Handle.Read | app/hal/mpu6050_hal.c:60-107 | drains, then collects events until the buffer is full, nothing is left or an error comes; the cache count is 0 to 5 between calls, every index in bounds, the result no longer than the buffer |
| MpuHal.FrameIsReturned | app/hal/mpu6050_hal.c:70-105 | a call with room for six that starts with an empty cache and meets a frame takes exactly its events, returns the cache by channel and leaves it empty |
| MpuHal.StoreMeans | app/hal/mpu6050_hal.c:95 | a slot holds the last point of its channel, or what it held before if there was none |
| MpuHal.FrameIsWhole | app/hal/mpu6050_hal.c:95-104 | a returned frame is made of that frame's points alone if and only if its six events have distinct channels |
| MpuHal.FilledSizes | app/hal/mpu6050_hal.c:70-106 | a call with room for six that does not fail returns just what it drained, or six points with the cache empty |
| MpuHal.WholeFramesComeThrough | app/hal/mpu6050_hal.c:60-107 | when six-axis frames arrive whole, with any other events and moments of nothing to read (or an error) between them, successive calls return exactly the frames, each in channel order, one a call, and nothing at a quiet moment, whatever comes after |
| MpuHal.QuietIsTaken | app/hal/mpu6050_hal.c:70-87 | with an empty cache, events of no axis followed by -EAGAIN or an error are taken whole, no point is returned, and the error is passed on |
| MpuHal.SplitFrame | app/hal/mpu6050_hal.c:65-69 | after k events of an interrupted frame the drain returns those k points if and only if they were the last k channels in order; never for a frame that starts with channel 0 |
| MpuHal.DryCall | app/hal/mpu6050_hal.c:60-107 | with k leftovers, a buffer larger than k and fewer than six axis events before the first -EAGAIN or error: the call returns exactly the k leftovers by position, takes the events through that one, and leaves the new points stored by channel with their number as count; an error is passed on and the drained points are lost |
| MpuHal.LeftoversFillBuffer | app/hal/mpu6050_hal.c:65-69 | a buffer of at most k places is filled from k leftovers by position and nothing is read |
| MpuHal.FrameFillsBuffer | app/hal/mpu6050_hal.c:60-107 | with k leftovers, a whole frame and a buffer of up to k + 6 places: the leftovers, then the frame by channel as far as there is room, and an empty cache |
| MpuHal.PauseHealsCut | app/hal/mpu6050_hal.c:60-107 | in a stream that pauses after every frame, after one cut behind k axes: what each later call returns and leaves; the next frame loses its last channels and from the pause after it on every frame comes out whole |
| MpuHal.LeftoversPushOut | app/hal/mpu6050_hal.c:65-104 | a whole frame that meets k leftovers comes out but for exactly its points on the last k channels, which are lost |
| MpuHal.RestIsStraddles | kernel-drivers/mpu6050/mpu6050.c:146-152 | the driver's stream from axis k of a frame on is a sequence of groups made of the end of one frame and the start of the next |
| MpuHal.LateStartKeepsMixing | app/hal/mpu6050_hal.c:70-105 | in a busy stream whose first frame lacks its first k axes every call returns the first k channels of one frame with the others of the frame before |
| MpuHal.ShortFrameKeepsMixing | app/hal/mpu6050_hal.c:70-105 | a frame of which only one to five axis events arrive, whichever they are, comes out filled up from the next frame, and in a busy stream every later call mixes two frames |
| MpuHal.CutKeepsMixing | app/hal/mpu6050_hal.c:65-105 | after a frame of a busy stream is cut once behind its first k axes, the next call returns leftovers by position with part of a mixture, and every later call the first k channels of one frame with the others of the frame before |

## Left out

- HTTP server, metrics text, HTML and browser script: formatting and socket I/O.
- SQLite, libmodbus, libevdev, iptables and kernel services: foreign calls, modelled as parameters, an append-only table or an event stream.
- C11 memory orders: atomic operations are sequentially consistent steps; the release store of one index and the acquire load by the other thread are taken to order the slot accesses between them. In RingRuns copying one item in or out of a slot is one step; RingTears splits it, and the two agree on every run whose tests decide correctly, because of WriterSlotIsFree.
- CPU affinity, scheduling, sleeps and real time, except clock values passed in.
- FsmMonitor.Deadline: each turn of the wait loop computes a new deadline from the current time, so the total wait is not bounded by the timeout; in the step system a timed wait may expire at any moment.
- fsm_get_state's check for a corrupted state value, and null contexts: cannot arise for a State.
- Metrics.Latency.Record: requires IndexFits, because outside it the C code stores before the array.
- MetricsRuns.StepKeepsInv: calls are enabled for the first 2^31 samples only, for the same reason.
- DbBatch.Manager.Insert: requires an open database or room in the buffer, because otherwise the C code writes past it.
- DbBatch.NothingIsLost: a failing BEGIN or COMMIT is not distinguished from failing steps.
- BlacklistRuns.RecordedKeepsInv: address 0.0.0.0 is excluded, because a free slot is marked by address 0; the class methods are specified for it as well.
- Blacklist.Server.HandleClient: an empty range that starts at register 4 or below is handed to libmodbus like a good one, and what libmodbus makes of it is not part of this model; the register values in a reply and the firewall rule are not modelled.
- RingRuns.AsWrittenIsFifo: a sufficient condition the producer can check at each test step; RingTears.FifoIffInTime has the exact one.
- RingRuns.CopyReadsNewest: takes the copy as one step; RingTears.CopyHandsOut is about copies that a store may overlap.
- RegisterRuns.ReplyMixesLittle: reading order is the program's; a processor that reorders relaxed atomics is not modelled.
- BlacklistBans.BanOnlyExtends: about the unbounded ledger; BanEndsEarlyIff is about the sixteen slots.
- BlacklistBans.ConnectionVerdict: up to sixteen distinct offenders; VerdictAlways is for every history.
- MpuHal.FilledSizes: sizes only; FrameIsReturned and LeftoversPushOut say which points.
- Collector.Collector.ServerStart: zeroes all registers at one moment between turns; Beat and RegisterRuns let the zeroing fall anywhere, register by register.
- Collector.Collector.Iterate: the latencies it records are inputs of Metrics instead; the 32-bit failure and retry counters are unbounded; timestamps of rows are left out; both HAL tables are present, as app/hal/hal_register.c always registers them; only the collector raises events once it runs (app/main.c:711 comes before), so the machine is treated as its own.
- Watchdog.Monitor: the alive flag, which the loop only ever sets to 0, and failing writes to the device, which it only prints.
- MpuHal.CutKeepsMixing: but for the cut, every axis the driver reports is taken to reach the reader; when the input layer leaves one out, as it may for an unchanged value, ShortFrameKeepsMixing applies.
- MpuHal.FrameFillsBuffer: buffers that outlast the leftovers and a frame, and so take part of another, have no law; the program's only reader passes six places (app/main.c:73).
- MpuHal.Handle.Read: the retry counter and the conversion of event times are left out.
- Opening and closing of devices, db_check_and_repair, db_backup, db_vacuum, alarms, OTA and setup scripts: thin wrappers that would add only easy members.
- The kernel drivers' bus recovery, timers and probing.
