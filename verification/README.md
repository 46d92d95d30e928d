# Verified model of the mapping robot's board software

A Dafny model of the hard parts of the robot's firmware: the uC/OS-II kernel core, the serial-flash stack, the
JTAG UART driver, HAL alarms and time of day, the bit-banged I2C master, the heap lock, the printers and the
Bluetooth framing.  Code that works in place is modelled by classes and methods in the same form, each proved
against a specification; what the code is for is then proved about the specifications, for all inputs, all
reachable states and all interleavings.

## Reading guide

- **Kernel.** `Bits` and `PrioBitmap` are the find-lowest-bit table and the two-level bitmap, refined to sets of
  priorities.  `KernelSpec` states each critical section on sets; `KernelTables` and `KernelImpl` carry the same
  sections out on the byte tables, control blocks and linked lists; `KernelScan` is what may happen between
  the blocks of a clock tick's scan.  `KernelRuns` has the invariant over all
  sequences of critical sections, `KernelTheorems` the results about multi-event pends, readiness and suspension
  in whole runs, `KernelLaws` those about nesting, timeouts, semaphore pends and creation, `KernelUnits` where the
  units of events go, `KernelPoll` the multi-pend fast path.
  The services that call into the core are modelled from their own files beside it: `SemPendStart` and
  `SemPendFinish` (os_sem.c:281-347), `SemPost` (os_sem.c:453-484), `PendAbort` (os_sem.c:384-431), `MboxPost`
  (os_mbox.c:455-489), `QPost` (os_q.c:571-608), `TaskCreate` (os_task.c:215-254), `TaskResume`
  (os_task.c:790-834), `TaskSuspend` (os_task.c:941-991) and `TimeDly` (os_time.c:44-67).
- **Serial flash.** `FlashChip` is the chip; `SpiMaster` the credit loop against every schedule of its ready
  flags; `Epcs` the commands; `FlashController` the driver, up to the exact memory a write leaves.
- **JTAG UART.** `Rings` is the circular buffer as a queue.  In `JtagUart` the interrupt routine, the
  re-enables of readers past the lock and the steps of the other side may run between any two statements of a
  reader or writer that touch what they share and between any two bytes they copy.  `JtagTasks` adds any number of
  tasks to the interrupt-enable bookkeeping.
- **Time.** `Alarms` relates the 32-bit counter and rollover flag to unbounded time; `Clock` is settimeofday and
  gettimeofday.
- **I2C.** `I2cMonitor` is a listener on the bus (UM10204, sections 3.1.3 to 3.1.6), `I2cMaster` the pin-level
  master whose whole trace the listener decodes.
- **Heap lock.** `HeapLock` is a step system over any number of tasks.
- **Printers and framing.** `Numerals`, `Printers`, `Formats` and `Framing`.

## What the code does not do

Each of these is a limit of the code, kept in the model, with the exact condition proved where the code goes on
regardless:

- A task that is suspended while in a multi-event pend, and whose wait ends before it is resumed, is not made
  ready by the resume: the multi bit stays in its status (`ResumeReadiesIffNotMulti`).  It becomes ready later if
  and only if a post or abort reaches it while it is not suspended (`ReadyAgainIffWoken`); after a timeout one
  still can, after a hand-over none can (`SuspendPostResumeLosesTask`).
- settimeofday multiplies in 32 bits and gettimeofday in 64, so setting the clock goes wrong once the product has
  passed 2^32, after 72 minutes at the board's 1000 ticks a second (`RoundTripExact`, `SeventyTwoMinutes`).
- A flash write returns 0 for data past the end of the device and for an offset outside it (`StoredIffFits`,
  `Flash.Write`).
- An alarm started with 2^32 - 1 fires on the next tick, unless the counter is at its largest value
  (`FirstFiringExact`, `AlarmList.Start`).
- A task that allocates with the scheduler locked enters the heap unprotected: from that moment, and only then, two
  tasks can come to hold it (`PendSoundIffSchedulerFree`, `SchedulerLockBreaksExclusion`).
- The clock set near the end of the 32-bit seconds shows zero once the instant, or the seconds summed up before the
  borrow, no longer fit (`ClockExact`).
- The packet buffer's full test never succeeds in the receiver: a byte is stored behind the buffer if and only if
  a frame's body has 256 bytes and the next byte is neither a start nor an end (`Link.ReceiveStream`,
  `PlainFramesFitIff`).  The receiver does not undo the stuffing (`ArrivesIffPlain`).
- A refused register read leaves the range finder's bus without a STOP (`Bus.ReadRegisters`).
- The SPI driver, asked to transfer nothing at all, waits for ever (`Spi.EmptyTransfer`); any other command ends
  (`Spi.Command`).

## Assumptions about the hardware

Status flags and received bytes are arbitrary except where stated: the SPI core and the flash chip finish what
they are doing after some number of status reads; the JTAG UART gives its bytes in the order
they came and says truly whether more are left; an addressed I2C device changes SDA only while SCL is low.  The flash follows its data sheet:
programming clears bits and wraps in a 256-byte page, a sector erase sets bits, both need the write-enable
latch and clear it, and nothing but a status read is accepted while busy.

## Model

| member | source | states |
|---|---|---|
| `Bits.UnMapIsLowest` | software/MappingRobotSoftware_bsp/UCOSII/src/os_core.c:38-55 | the 256-entry table gives, for every nonzero byte, the position of its lowest set bit, and no lower bit is set |
| `PrioBitmap.InsertMember` | software/MappingRobotSoftware_bsp/UCOSII/src/os_core.c:1061-1076 | setting a priority's two bits keeps "group bit y iff table byte y nonzero" and adds exactly that priority to the set the table stands for |
| `PrioBitmap.RemoveMember` | software/MappingRobotSoftware_bsp/UCOSII/src/os_core.c:1138-1149 | clearing the table bit, and the group bit only when the byte became zero, keeps the same invariant and removes exactly that priority |
| `PrioBitmap.GroupZeroIffEmpty` | software/MappingRobotSoftware_bsp/UCOSII/src/os_core.c:989-1043 | the group byte is zero exactly when nobody is in the set |
| `PrioBitmap.TopIsMin` | software/MappingRobotSoftware_bsp/UCOSII/src/os_core.c:1652-1677 | the two table look-ups yield a member of the set below which there is no other: its minimum |
| `KernelTables.ReserveKeepsLists` | software/MappingRobotSoftware_bsp/UCOSII/src/os_core.c:1936-1938 | taking the first free block keeps the partition: the active list, the free list and the blocks held by tasks being created are disjoint, acyclic where linked, and together the whole table |
| `KernelTables.EnterKeepsLists` | software/MappingRobotSoftware_bsp/UCOSII/src/os_core.c:2008-2018 | linking a held block in front of the active list keeps that partition and the matching back links, whichever other blocks are held |
| `KernelTables.AllocateKeepsPrios` | software/MappingRobotSoftware_bsp/UCOSII/src/os_core.c:2008-2018 | the priority table names exactly the active blocks, each under its own priority, and the new task is the only addition |
| `KernelTables.FreshLists` | software/MappingRobotSoftware_bsp/UCOSII/src/os_core.c:1504-1531 | the chain built at start-up is one free list over the whole table and an empty active list |
| `KernelTables.DoneAll` | software/MappingRobotSoftware_bsp/UCOSII/src/os_core.c:896-917 | the blocks before the last of the active list are exactly the tasks other than the idle one |
| `KernelTables.QTakeDropsFront` | software/MappingRobotSoftware_bsp/UCOSII/src/os_core.c:379-455 | taking at the out index of a queue, with wrap, removes and returns the oldest message |
| `KernelImpl.UcosKernel.constructor` | software/MappingRobotSoftware_bsp/UCOSII/src/os_core.c:554-592 | OSInit leaves consistent tables with two tasks, the idle and the statistics one, both ready, and all other blocks free |
| `KernelImpl.UcosKernel.InitRdyList` | software/MappingRobotSoftware_bsp/UCOSII/src/os_core.c:1335-1356 | the ready list starts consistent and empty, whatever it held before |
| `KernelImpl.UcosKernel.InitTCBList` | software/MappingRobotSoftware_bsp/UCOSII/src/os_core.c:1504-1531 | every block is on the free list and no task exists |
| `KernelImpl.UcosKernel.TCBInit` | software/MappingRobotSoftware_bsp/UCOSII/src/os_core.c:1926-2024 | fails, changing nothing, exactly when no block is free; otherwise one block moves from the free to the active list, the priority table gains it, and the new task is ready |
| `KernelImpl.UcosKernel.Reserve` | software/MappingRobotSoftware_bsp/UCOSII/src/os_core.c:1936-1938 | the first critical section alone: the head of the free list becomes a held block, and on the level of tasks nothing happened |
| `KernelImpl.UcosKernel.FillTcb` | software/MappingRobotSoftware_bsp/UCOSII/src/os_core.c:1939-2006 | filling a held block, with interrupts on, disturbs no list, no other block and no task |
| `KernelImpl.UcosKernel.Enter` | software/MappingRobotSoftware_bsp/UCOSII/src/os_core.c:2008-2018 | the second critical section, with any other blocks held: the block heads the active list and the priority has a ready task with fresh fields |
| `KernelImpl.UcosKernel.Start` | software/MappingRobotSoftware_bsp/UCOSII/src/os_core.c:785-794 | the first task run is the minimum of the ready set |
| `KernelImpl.UcosKernel.EventTaskRdy` | software/MappingRobotSoftware_bsp/UCOSII/src/os_core.c:989-1043 | wakes the most urgent waiter of the event and, for a multi-event pend, takes it off the lists of all its events, in the tables, as the set-level step says; unless suspended the task is ready |
| `KernelImpl.UcosKernel.EventTaskWait` | software/MappingRobotSoftware_bsp/UCOSII/src/os_core.c:1061-1076 | puts the caller on one list and off the ready list and changes nothing else |
| `KernelImpl.UcosKernel.EventTaskWaitMulti` | software/MappingRobotSoftware_bsp/UCOSII/src/os_core.c:1095-1119 | puts the caller on the lists of exactly the listed events and off the ready list |
| `KernelImpl.UcosKernel.EventTaskRemove` | software/MappingRobotSoftware_bsp/UCOSII/src/os_core.c:1138-1149 | takes the task off one list, leaving every other waiter and event alone |
| `KernelImpl.UcosKernel.EventTaskRemoveMulti` | software/MappingRobotSoftware_bsp/UCOSII/src/os_core.c:1168-1196 | takes the task off exactly the listed events |
| `KernelImpl.UcosKernel.PollAll` | software/MappingRobotSoftware_bsp/UCOSII/src/os_core.c:379-455 | fills the caller's arrays with exactly the entries the set-level poll returns, consumes their units and touches nothing beyond them |
| `KernelImpl.UcosKernel.PendMultiStart` | software/MappingRobotSoftware_bsp/UCOSII/src/os_core.c:306-465 | error checks in the source's order, the fast path with a null-terminated event array and aligned messages, or blocking on all events |
| `KernelImpl.UcosKernel.PendMultiFinish` | software/MappingRobotSoftware_bsp/UCOSII/src/os_core.c:466-536 | returns the single outcome recorded in the control block and leaves the task on no list, with its pend fields cleared |
| `KernelImpl.UcosKernel.TimeTick` | software/MappingRobotSoftware_bsp/UCOSII/src/os_core.c:851-919 | the tick count goes up by one modulo 2^32; however posts, aborts, suspensions and resumptions of nested interrupts fall between its blocks, the scan ends, and every task but the idle one is ticked exactly once among the sections that led to the new state |
| `KernelScan.UndisturbedTick` | software/MappingRobotSoftware_bsp/UCOSII/src/os_core.c:896-917 | with nothing between the blocks, the scan gives every task but the idle one its tick at once |
| `KernelImpl.UcosKernel.SchedNew` | software/MappingRobotSoftware_bsp/UCOSII/src/os_core.c:1652-1677 | the priority found by table look-up is the minimum of the ready set, and its block is in the priority table |
| `KernelImpl.UcosKernel.Sched` | software/MappingRobotSoftware_bsp/UCOSII/src/os_core.c:1610-1633 | with both nesting counters zero the current task becomes the minimum of the ready set; otherwise nothing changes |
| `KernelImpl.UcosKernel.IntEnter` | software/MappingRobotSoftware_bsp/UCOSII/src/os_core.c:617-630 | adds one to the nesting count, up to its limit, and changes nothing else |
| `KernelImpl.UcosKernel.IntExit` | software/MappingRobotSoftware_bsp/UCOSII/src/os_core.c:651-679 | leaving the last ISR with no lock held makes the minimum of the ready set current |
| `KernelImpl.UcosKernel.SchedLock` | software/MappingRobotSoftware_bsp/UCOSII/src/os_core.c:698-715 | counts lock nesting outside ISRs up to its limit |
| `KernelImpl.UcosKernel.SchedUnlock` | software/MappingRobotSoftware_bsp/UCOSII/src/os_core.c:735-761 | releasing the last lock outside an ISR schedules; any other unlock does not |
| `KernelPoll.PollReturnsAvailable` | software/MappingRobotSoftware_bsp/UCOSII/src/os_core.c:379-455 | the multi-pend fast path serves the listed events that still have a unit when their turn comes, in list order, with index-aligned messages; each served entry consumes one unit, and every event keeps exactly the rest |
| `KernelPoll.BlocksIffNothingAvailable` | software/MappingRobotSoftware_bsp/UCOSII/src/os_core.c:379-465 | the fast path returns nothing exactly when no listed event has a unit |
| `KernelRuns.StepKeepsInv` | software/MappingRobotSoftware_bsp/UCOSII/src/os_core.c:306-537 | every critical section, in any order, keeps the invariant that ties each task's position to its control block, the wait lists and the ready set |
| `KernelTheorems.StartInv` | software/MappingRobotSoftware_bsp/UCOSII/src/os_core.c:785-794 | the state OSStart leaves satisfies that invariant |
| `KernelTheorems.MultiPendAllOrNone` | software/MappingRobotSoftware_bsp/UCOSII/src/os_core.c:458-533 | in every reachable state a task inside a multi-event pend is on the lists of all its events, or of none with one of its events recorded |
| `KernelTheorems.FinishFindsItsEvent` | software/MappingRobotSoftware_bsp/UCOSII/src/os_core.c:466-536 | whenever a task comes to the end of a multi-event pend, the event recorded in its control block is one it asked for, of a kind that can be pended on: what the end of the call takes for granted |
| `KernelTheorems.MultiPendExactlyOneOutcome` | software/MappingRobotSoftware_bsp/UCOSII/src/os_core.c:466-536 | however posts, aborts, ticks and other tasks interleave, at most one event is handed over, and what the call will return is that event with its message, the abort, or a timeout if there was none; a task that was handed one and never suspended is ready to return it |
| `KernelTheorems.WokenIsReady` | software/MappingRobotSoftware_bsp/UCOSII/src/os_core.c:1029-1043 | in every state the invariant allows, the task a post or abort reaches is ready at once if and only if it is not suspended, whatever kind of pend it is in |
| `KernelTheorems.ReadyUntilOwnStep` | software/MappingRobotSoftware_bsp/UCOSII/src/os_core.c:1029-1033 | a ready task stays ready in every run until its own next step or a suspension |
| `KernelTheorems.WokenStaysReady` | software/MappingRobotSoftware_bsp/UCOSII/src/os_core.c:1029-1043 | so a task handed something while not suspended is ready until it runs |
| `KernelTheorems.SuspendedIffLastSuspends` | software/MappingRobotSoftware_bsp/UCOSII/src/os_core.c:1029-1033 | in every run a task is suspended exactly if the last such call for it was a suspension, and while it is, no post, abort, tick or other service makes it ready |
| `KernelTheorems.LatePostReplacesTimeout` | software/MappingRobotSoftware_bsp/UCOSII/src/os_core.c:989-1043 | a post that reaches a task after its timeout but before it runs takes it off every list and becomes the outcome |
| `KernelTheorems.HandedOverStays` | software/MappingRobotSoftware_bsp/UCOSII/src/os_core.c:989-1043 | once an event is handed over, nothing changes it until the task runs |
| `KernelTheorems.IdleAlwaysReady` | software/MappingRobotSoftware_bsp/UCOSII/src/os_core.c:1652-1677 | the idle task is ready in every reachable state |
| `KernelTheorems.SchedulePicksMostUrgent` | software/MappingRobotSoftware_bsp/UCOSII/src/os_core.c:1610-1633 | every reachable state has a ready task to schedule; with both counters zero the minimum is chosen (that the tables yield it is UcosKernel.Sched and PrioBitmap.TopIsMin), and otherwise nothing is switched |
| `KernelTheorems.RunningIsReady` | software/MappingRobotSoftware_bsp/UCOSII/src/os_core.c:1610-1633 | outside ISRs, locks and the gap between blocking and rescheduling, the running task is ready |
| `KernelTheorems.ReadyOnExactlyTheNthTick` | software/MappingRobotSoftware_bsp/UCOSII/src/os_core.c:896-917 | a task delayed by n, not suspended and not otherwise woken, is ready exactly from its n-th processed tick on |
| `KernelTheorems.ResumeReadiesIffNotMulti` | software/MappingRobotSoftware_bsp/UCOSII/src/os_core.c:458-533 | a suspended task whose wait is over becomes ready on resume if and only if it is not in a multi-event pend |
| `KernelTheorems.SuspendPostResumeLosesTask` | software/MappingRobotSoftware_bsp/UCOSII/src/os_core.c:1029-1041 | suspending a task in a multi-event pend, posting to it through any of its events and resuming it leaves it never ready again, in any continuation |
| `KernelTheorems.ResumeStrands` | software/MappingRobotSoftware_bsp/UCOSII/src/os_core.c:458-533 | the resume of a task whose multi-event wait ended while it was suspended leaves it neither ready nor suspended |
| `KernelTheorems.ReadyAgainIffWoken` | software/MappingRobotSoftware_bsp/UCOSII/src/os_core.c:989-1043 | from there it becomes ready in a run if and only if a post or abort reaches it while it is not suspended: possible after a timeout, never after a hand-over |
| `KernelTheorems.LostForever` | software/MappingRobotSoftware_bsp/UCOSII/src/os_core.c:989-1043 | a task handed an event while suspended in a multi-event pend is never ready nor current again |
| `KernelTheorems.WaitingStateReachable` | software/MappingRobotSoftware_bsp/UCOSII/src/os_core.c:458-465 | the situation those two lemmas speak of is reached from start-up |
| `KernelLaws.CountersFromLabels` | software/MappingRobotSoftware_bsp/UCOSII/src/os_core.c:617-679 | after any run the interrupt and lock nesting are those counted from the calls alone: an enter is one more up to 255, an exit one less down to 0, and likewise the locks outside interrupts and the unlocks |
| `KernelLaws.InterruptReturns` | software/MappingRobotSoftware_bsp/UCOSII/src/os_core.c:617-679 | an interrupt from task level, with any nesting the counter allows: as many exits as enters end at depth 0, the interrupted task is the running one until the last exit, and that exit alone runs the most urgent ready task |
| `KernelLaws.InterruptedTaskStays` | software/MappingRobotSoftware_bsp/UCOSII/src/os_core.c:651-679 | inside an interrupt nothing changes the running task |
| `KernelLaws.LockReleases` | software/MappingRobotSoftware_bsp/UCOSII/src/os_core.c:698-761 | a locked section ends with the lock count at 0, runs no other task, and is followed by the most urgent ready task |
| `KernelLaws.LockedTaskStays` | software/MappingRobotSoftware_bsp/UCOSII/src/os_core.c:698-761 | with the scheduler locked nothing, interrupts included, changes the running task |
| `KernelLaws.TimeoutIsTheArgument` | software/MappingRobotSoftware_bsp/UCOSII/src/os_core.c:458-465 | a multi-event pend, semaphore pend or delay with timeout n that nothing else ends is over exactly from the n-th tick after the call, and never for n = 0 |
| `KernelLaws.BlocksExactlyIf` | software/MappingRobotSoftware_bsp/UCOSII/src/os_core.c:366-465 | the exact condition under which each of the three blocks its caller; in an interrupt or, for the pends, with the scheduler locked, nothing at all changes |
| `KernelLaws.PendRefused` | software/MappingRobotSoftware_bsp/UCOSII/src/os_core.c:340-376 | a multi-event pend is refused exactly for an event of another kind, in an interrupt or with the scheduler locked, and then has no effect; otherwise it returns something or blocks |
| `KernelLaws.DelayedReadyIff` | software/MappingRobotSoftware_bsp/UCOSII/src/os_core.c:896-917 | however suspensions and resumptions mix with ticks, the delay left is what the ticks have not used up, and a task outside pends is ready exactly if none is left and it is not suspended |
| `KernelLaws.TimedOutIff` | software/MappingRobotSoftware_bsp/UCOSII/src/os_core.c:896-917 | a pend that nothing reaches has timed out exactly when its ticks are over, suspended or not |
| `KernelLaws.SemPendExactlyOneOutcome` | software/MappingRobotSoftware_bsp/UCOSII/src/os_core.c:989-1043 | between a task's blocking on a semaphore and its return at most one post or abort reaches it; the status it returns with is that one's, or a timeout if there was none |
| `KernelLaws.TasksAreThoseCreated` | software/MappingRobotSoftware_bsp/UCOSII/src/os_core.c:1926-2024 | the tasks after a run are those before it and those created, as long as there are fewer than twelve |
| `KernelLaws.CreatedIsReady` | software/MappingRobotSoftware_bsp/UCOSII/src/os_core.c:2008-2018 | a task is ready from its creation until its own first step or a suspension |
| `KernelUnits.UnitsConserved` | software/MappingRobotSoftware_bsp/UCOSII/src/os_core.c:379-455 | in every run, the units an event hands out, to waiters and to pends that do not block, followed by those it holds are those it held followed by those posted to it: none lost, doubled or overtaken |
| `KernelUnits.NobodyWaitsInVain` | software/MappingRobotSoftware_bsp/UCOSII/src/os_core.c:379-465 | in every reachable state an event with a waiter has no unit to give |
| `SpiMaster.Spi.Status` | software/MappingRobotSoftware_bsp/drivers/src/altera_avalon_spi.c:82-87 | what the core may report: completion of the byte in flight at any moment, never a wait without end |
| `SpiMaster.Spi.Poll` | software/MappingRobotSoftware_bsp/drivers/src/altera_avalon_spi.c:82-87 | a status read keeps the account of sent and received bytes, with at most one outstanding |
| `SpiMaster.Spi.Transfer` | software/MappingRobotSoftware_bsp/drivers/src/altera_avalon_spi.c:57-118 | for every schedule of the two ready flags the loop ends, clocks exactly the command and the zeros, never has two bytes outstanding, never reaches the -1024 branch, and stores the answers to the zeros |
| `SpiMaster.Spi.Command` | software/MappingRobotSoftware_bsp/drivers/src/altera_avalon_spi.c:41-130 | one chip-select transaction whose answer to the i-th zero is dest[i]; left open exactly when merging |
| `SpiMaster.Spi.EmptyTransfer` | software/MappingRobotSoftware_bsp/drivers/src/altera_avalon_spi.c:79-118 | with nothing to write and nothing to read, no number of rounds reaches the end of the loop: nothing is sent, nothing comes back, and the credits stay at 1 or end at -1024 |
| `FlashChip.FeedAppend` | software/MappingRobotSoftware_bsp/drivers/src/altera_avalon_spi.c:127-130 | bytes fed in two merged parts have the effect of the whole |
| `Epcs.EncodingLossless` | software/MappingRobotSoftware_bsp/drivers/src/epcs_commands.c:70-87 | the chip decodes the address that was meant if and only if it fits the field of the mode |
| `Epcs.ReadStatusRegister` | software/MappingRobotSoftware_bsp/drivers/src/epcs_commands.c:35-50 | returns the chip's status and does nothing to it |
| `Epcs.AwaitWipReleased` | software/MappingRobotSoftware_bsp/drivers/src/epcs_commands.c:57-63 | ends, and the chip is no longer busy, for every duration of its work |
| `Epcs.WriteEnable` | software/MappingRobotSoftware_bsp/drivers/src/epcs_commands.c:155-167 | sets the write-enable latch and nothing else |
| `Epcs.Enter4BytesMode` | software/MappingRobotSoftware_bsp/drivers/src/epcs_commands.c:293-311 | switches to 4-byte addresses |
| `Epcs.Exit4BytesMode` | software/MappingRobotSoftware_bsp/drivers/src/epcs_commands.c:313-331 | switches back to 3-byte addresses |
| `Epcs.SectorErase` | software/MappingRobotSoftware_bsp/drivers/src/epcs_commands.c:65-108 | exactly the sector the chip finds the offset in becomes 0xFF, and the chip ends idle in 3-byte mode |
| `Epcs.ReadBuffer` | software/MappingRobotSoftware_bsp/drivers/src/epcs_commands.c:110-153 | dest receives the bytes from the offset on, wrapping at the device's end; the array is untouched and the chip ends idle in 3-byte mode |
| `Epcs.WriteBuffer` | software/MappingRobotSoftware_bsp/drivers/src/epcs_commands.c:190-254 | command and data are one page program at the offset, with the latch set; the chip ends idle in 3-byte mode |
| `Epcs.SendMerged` | software/MappingRobotSoftware_bsp/drivers/src/epcs_commands.c:218-238 | two driver calls, the first merging, reach the chip as one transaction |
| `Epcs.ReadElectronicSignature` | software/MappingRobotSoftware_bsp/drivers/src/epcs_commands.c:257-273 | the fifth byte of the transaction is the chip's signature |
| `Epcs.ReadDeviceId` | software/MappingRobotSoftware_bsp/drivers/src/epcs_commands.c:275-291 | the three id bytes are assembled most significant first |
| `FlashChip.ProgramStraight` | software/MappingRobotSoftware_bsp/drivers/src/epcs_commands.c:189-191 | a program that does not leave its page ANDs exactly the addressed bytes with the data |
| `FlashController.TableSane` | software/MappingRobotSoftware_bsp/drivers/src/altera_avalon_epcs_flash_controller.c:102-184 | every geometry the query accepts tiles the device with blocks and pages and, in its address mode, encodes every address losslessly |
| `FlashController.TableIsFamilies` | software/MappingRobotSoftware_bsp/drivers/src/altera_avalon_epcs_flash_controller.c:102-184 | the devices accepted are exactly those of the EPCS and EPCQ families, each with its own capacity, two to the power its density code, and its own sector size; 4-byte addresses exactly beyond 16 MB |
| `FlashController.Flash.Query` | software/MappingRobotSoftware_bsp/drivers/src/altera_avalon_epcs_flash_controller.c:80-188 | accepts exactly the known chips and leaves the chip alone; afterwards the driver describes the chip truly, as all other calls require, if and only if the chip is one of those families |
| `FlashController.Flash.TestAddress` | software/MappingRobotSoftware_bsp/drivers/src/altera_avalon_epcs_flash_controller.c:356-376 | rejects exactly the offsets outside the device, negative ones included |
| `FlashController.Flash.Read` | software/MappingRobotSoftware_bsp/drivers/src/altera_avalon_epcs_flash_controller.c:447-470 | reads from any offset inside the device and reports any other as an error without touching the buffer |
| `FlashController.Flash.MemCmp` | software/MappingRobotSoftware_bsp/drivers/src/altera_avalon_epcs_flash_controller.c:190-241 | for every range: zero exactly when there is nothing to compare or the device, read with wrapping, shows the source and every 32-byte chunk starts inside it; -1 for an offset outside |
| `FlashController.Flash.EraseBlock` | software/MappingRobotSoftware_bsp/drivers/src/altera_avalon_epcs_flash_controller.c:384-399 | erases exactly the block named, or reports an error and does nothing |
| `FlashController.Flash.WriteBlock` | software/MappingRobotSoftware_bsp/drivers/src/altera_avalon_epcs_flash_controller.c:409-440 | for every range that starts inside the device: split at page boundaries, the bytes are ANDed in one by one, wrapping at the device end |
| `FlashController.AndAllInside` | software/MappingRobotSoftware_bsp/drivers/src/altera_avalon_epcs_flash_controller.c:423-437 | for a range that fits, that ANDs exactly the addressed bytes with the data |
| `FlashController.SeenWraps` | software/MappingRobotSoftware_bsp/drivers/src/epcs_commands.c:70-87 | for a device whose size divides the address field, the chip finds any offset at its remainder |
| `FlashController.Flash.WriteOneBlock` | software/MappingRobotSoftware_bsp/drivers/src/altera_avalon_epcs_flash_controller.c:278-314 | a block is erased and rewritten exactly when its part of the data differs |
| `FlashController.Flash.Write` | software/MappingRobotSoftware_bsp/drivers/src/altera_avalon_epcs_flash_controller.c:256-322 | for every offset and source: the exact memory afterwards, the exact list of erased blocks, no program or erase at all when nothing differed, and result 0 even past the end |
| `FlashController.RepeatWriteIsFree` | software/MappingRobotSoftware_bsp/drivers/src/altera_avalon_epcs_flash_controller.c:282-303 | writing the same data again changes no byte and erases no block |
| `FlashController.EqualBlocksNotErased` | software/MappingRobotSoftware_bsp/drivers/src/altera_avalon_epcs_flash_controller.c:282-303 | a block is among the erased ones if and only if its part of the data differed |
| `FlashController.OtherBlocksUntouched` | software/MappingRobotSoftware_bsp/drivers/src/altera_avalon_epcs_flash_controller.c:243-255 | bytes outside every block the range touches keep their value |
| `FlashController.StoredIffFits` | software/MappingRobotSoftware_bsp/drivers/src/altera_avalon_epcs_flash_controller.c:267-321 | every byte of the source that has a place on the device is stored, so the range reads back if and only if it fits, though the call returns 0 either way |
| `Rings.RingTake` | software/MappingRobotSoftware_bsp/drivers/src/altera_avalon_jtag_uart_read.c:119-140 | moving the out index over n contiguous bytes, with wrap, removes exactly those from the queue |
| `Rings.RingPut` | software/MappingRobotSoftware_bsp/drivers/src/altera_avalon_jtag_uart_write.c:109-126 | storing n bytes at the in index and moving it, with wrap, appends exactly those to the queue |
| `Rings.FillingKeepsApart` | software/MappingRobotSoftware_bsp/drivers/src/altera_avalon_jtag_uart_write.c:109-120 | no amount the producer may store brings the two indices together |
| `JtagUart.Uart.constructor` | software/MappingRobotSoftware_bsp/drivers/src/altera_avalon_jtag_uart_init.c:66-76 | both queues start empty with the receive interrupt on |
| `JtagUart.Uart.IrqReceive` | software/MappingRobotSoftware_bsp/drivers/src/altera_avalon_jtag_uart_init.c:125-167 | moves the next bytes of the FIFO, those arriving meanwhile included, to the queue in order, all of them or as many as there is room for; turns its interrupt off exactly when bytes are left behind or the queue was full to begin with |
| `JtagUart.Uart.IrqTransmit` | software/MappingRobotSoftware_bsp/drivers/src/altera_avalon_jtag_uart_init.c:169-195 | sends the next bytes of the queue, as many as the device reports space for; turns its interrupt off exactly when space is left over |
| `JtagUart.Uart.Irq` | software/MappingRobotSoftware_bsp/drivers/src/altera_avalon_jtag_uart_init.c:106-197 | for whatever the control register reports from round to round: exactly the bytes sent, the bytes moved and the interrupts turned off, with neither task's indices nor the bytes a task may be copying disturbed |
| `JtagUart.Uart.PreemptReader` | software/MappingRobotSoftware_bsp/drivers/src/altera_avalon_jtag_uart_read.c:100-203 | between two statements of a reader: any mix of interrupts, re-enables of readers past the lock and steps of a writer leaves the reader its out index and the bytes waiting for it, which only grow at the end |
| `JtagUart.Uart.PreemptWriter` | software/MappingRobotSoftware_bsp/drivers/src/altera_avalon_jtag_uart_write.c:83-202 | between two statements of a writer: the same with steps of a reader, leaving the writer its in index, its accepted bytes and its duty to enable the interrupt, while its queue only shrinks at the front |
| `JtagUart.Uart.CopyOut` | software/MappingRobotSoftware_bsp/drivers/src/altera_avalon_jtag_uart_read.c:136-136 | interrupts between any two bytes of the copy do not change the bytes copied |
| `JtagUart.Uart.TakeAvailable` | software/MappingRobotSoftware_bsp/drivers/src/altera_avalon_jtag_uart_read.c:119-142 | the bytes returned are the next ones of the stream, at least as many as were waiting |
| `JtagUart.Uart.Read` | software/MappingRobotSoftware_bsp/drivers/src/altera_avalon_jtag_uart_read.c:100-203 | for every placement of interrupts, of other readers' re-enables and of a writer's steps, between any two statements and any two copied bytes: returned bytes followed by the queue are the bytes pulled from the device; result and errors; the receive interrupt is never left off with nothing to read, and the transmit side only moved on |
| `JtagUart.Uart.CopyIn` | software/MappingRobotSoftware_bsp/drivers/src/altera_avalon_jtag_uart_write.c:122-122 | no interrupt sees a byte before the in index moves, and none disturbs the copy |
| `JtagUart.Uart.PutAvailable` | software/MappingRobotSoftware_bsp/drivers/src/altera_avalon_jtag_uart_write.c:103-127 | the bytes accepted are the next ones of the data, as many as there was room for |
| `JtagUart.Uart.Write` | software/MappingRobotSoftware_bsp/drivers/src/altera_avalon_jtag_uart_write.c:83-202 | for every such placement, with a reader's steps instead: bytes sent followed by the queue are the accepted prefixes in order; the result is the length accepted; a nonempty queue always has its interrupt on or the writer still to enable it |
| `JtagTasks.StepKeepsInv` | software/MappingRobotSoftware_bsp/drivers/src/altera_avalon_jtag_uart_init.c:156-194 | the interrupt-enable invariant survives every step of any number of readers, writers and the interrupt routine |
| `JtagTasks.NeverStuck` | software/MappingRobotSoftware_bsp/drivers/src/altera_avalon_jtag_uart_read.c:188-195 | between calls the receive interrupt is off only if bytes wait for the next reader, and waiting transmit bytes have their interrupt on |
| `JtagTasks.BuffersExclusive` | software/MappingRobotSoftware_bsp/drivers/src/altera_avalon_jtag_uart_write.c:98-98 | at most one reader and one writer are at the buffers in any run |
| `Alarms.FirstFiringExact` | software/MappingRobotSoftware_bsp/HAL/src/alt_alarm_start.c:80-96 | an alarm first fires exactly nticks + 1 ticks later if and only if nticks is below 2^32 - 1 or the counter is at its largest value; otherwise on the very next tick |
| `Alarms.NextFiringExact` | software/MappingRobotSoftware_bsp/HAL/src/alt_tick.c:96-141 | for every setting of time and flag whatever, the tick at which it expires next |
| `Alarms.TickExact` | software/MappingRobotSoftware_bsp/HAL/src/alt_tick.c:96-141 | across any 32-bit wrap, a tick expires an alarm exactly at its unbounded deadline and otherwise keeps standing for it |
| `Alarms.RolloverIffBehind` | software/MappingRobotSoftware_bsp/HAL/src/alt_tick.c:104-112 | outside tick processing the rollover flag is set exactly when the stored time is behind the counter |
| `Alarms.AgainExact` | software/MappingRobotSoftware_bsp/HAL/src/alt_tick.c:127-137 | an interval returned by a callback moves the deadline by exactly that much |
| `Alarms.GapsAreIntervals` | software/MappingRobotSoftware_bsp/HAL/src/alt_tick.c:75-86 | the recorded callback times are the start delay and then exactly the returned intervals apart |
| `Alarms.Alarm.Process` | software/MappingRobotSoftware_bsp/HAL/src/alt_tick.c:104-139 | one turn of the loop: a callback exactly if the alarm is due, which for one started on time is its exact deadline; the new setting; removal exactly on a zero result |
| `Alarms.AlarmList.Start` | software/MappingRobotSoftware_bsp/HAL/src/alt_alarm_start.c:64-112 | for every nticks: error results, and otherwise the alarm is registered and fires nticks + 1 ticks from now, or on the next tick in the one wrapping case |
| `Alarms.AlarmList.Tick` | software/MappingRobotSoftware_bsp/HAL/src/alt_tick.c:87-148 | every registered alarm is visited once: due ones call back, with time, flag, deadline and record afterwards given for every setting of time and flag; exactly those whose callback returned 0 leave the list, and the others keep their order |
| `Alarms.AlarmList.Stop` | software/MappingRobotSoftware_bsp/HAL/src/alt_tick.c:66-73 | removes exactly that alarm |
| `Clock.SystemClock.SetTimeOfDay` | software/MappingRobotSoftware_bsp/HAL/src/alt_settod.c:72-96 | stores the offset, or fails without a clock and changes only errno |
| `Clock.SystemClock.GetTimeOfDay` | software/MappingRobotSoftware_bsp/HAL/src/alt_gettod.c:71-124 | both loops end, and their result is the same instant in normal form, or zero for an instant before it that needs a borrow |
| `Clock.RoundTripExact` | software/MappingRobotSoftware_bsp/HAL/src/alt_settod.c:82-84 | for every rate and tick, set followed by get returns the time if and only if the high word of the product is a multiple of 15625 (the zero time apart) |
| `Clock.ClockExact` | software/MappingRobotSoftware_bsp/HAL/src/alt_gettod.c:91-112 | for a rate dividing 10^6 and a start whose product survives the 32 bits, the clock reads exactly the time set and the microseconds since if and only if that instant and the seconds added up on the way to it fit 32 bits |
| `Clock.ClockMonotone` | software/MappingRobotSoftware_bsp/HAL/src/alt_gettod.c:91-112 | later ticks show strictly later times, up to the last instant read exactly |
| `Clock.SeventyTwoMinutes` | software/MappingRobotSoftware_bsp/HAL/src/alt_settod.c:82-84 | at 1000 ticks a second, a clock set after 4294968 ticks reads 0.967296 s too much at once |
| `I2cMonitor.ChangesAreConditions` | software/MappingRobotSoftware/I2C.c:235-263 | SDA changes during a high clock exactly as often as a listener hears a START or STOP |
| `I2cMonitor.BitsValue` | software/MappingRobotSoftware/I2C.c:276-288 | eight bits sent most significant first are decoded as the byte |
| `I2cMaster.Bus.I2cStart` | software/MappingRobotSoftware/I2C.c:236-249 | from an idle bus or mid-transfer a listener hears exactly one START, and the clock ends low |
| `I2cMaster.Bus.I2cStop` | software/MappingRobotSoftware/I2C.c:252-263 | a listener hears exactly one STOP, and the bus is idle |
| `I2cMaster.Bus.I2cWrite` | software/MappingRobotSoftware/I2C.c:266-310 | a listener hears exactly the byte with the device's acknowledge, which is the result |
| `I2cMaster.Bus.I2cRead` | software/MappingRobotSoftware/I2C.c:313-361 | the result is the byte the device clocked out, heard with the requested acknowledge |
| `I2cMaster.Bus.WriteToDeviceRegister` | software/MappingRobotSoftware/I2C.c:93-118 | the bytes heard are address, register and data up to the first one refused; true exactly if none was |
| `I2cMaster.Bus.ReadMore` | software/MappingRobotSoftware/I2C.c:201-217 | every byte but the last is acknowledged, the last exactly if the read goes on |
| `I2cMaster.Bus.ReadFromDeviceRegister` | software/MappingRobotSoftware/I2C.c:167-198 | exact events heard in all four outcomes, and the buffer holds the device's bytes |
| `I2cMaster.Bus.ReadTransfer` | software/MappingRobotSoftware/I2C.c:57-66 | start, register read and stop decode to exactly one transfer for every address, register, length and device behaviour, and the bus is idle again |
| `I2cMaster.Bus.ReadRegisters` | software/MappingRobotSoftware/LIDAR.c:63-85 | the two register reads of the range finder: exact events and result for every device behaviour, with no STOP after a refused read and the bus idle exactly if none was |
| `I2cMaster.RangeHeard` | software/MappingRobotSoftware/LIDAR.c:63-85 | event by event and value by value what a listener hears of an accepted range reading: registers 15 and then 16 of the device at 196 |
| `I2cMaster.AcceptedRead` | software/MappingRobotSoftware/I2C.c:167-217 | an accepted register read byte by byte: addressed for writing, register, addressed for reading, and every byte but the last acknowledged, the last if the read goes on |
| `HeapLock.MutualExclusion` | software/MappingRobotSoftware_bsp/UCOSII/src/alt_malloc_lock.c:63-146 | over all interleavings at most one task holds the heap, and locks is the recorded holder's nesting depth |
| `HeapLock.OpenIffFree` | software/MappingRobotSoftware_bsp/UCOSII/src/alt_malloc_lock.c:63-146 | the semaphore counts one exactly when no task holds the heap, and then none waits for it |
| `HeapLock.RecursionIffHolder` | software/MappingRobotSoftware_bsp/UCOSII/src/alt_malloc_lock.c:85-96 | the recursion path is taken exactly by a task that already holds the heap, despite the earlier query |
| `HeapLock.PostIffOutermost` | software/MappingRobotSoftware_bsp/UCOSII/src/alt_malloc_lock.c:133-143 | the semaphore is posted exactly at the outermost unlock |
| `HeapLock.PendSoundIffSchedulerFree` | software/MappingRobotSoftware_bsp/UCOSII/src/alt_malloc_lock.c:97-105 | in every reachable state with a second task: no continuation that itself pends only with a free scheduler has two holders, if and only if the scheduler is not locked at this pend |
| `HeapLock.RefusedPendBreaches` | software/MappingRobotSoftware_bsp/UCOSII/src/alt_malloc_lock.c:97-105 | after a pend refused because the scheduler is locked, whether or not the heap was free, some such continuation ends with two holders |
| `HeapLock.SchedulerLockBreaksExclusion` | software/MappingRobotSoftware_bsp/UCOSII/src/alt_malloc_lock.c:97-105 | a run in which two tasks hold the heap, because the pend's error is ignored |
| `Printers.IntTextReads` | software/MappingRobotSoftware_bsp/HAL/src/alt_log_printf.c:206-297 | what is printed reads back as the value, for every 32-bit word, base, flag and width |
| `Printers.IntTextLength` | software/MappingRobotSoftware_bsp/HAL/src/alt_log_printf.c:257-279 | the length is the larger of the width and digits plus sign |
| `Printers.HexAgrees` | software/MappingRobotSoftware_bsp/HAL/src/alt_log_printf.c:309-312 | without a width, %x prints what the small printf's digits are |
| `Printers.IntTextPads` | software/MappingRobotSoftware_bsp/HAL/src/alt_log_printf.c:257-279 | the zero flag leaves no spaces; without it spaces come first and the rest is the number as printed without a width |
| `Printers.Port.PrintInteger` | software/MappingRobotSoftware_bsp/HAL/src/alt_log_printf.c:206-297 | sign, padding and digits in the order the flag asks |
| `Printers.Port.PlaceValue` | software/MappingRobotSoftware_bsp/HAL/src/alt_log_printf.c:247-255 | the place value found is the largest power not above the value, so it never overflows, and the count is the number of digits |
| `Printers.Port.PrintDigits` | software/MappingRobotSoftware_bsp/HAL/src/alt_log_printf.c:281-296 | the loop over place values prints the positional notation |
| `Printers.Port.RepChar` | software/MappingRobotSoftware_bsp/HAL/src/alt_log_printf.c:105-110 | prints the character r times, not at all for r below one |
| `Printers.Port.AltPrintHex` | software/MappingRobotSoftware_bsp/HAL/src/alt_printf.c:82-110 | the shift loop prints the hexadecimal notation without leading zeros |
| `Numerals.ParseDigits` | software/MappingRobotSoftware_bsp/HAL/src/alt_log_printf.c:281-296 | positional notation read back gives the value |
| `Numerals.DigitsAreFixed` | software/MappingRobotSoftware_bsp/HAL/src/alt_log_printf.c:247-255 | counting by repeated division gives the number of digits of the notation |
| `Numerals.DigitsCase` | software/MappingRobotSoftware_bsp/HAL/src/alt_log_printf.c:281-292 | every digit character is decimal or a letter of the case the conversion asks for |
| `Formats.FormatsRender` | software/MappingRobotSoftware_bsp/HAL/src/alt_log_printf.c:130-340 | every format written from directives prints what the directives say, each field with its own argument |
| `Formats.RunWidth` | software/MappingRobotSoftware_bsp/HAL/src/alt_log_printf.c:176-190 | the digits of a width build up exactly that width |
| `Formats.LogPrivatePrintf` | software/MappingRobotSoftware_bsp/HAL/src/alt_log_printf.c:114-341 | the loop over the format is that state machine |
| `Formats.OtherChar` | software/MappingRobotSoftware_bsp/HAL/src/alt_log_printf.c:170-336 | precision point, digits, length modifier and type letter, as the state machine says |
| `Formats.PrintConversion` | software/MappingRobotSoftware_bsp/HAL/src/alt_log_printf.c:200-335 | the conversion letters and their arguments; an unknown letter prints nothing and takes none |
| `Framing.FramesDecode` | software/MappingRobotSoftware/bluetooth_helpers.c:29-54 | a decoder that undoes the stuffing recovers every list of payloads from the concatenation of their frames |
| `Framing.ArrivesIffPlain` | software/MappingRobotSoftware/bluetooth_helpers.c:118-143 | a payload sent as a frame is received unchanged if and only if it contains none of the bytes 2, 3 and 4 |
| `Framing.PlainFramesArrive` | software/MappingRobotSoftware/bluetooth_helpers.c:118-143 | the parse of the frames of any list of such payloads is that list |
| `Framing.BodyUnmarked` | software/MappingRobotSoftware/bluetooth_helpers.c:118-143 | no packet passed on contains a start or end byte |
| `Framing.Link.Send` | software/MappingRobotSoftware/bluetooth_helpers.c:29-54 | puts exactly the frame of the payload on the wire |
| `Framing.Link.SendPacket` | software/MappingRobotSoftware/bluetooth_helpers.c:60-81 | puts three frames of id, length and payload on the wire and advances the id modulo 256 |
| `Framing.Link.Receive` | software/MappingRobotSoftware/bluetooth_helpers.c:84-145 | one byte: the buffer holds the bytes since the last start, every completed packet has been posted, and the queue holds what it held followed by the packets posted since, all of them or the first until it has ten; and a byte is stored behind the buffer exactly if it continues a body of 256 bytes |
| `Framing.Link.ReceiveStream` | software/MappingRobotSoftware/bluetooth_helpers.c:84-145 | for every stream: a byte is stored behind the buffer if and only if some body of 256 bytes goes on, and otherwise the packets posted are the bytes between each start and its end, and the queue has gained them in order, all or the first until it has ten |
| `Framing.PlainFramesFitIff` | software/MappingRobotSoftware/packet_buffer.c:36-44 | frames of plain payloads overflow the receiver's buffer if and only if a payload is longer than 256 bytes |
| `Framing.SendAndReceive` | software/MappingRobotSoftware/bluetooth_helpers.c:29-143 | send on one side and receive on the other: with every payload plain, overflow exactly if one exceeds 256 bytes, and otherwise exactly the payloads are posted, in order; up to ten of them all arrive in an empty queue |
| `Framing.PacketBuffer.constructor` | software/MappingRobotSoftware/packet_buffer.c:11-17 | an empty buffer that is not started |
| `Framing.PacketBuffer.PushChar` | software/MappingRobotSoftware/packet_buffer.c:36-44 | appends the byte, or stores it behind the buffer exactly if 256 are there already: the full test never refuses |
| `Framing.PacketBuffer.Read` | software/MappingRobotSoftware/packet_buffer.c:46-55 | copies out exactly the contents and leaves the rest of the target alone |
| `Framing.PacketBuffer.Clear` | software/MappingRobotSoftware/packet_buffer.c:57-60 | empties the buffer |

## Left out

- Kernel: control blocks and event blocks are entries of tables and named by index, not by pointer; null-pointer checks, names, hooks, statistics and profiling are not modelled.
- Kernel: the status byte is a set of its bits; delays, timeouts and message values are not bounded to their C widths.
- Kernel: mutexes, event flags, task deletion, priority change, the mailbox and queue pends outside a multi-event pend, and broadcast aborts are not modelled; a broadcast abort is a sequence of single ones.
- KernelImpl.UcosKernel.constructor: the event free list `OSInit` builds is not modelled; events exist from the start.
- Kernel: the task's stack set-up is not modelled, and the idle task never pends, delays or suspends itself.
- KernelImpl.UcosKernel.TCBInit: its critical sections run one after the other; that others may come between them is stated by `Reserve`, `FillTcb` and `Enter`, each of which keeps the tables with any blocks held. The reserved mark the caller puts in the priority table meanwhile is not modelled.
- KernelImpl.UcosKernel.TimeTick: nested interrupts post, abort, suspend and resume; they do not create tasks, which the kernel refuses there, nor nest a second tick.
- Context switches are an assignment of the current task; register and assembly code is not part of this model.
- FlashController.Flash.Write: the length is that of the source sequence, so a negative C length is not modelled.
- Flash: device registration, the region table query and the status-register write are not modelled; the number of regions is the one the query sets.
- SPI: the flag that lets the core toggle chip select per byte, and slaves other than the first, are not modelled.
- JtagUart.Uart.Read: waiting for the event flag or spinning is modelled as any number of interrupts, so host-inactivity timeouts appear only as waking up with nothing new.
- JtagUart.Uart.Write: the same, and the small driver variants are not modelled.
- Alarms.AlarmList.Start: an alarm that is already registered is not started again; the source would link it into its list twice.
- Alarms: the doubly linked list is a sequence; callbacks return an interval and do nothing to other alarms.
- I2C: delays and clock stretching are not modelled; the debug messages are dropped.
- HeapLock.PendSoundIffSchedulerFree: callers in an interrupt routine, whose pend is refused as well, are not modelled; the source rules them out.
- HeapLock: calls before multitasking starts return at once and are not modelled; every unlock follows its lock.
- Printers: the rest of the small printf, and width overflow beyond an int, are not modelled; long and int have the same 32 bits.
- Framing: whoever takes packets off the receive queue is not modelled; the queue starts a run in any state.
- Framing: waiting for the transmitter, the LED updates and memory allocation are not modelled; the unused `push` is left out.
- The environment lock, the plain UART driver, the file-descriptor layer, the rest of the range finder driver and the motor code are not modelled: wrappers, or code whose claims do not hold.
