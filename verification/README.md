# Radio-unit and L1 timing machinery, verified

This project models the top-level radio-unit (RU), eNB and gNB machinery of an open RAN stack in Dafny and
proves what it keeps over whole runs.  It also models two loops of the CI scripts whose behaviour is less
obvious than it looks.  The pieces are:

- **IF4p5 fronthaul** (`SymbolLoops`, `Fronthaul`, `Lockstep`): a remote unit sends the symbols of each
  subframe, or one tick; a channel reorders them; the receiver collects them in ten per-subframe bit masks
  (`BitMasks`) and the RU thread counts subframes.  The thread reports exactly the sender's subframes, in
  order, each only after it has completely arrived.
- **RF time base** (`Timing`, `RadioUnit`, `RadioRun`, `Unwrap`): device timestamps with arbitrary drift become
  a clock of exactly one TTI per read; frame and subframe numbers, transmit timing, frame resynchronisation and
  the unwrapping of 10-bit frame numbers are all read off that clock.
- **Burst control** (`TxBurst`): the START/MIDDLE/END flags of TDD bursts and the fail-safe after a late
  command.
- **Multi-RU barrier** (`Barrier`, `BarrierWindow`): ten masks, one bit per unit; the L1 wakes when all bits
  are present.
- **L1 hand-offs** (`RxMailbox`, `TxMailbox`, `L1Chain`): a drop-if-busy mailbox and a blocking one-slot
  mailbox, as machines whose steps are the lock regions, with an explicit condition-variable wait set.
- **gNB pipeline** (`GnbPipeline`, `RxRing`, `NrClock`, `GnbThreads`): three threads over three queues, a ring
  of four receive buffers, and the radio unit's own slot clock.
- **Attachment** (`Attachment`): the inversion of the units' base-station lists, and antenna numbering.
- **CI loops** (`X2Handover`, `BuildPoll`): the X2 handover recogniser, and a poll that removes from the
  list it iterates over.

Objects the program updates in place are classes, loops are loops with invariants, and concurrent parts are
state machines quantified over every interleaving.  The lock regions and thread turns of the classes are
proved to be steps of those machines.

Where the program does not do what one would expect, the exact condition is proved:

- The fronthaul thread is in lockstep if and only if the sender's first subframe has number 0
  (`Lockstep.RuThread`), and the ten-subframe window on the channel is needed (`EarlyTickBreaks`).
- The three ways of deciding that a subframe is complete agree on symbols in range and are separated by the
  first symbol out of range (`GuardsAgree`, `OutOfRangeSeparates`).
- The transmit frame number is right for a lead of at most ten subframes and for no other short lead
  (`TxTimingExact`).
- A frame resynchronisation survives exactly if it names a frame below 1024, the previous subframe is not the
  last of its frame, and the drift of that read leaves the clock within its subframe; for drift of any size the
  condition is on the shift modulo a hyperframe (`RadioRun.Fails`, `RadioRun.RuThread`, `SmallDrift`).
- A timestamp increment is the elapsed time exactly if no (0,0) is lost in between; every lost one costs a
  hyperframe (`IncrementExact`, `UnitMeasures`).
- In every run the flags written after a restart alternate exactly if the restart falls on a downlink subframe
  (`RestartBracketedIff`).
- A completed subframe wakes the L1 exactly if the completing unit is not itself waiting
  (`Barrier.L1Barrier.WakeupL1s`, `CompletionByWaitingUnit`).
- The shared condition variable loses no wake-up exactly with at most one producer (`NeverStuckIff`).
- After it has released its slot the L1 thread loads the five fields it hands on one by one and without the
  mutex.  Each field is that of the subframe served or, exactly if it was loaded after another subframe had been
  accepted, that of the next (`EveryHandOn`); so the call hands on the subframe served exactly if every field
  loaded late is equal in both (`HandedOnIff`, `FaithfulIff`).  A call can hand on a mixture that is neither
  (`TornRun`), or the next subframe in place of its own (`OvertakenRun`).
- The gNB pipeline can deadlock exactly if the unit's own clock makes the transmit thread drop a slot whose
  buffer a later slot needs (`DeadlockIff`).  With slots of equal length, so with numerology 0 and 1, it never
  does (`EqualSlotsNeverDeadlock`).  With the slot lengths of higher numerologies and a short lead it can exactly
  if the unit reads slot 0 of frame 0, that slot has an uplink part and transmits in a long slot too early
  (`DropsAt`), and a later slot of the same buffer has an uplink part (`ShortLeadDeadlockIff`,
  `Numerology2Deadlocks`).
- The handover recogniser counts, of incoming and of outgoing handovers, the largest number of complete message
  sequences in what it hears, for every log; that is the largest number in the log if it is deaf to no line, and in
  general exactly if the scans of both complete equally many (`Analyze`, `CountIsOptimalIff`, `StuckOnSource`,
  `MissedHandover`).
- A short write cuts the burst at the next call exactly without the write thread, and not in the call that cuts
  (`ShortWriteCuts`, `ShortWritesIgnored`, `ShortWriteInCut`).
- Build jobs that are all done are reported so exactly if the timeout leaves room for floor(log2 n) + 1
  polls (`SettledWait`).

Assumptions about the environment: timestamps are not negative; subframe numbers on the wire are below ten and
the symbol count is at most sixteen (`FrameParms.Valid`, the type of a packet); `release_thread` sets the counter to -1
(oai_ran/openair1/PHY/defs_common.h:1172-1180) and `wait_on_condition` blocks while it is negative
(oai_ran/openair1/PHY/defs_common.h:1136-1151); queues are first-in first-out; device and transport calls
are inputs.  In `subframe_select` only the TDD configurations 1, 3, 4 and 5 are supported
(oai_ran/openair1/SCHED/phy_procedures_lte_common.c:753-826), fewer than the table of the standard; the
burst results are proved for all seven.

## Model

| member | source | states |
|---|---|---|
| `BitMasks.SetAndClear` | oai_ran/executables/lte-ru.c:225-227 | OR-ing `1 << n` into a mask adds exactly position n to the set the mask stands for; and-ing its complement removes exactly it |
| `BitMasks.FullIffRange` | oai_ran/executables/lte-ru.c:375-381 | a mask equals `(1 << n) - 1` iff its set is exactly {0..n-1} |
| `BitMasks.BelowFullIff` | oai_ran/executables/lte-ru.c:210-245 | for every mask, `mask < full` iff its set is a proper subset of {0..n-1} |
| `BitMasks.ZeroIffEmpty` | oai_ran/executables/lte-ru.c:320-356 | a cleared mask is zero iff no position is left |
| `FrameParms.SupportedMatchTable` | oai_ran/openair1/SCHED/phy_procedures_lte_common.c:753-826 | the four supported TDD configurations are those of section 4.2, Table 4.2-2, of 3GPP TS 36.211 |
| `FrameParms.TickFollows` | oai_ran/executables/lte-ru.c:1735-1744 | the counter update takes the numbers of absolute subframe a to those of a + 1, across both wraps |
| `SymbolLoops.NorthIn` | oai_ran/executables/lte-ru.c:366-390 | whatever the packet types, the loop stops at the first packet after which the symbol numbers received are exactly 0..n-1, and only then |
| `SymbolLoops.CoversIsEqualsFull` | oai_ran/executables/lte-ru.c:375-381 | on symbol packets that is the equality guard of the other results |
| `SymbolLoops.AsynchReceiver.SouthAsynchIn` | oai_ran/executables/lte-ru.c:311-357 | a normal return happens at the first packet after which every symbol and every announced PRACH level has been seen, all of them of the expected subframe; a timing exit exactly at the first packet of another subframe, so a call that still waits has seen none; the very first packet fixes the expectation |
| `SymbolLoops.ClearOne` | oai_ran/executables/lte-ru.c:350-356 | clearing keeps the two masks equal to what is still missing, and the loop continues iff something is |
| `SymbolLoops.GuardsAgree` | oai_ran/executables/lte-ru.c:210-390 | on in-range symbols the equality, the clear-down and the comparison guard agree on every packet sequence |
| `SymbolLoops.OutOfRangeSeparates` | oai_ran/executables/lte-ru.c:210-390 | after one out-of-range symbol the comparison guard has stopped and the equality guard never will, whatever follows |
| `Fronthaul.NorthOut` | oai_ran/executables/lte-ru.c:500-524 | the sender emits each packet of the subframe once and nothing else: in TDD exactly one tick when the pattern does not have uplink there, otherwise the symbols in order |
| `Fronthaul.SouthReceiver.constructor` | oai_ran/executables/lte-ru.c:2210-2233 | all ten masks start empty |
| `Fronthaul.SouthReceiver.ReceiveUntilFull` | oai_ran/executables/lte-ru.c:218-238 | the loop ends on the first packet that fills the awaited mask; that packet belongs to the awaited subframe; the masks are the fold of the packets |
| `Fronthaul.SouthReceiver.SouthIn` | oai_ran/executables/lte-ru.c:200-292 | one call, including the branch for a mask that is already full: which packets it consumes, that only the awaited mask is reset and every other bit is kept, and how frame, counters and transmit timing are set |
| `Fronthaul.FoldIsSeen` | oai_ran/executables/lte-ru.c:219-238 | however the packets of the ten subframes interleave, a subframe's mask stands for exactly the symbols of its own packets |
| `Fronthaul.GuardMeansMissing` | oai_ran/executables/lte-ru.c:210-238 | the `mask < full` guard holds iff the symbols seen are a proper subset of 0..n-1 |
| `Fronthaul.FullMaskStandsFor` | oai_ran/executables/lte-ru.c:210-213 | the awaited mask stands for the uplink symbols of a special subframe in TDD, and for all symbols otherwise |
| `Fronthaul.LegalAt` | oai_ran/executables/lte-ru.c:200-292 | in a legal delivery order every delivery was sent, is new, and follows all packets of the subframes ten and more earlier |
| `Lockstep.FullIffComplete` | oai_ran/executables/lte-ru.c:210-245 | in the receiver's invariant, the awaited mask is full iff every packet of the awaited subframe has arrived, for ticks and symbols alike |
| `Lockstep.InWindow` | oai_ran/executables/lte-ru.c:218-238 | a packet that arrives while the awaited subframe is incomplete belongs to the next ten subframes and is new |
| `Lockstep.ReceiveKeeps` | oai_ran/executables/lte-ru.c:219-236 | every received packet keeps all ten masks exact records of what has arrived |
| `Lockstep.ReturnKeeps` | oai_ran/executables/lte-ru.c:286-291 | resetting the returned mask moves the exact window on by one subframe |
| `Lockstep.CallCorrect` | oai_ran/executables/lte-ru.c:200-292 | a call returns iff the awaited subframe is complete, the invariant then holds for the next one, and the last packet names the awaited frame |
| `Lockstep.IterationTracks` | oai_ran/executables/lte-ru.c:1735-1744 | an iteration of a tracking thread asks for the sender's next subframe and reports it, or that subframe never completes |
| `Lockstep.Iterate` | oai_ran/executables/lte-ru.c:1733-1746 | counter update and fronthaul read together keep the thread on the sender's subframes |
| `Lockstep.RuThread` | oai_ran/executables/lte-ru.c:1733-1746 | for every legal delivery order the n-th report is the sender's n-th (frame, subframe) iff the sender started at subframe number 0; no report precedes the complete arrival; the thread stops only for want of a packet |
| `Lockstep.InOrderIsLegal` | oai_ran/executables/lte-ru.c:500-524 | a channel that keeps the order satisfies the assumptions for any number of subframes of any pattern, so they are not vacuous |
| `Lockstep.EarlyTickBreaks` | oai_ran/executables/lte-ru.c:210-245 | one tick ten subframes early makes a call return at once with the wrong frame and nothing received, so the window is needed |
| `Timing.QuotIsDivision` | oai_ran/executables/lte-ru.c:643-644 | the quotient used in the proofs is integer division |
| `Timing.TruncatedDivision` | oai_ran/executables/lte-ru.c:643-644 | on every signed timestamp the quotient truncates: the rest is shorter than the divisor and has the sign of the timestamp |
| `Timing.RemainderOfTen` | oai_ran/executables/lte-ru.c:644-644 | so does the remainder by ten |
| `Timing.StampNames` | oai_ran/executables/lte-ru.c:643-644 | the div/mod of any non-negative timestamp are the frame and subframe number of the absolute subframe it falls in |
| `Timing.TxAgreesIff` | oai_ran/executables/lte-enb.c:610-614 | exactly when the single comparison carries into the frame number correctly |
| `Timing.TxTimingExact` | oai_ran/executables/lte-enb.c:610-614 | the transmit frame and subframe are right for every reception subframe iff the lead is at most 10 (or 10 modulo a hyperframe) |
| `Timing.TxRefinesStamp` | oai_ran/executables/lte-ru.c:647-655 | for every timestamp and every lead up to 10, the branchy transmit numbers are the div/mod of the transmit timestamp, across the 1023-to-0 wrap |
| `Timing.LeadTooLong` | oai_ran/executables/lte-enb.c:610-614 | every other lead is wrong for subframe 0 or subframe 9 |
| `RadioUnit.RadioUnit.constructor` | oai_ran/executables/lte-ru.c:2210-2233 | the initial time base |
| `RadioUnit.RadioUnit.RxRf` | oai_ran/executables/lte-ru.c:577-710 | a read without command advances the clock by one TTI whatever the device says and the offset absorbs the rest; offset plus clock is the device time; a command moves the offset; when the exits are taken; when a short read forces TERMINATE |
| `RadioUnit.RadioUnit.TxRf` | oai_ran/executables/lte-ru.c:713-848 | nothing is written in uplink; otherwise the flag written and the next control state in every control state, with START only after uplink in TDD and END only in a special subframe; a short write without the write thread is a late command in the normal state and after a restart; the write is at timestamp plus offset, less the rounded extension at the start of a burst |
| `RadioRun.PlainClock` | oai_ran/executables/lte-ru.c:621-644 | without commands the clock after n + 1 reads stands at n subframes, whatever the device says, and no exit is taken |
| `RadioRun.ResynchExact` | oai_ran/executables/lte-ru.c:610-697 | where a command and a shift by s subframes lead, frame and subframe are those the thread expects iff s, plus ten at a frame boundary, is a multiple of a hyperframe |
| `RadioRun.ResynchStamp` | oai_ran/executables/lte-ru.c:610-644 | the 32-bit correction moves the timestamp of a drift-free read to exactly the commanded frame |
| `RadioRun.SmallDrift` | oai_ran/executables/lte-ru.c:610-644 | with less than nine TTIs of drift a command is survived iff the previous subframe was at most 8 and the clock stays within its subframe |
| `RadioRun.ReadKeeps` | oai_ran/executables/lte-ru.c:610-697 | for every command and every drift, one read reaches an exit iff `Fails` holds, and otherwise keeps clock and local counters in agreement, offset within the subframe included |
| `RadioRun.FirstRead` | oai_ran/executables/lte-ru.c:634-636 | the first read sets the clock to zero, with or without a pending command |
| `RadioRun.Iterate` | oai_ran/executables/lte-ru.c:1733-1746 | an iteration exits iff the command is bad, and otherwise leaves a sample that agrees with the clock and the device time |
| `RadioRun.CallTx` | oai_ran/executables/lte-ru.c:1861-1874 | the write for the subframe `ahead` of the clock is exactly the lead after the device time of the read, less the extension; flag and control state are one step of the burst control |
| `RadioRun.RuThread` | oai_ran/executables/lte-ru.c:1733-1874 | for every sequence of device timestamps, commands, short reads and short writes: all samples agree with clock, counters and device time; exits are reached exactly at the first bad command; every write is exactly the lead after its read's device time, less the extension; the flags are the outputs of the burst control on that run |
| `RadioRun.ControlIsBurstControl` | oai_ran/executables/lte-ru.c:767-829 | control states and flags of a run of calls are those of the burst control on its reads and transmissions |
| `RadioRun.CleanRunBracketed` | oai_ran/executables/lte-ru.c:724-755 | in a run of the thread without faults and commands the START and END flags written are those of the pattern and alternate |
| `RadioRun.CleanFddRun` | oai_ran/executables/lte-ru.c:724-755 | in FDD every subframe of a run of the thread without faults and commands writes, and writes MIDDLE |
| `Unwrap.NorthReceiver.SubframeReceived` | oai_ran/executables/lte-ru.c:469-474 | 1024 frames are added on (0,0), before the timestamp is formed |
| `Unwrap.LostBetween` | oai_ran/executables/lte-ru.c:469-474 | the number of (0,0) lost between two receptions is zero iff none lies strictly between them |
| `Unwrap.UnwrapStream` | oai_ran/executables/lte-ru.c:469-474 | for every stream each timestamp decodes by div/mod to the frame and subframe received; if the stream is in order and loses no (0,0), timestamps strictly increase and any two differ by exactly the elapsed subframes times the samples per TTI |
| `Unwrap.StampsMeasure` | oai_ran/executables/lte-ru.c:469-474 | that difference, across any number of wraps |
| `Unwrap.UnitDecodes` | oai_ran/executables/lte-ru.c:469-474 | the same in subframes, however many wraps came before |
| `Unwrap.UnitMeasures` | oai_ran/executables/lte-ru.c:469-474 | over an in-order stream the transmit times measure the elapsed subframes less one hyperframe for each lost (0,0) |
| `Unwrap.IncrementExact` | oai_ran/executables/lte-ru.c:469-474 | one increment is exactly the elapsed time iff no (0,0) is lost in between |
| `TxBurst.FailSafeHolds` | oai_ran/executables/lte-ru.c:767-796 | over every run with read faults and short writes anywhere: at most two calls in a row are silent, only after a cut, and the first write after silence is START or END_NO_TIME_SPEC |
| `TxBurst.Recovers` | oai_ran/executables/lte-ru.c:527-535 | after any run, a fault-free stretch is back in the normal state exactly after the calls still needed, at most four |
| `TxBurst.FaultFreeWrites` | oai_ran/executables/lte-ru.c:767-829 | after any run, what every call of a fault-free stretch writes: cut, silence twice, START, then its own flag |
| `TxBurst.ShortWriteCuts` | oai_ran/executables/lte-ru.c:825-829 | after every run in the normal state or about to restart, without the write thread: a short write and the next call write the flag due and END_NO_TIME_SPEC, whatever the next call was to write |
| `TxBurst.ShortWritesIgnored` | oai_ran/executables/lte-ru.c:825-829 | with the write thread, short writes anywhere in a run change neither what is written nor the control state |
| `TxBurst.ShortWriteInCut` | oai_ran/executables/lte-ru.c:825-829 | nor do they, without it, in the call that cuts and in the silent ones |
| `TxBurst.TableIsBurstShaped` | oai_ran/openair1/SCHED/phy_procedures_lte_common.c:753-826 | in all configurations of Table 4.2-2 of 3GPP TS 36.211, S follows DL and precedes UL, and UL follows S or UL |
| `TxBurst.BurstStep` | oai_ran/executables/lte-ru.c:724-755 | START happens exactly where a burst opens, END exactly where it closes, MIDDLE exactly inside |
| `TxBurst.BurstsBracketed` | oai_ran/executables/lte-ru.c:724-755 | the START and END flags of the pattern from any starting subframe alternate strictly; the first says whether a burst was open and the last whether one is |
| `TxBurst.WritesBracketed` | oai_ran/executables/lte-ru.c:724-796 | after every run that is in the normal state, the START and END flags the calls of a fault-free stretch write are those of the pattern, and alternate |
| `TxBurst.RestartBracketedIff` | oai_ran/executables/lte-ru.c:787-790 | after every run that is about to restart, the flags written from the restart on alternate for every length iff the restart falls on a downlink subframe |
| `TxBurst.RestartOnSpecialUnbracketed` | oai_ran/executables/lte-ru.c:767-796 | a run of configuration 1 in which a read fault leads to two STARTs without an END between them |
| `Barrier.PendingIs` | oai_ran/executables/lte-ru.c:1160-1185 | over any call sequence a subframe's mask holds exactly the units accounted for since it last completed |
| `Barrier.FiresIff` | oai_ran/executables/lte-ru.c:1160-1195 | for any number of units in any condition, a call completes its subframe iff since the last completion every unit reported it, was seen in synchronisation, or was seen as a slave inside its wait window |
| `Barrier.OneCallFires` | oai_ran/executables/lte-ru.c:1160-1195 | the first call after a completion completes the subframe iff the caller does not wait or is in synchronisation and every other unit is in synchronisation or a slave that waits |
| `Barrier.LastCountWakes` | oai_ran/executables/lte-ru.c:1160-1195 | a slave on its last count is counted by its own call, and wakes the L1, in every subframe but 9 |
| `Barrier.CompletionByWaitingUnit` | oai_ran/executables/lte-ru.c:1190-1232 | a completing call by a unit that is itself waiting, which wakes nobody |
| `Barrier.L1Barrier.constructor` | oai_ran/executables/lte-enb.c:861-874 | the masks start empty |
| `Barrier.L1Barrier.WakeupL1s` | oai_ran/executables/lte-ru.c:1133-1238 | the call completes iff the history says so, wakes the L1 iff moreover the caller does not wait, resets only its own mask, and thaws the units |
| `BarrierWindow.ReportInWindow` | oai_ran/executables/lte-ru.c:1160-1195 | in step, a call completes its subframe iff it is the last of the reports for it |
| `BarrierWindow.CompletesOldest` | oai_ran/executables/lte-ru.c:1190-1195 | the completed subframe is the oldest incomplete one |
| `BarrierWindow.BarrierInStep` | oai_ran/executables/lte-ru.c:1133-1238 | over every interleaving of windowed calls, as many completions as subframes all units have reported, and the ten masks hold exactly the reports of the next ten |
| `BarrierWindow.CompletesInOrder` | oai_ran/executables/lte-ru.c:1190-1232 | each subframe occurrence is completed once, by its last reporter, in increasing order |
| `RxMailbox.L1Proc.WakeupRxtx` | oai_ran/executables/lte-enb.c:579-628 | busy means dropped and unchanged; otherwise the slot holds the numbers received and a transmit timestamp exactly the lead later, and for a lead of at most 10 the transmit frame and subframe are the div/mod of that timestamp; the machine's Offer step is always possible and leads to the same fields |
| `RxMailbox.PayloadNames` | oai_ran/executables/lte-enb.c:610-614 | for every timestamp of subframe q and every lead up to 10, the payload names subframe q for reception and subframe q + lead for transmission, and its transmit timestamp is the lead later at the same offset |
| `RxMailbox.PayloadOfStamp` | oai_ran/executables/lte-enb.c:610-614 | the same on the timestamp itself |
| `RxMailbox.L1Proc.Release` | oai_ran/openair1/PHY/defs_common.h:1172-1180 | releasing leads to the fields of the machine's Finish step, which is possible whenever the thread serves |
| `RxMailbox.AlwaysEnabled` | oai_ran/executables/lte-enb.c:579-628 | an offer is a step in every state |
| `RxMailbox.NextSafe` | oai_ran/executables/lte-enb.c:579-628 | every step keeps the conservation law, and only a release changes a filled slot |
| `RxMailbox.RunsAreSafe` | oai_ran/executables/lte-enb.c:407-440 | in every reachable state the offers are the served, the one in the slot and the dropped; the counter is -1 or 0; the slot is stable from wake-up to release; no sleep on a filled slot |
| `RxMailbox.FilledIff` | oai_ran/executables/lte-enb.c:579-628 | the slot is filled iff a subframe was accepted since the last release |
| `RxMailbox.RunsAreLoading` | oai_ran/executables/lte-enb.c:430-438 | in every reachable state each field in hand is that of the subframe served, or of the next iff it was loaded after that one had been accepted |
| `RxMailbox.EveryHandOn` | oai_ran/executables/lte-enb.c:430-438 | over every run, with the five loads in any order and offers anywhere between them, each field of the i-th call is that of the i-th accepted subframe, or of the next iff it was loaded after that one had been accepted |
| `RxMailbox.HandedOnIff` | oai_ran/executables/lte-enb.c:430-438 | a call hands on the subframe served iff every field loaded late is equal in both subframes |
| `RxMailbox.FaithfulIff` | oai_ran/executables/lte-enb.c:430-438 | over every run, what is handed on is what was served, in order, iff no call took a field of another subframe |
| `RxMailbox.FaithfulIfNotOvertaken` | oai_ran/executables/lte-enb.c:430-438 | so it is if no subframe is accepted between a release and the last load after it |
| `RxMailbox.TornRun` | oai_ran/executables/lte-enb.c:430-438 | a run whose call hands on the receive fields of one subframe and the transmit fields of the next: neither of the two |
| `RxMailbox.OvertakenRun` | oai_ran/executables/lte-enb.c:430-438 | a run that loses one subframe and hands the next on twice |
| `TxMailbox.L1ProcTx.WakeupTx` | oai_ran/executables/lte-enb.c:543-576 | a pass skips iff the mode is TDD and the pattern has uplink at the transmit subframe, and otherwise sleeps iff the slot is pending; its whole effect; a pass through the lock leads to the fields of the machine's Enter step, which is always possible |
| `TxMailbox.L1ProcTx.Complete` | oai_ran/executables/lte-enb.c:314-362 | the completed payload is the one in the slot; leads to the fields of the machine's Complete step, which is possible whenever the consumer works |
| `TxMailbox.NextSafe` | oai_ran/executables/lte-enb.c:543-576 | every step keeps the slot protocol, and a pending slot does not change |
| `TxMailbox.RunsAreSafe` | oai_ran/executables/lte-enb.c:314-362 | for any number of producers: the counter is -1 or 0, submitted is completed plus the pending one, the slot is stable under the consumer |
| `TxMailbox.RunsAreExact` | oai_ran/executables/lte-enb.c:314-362 | with one producer: producer and consumer never both wait, and the non-uplink subframes offered are, in order, those completed, the pending one and the one in hand |
| `TxMailbox.NothingElseSkipped` | oai_ran/executables/lte-enb.c:543-576 | over every run with one producer, each transmission asked for is completed, pending or in hand as often as it was asked for, unless the mode is TDD and the pattern has uplink at its transmit subframe; in FDD they are all of them, in order |
| `L1Payload.NonUplinkCounts` | oai_ran/executables/lte-enb.c:552-553 | which subframes are skipped, on the TDD pattern |
| `TxMailbox.StuckForever` | oai_ran/openair1/PHY/defs_common.h:1136-1151 | a pending slot with a sleeping consumer is left by no step but a spurious wake-up |
| `TxMailbox.TwoProducersStick` | oai_ran/executables/lte-enb.c:556-572 | two producers can reach that state |
| `TxMailbox.NeverStuckIff` | oai_ran/executables/lte-enb.c:543-576 | no reachable state is stuck iff there is at most one producer |
| `L1Chain.EndToEnd` | oai_ran/executables/lte-enb.c:407-440 | over both hand-offs, with no acceptance between a release and the last load after it, the completed transmissions are a prefix of the accepted non-uplink subframes, in runs of any length, and all of them once both hand-offs are drained; in FDD a prefix of all accepted subframes |
| `GnbPipeline.FilterConcat` | oai_ran/executables/nr-gnb.c:107-150 | the filter distributes over consecutive inputs |
| `GnbPipeline.NextRefines` | oai_ran/executables/nr-gnb.c:107-281 | every step of the three threads keeps: output followed by the filter of the work in flight is the filter of the input |
| `GnbPipeline.RunsRefine` | oai_ran/executables/nr-gnb.c:107-281 | so in every reachable state of every interleaving |
| `GnbPipeline.DrainedIsFilter` | oai_ran/executables/nr-gnb.c:174-281 | the reported slots are a prefix of the wanted inputs, and once drained exactly those, in order, once each: a pushed slot is reported iff its reception slot is not before time zero and is an uplink or mixed slot |
| `GnbPipeline.DrainedReports` | oai_ran/executables/nr-gnb.c:107-281 | over every run, once drained each slot has been reported as often as it was pushed if `timestamp_tx` divided by the slot length is at least the lead and the receive slot is uplink or mixed, and otherwise never |
| `GnbPipeline.L1CanStep` | oai_ran/executables/nr-gnb.c:174-201 | while something is in flight one of the L1 threads can step |
| `GnbPipeline.Drains` | oai_ran/executables/nr-gnb.c:174-201 | every step of the L1 threads leaves less to do and the radio unit alone, and nothing is left exactly when nothing is in flight |
| `RxRing.RuStepSafe` | oai_ran/executables/nr-ru.c:1321-1406 | the radio unit's steps keep buffered slots in flight in different, marked buffers |
| `RxRing.L1StepSafe` | oai_ran/executables/nr-gnb.c:107-281 | so do the steps of the L1 threads |
| `RxRing.WriterExcludesReaders` | oai_ran/executables/nr-ru.c:1321-1356 | in every reachable state no slot in the pipeline occupies the buffer that the radio unit writes |
| `RxRing.DeadlockIsFinal` | oai_ran/executables/nr-ru.c:1333-1349 | a radio unit waiting for a buffer with nothing in flight waits forever |
| `RxRing.RunsKeep` | oai_ran/executables/nr-ru.c:1321-1406 | in every reachable state: buffered slots in flight have different, marked buffers; what was pushed are the unit's slots in order; every busy buffer belongs to a slot in flight or to one that is dropped; and the buffer of a dropped slot is never freed |
| `RxRing.LeakedStays` | oai_ran/executables/nr-ru.c:1333-1353 | a busy buffer with no slot in flight stays so under every step |
| `RxRing.Settle` | oai_ran/executables/nr-gnb.c:174-201 | from every reachable state the L1 threads can finish what is in flight |
| `RxRing.StallDeadlocks` | oai_ran/executables/nr-ru.c:1333-1349 | if a slot of the unit is dropped with its buffer and a later slot of the unit needs the buffer, a run over the unit's own slots ends in deadlock |
| `RxRing.DeadlockIff` | oai_ran/executables/nr-ru.c:1321-1406 | a deadlock is reachable iff there are two such slots |
| `NrClock.ProducedEarlyIff` | oai_ran/executables/nr-gnb.c:113-118 | which slots of the unit's clock `tx_func` drops, in closed form: those that transmit in a long slot before the time elapsed makes up for the short slots of the lead |
| `NrClock.StartIs` | oai_ran/openair1/PHY/INIT/nr_parms.c:239-263 | the first sample of a slot, in closed form, for the slot lengths of a numerology |
| `NrClock.EqualSlotsNeverEarly` | oai_ran/executables/nr-ru.c:1304-1308 | with slots of equal length (numerology 0 and 1) no slot of the unit is ever dropped |
| `NrClock.EqualSlotsNeverDeadlock` | oai_ran/executables/nr-ru.c:1321-1406 | and no reachable state is a deadlock |
| `NrClock.OnlySlotZero` | oai_ran/executables/nr-gnb.c:113-118 | with a lead whose length differences do not add up to a slot, only slot 0 of frame 0 can be dropped |
| `NrClock.ShortLeadDeadlockIff` | oai_ran/executables/nr-ru.c:1321-1406 | a deadlock is then reachable iff slot 0 of frame 0 is read, has an uplink part and is dropped, and a later slot of the same buffer has an uplink part |
| `NrClock.Numerology2Deadlocks` | oai_ran/executables/nr-ru.c:1321-1406 | with numerology 2, lead 6, frequency division and a first timestamp of zero the deadlock is reachable |
| `NrClock.TickStep` | oai_ran/executables/nr-ru.c:1274-1281 | the counters follow the slot number across the ends of frame and hyperframe |
| `NrClock.LeadSamples` | oai_ran/executables/nr-ru.c:1304-1306 | the loop over the lead adds up to the start of the transmit slot |
| `GnbThreads.LeadsKeeps` | oai_ran/executables/nr-gnb.c:174-201 | what every step keeps, every thread turn keeps |
| `GnbThreads.LeadsReachable` | oai_ran/executables/nr-gnb.c:174-201 | what thread turns lead to from the initial state is reachable in the machine |
| `GnbThreads.TakeTurns` | oai_ran/executables/nr-ru.c:1245-1406 | with slots of equal length and the threads taking turns, the unit is never blocked, all its slots are pushed, and the reported ones are the filter of them |
| `GnbThreads.Gnb.constructor` | oai_ran/executables/nr-ru.c:594-705 | after the first read: the clock stands at its slot, no buffer is busy and the queues are empty |
| `GnbThreads.Gnb.NextRead` | oai_ran/executables/nr-ru.c:594-705 | the next read moves frame, slot and timestamp to those of the next slot, over RF and over IF4p5 |
| `GnbThreads.Gnb.SlotOf` | oai_ran/executables/nr-ru.c:1304-1308 | the slot computed from the last read is that of the unit's clock; its receive frame and slot are those of the read and its transmit slot is the lead later in the frame |
| `GnbThreads.Gnb.TxTurn` | oai_ran/executables/nr-gnb.c:107-172 | a pull and `tx_func` are the machine's two transmit steps; the slot goes on to reception iff its reception slot is not before time zero |
| `GnbThreads.Gnb.RxTurn` | oai_ran/executables/nr-gnb.c:203-281 | a pull and `rx_func` are the machine's two receive steps; the slot is reported iff its receive slot is uplink or mixed |
| `GnbThreads.Gnb.L1TxThread` | oai_ran/executables/nr-gnb.c:189-201 | the thread empties its queue by steps of the machine |
| `GnbThreads.Gnb.L1RxThread` | oai_ran/executables/nr-gnb.c:174-187 | the thread empties its queue by steps of the machine |
| `GnbThreads.Gnb.Drain` | oai_ran/executables/nr-gnb.c:174-201 | the two threads empty the pipeline, and the output is then the filter of the input |
| `GnbThreads.Gnb.TakeBuffer` | oai_ran/executables/nr-ru.c:1324-1353 | the waiting loop frees every reported buffer, ends with the slot's buffer marked, or blocks on an empty queue while it is busy; all of it steps of the machine |
| `GnbThreads.Gnb.PushSlot` | oai_ran/executables/nr-ru.c:1321-1406 | the slot is pushed once, or the thread is blocked; an uplink or mixed slot has its buffer, slot number modulo four, marked, and any other slot touches no buffer |
| `GnbThreads.Gnb.RuTurn` | oai_ran/executables/nr-ru.c:1304-1406 | one slot of the radio unit, computed from its clock, is pushed exactly once, or the thread is blocked before it |
| `Attachment.FillIn` | oai_ran/executables/lte-ru.c:2695-2706 | an empty first slot of a used list is set to the first base station and the count to one, anything else is left alone; which base stations the list stands for does not change |
| `Attachment.AttachTo` | oai_ran/executables/lte-ru.c:2727-2730 | every base station gains the unit as often as the list holds it, and nothing else |
| `Attachment.InitRu` | oai_ran/executables/lte-ru.c:2680-2732 | every base station's list is what it held before (nothing after a reset), followed by the inverse of the units' lists |
| `Attachment.InverseOrdered` | oai_ran/executables/lte-ru.c:2692-2730 | the inverse names units only, in ascending order |
| `Attachment.InverseCounts` | oai_ran/executables/lte-ru.c:2692-2730 | it holds a unit as often as the unit's list holds the base station |
| `Attachment.Locate` | oai_ran/executables/lte-enb.c:1169-1187 | every number below the total is the number of an antenna of a unit |
| `Attachment.NumberingInjective` | oai_ran/executables/lte-enb.c:1169-1187 | prefix sum plus antenna numbers antennas injectively, below the total, and in order |
| `Attachment.CountAntennas` | oai_ran/executables/lte-enb.c:1154-1158 | the separate counting loop computes that total |
| `Attachment.FlatAt` | oai_ran/executables/lte-enb.c:1178-1187 | antenna i of unit r stands at its number |
| `Attachment.MapUnit` | oai_ran/executables/lte-enb.c:1178-1187 | one unit's antennas, with their PRACH, coverage-level and data buffers, replace exactly the slots from the running index on |
| `Attachment.MapAntennas` | oai_ran/executables/lte-enb.c:1154-1195 | the array holds all units' antennas in order and is unchanged beyond the total; the count is the total, forced up to one when there is none |
| `X2Handover.ScanIsOptimal` | oai_ran/ci-scripts/ran.py:862-886 | a prefix of the repeated message sequence of incoming, or of outgoing, handovers is a subsequence of the log iff a left-to-right scan gets that far |
| `X2Handover.LineKeeps` | oai_ran/ci-scripts/ran.py:862-886 | whatever patterns a line contains, every counted procedure keeps its own ordered witness lines |
| `X2Handover.CascadePasses` | oai_ran/ci-scripts/ran.py:862-886 | for every line and state, and for handovers of both kinds, the cascade does what a scan of the line's messages does, unless it is deaf to the line |
| `X2Handover.HeardProgress` | oai_ran/ci-scripts/ran.py:862-886 | for every log and for handovers of both kinds the recogniser is the scan of what it hears |
| `X2Handover.CountIsOptimalIff` | oai_ran/ci-scripts/ran.py:862-886 | for every log and for both kinds the count is the largest k such that the k-fold message sequence is a subsequence of what is heard, and of all messages iff the two scans complete equally many |
| `X2Handover.Counted` | oai_ran/ci-scripts/ran.py:862-886 | with at most one pattern in a line, the count is the largest in the log iff the scans of the log and of what is heard complete equally many; so it is if no handover of the other kind starts |
| `X2Handover.CountsAreOptimal` | oai_ran/ci-scripts/ran.py:862-886 | with at most one pattern in a line and no handover request, the outgoing count is the largest k such that the k-fold sequence of acknowledgement and release is a subsequence of the log; likewise for incoming ones without acknowledgement |
| `X2Handover.RunKeeps` | oai_ran/ci-scripts/ran.py:862-886 | for every log every counted handover has its own ordered witness lines |
| `X2Handover.ReleaseCounts` | oai_ran/ci-scripts/ran.py:882-886 | after every log that leaves the recogniser at the source-side acknowledgement, a line with a release makes it idle and counts one outgoing handover, and any other line changes nothing |
| `X2Handover.SpokenIsLog` | oai_ran/ci-scripts/ran.py:862-886 | with at most one pattern in a line the messages are the log |
| `X2Handover.OneLine` | oai_ran/ci-scripts/ran.py:862-886 | the cascade of tests, in the order of the code: next state and what is counted; a release closes an outgoing handover and a path switch acknowledgement an incoming one, and nothing else does |
| `X2Handover.Analyze` | oai_ran/ci-scripts/ran.py:862-886 | for every log each counted procedure has disjoint ordered witness lines, and both counts are the largest possible in what is heard; on logs with at most one pattern in a line each is the largest possible in the log if no handover of the other kind starts, or if the recogniser is deaf to no line |
| `X2Handover.StuckOnSource` | oai_ran/ci-scripts/ran.py:882-886 | after a source-side acknowledgement nothing changes until a release, for every continuation |
| `X2Handover.MissedHandover` | oai_ran/ci-scripts/ran.py:862-886 | a log with a complete incoming handover that is not counted |
| `BuildPoll.PollOnce` | oai_ran/ci-scripts/cls_cluster.py:194-199 | the `for` loop over the shrinking list, for any list, equals the index scan that the results below are about |
| `BuildPoll.ScanSound` | oai_ran/ci-scripts/cls_cluster.py:194-199 | for any list and any answers: a job leaves the list only after a query showed it Completed, and the poll fails iff a query showed Error |
| `BuildPoll.ScanExamines` | oai_ran/ci-scripts/cls_cluster.py:194-199 | with distinct jobs, the job after a completed one is passed over and every other is queried, in order |
| `BuildPoll.HalfStay` | oai_ran/ci-scripts/cls_cluster.py:194-196 | of n jobs that are all done a poll leaves n / 2 |
| `BuildPoll.WaitBuildEnd` | oai_ran/ci-scripts/cls_cluster.py:190-206 | for any interval: True implies that every job was seen Completed and none in Error; no poll starts after the timeout; no answer within `limit` polls means that `limit` intervals are less than the timeout |
| `BuildPoll.WaitSound` | oai_ran/ci-scripts/cls_cluster.py:190-206 | the same for every list, every cluster behaviour and every timeout |
| `BuildPoll.WaitBounded` | oai_ran/ci-scripts/cls_cluster.py:192-206 | at most ceil(timeout / interval) polls; False without an Error seen means that the timeout is used up; with a positive interval an answer always comes |
| `BuildPoll.PollsNeededIsLog` | oai_ran/ci-scripts/cls_cluster.py:192-206 | the polls needed for n finished jobs are floor(log2 n) + 1 |
| `BuildPoll.SettledWait` | oai_ran/ci-scripts/cls_cluster.py:190-206 | for any interval, finished jobs are reported so iff the timeout is positive and exceeds (polls needed - 1) intervals, and then after exactly the polls needed |

## Left out

- Shutdown, `oai_exit`, STOP commands and the timing exits' process termination: an exit is an outcome of the call.
- `fh_if5_south_in` and `fh_if5_south_out`: the same time base without masks or offset.
- `wakeup_txfh`, `ru_thread_tx` and the transmit masks, which give no delivery guarantee.
- `PHY_TX_THREAD`, `PRE_SCD_THREAD` and the parallel configurations in which `L1_thread` works for both directions.
- RxMailbox.EveryHandOn: an acceptance is one step; a load among its five stores sees its field before or after, as a load before or after the step does.
- The symbol loop of `fh_if4p5_north_asynch_in`: only its unwrapping of frame numbers.
- Unwrap.NorthReceiver.SubframeReceived: does not model 32-bit overflow of the unwrapped frame number.
- RadioUnit.RadioUnit.TxRf: sample lengths, the dummy write of the RF simulator and the write thread's queue are left out; the extension is rounded as on x86.
- RadioRun.RuThread: a command read, up to the first that is not survived, whose drift takes the clock below zero is excluded; the command arithmetic is 32-bit, timestamps are unbounded; transmission is that of the single-threaded configuration.
- GnbThreads.Gnb.NextRead: the timing exits of the gNB's `rx_rf` are not modelled; a first timestamp further into its slot than the shortest slot is long is excluded.
- Barrier.L1Barrier.WakeupL1s: the synchronisation check, time stamps and logging are left out.
- Attachment.MapAntennas: the six buffer arrays, filled at the same index, are one array of records; the capacity of the arrays is required.
- Attachment.InitRu: the fixed capacity of a base station's list is not modelled.
- BuildPoll.WaitBuildEnd: the commands behind a query are the `Cluster` argument; with an interval of zero or below, which may never end, the first `limit` polls are observed.
- Text matching in the handover recogniser: a line is the set of patterns it contains.
- Signal processing, scheduling, RLC/MAC, configuration parsing and all other CI code.
