# MONA safety core, verified

MONA is a mobile robot whose motion is guarded by three ROS 2 nodes. This project models them and proves
what they do over every run:

* the **FDIR manager** polls managed components, power-cycles the failing ones on a timed recovery machine,
  locks a component out after its fourth strike, and publishes one global health state;
* the **twist multiplexer** arbitrates between stick and navigation commands, smooths and clamps the result,
  and blocks motion on request of the other two;
* the **safety node** latches emergency stops, drives the contactors, and clips what reaches the motors.

Each node appears twice: as a class whose methods follow the C++ callbacks statement by statement
(`FdirManagerNode.dfy`, `TwistMuxNode.dfy`, `SafetyNode.dfy`), and as a step function on values
(`Recovery.dfy` and `MonitorSpec.dfy`, `MuxSpec.dfy`, `SafetySpec.dfy`) that the methods are proved to follow
(`Visited`, `Does`). The theorems are about runs of the step functions. `SystemSpec.dfy` joins the three nodes
with lossy FIFO queues; `EndToEnd.dfy`, `Decline.dfy`, `StopLatch.dfy`, `Degradation.dfy`,
`SystemException.dfy`, `Queues.dfy`, `Throughput.dfy` and `Lockout.dfy` hold the whole-system theorems.

## Assumptions

* Time and velocity are real numbers. The clock never runs backwards and two events may share an instant.
* The filter weight is between 0 and 1, speed limits and timeouts are not negative (`MuxSpec.Sensible`). The
  code does not check this. Recovery times may be any real number.
* Each callback is one atomic step (except in `BlockFlags.dfy`), and passes of the monitoring loop do not overlap.
* A state query returns any `uint8`; a transition request is logged and its outcome ignored, as in the code.
* Speeds are compared on squares instead of through `hypot`.

## What the proofs say about the code

* With the default parameters (command timeout 0.5 s, takeover time 2.0 s) the multiplexer can throw its
  "undefined state" exception in ordinary use: let the stick go quiet for more than 0.5 s and send a navigation
  command within 2 s. Without safety blocks the exception is out of reach exactly when every configuration in use
  has takeover time <= command timeout < takeover time + 1 s. With blocks, the spells that count are those into
  which a control tick falls, with no activation after it, and that end in active operation: if all of them
  outlast a given bound, the exception is out of reach exactly when the timeouts are as above and the bound is at
  least the command timeout (`MuxException.ExceptionFreeIff`). For every length up to the command timeout
  there is a life in which a stick command, a block, a control tick and a release after that length make the next
  control tick throw (`MuxException.ShortBlockCrashes`). The condition is the same in the composed system
  (`SystemException.SystemExceptionIff`), where only emergency-stop spells ever end, because an FDIR block is for
  good (`SystemException.OnlyStopsRelease`).
* The tier of a component (FATAL, PRIMARY, AUXILIARY) never has an effect: a component is locked out, and
  EMERGENCY published, before the tier switch can run. docs/architecture/safety_and_fdir.md:98-103 describes
  tier-dependent reactions; the model follows the code.
* docs/architecture/safety_and_fdir.md:151 says the latch drops routine state updates. The code overwrites the
  mode while latched, whatever the message except SOFTWARE_OK and unknown states (`SafetyLatch.ModeIsOverwritten`);
  what the latch does guarantee is about outputs (`SafetyLatch.LatchHolds`).
* The header initialises the safety mode to PROTECTIVE_STOP (safety_node.hpp:101), but the constructor overrides
  it with NORMAL (safety_node.cpp:28); the model starts in NORMAL.
* An ACTIVE report in the middle of a power cycle abandons the cycle with the relay open
  (`RecoveryReports.ActiveLeavesOpen`); the relay stays so until another cycle closes it. A component that is locked
  out keeps its power (`RecoveryReports.RelayFollows`).
* Until the first health message an active safety node is in NORMAL: it forwards velocities before anybody has
  vouched for the system, though with the contactors open (`SafetyAnswers.NormalAtFirst`).
* The reset service has no processing gate and closes the contactors whatever the FDIR manager last said
  (`Lockout.ResetRepowers`). Neither the publishers nor the reset service go away at shutdown, so a stop, a
  shutdown and a reset leave the contactors told to close by a node that will never open them again, the
  emergency-stop service included (`SafetyShutdown.ResetAfterShutdown`); `SafetyShutdown.PoweredForGoodIff` says
  exactly when this comes about. A lifecycle error in operation can also leave them closed while the node believes them open
  (`SafetyLatch.StrandedContactors`). The latter input rests on the assumption that the lifecycle framework can
  raise an error in any stage: every handler of this node reports success, and none of them is seen to throw.
* Activation forgets the stick: it sets the timers back, so an activation within the takeover time of a stick
  command lets navigation in at once. That is the only way manual priority fails
  (`MuxPriority.ManualPriorityIff`), and with any positive takeover time it can happen (`MuxPriority.ImpatientLife`).
* Navigation may take over an inactive multiplexer, and a reconfiguration may then lengthen the takeover time it
  had respected (`MuxPriority.StateYieldsIff`); activation resets the mode, so no active node is affected.
* The unlocked flag callbacks of the multiplexer can lose a block (`BlockFlags.BlockCanBeLost`);
  `BlockFlags.WrongIffContradicted` says exactly when. In particular the last callback to store the combined flag
  was then overtaken by another one (`BlockFlags.WrongMeansOvertaken`).

## Model

| member | source | states |
|---|---|---|
| `FdirManagerNode.FdirManager.InitManagedNodes` | src/mona_core/src/fdir_manager_node.cpp:97-228 | The boot halts with the first fault in list order, or else the components and the relay publishers are those of the policy and the four maps agree, for any list including repeated node names |
| `FdirManagerNode.ProvisionedMeaning` | src/mona_core/src/fdir_manager_node.cpp:128-221 | A name is managed iff an enabled entry carries it, and then with the name, tier, mechanism, topic, startup time and configuration time of the last such entry and the global power-off time, nominal, without strikes and recorded as unconfigured |
| `FdirManagerNode.FaultMeaning` | src/mona_core/src/fdir_manager_node.cpp:128-190 | An entry is sound iff it is disabled or its name, tier, mechanism and, for a relay, topic are in order; each fault names the first field that is not |
| `FdirManagerNode.FirstFaultMeaning` | src/mona_core/src/fdir_manager_node.cpp:128-190 | The boot halts with a fault iff it is that of an entry with only sound ones before it |
| `FdirManagerNode.RelayTopicsMeaning` | src/mona_core/src/fdir_manager_node.cpp:217-221 | A name has a relay publisher iff some enabled entry of it asks for a relay, on the topic of the last one that does |
| `FdirManagerNode.FdirManager.HandleRecoveryFsm` | src/mona_core/src/fdir_manager_node.cpp:584-739 | The recovery machine advances one component as specified, sends exactly its relay message or cleanup request, and every relay publisher it looks up exists |
| `FdirManagerNode.FdirManager.MonitorLoop` | src/mona_core/src/fdir_manager_node.cpp:369-576 | For every iteration order a pass yields the order-free post-states, relay messages, requests and published severity; EMERGENCY, and only it, opens the contactors and overrides the motors with zero; one heartbeat per pass; the maps still agree |
| `MonitorSpec.SeverityIsLockout` | src/mona_core/src/fdir_manager_node.cpp:465-500 | Under the strike discipline a component contributes EMERGENCY iff it ends the pass defective and nothing otherwise, so the tier switch is dead |
| `MonitorSpec.PublishedMeaning` | src/mona_core/src/fdir_manager_node.cpp:369-516 | Published is EMERGENCY iff some component is defective after the pass, SOFTWARE_OK iff all reported ACTIVE and none is defective, else SYSTEM_STARTUP |
| `MonitorSpec.RunIsPointwise` | src/mona_core/src/fdir_manager_node.cpp:376-503 | In a run of the manager each component's state is its own run on its own answers: components do not interact |
| `MonitorSpec.ManagedRelays` | src/mona_core/src/fdir_manager_node.cpp:610-697 | The relay discipline holds for every fresh component in every serial run of the manager |
| `MonitorSpec.LockoutIsAnnounced` | src/mona_core/src/fdir_manager_node.cpp:376-385 | The pass that makes a component defective and every later pass publish EMERGENCY |
| `MonitorSpec.TierNonInterference` | src/mona_core/src/fdir_manager_node.cpp:467-500 | Two runs that differ only in tiers publish the same health messages, drive the same relays and request the same transitions; PROTECTIVE_STOP, DEGRADED and RECONFIGURED are never published |
| `Recovery.LockoutIsPermanent` | src/mona_core/src/fdir_manager_node.cpp:379-385 | After lockout a component's state never changes and it gets no further relay message or transition request |
| `Recovery.RunDisciplined` | src/mona_core/src/fdir_manager_node.cpp:589-608 | In every reachable state: defective iff in the DEFECTIVE phase, at most three retries otherwise, at least one retry in mid-recovery, configuration untouched |
| `Strikes.InStreak` | src/mona_core/src/fdir_manager_node.cpp:405-415 | The streak holds exactly the strikes with no later ACTIVE report |
| `Strikes.RetriesCountStrikes` | src/mona_core/src/fdir_manager_node.cpp:405-415 | The retry counter is the number of strikes since the last ACTIVE report |
| `Strikes.DefectiveIffFourStrikes` | src/mona_core/src/fdir_manager_node.cpp:589-608 | A component is defective iff its history contains four strikes with no ACTIVE report between them |
| `RelayDiscipline.RelayTheorem` | src/mona_core/src/fdir_manager_node.cpp:610-697 | The relay log of every run has the shape (open+ close)* open*, and every close comes at least the power-off time after the open before it; components without a relay send nothing |
| `RecoveryReports.RelayFollows` | src/mona_core/src/fdir_manager_node.cpp:610-697 | Where the recovery of a relay component stands says what its relay was last told: open, at the start of the discharge, until the power-on; closed, at the start of the boot, from then on, and so at lockout |
| `RecoveryReports.RelayCounts` | src/mona_core/src/fdir_manager_node.cpp:610-697 | The relay is opened once for every failure found in POWER_OFF, closed once for every one found in POWER_ON, and sent nothing else |
| `RecoveryReports.LeftOpenIff` | src/mona_core/src/fdir_manager_node.cpp:610-697 | A relay is left open iff a failure found in POWER_OFF was not followed by one found in POWER_ON |
| `RecoveryReports.ActiveLeavesOpen` | src/mona_core/src/fdir_manager_node.cpp:405-415 | An ACTIVE report in the middle of a power cycle leaves the relay open |
| `RecoveryReports.ClockRestarts` | src/mona_core/src/fdir_manager_node.cpp:610-722 | The recovery clock restarts exactly at the power-off, the power-on and the end of the boot |
| `RecoveryReports.RequestsFollow` | src/mona_core/src/fdir_manager_node.cpp:417-450 | The requests of a run are CONFIGURE for each UNCONFIGURED report, ACTIVATE for each INACTIVE one, CLEANUP for each failure in which a component without a relay is to be powered off, and nothing else; none after lockout |
| `BringUp.StackComesUp` | src/mona_core/src/fdir_manager_node.cpp:417-516 | In a closed loop with components that start in a primary state and honour requests, a pass publishes SOFTWARE_OK iff all are active and else SYSTEM_STARTUP, and SOFTWARE_OK from the third pass on || `LockoutTiming.NoEarlyLockout` | src/mona_core/src/fdir_manager_node.cpp:589-722 | The evaluation that locks a component out comes at least three full power cycles after the first strike of its streak |
| `LockoutTiming.LockoutDeadline` | src/mona_core/src/fdir_manager_node.cpp:584-726 | With evaluations at least d apart, a component never reporting ACTIVE is locked out after 3(3+K+K')+1 failure reports, UNCONFIGURED and INACTIVE ones notwithstanding |
| `LockoutTiming.DeadlineIsTight` | src/mona_core/src/fdir_manager_node.cpp:584-726 | Under a steady clock a dead component is locked out at exactly that report and not before |
| `LockoutTiming.SilenceIsFailure` | src/mona_core/src/fdir_manager_node.cpp:238-300 | A managed component that never answers is locked out at exactly the deadline || `LockoutTiming.ManagedDeadline` | src/mona_core/src/fdir_manager_node.cpp:369-516 | In the manager, the pass in which one component has spent that many failure reports, and every later pass, publish EMERGENCY whatever the other components report |
| `TwistMuxNode.TwistMux.TeleopCallback` | src/mona_control/src/twist_mux_node.cpp:193-218 | Dropped when blocked; a zero command is stored without renewing the takeover; any other takes over and cancels the goal if navigation was driving and its action server is ready |
| `TwistMuxNode.TwistMux.NavCallback` | src/mona_control/src/twist_mux_node.cpp:220-232 | Dropped when blocked; always renews the watchdog; takes control only outside the takeover window |
| `TwistMuxNode.TwistMux.FdirStateCallback` | src/mona_control/src/twist_mux_node.cpp:175-185 | The degraded and block flags follow the health state |
| `TwistMuxNode.TwistMux.SafetyStateCallback` | src/mona_control/src/twist_mux_node.cpp:188-191 | The emergency-stop flag follows the safety state |
| `TwistMuxNode.TwistMux.OnActivate` | src/mona_control/src/twist_mux_node.cpp:103-116 | Timers start in the past and the mode is IDLE |
| `TwistMuxNode.TwistMux.ControlLoop` | src/mona_control/src/twist_mux_node.cpp:234-287 | One tick routes, smooths, clamps and publishes as specified, or reports the undefined-state exception |
| `MuxForwarding.TickFollows` | src/mona_control/src/twist_mux_node.cpp:234-287 | A tick that does not throw, read off the messages of the life: blocked iff the last health or safety state says so; in MANUAL it aims at the newest stick message, in AUTONOMOUS at the newest navigation message, else at zero; the velocity moves towards that goal within the limit the last health state prescribes; it publishes exactly that velocity and the code of its mode |
| `MuxForwarding.FlagsFollow` | src/mona_control/src/twist_mux_node.cpp:175-191 | The degraded and block flags say what the last health and safety states were |
| `MuxForwarding.StickTakesOver` | src/mona_control/src/twist_mux_node.cpp:193-218 | An unblocked stick message is stored, and takes over iff its planar speed or turn rate reaches a thousandth |
| `MuxForwarding.NavigationTakesOver` | src/mona_control/src/twist_mux_node.cpp:220-232 | An unblocked navigation message refreshes the watchdog, and takes control and is stored iff the takeover time has passed |
| `MuxForwarding.CancelsOnHandover` | src/mona_control/src/twist_mux_node.cpp:206-214 | The goal is cancelled iff control passes from navigation to the stick with the action server ready |
| `MuxForwarding.OnlyTicksPublish` | src/mona_control/src/twist_mux_node.cpp:234-287 | Nothing is published except by a tick of the active node |
| `MuxForwarding.LifecycleFollows` | src/mona_control/src/twist_mux_node.cpp:51-143 | The node is configured and active as its transitions say, with the parameters of the last configuration to take effect || `MuxSpec.RunReachable` | src/mona_control/src/twist_mux_node.cpp:103-263 | In every reachable active state AUTONOMOUS means navigation spoke at least the takeover time after the stick, MANUAL means at most; the block flag is the disjunction of its causes |
| `MuxPriority.ManualPriority` | src/mona_control/src/twist_mux_node.cpp:193-257 | In every active state AUTONOMOUS implies the takeover time has passed since the last stick time |
| `MuxPriority.StateYieldsIff` | src/mona_control/src/twist_mux_node.cpp:51-53 | Over all reconfigurations within a set, the same holds in every state, inactive ones included, iff all takeover times in the set are equal |
| `MuxPriority.NavIsFreshAndYields` | src/mona_control/src/twist_mux_node.cpp:202-257 | A forwarded navigation command is the newest to reach the arbiter, arrived at the recorded time, is at most the command timeout old, and no stick command ever accepted that later activations have waited for lies inside the takeover window |
| `MuxPriority.ManualPriorityIff` | src/mona_control/src/twist_mux_node.cpp:103-116 | However a life is continued without another activation, no tick routes navigation inside the takeover window of any stick command ever accepted, iff no activation of the life falls within the takeover time of an accepted stick command |
| `MuxHistory.TeleopStaleness` | src/mona_control/src/twist_mux_node.cpp:202-257 | A forwarded stick command is the newest one, and the last non-zero one is at most the command timeout old, or younger than the command timeout plus the takeover time |
| `MuxHistory.StickAgesIff` | src/mona_control/src/twist_mux_node.cpp:220-253 | Under every configuration these are exactly the ages at which stick commands are forwarded |
| `MuxPriority.ActivationForgetsStick` | src/mona_control/src/twist_mux_node.cpp:103-116 | After every activation within the takeover time of an accepted stick command, a navigation command can be routed at once |
| `DeadMan.SilenceAimsAtZero` | src/mona_control/src/twist_mux_node.cpp:243-263 | A tick more than the command timeout after the last command of either kind aims at zero or throws, and throws only if nothing has been commanded since the activation and the command timeout is a second or more above the takeover time |
| `DeadMan.SilenceStops` | src/mona_control/src/twist_mux_node.cpp:243-286 | Whatever else happens, n ticks in such silence leave at most (1 - alpha)^n of the velocity on each axis |
| `MuxException.ExceptionFreeIff` | src/mona_control/src/twist_mux_node.cpp:234-263 | Over all event timings and all reconfigurations within a set: without blocks in active operation the exception is unreachable iff every configuration has takeover time <= command timeout < takeover time + 1; when the blocked spells into which a control tick falls and that end in active operation must outlast a bound chosen per configuration, iff moreover the bound is at least the command timeout |
| `MuxException.SpellThreshold` | src/mona_control/src/twist_mux_node.cpp:243-261 | For one configuration with such timeouts: if those spells are longer than a bound the exception is unreachable, iff the bound is at least the command timeout |
| `MuxException.ShortBlockCrashes` | src/mona_control/src/twist_mux_node.cpp:243-261 | With any parameters and for any length up to the command timeout there is a life in which a stick command, then a block of that length into which a control tick falls, make the first tick after the release throw |
| `Smoothing.TickContracts` | src/mona_control/src/twist_mux_node.cpp:267-284 | Each tick shrinks the distance to the clamped goal by 1 - alpha and never overshoots, from any velocity |
| `Smoothing.SettleBound` | src/mona_control/src/twist_mux_node.cpp:267-284 | After n ticks the distance is at most (1 - alpha)^n, and 1/(1 + n alpha), times the initial one |
| `Smoothing.SettleExact` | src/mona_control/src/twist_mux_node.cpp:267-284 | Inside the limits the closed form goal + (1 - alpha)^n (v - goal) is exact |
| `MuxSettling.StoppingBound` | src/mona_control/src/twist_mux_node.cpp:265-286 | In any run whose ticks aim at one goal under one limit, whatever callbacks come between, n ticks leave at most (1 - alpha)^n of the distance on each axis |
| `BlockFlags.WrongIffContradicted` | src/mona_control/src/twist_mux_node.cpp:175-191 | In every interleaving of atomic accesses, the combined flag is wrong at rest iff the callback that stored it last was overtaken, between a load and that decision, by another callback's store that is the last one of its flag and contradicts the decision, with no support for a block from the other flag |
| `BlockFlags.UndisturbedRestores` | src/mona_control/src/twist_mux_node.cpp:175-191 | A callback during which nobody stores a flag after it was loaded leaves the combined flag right |
| `BlockFlags.BlockCanBeLost` | src/mona_control/src/twist_mux_node.cpp:175-191 | Two overlapping callbacks can end at rest with the FDIR block up and the combined flag down |
| `SafetyNode.SafetyCore.HealthStateCallback` | src/mona_safety/src/safety_node.cpp:242-333 | Every health byte, unknown ones included, has the specified effect on mode, latch, contactors and outputs |
| `SafetyNode.SafetyCore.OdomCallback` | src/mona_safety/src/safety_node.cpp:341-355 | Motion above 0.05 in a protective stop latches the emergency stop |
| `SafetyNode.SafetyCore.EstopCallback` | src/mona_safety/src/safety_node.cpp:357-371 | The service latches, stops, opens and announces |
| `SafetyNode.SafetyCore.EstopResetCallback` | src/mona_safety/src/safety_node.cpp:373-390 | The reset succeeds exactly in an emergency, and then unlatches and closes without any gate |
| `SafetyNode.SafetyCore.SmoothedVelCallback` | src/mona_safety/src/safety_node.cpp:221-240 | A velocity is dropped, answered with a stop, or clamped to the limit of the mode |
| `SafetyNode.SafetyCore.SetHardwareContactors` | src/mona_safety/src/safety_node.cpp:168-185 | The hardware is told only of changes and only through an activated publisher |
| `SafetyNode.SafetyCore.PublishGlobalState` | src/mona_safety/src/safety_node.cpp:196-219 | The published state gives the latch priority over the mode |
| `SafetyNode.SafetyCore.OnActivate` | src/mona_safety/src/safety_node.cpp:114-123 | Activation starts processing with the contactors open |
| `SafetyNode.SafetyCore.OnDeactivate` | src/mona_safety/src/safety_node.cpp:125-135 | Deactivation opens the contactors before the publishers go quiet |
| `SafetyNode.SafetyCore.OnError` | src/mona_safety/src/safety_node.cpp:161-166 | Error handling opens the contactors and leaves the publishers as they were |
| `SafetyAnswers.VelocityAnswer` | src/mona_safety/src/safety_node.cpp:221-240 | An operating node answers every velocity with exactly one motor command: zero when latched or in a stop mode, else on each axis the input within the limit of the mode and otherwise the limit with the sign of the input |
| `SafetyAnswers.StopAnswers` | src/mona_safety/src/safety_node.cpp:242-390 | The other motor commands are one zero for each health message that demands a stop and each call of the emergency-stop service |
| `SafetyAnswers.StateAnswers` | src/mona_safety/src/safety_node.cpp:196-219 | Each multiplexer state, emergency-stop call, escalation and successful reset is answered with one announcement of the latch or else the mode, and nothing else is |
| `SafetyAnswers.ContactorAnswers` | src/mona_safety/src/safety_node.cpp:168-185 | The hardware is told of every change of the contactors, and only of changes, while the publisher is active |
| `SafetyAnswers.OdometryTrips` | src/mona_safety/src/safety_node.cpp:341-355 | Odometry latches the stop iff the squared planar speed exceeds 0.0025 in a protective stop |
| `SafetyAnswers.Records` | src/mona_safety/src/safety_node.cpp:242-339 | The last health and multiplexer states processed are on record |
| `SafetyAnswers.NormalAtFirst` | src/mona_safety/src/safety_node.cpp:28-123 | Until the first health message or emergency-stop call the node is in NORMAL, unlatched, with the contactors open and nothing told to them |
| `SafetyAnswers.LifecycleFollows` | src/mona_safety/src/safety_node.cpp:68-166 | The node operates exactly while its transitions have it active, under the limits of the last configuration || `SafetyLatch.LatchStep` | src/mona_safety/src/safety_node.cpp:242-390 | The latch is set by exactly the three triggers, cleared only by the reset service, and while set every output is zero motion, open contactors or EMERGENCY |
| `SafetyLatch.LatchHolds` | src/mona_safety/src/safety_node.cpp:196-390 | From any trigger until a reset, over any callbacks and lifecycle transitions including cleanup, reconfiguration and errors, the latch holds and no output is harmful |
| `SafetyLatch.LatchedIff` | src/mona_safety/src/safety_node.cpp:242-390 | In every run the node is latched iff the last trip or served reset was a trip |
| `SafetyLatch.ModeIsOverwritten` | src/mona_safety/src/safety_node.cpp:251-332 | While the latch is set a health message leaves every mode alone iff it is SOFTWARE_OK or unknown; every other one replaces the mode whatever it was |
| `SafetyLatch.HealthDecides` | src/mona_safety/src/safety_node.cpp:242-333 | After an accepted health message the contactors are closed iff there is no latch and the message is a known one permitting power; halting and speed limit follow the message |
| `SafetyLatch.ChainStep` | src/mona_safety/src/safety_node.cpp:68-185 | "Last told to close" implies "believed closed" implies "not latched", EMERGENCY implies latched, and a close is never outstanding without an active publisher: kept by a step iff it is not a reconfiguration after an error with the contactors closed |
| `SafetyLatch.ChainIffNeverStrands` | src/mona_safety/src/safety_node.cpp:114-185 | The chain holds throughout a run iff none of its reconfigurations is such a one |
| `SafetyLatch.ChainWithoutErrors` | src/mona_safety/src/safety_node.cpp:114-185 | It always holds when no lifecycle error occurs |
| `SafetyLatch.StrandedContactors` | src/mona_safety/src/safety_node.cpp:161-166 | If the lifecycle framework raises an error in operation, a reset and a reconfiguration after it can leave the hardware closed while the node believes it open |
| `SafetyShutdown.NothingOpensIff` | src/mona_safety/src/safety_node.cpp:154-159 | From a reachable state, no continuation makes the node open the contactors iff the node has been shut down |
| `SafetyShutdown.NoEventOpensIff` | src/mona_safety/src/safety_node.cpp:154-159 | While the chain holds and the hardware is told to close, no single event makes the node open the contactors iff the node has been shut down |
| `SafetyShutdown.PoweredForGoodIff` | src/mona_safety/src/safety_node.cpp:154-159 | A shut-down node has told the hardware to close iff the latch was reset after the shutdown, with the publishers activated, or a node was shut down that had lost track of closed contactors; without lifecycle errors iff the former |
| `SafetyShutdown.ResetAfterShutdown` | src/mona_safety/src/safety_node.cpp:373-390 | Stop, shutdown and reset in an ordinary life leave the contactors told to close, and every later event does nothing |
| `EndToEnd.EndToEndBound` | src/mona_safety/src/safety_node.cpp:221-240 | In every interleaving each queued velocity is the published one it is marked as, and each motor command is within the sender's limit, zero when latched or in a protective stop, never larger than the multiplexer output it answers, and equal to it when that was clamped as tightly |
| `Throughput.VelocityAnswered` | src/mona_safety/src/safety_node.cpp:221-240 | In every reachable state of the system an operating safety node that reads a velocity adds exactly one motor command, and unless it is halted that is the velocity at the head of the queue if the multiplexer clamped it as tightly |
| `Throughput.StickReachesWheels` | src/mona_control/src/twist_mux_node.cpp:193-287 | In every reachable state that is ready to drive, a stick message that commands motion, the next tick and its delivery end in exactly one motor command, moved towards the stick |
| `Throughput.TickIsAnswered` | src/mona_safety/src/safety_node.cpp:335-339 | Each tick puts the code of its mode under way, which the safety node records and answers with one announcement of its state |
| `Queues.QueuesDeliver` | src/mona_core/src/fdir_manager_node.cpp:505-516 | What the nodes have read, followed by what is under way, is what was published with some messages left out, in order, for health states and velocities || `SystemSpec.ManagerRun` | src/mona_core/src/fdir_manager_node.cpp:369-516 | Within the system the manager runs as it does alone, in every interleaving, and the health log is its own |
| `Degradation.NeverDegraded` | src/mona_core/src/fdir_manager_node.cpp:467-500 | In the composed system no health message under way is DEGRADED, RECONFIGURED or PROTECTIVE_STOP, neither node is ever degraded, and the normal speed limit is always the one in force |
| `Decline.BlockedStops` | src/mona_control/src/twist_mux_node.cpp:243-286 | In every run during which the multiplexer is blocked, each output and every motor command answering it is at most the first velocity times the product of 1 - alpha over the outputs since; these products never grow, and are the powers (1 - alpha)^n unless a reconfiguration changes alpha |
| `StopLatch.StopHoldsIff` | src/mona_control/src/twist_mux_node.cpp:187-191 | While the latch is set, the running multiplexer that reads a safety state is stopped until a reset, whatever arrives or is lost, iff that message and all those behind it are EMERGENCY |
| `StopLatch.LatchStopsMotion` | src/mona_safety/src/safety_node.cpp:196-219 | From any step that trips the emergency stop: once a safety state published by that step or later reaches the running multiplexer before a reset, it is blocked until a reset and declines in that way |
| `StopLatch.AnnouncementCounts` | src/mona_safety/src/safety_node.cpp:357-371 | The announcement made by the emergency-stop service itself is such a message |
| `SystemException.MuxRun` | src/mona_control/src/twist_mux_node.cpp:193-287 | Within the system the multiplexer runs as it does alone on what it is fed |
| `SystemException.SystemExceptionIff` | src/mona_control/src/twist_mux_node.cpp:234-263 | In the composed system, over every interleaving and every loss, the exception is unreachable in lives whose counted spells outlast a bound iff the timeouts and the bound are as above |
| `SystemException.OnlyStopsRelease` | src/mona_control/src/twist_mux_node.cpp:175-191 | In the composed system only a safety state ends a block, the emergency stop was its cause, and no FDIR block has been up before |
| `Lockout.LockoutIsPublished` | src/mona_core/src/fdir_manager_node.cpp:379-385 | In the whole system every health message published after a lockout is EMERGENCY |
| `Lockout.DeadlineIsPublished` | src/mona_core/src/fdir_manager_node.cpp:584-726 | In every run of the whole system, once a component has spent its failure reports without reporting ACTIVE, that pass and all later ones publish EMERGENCY |
| `Lockout.LockoutStopsMotion` | src/mona_control/src/twist_mux_node.cpp:175-185 | Once an EMERGENCY health message reaches the running multiplexer, it is blocked in every continuation and its outputs and the motor commands answering them decline as when blocked: by (1 - alpha)^n, or the product of the weights in force |
| `Lockout.LockoutCutsPower` | src/mona_safety/src/safety_node.cpp:263-272 | Once the safety node accepts an EMERGENCY, a later state is latched with the contactors open iff no reset was served after the last trip, in particular if none came since its last accepted health message, and while it is so every output is harmless |
| `Lockout.ResetRepowers` | src/mona_safety/src/safety_node.cpp:373-384 | What such a reset does: it repowers whatever the last health message said and even without processing |

## Left out

- ROS 2 plumbing (QoS, executors, service futures and their 50 ms timeouts), logging, throttling, diagnostics and message strings.
- Overlapping passes of the monitoring loop under its reentrant callback group: passes are serial.
- Floating-point rounding and NaN: velocities and times are reals.
- Destructors, process crashes and restarts: after the undefined-state exception the multiplexer does nothing more.
- The remaining axes of a velocity message: the multiplexer publishes zero there, and the safety node would forward them unclamped.
- The branches for an unknown reset mechanism or phase, and the check for a defective component reporting ACTIVE: the enumerations are closed and the loop has already skipped defective components, so they cannot run.
- Duplicate keys in the tracked list: parameters are declared per key by rclcpp, which is not part of this model; a policy is the list of parameter records.
- Navigation goal cancellation beyond counting the requests (whether the action server is ready is an input), and what a requested lifecycle transition does to its target: transitions of the nodes are arbitrary events.
- The lifecycle framework: transitions happen only from their source stage, a handled error leads to the unconfigured stage, and shutdown of the multiplexer changes no field and is not an event.
- The arbitration in hardware between the safety node's motor commands and the FDIR manager's zero override: each node's messages are logged separately.
- The LiDAR merger: a resize and a copy around libraries that are not part of this model.
- Documented features the code lacks, such as the hardware button interlock and opening contactors on long idle.
