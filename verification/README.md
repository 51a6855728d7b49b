# Edge energy management: model and proofs

A Dafny model of the control core, the setpoint protocol and the register layer of the edge
energy-management system, with proofs of what they keep over whole runs. `dafny verify dfyconfig.toml`
checks everything. Values that the source keeps as floats are reals; every clock is a time passed in.

## What is modelled

**Control.** `EdgeController` is one cycle of the control law (PI with conditional integration, signed
window with state-of-charge gates, slew limit after the clamp, dead-banded derate, integrating PV
curtailment) and the object around it. `AntiWindup` says what conditional integration achieves and where
it stops short, `ClosedLoop` closes the loop with the plants of the unit tests. `Droop` has the
piecewise-linear corrections, `Modes` the RUN / HOLD / SAFE ladder and the SAFE ramp, `ControlLoop` the
cycle that rewrites the same rolling state in each mode and publishes on change.

**Setpoint protocol.** `Setpoints` holds the messages and their conformity rules, `Publisher` the numbering
and the latest-wins queue, `Dispatcher` the guards and the power sharing, `SilenceWatchdog` the silence
episodes, `Aggregator` the virtual assets and `Orchestrator` core's sequencing. `SetpointProtocol` puts
publisher, broker, dispatcher and watchdog together as a state machine; its broker may fail, duplicate, delay
and reorder anything ever attempted. `SetpointDelivery` says exactly when the newest setpoint reaches its
devices and when nothing sent can any more, `LoopDelivery` what that means for a loop that publishes on
change, and `LostSetpoints` shows two losses that last. `Gateway` is the takeover machine of the external-EMS
gateway. `Sums` and `Common` are shared arithmetic.

**Registers.** `Codec` has words and engineering values, `RegisterMap` the loader's cross-check and the
simulated store, `ReadPlan` the batched reads (Read Holding Registers and Write Multiple Registers are
sections 6.3 and 6.12 of the MODBUS Application Protocol Specification V1.1b3). `SunSpecImage` generates
model-chain images, `GeneratedMap` shows that their entries do not overlap, `GeneratedDevice` emits them as a
map, loads it and serves it, `SunSpecWalk` walks a device back, `DumpShape` says what any walked dump looks
like, `DumpDiff` compares two of them, `ReportMeaning` says what its issues and entries mean, `DiffSoundness`
says what a clean comparison establishes and `SelfDump` runs the self-dump of a generated map end to end.

Code that changes state in place is imperative here too (classes for the controller, the mode ladder, the
loop, the dispatcher, the watchdogs, the publisher, the gateway, the orchestrator and the simulated device;
loops for interpolation, aggregation, column filling, tripping, flushing, planning, reading, checking,
building, walking and comparing), each proved against a specification function or predicate about which the
lemmas are stated.

## Where the code does less than it seems

Each item is a theorem of the project with the exact condition or a concrete instance.

- Anti-windup holds exactly for non-negative gains (or ki = 0); the settings check neither sign
  (`AntiWindup.IntegralBoundedExactly`). A reversed error unwinds at once exactly when its relief reaches
  the excess (`AntiWindup.ReversalUnwinds`): an integral-only controller can stay at its limit for as long
  as a large reversed error lasts (`AntiWindup.LargeReversalSticks`, `AntiWindup.StuckExample`). Over all runs
  in one window no such error leaves the demand at its limit exactly when the proportional gain across the
  window makes up for the tolerance (`AntiWindup.NoWindupExactly`).
- The slew limiter runs after the window clamp, so a command may be outside the current window, though never
  outside the static limits: it is inside exactly once enough cycles passed to cover the distance
  (`EdgeController.InsideExactly`). Power sharing leaves nothing over exactly when the previous command was
  within a slew step of the fleet's headrooms (`Orchestrator.RunLeftoverExactly`).
- Tracking without overshoot needs kp + ki*dt <= 1 (`ClosedLoop.OvershootExactly`); export reaches the feed
  limit exactly when the floor and full power leave room for it (`ClosedLoop.ExportReachesLimitExactly`).
- A mode controller constructed directly in HOLD never expires (`Modes.ConstructedHoldNeverExpires`).
- One silence timer serves all classes: any accepted message keeps every class on its last command
  (`SetpointProtocol.AnyClassFeedsTheTimer`).
- With only zero weights an aggregate percentage is 0 whatever was measured (`Aggregator.MeanExactly`).
- An explicit register size is not checked against the type; integers round trip exactly when it fits
  (`Codec.RoundTripExactly`), and words are restored exactly when it fits them (`Codec.EncodeDecode`). The
  overlap check ignores scale-factor addresses, so writes keep every other factor exactly when no writable
  register lies on one (`RegisterMap.FactorsKeptExactly`), and registers of size 0:
  read requests cover their points exactly when none of those sits inside another register
  (`ReadPlan.CoverageExactly`, `ReadPlan.EmptyRegisterCutsRequest`). Requests are not cut at the protocol's
  125 registers: they stay within a limit exactly when no stretch of points without a larger gap exceeds it
  (`ReadPlan.RequestLimitExactly`).
- The walker finds the end of a chain only below its model limit (`SunSpecWalk.EndFoundExactly`).
- A chain that repeats a model is not walked back from the device of its map, because entries of one name
  replace each other when the map is loaded; every other chain is (`GeneratedDevice.DeviceWalksExactly`,
  `GeneratedDevice.TwiceIsLost`, `SelfDump.DumpFromMap`).
- A clean diff identifies the device's points exactly when both images start at the same base, which the
  diff does not compare (`DiffSoundness.CleanIdentifiesExactly`, `DiffSoundness.ShiftedImagePasses`). A
  self-dump, said to match always, diffs clean exactly when no two types share an offset and the map's types
  match (`DiffSoundness.SelfDiffOfAnyDump`, `DiffSoundness.EmptyPointBreaksSelfDiff`), which holds for every
  generated map without repeated models and empty points (`SelfDump.SelfDumpIsClean`).
- A device's derate need not be the controller's, because factors are sent only on change
  (`ControlLoop.NotSentAgain`). The newest message of a class takes effect exactly when it arrives in time and
  the class has units (`SetpointDelivery.NewestAcceptedExactly`). Once everything sent to a class is taken or
  too old, it keeps what it was told, or the safe state of a trip, for as long as its factor stays in force
  (`SetpointDelivery.SpentExactly`, `LoopDelivery.UnchangedFactorStaysUntold`): a factor flushed too late is
  lost (`LostSetpoints.LateFactorIsLost`), and after a trip the load stays shed although the battery has
  recovered (`LostSetpoints.LoadStaysShed`).

## Model

| member | source | states |
|---|---|---|
| `EdgeController.WindowExactly` | packages/controller/src/controller/edge_controller.py:157-166 | The signed window is exactly the set of commands that the static limits, the headrooms and the state-of-charge gates allow together; it is the single point 0 when they allow none. |
| `EdgeController.WindowWithinLimits` | packages/controller/src/controller/edge_controller.py:157-166 | For every input the window lies inside the static limits, has no discharge side at or below the minimum charge and no charge side at or above the maximum. |
| `EdgeController.DerateRamps` | packages/controller/src/controller/edge_controller.py:193-200 | The load derate is monotone in the state of charge, 1 from the warning level on and at its floor up to the minimum. |
| `EdgeController.DerateInterpolates` | packages/controller/src/controller/edge_controller.py:193-200 | Between the minimum and the warning level the derate target is the share of that span the state of charge has covered, or the floor if that is higher. |
| `EdgeController.DerateDeadband` | packages/controller/src/controller/edge_controller.py:193-201 | The derate moves if and only if its target is at least 0.01 away, and then onto the target. |
| `EdgeController.CurtailFollowsExport` | packages/controller/src/controller/edge_controller.py:213-230 | For any plant the curtailment factor falls while the export is over the feed limit unless it is at the floor, rises while it is under unless it is at 1, and stands still on the limit. |
| `EdgeController.CurtailReleases` | packages/controller/src/controller/edge_controller.py:213-230 | Without a feed limit or outside the high band the factor is 1 in that very cycle, whatever it was; inside, a factor that is not positive counts as 1. |
| `EdgeController.ReleasedWhileOutside` | packages/controller/src/controller/edge_controller.py:213-230 | After any run, once the band is left the factor is 1 for as long as the band is not entered again. |
| `EdgeController.PiIsOdd` | packages/controller/src/controller/edge_controller.py:152-180 | The law has no preferred direction: mirroring integral, error and window mirrors demand and integral and keeps the freeze decision. |
| `EdgeController.FreezesExactly` | packages/controller/src/controller/edge_controller.py:152-180 | The integrator holds still if and only if the demand asked for passes a limit by more than 1e-9 and the error pushes further that way; the demand is that of the integral kept. |
| `EdgeController.SaturatedExactly` | packages/controller/src/controller/edge_controller.py:182-183 | The battery is reported saturated if and only if the final demand is outside the window by more than 1e-9. |
| `EdgeController.IntegralStaysIn` | packages/controller/src/controller/edge_controller.py:168-180 | Conditional integration keeps ki*integral, up to the saturation tolerance, in any interval around the cycle's window that already held it, whatever the error. |
| `EdgeController.SlewBetween` | packages/controller/src/controller/edge_controller.py:182-191 | The limiter moves toward the target, by one full step or by the whole distance, whichever is smaller. |
| `EdgeController.CommandStaysBounded` | packages/controller/src/controller/edge_controller.py:182-230 | Whatever the gains, command and factors stay inside their static limits; the derate stays within the deadband of its target and never moves by less than the deadband. |
| `EdgeController.ComputeKeepsBounded` | packages/controller/src/controller/edge_controller.py:139-248 | One cycle keeps the whole state invariant: command inside the static limits (not always inside the current window), bounded integral contribution, both factors between floor and 1. |
| `EdgeController.OneCycleApproaches` | packages/controller/src/controller/edge_controller.py:182-191 | A command outside the current window gets exactly one slew step closer to it in one cycle, or reaches it; one inside stays inside. |
| `EdgeController.WindowReached` | packages/controller/src/controller/edge_controller.py:182-191 | Over any run with one window the distance from it is exactly the initial distance minus one slew step per cycle, down to zero. |
| `EdgeController.InsideExactly` | packages/controller/src/controller/edge_controller.py:182-191 | After such a run the command is inside the window if and only if the cycles times the step cover the initial distance. |
| `AntiWindup.IntegralBoundedExactly` | packages/common/src/common/config_models.py:121-128 | On every run from the initial state the integral contribution stays within the battery limits if and only if ki is 0 or both gains are non-negative; the configuration checks neither sign. |
| `AntiWindup.ReversalUnwinds` | packages/controller/src/controller/edge_controller.py:168-180 | When the error turns negative the demand is back below the limit in the same cycle if and only if the relief of that cycle reaches the excess; a rejected increment leaves only the proportional relief. |
| `AntiWindup.ReliefUnwinds` | packages/controller/src/controller/edge_controller.py:168-180 | After any run with one window, a reversed error with relief above the tolerance brings the demand strictly below the upper limit in that very cycle. |
| `AntiWindup.NoWindup` | packages/controller/src/controller/edge_controller.py:168-180 | In terms of gains, window and error alone: after any run with one window, an error whose response exceeds the tolerance takes the demand off the limit it points away from in that very cycle, at either limit, when the proportional gain across the window suffices. |
| `AntiWindup.NoWindupExactly` | packages/controller/src/controller/edge_controller.py:168-180 | Over all runs in a window some cycle has, every such error does so if and only if kp times the window with its tolerance is at least ki*dt times the tolerance; with less, small errors wind up and a large reversed one stays at the limit. |
| `AntiWindup.LargeReversalSticks` | packages/controller/src/controller/edge_controller.py:168-180 | With kp 0, errors whose whole increment would cross the window leave integral and demand unchanged for as long as they last. |
| `AntiWindup.StuckExample` | packages/controller/src/controller/edge_controller.py:168-180 | A concrete integral-only controller keeps charging at 100 kW through any number of cycles with 5 MW of import. |
| `ClosedLoop.NoOvershoot` | tests/unit/test_edge_controller.py:101-112 | In feedback with PCC = load + battery, stable gains and room in the window, no cycle freezes or saturates, the error never changes sign or grows past the first, and it follows the linear recurrence exactly. |
| `ClosedLoop.ErrorDecays` | tests/unit/test_edge_controller.py:101-112 | After n cycles the error is at most (1 - ki*dt)^ceil(n/2) times the first, for every n. |
| `ClosedLoop.TrackingConverges` | tests/unit/test_edge_controller.py:101-112 | For every tolerance there is one cycle count after which the error stays below it, for all environments that leave room. |
| `ClosedLoop.OvershootExactly` | packages/controller/src/controller/edge_controller.py:152-155 | The first cycle overshoots if and only if kp + ki*dt exceeds 1: the stability bound cannot be relaxed. |
| `ClosedLoop.CurtailAverages` | packages/controller/src/controller/edge_controller.py:213-230 | Fed back through a PV plant, the integrating curtailment regulator is the clamped average of the factor and the ideal share. |
| `ClosedLoop.CurtailmentConverges` | tests/unit/test_edge_controller.py:369-386 | In the high band the factor stays positive, stays on its side of the resting value, and at least halves its distance from it every cycle. |
| `ClosedLoop.ExportReachesLimitExactly` | tests/unit/test_edge_controller.py:369-386 | The export settles at the feed limit to any tolerance if and only if the ideal share lies between the floor and 1. |
| `Droop.InterpClamped` | packages/controller/src/controller/droop.py:23-41 | The scan rejects mismatched or short arrays and otherwise returns the value of the recursive reference curve. |
| `Droop.InterpHitsKnots` | packages/controller/src/controller/droop.py:23-41 | A curve of any length passes through every knot. |
| `Droop.InterpBetweenEnds` | packages/controller/src/controller/droop.py:23-41 | The curve stays between the first and the last correction, for inputs outside the knots too. |
| `Droop.InterpMonotoneLipschitz` | packages/controller/src/controller/droop.py:23-48 | A valid curve is monotone across segment boundaries and Lipschitz in any bound on its segment slopes. |
| `Droop.InterpMonotone` | packages/controller/src/controller/droop.py:23-48 | Every curve that passes the monotonicity check is monotone everywhere. |
| `Droop.Correction` | packages/controller/src/controller/droop.py:77-88 | The accumulated correction equals the sum of the enabled curves in SI units. |
| `Droop.PfAtBreakpoint` | packages/controller/src/controller/droop.py:77-88 | With only P-f enabled the correction at each breakpoint is the curve's own dP in active and dQ in reactive power, times the base. |
| `Droop.QvAtBreakpoint` | packages/controller/src/controller/droop.py:77-88 | With only Q-V enabled the same holds at each voltage breakpoint. |
| `Droop.CurvesAdd` | packages/controller/src/controller/droop.py:77-88 | With both enabled the correction is the sum of the two single-curve corrections, each independent of the other measurement. |
| `Droop.ArraysDoNotMix` | packages/controller/src/controller/droop.py:77-88 | Active power depends on the dP arrays only, reactive power on the dQ arrays only. |
| `Droop.CorrectionMonotone` | packages/controller/src/controller/droop.py:73-88 | The combined active and reactive corrections are monotone in frequency and voltage together, and zero when disabled. |
| `Modes.ModeController.Update` | packages/controller/src/controller/modes.py:49-79 | The branches implement the ladder: new mode, HOLD start and decision are those of the transition function. |
| `Modes.ModeIsHistory` | packages/controller/src/controller/modes.py:49-79 | The mode is a function of the observation history: RUN after a good observation, SAFE if and only if the current outage lost the battery or a later update came hold_max after its first, HOLD otherwise. |
| `Modes.LadderDiscipline` | packages/controller/src/controller/modes.py:49-79 | RUN exactly on a good observation; SAFE is left only to RUN; HOLD is entered only from RUN and never continued once the limit has elapsed since the outage began. |
| `Modes.ReasonIsSituation` | packages/controller/src/controller/modes.py:49-79 | The reason of each decision is determined by the history: battery lost, good data, first stale update, limit reached in this update, limit not reached, or SAFE already entered. |
| `Modes.ConstructedHoldNeverExpires` | packages/controller/src/controller/modes.py:42-47 | A controller constructed directly in HOLD stays there on stale data for ever if and only if the limit is positive: its start time is never set. |
| `Modes.SafeRampClosedForm` | packages/controller/src/controller/modes.py:82-95 | n SAFE cycles reduce the magnitude by exactly n steps down to 0 and never change the sign; the command is 0 if and only if n steps cover it. |
| `Modes.UnslewedSafeIsZero` | packages/controller/src/controller/modes.py:82-93 | Without a slew limit the command is 0 from the first SAFE cycle on. |
| `ControlLoop.ControlLoop.RunOnce` | packages/controller/src/controller/control_loop.py:207-277 | One cycle: the new state, every field of the result (mode, reason, commands, error, flags, classes published) and the messages appended to the outbox are those of the transition functions. |
| `ControlLoop.ControlLoop.Execute` | packages/controller/src/controller/control_loop.py:215-247 | The branch of each mode computes the command of that mode and rewrites the control state accordingly. |
| `ControlLoop.ControlLoop.Publish` | packages/controller/src/controller/control_loop.py:249-258 | The battery message goes out every cycle, each factor only when it changed, and the remembered values are updated. |
| `ControlLoop.ControlLoop.PublishIfChanged` | packages/controller/src/controller/control_loop.py:279-285 | A factor is sent exactly when it differs from the last one remembered for its class. |
| `ControlLoop.FreshExactly` | packages/controller/src/controller/control_loop.py:81-178 | The data are fresh exactly on a snapshot with a plausible grid, every controlled input good and no converter alarm; the battery is lost exactly when no state of charge was obtained or the alarm is on. |
| `ControlLoop.InputsAreMeasurements` | packages/controller/src/controller/control_loop.py:137-178 | For every snapshot each controller input is the value of its named point of the PCC, battery or PV, whatever its quality; unread points count as 0, an unread grid as 50 Hz and 230 V. |
| `ControlLoop.TrustedInputs` | packages/controller/src/controller/control_loop.py:137-178 | On a trusted snapshot the regulated inputs are the measured values themselves. |
| `ControlLoop.ErrorIsGap` | packages/controller/src/controller/control_loop.py:215-256 | The error of a cycle is the configured target minus the measured PCC power, in RUN plus the droop support for the snapshot's own frequency and voltage, whose reactive part is commanded. |
| `ControlLoop.RunCycleIsLaw` | packages/controller/src/controller/control_loop.py:215-223 | A RUN cycle commands what the control law gives on the named measurements. |
| `ControlLoop.NoDemandOutsideRun` | packages/controller/src/controller/control_loop.py:225-251 | Outside RUN no PI demand is reported, and SAFE asks for no reactive power. |
| `ControlLoop.RunExactlyOnTrustedData` | packages/controller/src/controller/control_loop.py:97-178 | Over every run the loop is in RUN if and only if its last snapshot was trusted, so never against a dead grid, and in SAFE whenever the battery is lost. |
| `ControlLoop.DroopRaisesTargets` | packages/controller/src/controller/control_loop.py:215-221 | A RUN cycle at higher frequency and voltage aims at no lower PCC power and commands no lower reactive power, everything else equal. |
| `ControlLoop.CycleSafe` | packages/controller/src/controller/control_loop.py:215-247 | Each mode keeps the state invariant, and its command differs from the stored one by at most a slew step. |
| `ControlLoop.RunSafe` | packages/controller/src/controller/control_loop.py:207-277 | Over every run and every path through the modes the published battery command is the stored one, inside the static limits, with a bounded integral, factors in range, and consecutive commands at most one slew step apart. |
| `ControlLoop.RunModeIsHistory` | packages/controller/src/controller/control_loop.py:207-213 | The loop's mode is the history function of the observations its snapshots produced. |
| `ControlLoop.HoldRepeatsLastRun` | packages/controller/src/controller/control_loop.py:225-230 | Every HOLD cycle sends exactly the battery, reactive, derate and curtail values of the last RUN cycle, or the initial ones when there was none. |
| `ControlLoop.SafeCyclesRamp` | packages/controller/src/controller/control_loop.py:232-247 | Consecutive SAFE cycles follow the ramp exactly and leave an empty integrator, released factors and no reactive power. |
| `ControlLoop.ChangesSuffice` | packages/controller/src/controller/control_loop.py:279-285 | Over every run the factors published for a class never repeat, and the last one published is the one in force. |
| `ControlLoop.NextCycleTellsBattery` | packages/controller/src/controller/control_loop.py:253-257 | Every cycle publishes to the battery first: as active power the command kept in the state, as reactive power the one kept for HOLD. |
| `ControlLoop.NotSentAgain` | packages/controller/src/controller/control_loop.py:279-285 | While a factor stays in force everything the loop sends is for other classes, however often it cycles; the last factor sent is the one in force. |
| `Aggregator.AggregateClass` | packages/core/src/core/aggregator.py:21-57 | For every class of the catalog each point is the sum, or for percentages the weighted mean, of exactly the GOOD values, COMM_FAIL without any; other classes are an error. |
| `Aggregator.OnlyGoodCounts` | packages/core/src/core/aggregator.py:40-45 | Replacing readings without a GOOD value by others without one changes no value, weight or aggregate. |
| `Aggregator.TwoUnits` | packages/core/src/core/aggregator.py:44-56 | Two GOOD values v and u of a point named with the suffix _pct aggregate to (v*w1 + u*w2)/(w1 + w2), of any other point to v + u. |
| `Aggregator.OneMore` | packages/core/src/core/aggregator.py:56-57 | One GOOD value more is added to a sum. |
| `Aggregator.Unweighted` | packages/core/src/core/aggregator.py:45 | A unit without a configured weight counts exactly like one with weight 1. |
| `Aggregator.NoneGood` | packages/core/src/core/aggregator.py:46-47 | Without any GOOD value the aggregate point has no value and is COMM_FAIL. |
| `Aggregator.WeightedBetween` | packages/core/src/core/aggregator.py:37-57 | The weighted sum lies between the weighted bounds of its values. |
| `Aggregator.MeanExactly` | packages/core/src/core/aggregator.py:48-54 | With non-negative weights the aggregate percentage lies between its smallest and largest contribution when some weight is positive, and is 0 whatever was measured when none is. |
| `Dispatcher.SharesConserve` | packages/core/src/core/dispatcher.py:30-53 | Shares plus leftover equal the command, for any units, headrooms and sign. |
| `Dispatcher.SharesWithinHeadroom` | packages/core/src/core/dispatcher.py:30-53 | Each share has the command's sign and is at most that unit's headroom; the leftover has the command's sign. |
| `Dispatcher.LeftoverExactly` | packages/core/src/core/dispatcher.py:30-53 | The leftover is zero if and only if the command is within the fleet's headroom, and is otherwise the excess. |
| `Dispatcher.SharesProportional` | packages/core/src/core/dispatcher.py:30-53 | All units run at one common fraction of their headroom. |
| `Dispatcher.AcceptedExactly` | packages/core/src/core/dispatcher.py:80-111 | A payload takes effect if and only if it is conformant, for this site, newer than the last of its class, timestamped within the age limit, and its class has units; its number is taken even without units, and anything else changes nothing. |
| `Dispatcher.TakesEffectExactly` | packages/core/src/core/dispatcher.py:80-111 | A message takes effect if and only if its version and site are the configured ones, its number is non-negative and new, its timestamp is in time, and it has points, all of them outputs of a class with units. |
| `Dispatcher.RefusalExactly` | packages/core/src/core/dispatcher.py:80-111 | The reported reason is the first that applies: conformity, site, number, timestamp, age, units. |
| `Dispatcher.UnreportedTakesNone` | packages/core/src/core/dispatcher.py:117-121 | A battery unit without reported headroom gets no power. |
| `Dispatcher.SetpointDispatcher.Dispatch` | packages/core/src/core/dispatcher.py:97-136 | The guarded dispatch equals its reference: refused payloads change nothing, an accepted one records its number and commands every unit of the class. |
| `Dispatcher.SetpointDispatcher.PerUnit` | packages/core/src/core/dispatcher.py:113-131 | Filling the commands point by point, popping what was shared, gives every unit exactly the points of the message. |
| `Dispatcher.WrittenConserves` | packages/core/src/core/dispatcher.py:113-131 | Over the units active power plus leftover and reactive power add up to the message's, and every other point arrives unchanged. |
| `Dispatcher.DispatchConserves` | packages/core/src/core/dispatcher.py:97-136 | The same conservation for every accepted payload, whatever the dispatcher's history. |
| `SilenceWatchdog.SetpointWatchdog.Check` | packages/core/src/core/watchdog.py:79-85 | Trips exactly when silent and not yet tripped, and then commands the safe state once. |
| `SilenceWatchdog.SetpointWatchdog.Trip` | packages/core/src/core/watchdog.py:87-102 | Commands every reachable device of a class with a safe state, whatever other devices answer. |
| `SilenceWatchdog.TripCoversExactly` | packages/core/src/core/watchdog.py:87-102 | A command is issued if and only if its device has an adapter and its class that safe state. |
| `SilenceWatchdog.TripCommandsExactly` | packages/core/src/core/watchdog.py:26-29 | A trip commands batteries with adapters to no active and reactive power, flexible loads to factor 0, and nothing else. |
| `SilenceWatchdog.StateIsHistory` | packages/core/src/core/watchdog.py:60-85 | The watchdog's state is a function of the history: the time of the last arming event, and tripped if and only if a late check followed it. |
| `SilenceWatchdog.TripsExactlyAtFirstLateCheck` | packages/core/src/core/watchdog.py:65-85 | A check trips if and only if it is the first of its silence that comes later than the timeout. |
| `SilenceWatchdog.TripsSeparated` | packages/core/src/core/watchdog.py:60-85 | Between any two trips the timer was armed again. |
| `SilenceWatchdog.RefusedInvisible` | packages/core/src/core/orchestrator.py:70-79 | Removing all refused messages from a history changes nothing: they never postpone a trip. |
| `Orchestrator.Orchestrator.BatteryUnitLimits` | packages/core/src/core/orchestrator.py:81-97 | The loop builds the headrooms of exactly the battery units from the latest poll. |
| `Orchestrator.LimitsAreReported` | packages/core/src/core/orchestrator.py:81-97 | Each battery unit has exactly the charge and discharge headroom it reported, 0 for an unreported one. |
| `Orchestrator.Orchestrator.HandleSetpoint` | packages/core/src/core/orchestrator.py:70-75 | A message is dispatched with the current headrooms and arms the watchdog if and only if it was accepted. |
| `Orchestrator.Orchestrator.SafetyCycle` | packages/core/src/core/orchestrator.py:77-79 | The check of the cycle, with the commands it issues. |
| `Orchestrator.AggregateWithinHeadroom` | packages/core/src/core/orchestrator.py:81-97 | The aggregate of GOOD values never exceeds the sum of the units' usable headrooms of the same poll. |
| `Orchestrator.RunCommandFullyShared` | packages/core/src/core/orchestrator.py:50-97 | End to end: with no slew limit and one poll on both sides, whatever a RUN cycle commands is shared out with leftover 0. |
| `Orchestrator.RunLeftoverExactly` | packages/core/src/core/orchestrator.py:50-97 | With a slew limit the leftover of a RUN cycle is what the previous command exceeds the fleet headrooms by, less one step; it is zero if and only if the previous command is within a step of the headrooms. |
| `Orchestrator.SlewLeavesLeftover` | packages/controller/src/controller/edge_controller.py:182-191 | One cycle after the window closed to zero the command has lost exactly one slew step and the rest of it is left over, nothing if and only if it was within a step of zero. |
| `Publisher.MqttSetpointPublisher.PublishSetpoints` | packages/controller/src/controller/data_connector.py:112-135 | Numbers, validates, sends or parks one message, flushing after a success, for any answers of the broker; keeps the queue invariant. |
| `Publisher.MqttSetpointPublisher.FlushPending` | packages/controller/src/controller/data_connector.py:137-144 | Hands over some of the parked messages, keeps the rest and returns how many went out. |
| `Publisher.PublishKeepsInv` | packages/controller/src/controller/data_connector.py:112-144 | After a publish the latest message of every topic was handed over or is the one parked for it, numbers are unique and never above the counter. |
| `Publisher.FlushKeepsInv` | packages/controller/src/controller/data_connector.py:137-144 | A flush keeps the invariant and neither loses nor invents a message. |
| `SetpointProtocol.Reachable` | packages/core/src/core/dispatcher.py:80-108 | The protocol invariant holds in every state of every behaviour of publisher, lossy, duplicating and reordering broker, dispatcher and watchdog. |
| `SetpointProtocol.AcceptedSeqsIncrease` | packages/core/src/core/dispatcher.py:87-88 | The numbers accepted for a class strictly increase, so no message takes effect twice or after a later one. |
| `SetpointProtocol.ToldTheGreatest` | packages/core/src/core/dispatcher.py:97-108 | A class follows the accepted message with the greatest number, or its safe state. |
| `SetpointProtocol.NewestSticks` | packages/controller/src/controller/data_connector.py:112-144 | Once a class follows its newest published message, no flush, duplicate or late delivery moves it; only a newer publish or a trip does. |
| `SetpointProtocol.SafeOrFresh` | packages/core/src/core/orchestrator.py:70-79 | After every check either every class with a safe state is in it, or some setpoint was accepted within the timeout and built at most timeout plus age limit ago. |
| `SetpointProtocol.AnyClassFeedsTheTimer` | packages/core/src/core/watchdog.py:60-85 | A check trips if and only if no class at all was heard within the timeout: the timer is shared by the classes. |
| `SetpointProtocol.LatestNeverLost` | packages/controller/src/controller/data_connector.py:112-144 | Over every behaviour the latest message of each topic was handed over or is the one parked. |
| `SetpointDelivery.NewestAcceptedExactly` | packages/core/src/core/dispatcher.py:80-111 | In every state of every behaviour the newest message of a class, its number not yet taken, is accepted if and only if it arrives within the age limit and the class has units, whatever the broker did. |
| `SetpointDelivery.NewestFollowedExactly` | packages/core/src/core/dispatcher.py:97-131 | Its delivery makes the class follow it under exactly that condition. |
| `SetpointDelivery.SpentExactly` | packages/core/src/core/dispatcher.py:80-111 | In every state of every behaviour, no message sent to a class with units can be accepted now or later if and only if each is numbered no higher than the last number taken, has no timestamp or is too old. |
| `SetpointDelivery.FollowedIsSpent` | packages/core/src/core/dispatcher.py:87-97 | Once the newest message of a class was taken, nothing sent to it can be accepted again. |
| `SetpointDelivery.OnlyTripsMove` | packages/core/src/core/dispatcher.py:80-108 | From such a state on, and whatever is flushed, repeated or delivered late, the class is told nothing until a message of its own is sent: it is in its safe state if a trip happened since, and otherwise where it was. |
| `SetpointDelivery.SafeStateStays` | packages/core/src/core/watchdog.py:79-102 | A class in its safe state leaves it only by accepting a message of its own; refused deliveries of the class and whatever other classes accept do not bring it back. |
| `LoopDelivery.UnchangedFactorStaysUntold` | packages/controller/src/controller/control_loop.py:279-285 | In every behaviour whose publish calls are the loop's, once everything sent to a class is spent and for as long as its factor stays in force, the class keeps what it was told or is left in its safe state by a trip. |
| `LostSetpoints.LateFactorIsLost` | packages/controller/src/controller/data_connector.py:112-144 | A behaviour in which the loop's first messages are parked, flushed and arrive after the age limit; in all its continuations by the loop the inverters are never told the curtailment factor while it stays in force. |
| `LostSetpoints.LoadStaysShed` | packages/core/src/core/watchdog.py:26-29 | A behaviour in which the load takes the loop's first factor, a silence trips the safe state and the battery recovers with the loop's next message; in all its continuations by the loop the load stays shed while its factor stays in force. |
| `Gateway.Watchdog.Tick` | deploy/ext-ems/ext_ems/gateway.py:83-103 | State, counter and reported transition after a tick. |
| `Gateway.Gateway.Tick` | deploy/ext-ems/ext_ems/gateway.py:134-164 | Forwards when the effective target differs from the last delivered one and remembers it only on success. |
| `Gateway.TransitionsBalance` | deploy/ext-ems/ext_ems/gateway.py:83-103 | Releases and takeovers alternate from a release on; their difference is 1 exactly when following, and the counter counts the takeovers of the trace. |
| `Gateway.FollowsExactlyWhileFresh` | deploy/ext-ems/ext_ems/gateway.py:74-90 | On an orderly clock a tick is in FOLLOWING if and only if some external message came less than the timeout ago. |
| `Gateway.TickTarget` | deploy/ext-ems/ext_ems/gateway.py:64-105 | On any history a tick's target is that of the last external message if it came less than the timeout ago, and the configured self-consumption otherwise; a delivered tick leaves the receiver with it. |
| `Gateway.ForwardOnChangeRefines` | deploy/ext-ems/ext_ems/gateway.py:134-164 | While deliveries succeed the receiver cannot tell forwarding on change from forwarding every tick, no target is delivered twice in a row, and one success repairs earlier failures. |
| `Codec.WordsToInt` | packages/common/src/common/modbus_codec.py:38-45 | The shifting loop computes the big-endian value in two's complement. |
| `Codec.ReadNumber` | packages/common/src/common/modbus_codec.py:22-48 | Reading an integer register of its own width gives the number in the literal range of its type that has the words' value modulo 2 to its bits, times the worth of a count. |
| `Codec.WriteNumber` | packages/common/src/common/modbus_codec.py:25-68 | With unit scale exactly the integers of the type's literal range are encoded, to words of that value modulo 2 to its bits. |
| `Codec.WidthExactly` | packages/common/src/common/register_map.py:48-58 | An explicit size is the width of a register of any type; strings and pads have no other. |
| `Codec.EncodedValue` | packages/common/src/common/modbus_codec.py:48-50 | The words of an encoding denote the number modulo the width. |
| `Codec.EncodeBigEndian` | packages/common/src/common/modbus_codec.py:38-50 | Any words are restored from their value. |
| `Codec.FittingRoundTrip` | packages/common/src/common/modbus_codec.py:38-50 | Every in-range integer of every type survives the trip through its words when the width fits. |
| `Codec.RoundTripExactly` | packages/common/src/common/modbus_codec.py:38-50 | All in-range integers of a type round trip if and only if the width fits it: equal for signed types, at least the type's for unsigned ones; an explicit size is not checked. |
| `Codec.TenfoldPerExponent` | packages/common/src/common/modbus_codec.py:53-55 | One more on the scale exponent multiplies the engineering value by ten; exponent 0 is the unit scale; the fixed exponent counts only without a live one. |
| `Codec.FoldedScale` | packages/common/src/common/modbus_codec.py:56-87 | Without any scale factor a count is worth the folded scale. |
| `Codec.FailuresExactly` | packages/common/src/common/modbus_codec.py:54-87 | Encoding fails exactly for a zero scale and for integers outside the type's literal range, decoding exactly for the wrong number of words and for strings and pads. |
| `Codec.RoundsToNearestEven` | packages/common/src/common/modbus_codec.py:58-70 | The raw count is a nearest integer, the even one on a tie. |
| `Codec.DecodeEncode` | packages/common/src/common/modbus_codec.py:58-87 | What is written reads back within half a count of the value, in all scaling modes, with half-to-even rounding. |
| `Codec.EncodeDecode` | packages/common/src/common/modbus_codec.py:58-87 | For every explicit size, what is read writes back to the same words if and only if the width is the type's own or the words denote a number the type holds without a sign. |
| `RegisterMap.CheckMap` | packages/common/src/common/register_map.py:85-117 | The check reports exactly the issues of the entries, each overlap with the last entry before it at that register; it finds none if and only if every entry is well roled and no two share a register. |
| `RegisterMap.SimulatedDevice.constructor` | packages/simulator/src/simulator/device.py:28-39 | The block is sized by the map; it starts with every literal value of the image in place, zero everywhere else, and words only. |
| `RegisterMap.BlockSizeExactly` | packages/simulator/src/simulator/device.py:30-31 | The block reaches three past the furthest end. |
| `RegisterMap.SimulatedDevice.Initialise` | packages/simulator/src/simulator/device.py:41-42 | The initial values are written in order, up to the first that is refused. |
| `RegisterMap.InitialReadBack` | packages/simulator/src/simulator/device.py:41-59 | After all initial values were written each of them reads back within half a count, whatever their order, when names occur once and none lies on a scale factor. |
| `RegisterMap.SimulatedDevice.ServeImage` | packages/simulator/src/simulator/device.py:34-39 | The image values are written one register after the other, none disturbing another. |
| `RegisterMap.SimulatedDevice.SetPoint` | packages/simulator/src/simulator/device.py:50-54 | Encodes with the live scale factor and stores; an unknown name or an encoding error leaves the store as it was. |
| `RegisterMap.RefusedWrites` | packages/simulator/src/simulator/device.py:50-54 | A write is refused exactly for an unknown name or as its encoding with the live factor is, and then changes nothing. |
| `RegisterMap.WordsWhere` | packages/simulator/src/simulator/device.py:44-59 | Address 40001 is the first word of the store; the live factor is the signed word at its own address. |
| `RegisterMap.SimulatedDevice.GetPoint` | packages/simulator/src/simulator/device.py:56-59 | Decodes the point's words with the live scale factor. |
| `RegisterMap.WriteLeavesOthers` | packages/simulator/src/simulator/device.py:44-59 | On a map without overlaps a write changes no other point's words, scale factor or value, unless it is stored on that point's scale-factor register. |
| `RegisterMap.WriteBecomesScaleFactor` | packages/common/src/common/register_map.py:93-114 | The check does not cover scale-factor addresses: a point stored there becomes the other point's factor. |
| `RegisterMap.FactorsKeptExactly` | packages/common/src/common/register_map.py:93-114 | On a map that passed the overlap check, writes keep the live scale factor of every other entry if and only if no entry that can be written lies on another entry's scale-factor register. |
| `RegisterMap.WriteThenRead` | packages/simulator/src/simulator/device.py:50-59 | A written point reads back within half a count, unless it overwrites its own scale factor. |
| `ReadPlan.PlanReads` | packages/core/src/core/adapters/modbus_tcp.py:29-49 | The grouping loop returns a plan: the sorted points in order, each in exactly one request that spans them, with a new request exactly across a gap larger than the allowed one. |
| `ReadPlan.SortPermutes` | packages/core/src/core/adapters/modbus_tcp.py:31-34 | Sorting by offset keeps exactly the requested points. |
| `ReadPlan.SortSorts` | packages/core/src/core/adapters/modbus_tcp.py:31-34 | Sorting by offset orders them. |
| `ReadPlan.SortIsStable` | packages/core/src/core/adapters/modbus_tcp.py:31-34 | Points at one offset keep their order. |
| `ReadPlan.BlockCovers` | packages/core/src/core/adapters/modbus_tcp.py:42-48 | On points of which none starts inside another every point's registers lie inside its request, although the end kept is the last point's and not the largest. |
| `ReadPlan.BlocksApart` | packages/core/src/core/adapters/modbus_tcp.py:40-42 | Requests keep their order and lie more than the allowed gap apart. |
| `ReadPlan.PlanIsMinimal` | packages/core/src/core/adapters/modbus_tcp.py:29-49 | No grouping without larger inner gaps uses fewer requests. |
| `ReadPlan.SliceIsPointRead` | packages/core/src/core/adapters/modbus_tcp.py:153-156 | Slicing the answer of a request gives the words of reading the point alone. |
| `ReadPlan.ReadPoints` | packages/core/src/core/adapters/modbus_tcp.py:134-158 | The batched read gives every requested point, and nothing else, the words of reading it alone, except that a refused request takes exactly its own points down. |
| `ReadPlan.CheckedMapCanBePlanned` | packages/common/src/common/register_map.py:93-114 | Any request, with repetitions, against a map that passed the overlap check and has no empty register inside another can be planned. |
| `ReadPlan.CoverageExactly` | packages/common/src/common/register_map.py:93-114 | On a map that passed the overlap check every plan of every request covers its points if and only if no register of size 0 sits inside another one, which the check does not see. |
| `ReadPlan.RequestLimitExactly` | packages/core/src/core/adapters/modbus_tcp.py:29-49 | The requests of any plan stay within a number of registers if and only if no stretch of requested points without a larger gap spans more; no limit is applied. |
| `ReadPlan.EmptyRegisterCutsRequest` | packages/core/src/core/adapters/modbus_tcp.py:46 | Any register of size 0 inside another one ends the request of the two where it sits, short of the rest of that point. |
| `SunSpecImage.Build` | maps/sunspec/generate.py:202-239 | The emitted registers are the marker, the chain at advancing addresses, the end marker and the vendor block. |
| `SunSpecImage.BuildChain` | maps/sunspec/generate.py:212-229 | The loop over the chain emits exactly the models' registers and ends where their sizes say. |
| `SunSpecImage.BuildModel` | maps/sunspec/generate.py:215-229 | The loop over the points emits header, scale-factor and data registers at advancing addresses. |
| `SunSpecImage.ModelRegAt` | maps/sunspec/generate.py:214-229 | The k-th register of a model lies behind the points before it; ID carries the model number, L the length, a scale factor the published exponent of its name, and other points the sentinel of their type. |
| `SunSpecImage.ChainModelAt` | maps/sunspec/generate.py:209-229 | The i-th model of a chain lies behind the models before it. |
| `SunSpecImage.VendorRegAt` | maps/sunspec/generate.py:235-239 | Vendor registers follow each other and carry the sentinel of their type. |
| `SunSpecImage.NotImplementedWords` | maps/sunspec/generate.py:119-125 | Undriven points serve all ones for unsigned 16 and 32 bit types and enumerations, the smallest number for signed ones, zeros otherwise. |
| `SunSpecImage.ImageFrame` | maps/sunspec/generate.py:202-233 | Any memory that serves a generated image starts at 40001 with the letters SunS and has 0xFFFF and 0 behind its last model. |
| `GeneratedMap.ImageTiles` | maps/sunspec/generate.py:202-239 | The image occupies one contiguous stretch from the base. |
| `GeneratedMap.GeneratedMapIsDisjoint` | packages/common/src/common/register_map.py:93-114 | Entries with the addresses and widths of a generated image, one per register, pass the loader's overlap check, for every catalog, chain and vendor block. |
| `GeneratedDevice.Emit` | maps/sunspec/generate.py:256-293 | Each register gets its own entry, or once the canonical entry bound to its address. |
| `GeneratedDevice.RawEntryIs` | maps/sunspec/generate.py:281-291 | An image register is emitted read-only, unscaled and with its literal value, with a size exactly for strings, pads and more than one register. |
| `GeneratedDevice.FrameNames` | maps/sunspec/generate.py:287-289 | Markers and end registers are named by their addresses. |
| `GeneratedDevice.EmissionFits` | maps/sunspec/generate.py:274-292 | With no empty register and canonical names bound to one data or vendor register each, every register is emitted exactly once, in order. |
| `GeneratedDevice.NameIsKey` | maps/sunspec/generate.py:216 | Within a chain two entries have one name if and only if they are the same point of the same model number. |
| `GeneratedDevice.LoadedIs` | packages/common/src/common/register_map.py:85-88 | Loading keeps of each name the last entry, so everything when names are distinct. |
| `GeneratedDevice.ServedStructure` | packages/simulator/src/simulator/device.py:34-39 | A device that serves the emitted entries serves the markers, headers, scale factors and end of the image. |
| `GeneratedDevice.DeviceWalksExactly` | scripts/sunspec_discovery.py:155-176 | Emitting, loading, serving and walking a generated image returns its chain if and only if the chain repeats no model. |
| `GeneratedDevice.TwiceIsLost` | scripts/sunspec_discovery.py:155-176 | A chain of one model twice is never walked back: loading drops the first header. |
| `SelfDump.EmissionReady` | maps/sunspec/generate.py:256-293 | The emitted map of a chain without repetition loads as it is and makes a device. |
| `SelfDump.EmissionLoads` | maps/sunspec/generate.py:256-296 | The emitted map passes the loader's check whenever data model points are bound to registers of their direction and image names are none of theirs. |
| `SelfDump.DumpFromMap` | scripts/sunspec_discovery.py:294-300 | Building, emitting, loading, simulating and walking returns exactly the dump of the generated chain. |
| `SelfDump.SelfDumpIsClean` | scripts/diff_dump_vs_map.py:37-180 | That self-dump compares clean with the emitted map: canonical points of the chain confirmed, vendor points manual. |
| `SunSpecWalk.Walk` | scripts/sunspec_discovery.py:183-291 | The bounded walk equals its recursive reference, failing on a missing marker or word. |
| `SunSpecWalk.LayOut` | scripts/sunspec_discovery.py:244-269 | The inner loop lays the catalog's points out as far as the declared length. |
| `SunSpecWalk.ModelInverts` | scripts/sunspec_discovery.py:217-276 | Walking a generated model returns its header, points and scale factors without a note. |
| `SunSpecWalk.ChainInverts` | scripts/sunspec_discovery.py:211-279 | From any header on, the walk of a generated chain returns its models in order. |
| `SunSpecWalk.WalkInvertsBuild` | scripts/sunspec_discovery.py:183-291 | For every catalog whose sizes match its types and every chain shorter than the limit, walking the generated image returns exactly that chain, every point at its generated address, every published scale factor, no note and the end address, whatever data and vendor registers hold. |
| `SunSpecWalk.EndFoundExactly` | scripts/sunspec_discovery.py:211-279 | The end of a generated image is found if and only if the chain is shorter than the limit. |
| `DumpShape.PointsExtend` | scripts/sunspec_discovery.py:240-269 | Whatever the memory, the walked points are the catalog's up to the declared length, and exactly their scale factors are recorded, with the registers' values. |
| `DumpShape.WalkSound` | scripts/sunspec_discovery.py:183-291 | For any memory whatever, a successful walk returns contiguous models whose headers are the words at their addresses, points laid out from the catalog, scale factors of exactly those points, and an end address holding the end marker. |
| `DumpShape.NotesTell` | scripts/sunspec_discovery.py:225-279 | For any memory the notes of a walk are exactly what its dump shows, model by model: unknown to the catalog, another length, the first point that does not fit; and that no end was found in as many models as the limit allows. |
| `DumpShape.StartsAtSunS` | scripts/sunspec_discovery.py:200-224 | A walk finds the marker if and only if the two registers hold the letters SunS, and has nothing to read without both. |
| `DumpDiff.ComparePoints` | scripts/diff_dump_vs_map.py:97-107 | The point issues reported are exactly the expected points missing at their offset or of another type there. |
| `DumpDiff.CompareSfs` | scripts/diff_dump_vs_map.py:109-118 | The scale-factor issues reported are exactly the expected factors missing or different. |
| `DumpDiff.CompareModels` | scripts/diff_dump_vs_map.py:78-118 | The model pass reports exactly the missing, extra, reordered and resized models and their point and scale-factor issues. |
| `DumpDiff.IndexAddresses` | scripts/diff_dump_vs_map.py:71-76 | The nested loops index the last point at each address. |
| `DumpDiff.CompareOne` | scripts/diff_dump_vs_map.py:126-170 | One canonical point: the edited entry, the discrepancies it adds, and the failure to print a factor only the device has. |
| `DumpDiff.CompareCanonical` | scripts/diff_dump_vs_map.py:126-170 | The canonical pass over the map's points of the class, in order. |
| `DumpDiff.Diff` | scripts/diff_dump_vs_map.py:37-180 | The whole report: its discrepancies are exactly those of the two passes, there is none if and only if chains and canonical types agree, and without a marker nothing is compared. |
| `DumpDiff.CleanExactly` | scripts/diff_dump_vs_map.py:172 | A report has no discrepancy if and only if the dumps agree. |
| `ReportMeaning.ChainIssueMeans` | scripts/diff_dump_vs_map.py:76-118 | Every issue of the model pass means what it says: position, ids, lengths, the point missing or of another type at its offset, the scale factor missing or of another exponent. |
| `ReportMeaning.CanonicalIssueMeans` | scripts/diff_dump_vs_map.py:136-155 | A canonical point is reported absent or of another type if and only if it is a walked one and the device's last point at its address is missing or of that type. |
| `ReportMeaning.VendorEntry` | scripts/diff_dump_vs_map.py:126-135 | The entry of a map point is for the manual check if and only if no walked point has its address. |
| `ReportMeaning.AbsentEntry` | scripts/diff_dump_vs_map.py:136-145 | A walked point the device does not have is a mismatch, bound to the expected point. |
| `ReportMeaning.FoundEntry` | scripts/diff_dump_vs_map.py:136-170 | A found point is bound to the expected one, with notes for another type and for a constant scale; without a scale-factor register it is confirmed if and only if the types agree. |
| `ReportMeaning.ScaledEntry` | scripts/diff_dump_vs_map.py:155-170 | With a scale-factor register the entry shows both exponents and is confirmed if and only if the types agree and the device does not contradict the exponent; it cannot be printed if only the device has one. |
| `ReportMeaning.EntriesInOrder` | scripts/diff_dump_vs_map.py:121-170 | The report has one entry per point of the data model, in the order of the map. |
| `DiffSoundness.ContradictionIsReported` | scripts/diff_dump_vs_map.py:152-166 | The canonical pass does not count a contradicted scale factor as a discrepancy; the model pass has, whenever the map's own exponent is known. |
| `DiffSoundness.OkMeansNoMismatch` | scripts/diff_dump_vs_map.py:126-172 | For any two dumps a report without discrepancies has no MISMATCH: each walked canonical point is confirmed and each other one manual. |
| `DiffSoundness.SelfDiffOfAnyDump` | scripts/diff_dump_vs_map.py:37-180 | Comparing any dump with itself always prints, and is clean if and only if points at one offset have one type and the map has the type indexed at each address it binds. |
| `DiffSoundness.SelfDiffExactly` | scripts/diff_dump_vs_map.py:37-180 | For dumps walked over a catalog without empty points, clean if and only if the map's types are those of the walked points it binds. |
| `DiffSoundness.EmptyPointBreaksSelfDiff` | scripts/diff_dump_vs_map.py:97-107 | A model with an empty pad before a point does not compare clean with itself. |
| `DiffSoundness.GeneratedMapDiffsClean` | scripts/diff_dump_vs_map.py:37-180 | In any memory that serves the structure of a generated image, the walked dump compares clean with itself for bindings to its registers, with chain points confirmed and vendor points manual. |
| `DiffSoundness.ScaleFactorsPrint` | scripts/diff_dump_vs_map.py:152-166 | Against a walked map a report fails to print only if a scale-factor address hits a walked point of another type. |
| `DiffSoundness.AddressesDistinct` | scripts/sunspec_discovery.py:240-279 | In a dump over a catalog without empty points no two points share an address. |
| `DiffSoundness.CleanMeansMoved` | scripts/diff_dump_vs_map.py:78-118 | Two walked dumps whose chains agree are the same dump, every model, point and scale factor, moved by the distance of their bases. |
| `DiffSoundness.MovedAgree` | scripts/diff_dump_vs_map.py:78-118 | The converse: a moved model compares clean. |
| `DiffSoundness.CleanIdentifiesExactly` | scripts/diff_dump_vs_map.py:120-170 | After a clean comparison the device's point at a bound address is the map's own point if and only if both images start at the same base. |
| `DiffSoundness.ShiftedImagePasses` | scripts/diff_dump_vs_map.py:120-170 | A concrete device shifted by one register passes with its canonical point confirmed, although that address holds another point. |

## Left out

- Floating point: float32 registers, NaN, infinities and rounding error; arithmetic is over reals, with half-to-even rounding on reals.
- MQTT, InfluxDB, HTTP and YAML plumbing: a publish, read or write is a step whose success is arbitrary.
- Loop timing: `loop_duration_ms`, the scheduling thread and wall-clock waits; `now` is passed in, and the publisher's fallback to the wall clock for a `now` of 0 is not modelled.
- Service wiring: `packages/core/src/core/main.py` arms the watchdog with the event loop's clock and checks it with the wall clock; the model assumes one clock.
- Restarts: `SetpointProtocol` covers one lifetime of publisher and core (the publisher numbers from 0 again after a restart).
- Human-readable texts: reasons, notes and discrepancies are constructors, so their wording and the report's summary counts are not modelled.
- DumpDiff.CompareSfs: the order of scale-factor issues within a model is left open, because the source follows a dictionary's insertion order.
- RegisterMap.SimulatedDevice.SetPoint: not for float32 registers, whose coding is left out with floating point; they can be served. The pymodbus store itself is left out.
- RegisterMap.FactorsKeptExactly: covers every write but those to float32 registers.
- ControlLoop.ControlLoop.Publish: the injected publisher is taken not to raise, which it does only for a data model without the loop's points; that error would end the cycle with the factor not remembered.
- DiffSoundness.GeneratedMapDiffsClean: takes a memory that serves the image; that the device of the emitted map does is shown by `GeneratedDevice` and `SelfDump`.
- GeneratedDevice.Emit: the emitted text is the sequence of its entries, and canonical entries are given by their addresses; the tables that find those addresses by point name are not modelled. Bindings to header or scale-factor registers, which no asset makes, are excluded by `CanonFits`.
- SunSpecWalk.Walk: the variant that reads every value (`include_values`), the raw-dump formats and the live reader's chunking are left out.
- ReadPlan.ReadPoints: stops at the words; decoding, reconnect backoff and the cache of scale factors are left out.
- Droop.CorrectionMonotone: takes the constructor's monotonicity check as a precondition.
- RegisterMap.CheckMap: the field ranges the loader's data classes check (addresses up to 65535, not both kinds of scale factor) are left out, and `ReadPlan.CoverageExactly` is for sizes that are not negative.
- Configuration editing, bindings to concrete assets, the `hil` plants, benchmarks and reports: they would add only one-branch members or transcendental functions.
