# Verified models of the firmware's hardware-independent core

This project models the stateful and algebraic parts of the controller firmware that do not depend
on hardware, and proves what they promise over all inputs and all runs. It is self-contained:
`dafny verify dfyconfig.toml` checks everything.

| area | files | what is modelled |
|---|---|---|
| Expressions | `Expression`, `Evaluator`, `Grammar`, `GrammarProofs`, `Compiler`, `ExpressionMeaning`, `Parser`, `Compile` | the recursive-descent compiler of calculated values, its static validator and the bounded-stack machine whose cells carry a previous value, a current value and their difference; `ExpressionMeaning` says what a text means without any of them |
| Timed lease | `TimedActuatorOverride`, `LeaseRuns` | a durable actuator lease over a 32-byte flash record, a monotonic clock and a UTC clock that may jump; restarts restore it from flash |
| Bus planning | `I2cAddressSelection` | the three in-place loops that assign I2C addresses, against a plan that does not depend on the device order |
| Boot | `InitOrder`, `Startup` | the topological sort of modules and the delay- and dependency-gated start sequencer |
| Notifications | `PendingDataKeys`, `EventBus`, `DataStore`, `NotificationPipeline` | the coalescing mailbox, the bounded event bus, their composition, and the same path as atomic steps that interleave with producers |
| Configuration | `ConfigStore`, `ConfigRuns`, `ConfigMeaning` | typed variables, JSON patches validated as a whole before they are committed, flash writes that may fail, retry flags and reloading |
| Wire formats | `HmiUdpProtocol`, `PulseCheckpoint`, `RuntimeUi`, `RuntimeUiService` | the UDP framing with its CRC-16 (MODBUS over Serial Line V1.02, section 6.2.2), the pulse checkpoint with 32-bit FNV-1a (draft-eastlake-fnv, section 2), and the self-delimiting records of the local display |
| Counting | `PulseRuntime` | the 64-bit pulse total across samples, checkpoints and reboots |
| Shared | `Wrappers`, `Numerals`, `Bytes`, `Bits` | options, rows of digits, little-endian integers, exclusive or |

Code that changes state step by step is modelled as classes and methods whose postconditions equate
the new state with a function of the old one; the properties are lemmas about those functions, over
arbitrary runs where the source keeps state. Beside them, laws such as `ExpressionMeaning.AstMeans`,
`LeaseRuns.StartExactly`, `I2cAddressSelection.EveryStatus`, `Startup.TickProgresses` and
`ConfigMeaning.SetExactly` say what one operation does without naming those functions. Flash that
may fail is a function from the number of a write to its success, so every pattern of failures is
covered; a refused or failed write leaves the flash as it was.

Some promises of the source do not hold in every case. The code is modelled as it is, and each gets a
concrete case and the exact condition under which it keeps the promise:

- A lease that has ended is active again when the power is cut while its cancellation could not be
  written yet (`LeaseRuns.PendingStopIsForgotten`); `LeaseRuns.LeaseAcrossReboots` says that among
  ticks, retries and power cuts this is the only way, and that it lasts until a tick knows the time.
- A correction of the lease to a start of 0 is stored as an active record that `restore` refuses
  (`LeaseRuns.ZeroStartIsUnreadable`); a tick keeps flash and state in agreement if and only if it
  does not do that (`LeaseRuns.TickAgreesExactly`).
- `putString_` reports an empty text as written even when the write failed, so a variable patched to
  the empty text can lose its flash copy without a retry flag (`ConfigRuns.EmptyTextIsLost`,
  `ConfigRuns.CommitAgreesExactly`); `ConfigRuns.RetryCompletes` says exactly which variables a
  second attempt does not repair.
- A scalar `set` to the value already in RAM is accepted without a write, also while flash holds an
  older value (`ConfigRuns.SameValueIsNotWritten`); `ConfigRuns.SetIsAllOrNothing` has the condition
  under which an accepted `set` is in flash.
- The CRC does not catch every change of its own last byte together with the payload's first one
  (`HmiUdpProtocol.SpanningChangeIsMissed`); `HmiUdpProtocol.SpanningChangeExactly` says which ones
  pass, and every other change of one or two adjacent bytes is caught.
- A provider of display values that writes a record and then reports failure gets a second,
  not-found record (`RuntimeUiService.FailureAddsARecord`); `RuntimeUiService.OneRecordExactly` says
  when an id contributes one record.

## Model

| member | source | states |
|---|---|---|
| `Compile.CompileExactly` | src/Core/Values/ValueExpression.cpp:22-128 | a text is accepted if and only if it is shorter than 192 characters and spells a grammatical expression within the limits (nesting below 32, 32 instructions, stack 8, 16 distinct dependencies below 688); the output is then the post-order code of that expression with its dependency table in first-occurrence order |
| `Compile.CompiledMeaning` | src/Core/Values/ValueExpression.cpp:120-198 | compiler correctness: the program of an accepted text, run on the inputs its table names, fails if and only if a divisor is 0 or a clamp has low above high now, and else has the value the symbols and words of the text mean now; when no divisor was 0 before it also has what they meant before, and from exact inputs the delta is the exact difference |
| `ExpressionMeaning.AstMeans` | src/Core/Values/ValueExpression.cpp:32-110 | value, admissibility and divisors of the compiled expression are those read off the syntax tree: + is the sum, - the difference or negation, * the product, / the quotient, and min, max, abs and clamp what their names say |
| `ExpressionMeaning.DecimalIsSpelled` | src/Core/Values/ValueExpression.cpp:53-68 | the constant emitted for a literal is the number it spells: whole digits, tenths and smaller behind the point, raised or lowered by the exponent |
| `ExpressionMeaning.SpelledExample` | src/Core/Values/ValueExpression.cpp:53-68 | the literal 1.5e-3 is 0.0015 |
| `ExpressionMeaning.NumberedNames` | src/Core/Values/ValueExpression.cpp:76-88 | two digits behind the first letter number the inputs a00 to a31 from 0, the derived values v00 to v04 from 96, and for i00 to i15 the readings .count from 32, .rate from 48, .total from 64 and .flow from 80; every other such name denotes what the catalogue says, or nothing |
| `ExpressionMeaning.Precedence` | src/Core/Values/ValueExpression.cpp:32-51 | an operator tree is grammatical if and only if its symbol is one of the four, products bind tighter than sums, both group to the left and a sign takes no bare operator |
| `Compile.Unambiguous` | src/Core/Values/ValueExpression.cpp:32-110 | precedence and associativity leave a text at most one syntax tree |
| `Compile.FitsIsValid` | src/Core/Values/ValueExpression.cpp:129-147 | the limits on a syntax tree hold if and only if emission succeeds and `validate` accepts the result |
| `Compile.Compile` | src/Core/Values/ValueExpression.cpp:120-128 | the entry point returns the specified outcome, and an empty program on every failure; it terminates on every text |
| `Parser.Parser.Expression` | src/Core/Values/ValueExpression.cpp:32-39 | the in-place parser loop consumes exactly the longest sum from the cursor and appends its post-order code, or fails exactly when the specification parser or the emitter does |
| `Parser.Parser.Product` | src/Core/Values/ValueExpression.cpp:40-47 | from the cursor, a product is consumed and its post-order code appended exactly as the specification parser and emitter do, or the call fails exactly when one of them does |
| `Parser.Parser.Primary` | src/Core/Values/ValueExpression.cpp:48-52 | from the cursor, a signed, parenthesised, literal or named operand, within the depth limit is consumed and its post-order code appended exactly as the specification parser and emitter do, or the call fails exactly when one of them does |
| `Parser.Parser.Parenthesis` | src/Core/Values/ValueExpression.cpp:51 | from the cursor, a parenthesised expression is consumed and its post-order code appended exactly as the specification parser and emitter do, or the call fails exactly when one of them does |
| `Parser.Parser.Signed` | src/Core/Values/ValueExpression.cpp:50 | from the cursor, a unary minus is consumed and its post-order code appended exactly as the specification parser and emitter do, or the call fails exactly when one of them does |
| `Parser.Parser.Literal` | src/Core/Values/ValueExpression.cpp:53-69 | from the cursor, a decimal literal is consumed and its post-order code appended exactly as the specification parser and emitter do, or the call fails exactly when one of them does |
| `Parser.Parser.ReadDecimal` | src/Core/Values/ValueExpression.cpp:55-65 | the scan of a decimal consumes exactly the longest decimal, or fails |
| `Parser.Parser.Word` | src/Core/Values/ValueExpression.cpp:70-109 | from the cursor, a reference or function call is consumed and its post-order code appended exactly as the specification parser and emitter do, or the call fails exactly when one of them does |
| `Parser.Parser.Reference` | src/Core/Values/ValueExpression.cpp:74-96 | a name is interned at its first occurrence and loaded by its table index, with the dependency limit |
| `Parser.Parser.FunctionCall` | src/Core/Values/ValueExpression.cpp:97-108 | a call parses exactly as many arguments as its function takes |
| `GrammarProofs.ExpressionSound` | src/Core/Values/ValueExpression.cpp:32-39 | what is parsed is grammatical, spells the consumed text, and stays within the nesting limit |
| `GrammarProofs.ExpressionComplete` | src/Core/Values/ValueExpression.cpp:32-110 | every grammatical expression within the nesting limit is parsed back from its spelling, with any blanks between tokens |
| `Grammar.ScanDecimalSound` | src/Core/Values/ValueExpression.cpp:53-65 | a scanned decimal is well formed and spells the consumed characters |
| `Grammar.ScanDecimalComplete` | src/Core/Values/ValueExpression.cpp:53-65 | every well-formed decimal followed by a character that ends it is scanned back |
| `Compiler.EmitMeaning` | src/Core/Values/ValueExpression.cpp:28-31 | emission appends exactly the postfix form of the tree, loads numbered by first occurrence, and fails exactly at the instruction or dependency limit |
| `Compiler.IndexedMeaning` | src/Core/Values/ValueExpression.cpp:88-95 | replacing names by table indices keeps value, admissibility and divisors |
| `Compiler.NamesGrow` | src/Core/Values/ValueExpression.cpp:89-94 | the dependency table only grows, stays duplicate-free, and holds every name of the expression |
| `Expression.Validate` | src/Core/Values/ValueExpression.cpp:129-147 | the loop accepts exactly the statically valid programs |
| `Expression.ValidExactlyPostfix` | src/Core/Values/ValueExpression.cpp:129-147 | a program is valid if and only if its tables are and its code is the postfix form of a well-formed tree that needs at most 8 cells |
| `Expression.HeightGivesTrees` | src/Core/Values/ValueExpression.cpp:135-146 | code that passes the static stack check builds trees on the stack, as many as the height says, and these flatten back to the code |
| `Expression.TreeIsUnique` | src/Core/Values/ValueExpression.cpp:129-147 | postfix code has one tree |
| `Expression.HeightOfPostfix` | src/Core/Values/ValueExpression.cpp:135-145 | the height check of a tree in context fails exactly when the tree needs more cells than are left |
| `Evaluator.Evaluate` | src/Core/Values/ValueExpression.cpp:156-198 | the bounded-stack machine of 8 cells computes the specified run of a validated program |
| `Evaluator.ProgramMeaning` | src/Core/Values/ValueExpression.cpp:156-198 | a validated program succeeds exactly when its tree is admissible on the current inputs and then leaves one cell: the tree's current value and, when no previous divisor is 0, its previous value and the exact difference |
| `Evaluator.RunPostfix` | src/Core/Values/ValueExpression.cpp:160-196 | running the postfix form of a tree in any context pushes the cell the tree denotes (the previous column when no previous divisor is 0), or fails exactly when the tree is not admissible |
| `Evaluator.CombineColumns` | src/Core/Values/ValueExpression.cpp:112-193 | every operator keeps the current column correct and, unless its previous divisor is 0, the previous column correct and the delta exact |
| `Evaluator.DifferencesCompose` | src/Core/Values/ValueExpression.cpp:112-193 | also from inexact differences the result leads where the operator leads from where its operands lead: previous plus delta of a sum, difference, negation or product is that of its operands, of a selection that of the operand picked now, and a quotient is off by as much as its divisor is |
| `Evaluator.PublishedDeltasTelescope` | src/Core/Values/ValueExpression.cpp:112-198 | over a chained run of observations the published deltas add up to last value minus first previous value |
| `Evaluator.SelectPicks` | src/Core/Values/ValueExpression.cpp:112-118 | selection picks the extremum in each column and an exact difference, also when the two columns choose different operands |
| `LeaseRuns.LeaseAcrossReboots` | src/Core/Control/TimedActuatorOverride.h:21-112 | with a consistent UTC clock, over any ticks, retries, power cuts and restores of a saved lease: before its end it keeps running and flash is not written; a tick that knows UTC at or after its end plus one second stops it; at any later point it is active if and only if the power was cut with the cancellation still pending and no tick has known the time since |
| `LeaseRuns.RunsOnTime` | src/Core/Control/TimedActuatorOverride.h:71-112 | over any such run the lease in memory and in flash keeps its period, and flash holds an active record exactly while the lease runs or its cancellation is pending |
| `LeaseRuns.ReactivatedExactly` | src/Core/Control/TimedActuatorOverride.h:54-82 | at every point after a tick that knew UTC at or after the end plus one second, the lease is active exactly when a later power cut met a pending cancellation and no tick since has known the time |
| `LeaseRuns.OverForGood` | src/Core/Control/TimedActuatorOverride.h:54-75 | a lease that is over with its cancellation in flash stays over, and flash unwritten, whatever ticks, retries and power cuts follow |
| `LeaseRuns.PendingStopIsForgotten` | src/Core/Control/TimedActuatorOverride.h:54-70 | a concrete lease that ended on time, whose cancellation could not be written, is active again after a power cut |
| `LeaseRuns.UntouchedBeforeEnd` | src/Core/Control/TimedActuatorOverride.h:71-112 | happenings before the end leave the lease running and flash unwritten |
| `LeaseRuns.JumpsCannotMoveTheLease` | src/Core/Control/TimedActuatorOverride.h:37-112 | in one boot with arbitrary UTC values a tick at start plus 1000 ms per second leaves the lease inactive; a tick with known UTC that leaves it active leaves the stored end within 2 s of UTC plus remaining seconds and the duration unchanged |
| `LeaseRuns.TickAgreesExactly` | src/Core/Control/TimedActuatorOverride.h:71-112 | a tick keeps the flash record in agreement with the state if and only if it does not store a corrected start of 0 |
| `LeaseRuns.RunAgrees` | src/Core/Control/TimedActuatorOverride.h:21-112 | from any state in agreement, over any run with plausible clocks and any failing writes, a lease without a pending save is the one the flash record decodes to |
| `LeaseRuns.BootedRunAgrees` | src/Core/Control/TimedActuatorOverride.h:21-112 | durability from a boot on any flash contents: over any run with plausible clocks and any failing writes, a lease without a pending save is exactly the one flash would restore |
| `LeaseRuns.ZeroStartIsUnreadable` | src/Core/Control/TimedActuatorOverride.h:92-109 | a concrete correction to a start of 0 is stored as an active record that `restore` refuses |
| `LeaseRuns.OnlyStartActivates` | src/Core/Control/TimedActuatorOverride.h:37-112 | no event but a successful start or a restore turns an inactive lease active |
| `LeaseRuns.StartAgrees` | src/Core/Control/TimedActuatorOverride.h:37-53 | a refused or failed start changes nothing; a successful one is in flash |
| `LeaseRuns.StartExactly` | src/Core/Control/TimedActuatorOverride.h:37-53 | a start succeeds if and only if its arguments are legal, storage is configured and this write succeeds; it then forces exactly the given value on the given slot and binding in memory and in flash, from now to now plus the duration, anchored and without a reason |
| `LeaseRuns.CancelExactly` | src/Core/Control/TimedActuatorOverride.h:54-62 | a stop of an active or unsaved lease leaves it inactive with the given reason, writes an inactive record, and stays pending exactly when that write fails; any other is a success without effect |
| `LeaseRuns.FlushExactly` | src/Core/Control/TimedActuatorOverride.h:63-70 | a retry writes the inactive record again and clears the pending flag exactly when the write succeeds |
| `LeaseRuns.RestoreExactly` | src/Core/Control/TimedActuatorOverride.h:21-36 | a record is restored if and only if it is inactive or lasts a positive time of at most a day from a known start; the lease takes its fields and waits for the time |
| `LeaseRuns.AnchoredTickExactly` | src/Core/Control/TimedActuatorOverride.h:86-111 | a tick at the deadline stops a running lease as expired; before it, a stored end within two seconds stays, and another is rewritten with the same duration, or stops the lease as clock-invalid when it cannot be |
| `LeaseRuns.RestoredTickExactly` | src/Core/Control/TimedActuatorOverride.h:73-85 | a tick on a restored lease waits while the time is unknown, stops it as clock-invalid before its start and as expired from its end on, and else sets the deadline to the seconds left |
| `LeaseRuns.CancelStops` | src/Core/Control/TimedActuatorOverride.h:54-62 | cancel always deactivates; its flash record agrees unless the save stays pending |
| `LeaseRuns.FlushAgrees` | src/Core/Control/TimedActuatorOverride.h:63-70 | a flush keeps or restores agreement and changes no lease |
| `LeaseRuns.TicksKeepDeadline` | src/Core/Control/TimedActuatorOverride.h:71-112 | ticks never move the monotonic deadline or the duration |
| `TimedActuatorOverride.DecodeEncoded` | src/Core/Control/TimedActuatorOverride.h:129-150 | decoding inverts encoding on every record |
| `TimedActuatorOverride.EncodeDecoded` | src/Core/Control/TimedActuatorOverride.h:129-150 | encoding inverts decoding up to the eight unused bytes |
| `TimedActuatorOverride.RecordLayout` | src/Core/Control/TimedActuatorOverride.h:142-150 | version, flags and slot are the first four bytes, binding, start and end follow little-endian at offsets 4, 8 and 16, and the rest is 0 |
| `TimedActuatorOverride.Override.Restore` | src/Core/Control/TimedActuatorOverride.h:21-36 | accepts exactly the records the format allows and takes their fields |
| `TimedActuatorOverride.Override.Start` | src/Core/Control/TimedActuatorOverride.h:37-53 | state and flash afterwards equal `Started`, whose every field `LeaseRuns.StartExactly` states |
| `TimedActuatorOverride.Override.Cancel` | src/Core/Control/TimedActuatorOverride.h:54-62 | state and flash afterwards equal `Cancelled`, whose every field `LeaseRuns.CancelExactly` states |
| `TimedActuatorOverride.Override.Flush` | src/Core/Control/TimedActuatorOverride.h:63-70 | state and flash afterwards equal `Flushed`, whose every field `LeaseRuns.FlushExactly` states |
| `TimedActuatorOverride.Override.Tick` | src/Core/Control/TimedActuatorOverride.h:71-112 | state and flash afterwards equal `Ticked`, which the tick laws state field by field and the agreement, jump and reboot theorems are about |
| `TimedActuatorOverride.Override.Fill` | src/Core/Control/TimedActuatorOverride.h:142-150 | the in-place encoder writes the specified 32 bytes |
| `TimedActuatorOverride.Override.Report` | src/Core/Control/TimedActuatorOverride.h:113-123 | the mode, reason and value shown, the end of an active lease, and the remaining time rounded up to whole seconds, cut to the 32 bits of its field |
| `I2cAddressSelection.Resolve` | src/Core/I2cAddressSelection.h:33-100 | the three in-place loops compute the order-free plan of every device |
| `I2cAddressSelection.TryPrimaries` | src/Core/I2cAddressSelection.h:36-60 | the first loop leaves every device in the state of the order-free primary plan |
| `I2cAddressSelection.ReservePrimaries` | src/Core/I2cAddressSelection.h:62-73 | the second loop leaves every device in the state of the order-free plan with reserved primaries |
| `I2cAddressSelection.TrySecondaries` | src/Core/I2cAddressSelection.h:75-99 | the third loop, although it reads states it has already rewritten, leaves every device in the state of the order-free plan |
| `I2cAddressSelection.PlanReorders` | src/Core/I2cAddressSelection.h:33-100 | reordering the devices reorders the plan and changes nothing else |
| `I2cAddressSelection.ActiveAddressesAreExclusive` | src/Core/I2cAddressSelection.h:33-100 | no two devices share an active address, and none is active at a primary that another enabled device reserves |
| `I2cAddressSelection.ContendersAreRejectedTogether` | src/Core/I2cAddressSelection.h:75-99 | all devices left contending for one secondary are rejected together |
| `I2cAddressSelection.ActiveIsOwn` | src/Core/I2cAddressSelection.h:36-99 | an active device answered at its own primary or an unreserved, uncontended secondary |
| `I2cAddressSelection.LonePrimaryIsActive` | src/Core/I2cAddressSelection.h:36-60 | exactly when a device is active at its primary |
| `I2cAddressSelection.EveryStatus` | src/Core/I2cAddressSelection.h:33-100 | for each of the nine statuses the exact condition over all devices and the probe; a device is at its secondary if and only if it is enabled and well configured, its primary is unclaimed and absent, its secondary is nonzero, differs from the primary, is no other primary and answers, and no other still-missing device names it |
| `I2cAddressSelection.EveryActiveAddress` | src/Core/I2cAddressSelection.h:51-99 | the active address is the primary or the secondary exactly when that status is given, and else 0 |
| `InitOrder.Registry.BuildInitOrder` | src/Core/ModuleManager.cpp:86-153 | succeeds if and only if every valid declared dependency is registered and the dependency graph is acyclic; then the order is a permutation of the modules with dependencies first; the pass bound always suffices |
| `InitOrder.OrderedIsResolvable` | src/Core/ModuleManager.cpp:86-153 | whenever such an order exists nothing is missing and there is no cycle |
| `InitOrder.StuckHasCycle` | src/Core/ModuleManager.cpp:140-148 | a pass without progress means a dependency cycle |
| `InitOrder.Registry.PlacingPass` | src/Core/ModuleManager.cpp:92-134 | a pass places exactly modules whose dependencies are placed, and makes progress unless all others wait |
| `InitOrder.Registry.CheckDependencies` | src/Core/ModuleManager.cpp:99-127 | the dependency scan reports a missing registration or an unplaced dependency |
| `InitOrder.Registry.Add` | src/Core/ModuleManager.cpp:53-79 | a module is registered unless it is null, invalid, one too many or a duplicate |
| `InitOrder.Registry.FindById` | src/Core/ModuleManager.cpp:81-84 | finds exactly the registered module of a valid id |
| `Startup.RunIsOrderly` | src/Core/ModuleManager.cpp:393-428 | in every state reachable by ticks the started set is closed under dependencies, each start hook ran at most once and not before its delay, and completion implies that all modules started |
| `Startup.TickIsOrderly` | src/Core/ModuleManager.cpp:393-428 | one tick keeps the started set closed, the start hooks called once and in time, and completion truthful |
| `Startup.StartsOrderly` | src/Core/ModuleManager.h:46 | the state before the first tick has a closed started set and no start hook called |
| `Startup.LastTickCompletes` | src/Core/ModuleManager.cpp:393-428 | one tick after the largest delay with willing modules and successful task creation starts every remaining module and completes the startup |
| `Startup.TickProgresses` | src/Core/ModuleManager.cpp:393-428 | after a successful tick on an active startup a module is started if and only if it was before, or its delay has elapsed, it may start and all its valid dependencies are started by now; startup stays active exactly while one is not started; a tick fails only when the tasks of a due module cannot be created |
| `Startup.IdleTick` | src/Core/ModuleManager.cpp:395-397 | outside an active startup a tick changes nothing, and it fails exactly after a failed startup |
| `Startup.WaitingHoldsUpNobody` | src/Core/ModuleManager.cpp:406-410 | a concrete module still waiting for its delay does not keep the one behind it from starting |
| `Startup.Manager.Tick` | src/Core/ModuleManager.cpp:393-428 | the in-place sequencer ends in the state `Ticked`, whose progress `TickProgresses` states exactly and whose runs `RunIsOrderly` is about |
| `Startup.Manager.StartModule` | src/Core/ModuleManager.cpp:237-370 | a module is released only with its dependencies started and its own permission; then its start hook runs once, its tasks are created and its bit is set unless a task fails |
| `Startup.Manager.CheckStarted` | src/Core/ModuleManager.cpp:217-235 | true exactly when every valid dependency is ordered and started |
| `Startup.GoodTasksLaunch` | src/Core/ModuleManager.cpp:249-362 | task creation succeeds when specifications, capacity and scheduler allow it |
| `NotificationPipeline.NoLostNotification` | src/Core/DataStore/DataStore.cpp:9-22 | under any interleaving of marks, drain steps, refused posts, other posts and dispatches, a mark of a key leaves it pending or in the consumer's hand unless the bus accepted, after the mark, an event whose two payload bytes decode to the key |
| `NotificationPipeline.NoInventedNotification` | src/Core/DataStore/DataStore.cpp:9-22 | under any interleaving a key is never accepted more often than it was marked, even counting it when it is pending or in hand |
| `NotificationPipeline.AcceptedAreDeliveredInOrder` | src/Core/EventBus/EventBus.cpp:92-167 | under any interleaving accepted = delivered + queued, in order, and each delivered event went to exactly the matching subscribers |
| `NotificationPipeline.RunKeepsInv` | src/Core/DataStore/DataStore.cpp:9-22 | the history, mailbox, hand and queue invariant over every run |
| `NotificationPipeline.DrainIsARun` | src/Core/DataStore/PendingDataKeys.h:26-44 | an undisturbed drain pass into the bus is a run of those atomic steps |
| `PendingDataKeys.DrainIsExact` | src/Core/DataStore/PendingDataKeys.h:26-44 | without concurrent marks a drain publishes the first min(budget, pending) keys in cyclic order up to the first refusal and keeps all others pending |
| `PendingDataKeys.WholePassIsExact` | src/Core/DataStore/PendingDataKeys.h:26-44 | from the stored cursor a whole pass publishes the first min(budget, pending) keys in cyclic order up to the first refusal and keeps all others pending |
| `PendingDataKeys.CyclicPendingIsOrdered` | src/Core/DataStore/PendingDataKeys.h:26-37 | that order lists every pending key once, nearest to the cursor first |
| `PendingDataKeys.DrainIsFair` | src/Core/DataStore/PendingDataKeys.h:26-44 | with no refusal and a budget of at least 1 a call publishes a given pending key or strictly reduces its cyclic distance from the cursor |
| `PendingDataKeys.Mailbox.TryDrain` | src/Core/DataStore/PendingDataKeys.h:26-44 | bit words, cursor and published keys after the in-place loop equal `DrainFrom`, which `DrainIsExact` and `DrainIsFair` describe |
| `PendingDataKeys.Mailbox.Mark` | src/Core/DataStore/PendingDataKeys.h:12-18 | sets exactly that key's bit, or refuses an unknown key |
| `PendingDataKeys.Mailbox.Scan` | src/Core/DataStore/PendingDataKeys.h:29-36 | clears the cursor's bit, reports it and advances the cursor |
| `DataStore.Store.FlushPendingChanges` | src/Core/DataStore/DataStore.cpp:14-22 | the mailbox, the bus queue and the accepted events after a flush are those of the drain with the bus's free places; the events it appends decode, one each and in order, to the published keys |
| `DataStore.ChangedNamesItsKey` | src/Core/DataStore/DataStore.cpp:18-21 | the event posted for a key has id 50 and two payload bytes that decode to the key |
| `DataStore.Store.NotifyChanged` | src/Core/DataStore/DataStore.cpp:9-12 | marks the key and changes nothing else |
| `EventBus.Bus.Post` | src/Core/EventBus/EventBus.cpp:92-167 | an event is queued exactly when there is a queue, its payload fits and there is room; a full queue is a loss unless the caller retries |
| `EventBus.Bus.Dispatch` | src/Core/EventBus/EventBus.cpp:404-416 | the oldest events up to the budget are removed and delivered in order |
| `EventBus.Bus.DispatchOne` | src/Core/EventBus/EventBus.cpp:433-467 | calls the matching subscribers in subscription order |
| `EventBus.FanIsExact` | src/Core/EventBus/EventBus.cpp:433-467 | each matching subscriber is called exactly once and nobody else |
| `EventBus.DeliveriesConcat` | src/Core/EventBus/EventBus.cpp:404-416 | dispatching in several budgets delivers the same as at once |
| `EventBus.Bus.Subscribe` | src/Core/EventBus/EventBus.cpp:35-56 | a subscriber is appended unless the callback is null or the table is full |
| `ConfigRuns.RunTracks` | src/Core/ConfigStore.cpp:275-299 | over any run of sets, patches, saves, loads and reboots with any write failures each persistent variable has its retry flag set, or reloading gives its RAM value, or it is an empty text |
| `ConfigRuns.CommitAgreesExactly` | src/Core/ConfigStore.cpp:184-192 | after an accepted commit the retry flag is clear, and RAM and flash disagree exactly when the new value is the empty text, it had to be written, the write failed and another value is stored |
| `ConfigRuns.EmptyTextIsLost` | src/Core/ConfigStore.cpp:184-192 | a concrete patch to the empty text is reported as applied although the flash kept the old text |
| `ConfigRuns.RetryCompletes` | src/Core/ConfigStore.cpp:681-843 | re-applying a patch that failed only on storage, once writes succeed, returns true and stores every addressed persistent variable, except exactly the empty texts already lost |
| `ConfigRuns.CommitsAll` | src/Core/ConfigStore.cpp:681-843 | with a working flash the commit loop runs to its end and stores what it addresses |
| `ConfigRuns.CommitStopsAt` | src/Core/ConfigStore.cpp:681-843 | the commit loop settles the variables up to the one whose write failed, which keeps its flag, and does not touch the others |
| `ConfigRuns.SeenIsCommitted` | src/Core/ConfigCandidate.h:24-48 | when a validator's read succeeds, the value it saw is the RAM value after the patch was applied |
| `ConfigRuns.ViewIsStable` | src/Core/ConfigCandidate.h:19-48 | a patch cut short shows the validators the same view when it is applied again |
| `ConfigRuns.AnnouncesExactly` | src/Core/ConfigStore.cpp:823-839 | an applied patch announces exactly the variables it changed or wrote again, once each, in order |
| `ConfigRuns.SetIsAllOrNothing` | src/Core/ConfigStore.h:244-295 | a refused or failed scalar set leaves RAM and flash as they were; an accepted one is in RAM, and in flash if and only if the value changed or flash agreed before |
| `ConfigMeaning.SetExactly` | src/Core/ConfigStore.h:244-295 | a scalar set is accepted if and only if every validator accepts and the value is unchanged, not kept in flash, or its one write succeeds; exactly a changed variable with a key is announced, and only a changed one is written |
| `ConfigMeaning.CommitExactly` | src/Core/ConfigStore.cpp:681-840 | the commit of one variable, field by field: value, retry flag, flash, number of writes, announcement and the exact condition of success |
| `ConfigMeaning.PatchIsJudgedWhole` | src/Core/ConfigStore.cpp:580-843 | a patch that a text check or a validator rejects changes nothing; with a working flash a patch is applied if and only if all accept |
| `ConfigMeaning.IntegerBecomes` | src/Core/ConfigStore.cpp:694-821 | what a whole number becomes in each type: itself where it fits, the nearest bound of a smaller type, the two's complement of an unsigned word, a flag for not zero, the same real; wider numbers are not taken |
| `ConfigMeaning.TextBecomes` | src/Core/ConfigStore.cpp:694-821 | what a text becomes in each type: the number it spells within the bounds, a flag for true or 1, the value of `atof`, or its longest prefix that fits |
| `ConfigMeaning.OtherBecomes` | src/Core/ConfigStore.cpp:694-821 | reals are taken by reals and flags, flags by flags, and nothing else is taken |
| `ConfigMeaning.StrtolReads` | src/Core/ConfigStore.cpp:704 | blanks, an optional sign and a row of digits are read as their number or the nearest 32-bit bound, whatever follows |
| `ConfigMeaning.ExactReads` | src/Core/ConfigCandidate.h:24-48 | a validator reads a JSON value if and only if it has the variable's type and range, and then as that value |
| `ConfigMeaning.EntryExactly` | src/Core/ConfigStore.cpp:681-693 | a patch speaks of a variable exactly with the first field of its name in the first section of its owner |
| `ConfigMeaning.TextsExactly` | src/Core/ConfigStore.cpp:622-674 | the text checks pass if and only if every field that names a checked variable is a text that fits and passes its check |
| `ConfigMeaning.PatchedView` | src/Core/ConfigCandidate.h:19-48 | validators see as contained what the patch mentions, read that with the variable's own type, and read every other variable from RAM |
| `ConfigMeaning.ReplacedView` | src/Core/ConfigCandidate.h:19-48 | validators of a replaced variable see it alone as contained, and RAM with the new value |
| `ConfigMeaning.LoadsExactly` | src/Core/ConfigStore.cpp:301-342 | exactly a stored, persistent and keyed variable takes its value from attached flash |
| `ConfigMeaning.SavesAll` | src/Core/ConfigStore.cpp:344-352 | with a working flash saving stores every persistent variable and changes nothing else |
| `ConfigRuns.SameValueIsNotWritten` | src/Core/ConfigStore.h:254-267 | a concrete patch whose write failed, after which setting the same value is accepted while flash keeps the old one |
| `ConfigRuns.BootedAgrees` | src/Core/ConfigStore.cpp:301-342 | after registration and a load every variable agrees with flash and no retry flag is set |
| `ConfigRuns.LoadedKeeps` | src/Core/ConfigStore.cpp:301-342 | a load at any time keeps every persistent variable flagged, in agreement with flash or an empty text, and brings every stored value back to RAM |
| `ConfigStore.Converted` | src/Core/ConfigStore.cpp:694-821 | every value a patch can leave in a variable is in the range of its type |
| `ConfigStore.Store.ApplyJson` | src/Core/ConfigStore.cpp:580-843 | a patch that a text check or validator rejects changes neither RAM nor flash; otherwise state and result equal `Applied`, the function of the run and retry theorems |
| `ConfigStore.Store.CheckTexts` | src/Core/ConfigStore.cpp:622-674 | true exactly when every text check of the patch passes |
| `ConfigStore.Store.ValidateCandidate` | src/Core/ConfigStore.h:53-57 | true exactly when every validator accepts the overlay |
| `ConfigStore.Store.CommitVariable` | src/Core/ConfigStore.cpp:681-840 | state and result equal `Committed`: conversion, retry flag, write and announcement of one variable, stopping on a failed write with the flag set |
| `ConfigStore.Store.Set` | src/Core/ConfigStore.h:244-295 | state and result equal `SetTo`, for which `SetIsAllOrNothing` is proved: validation, change, write and rollback |
| `ConfigStore.Store.WritePersistent` | src/Core/ConfigStore.cpp:275-299 | flash and result equal `Written`: a refused write leaves flash unchanged, and an empty text is reported as written in any case |
| `ConfigStore.Store.SavePersistent` | src/Core/ConfigStore.cpp:344-352 | every variable is written once whatever the earlier writes did |
| `ConfigStore.Store.LoadPersistent` | src/Core/ConfigStore.cpp:301-342 | each persistent variable with a stored value takes it, and every other one keeps its RAM value |
| `HmiUdpProtocol.BuiltValidates` | src/Core/Hmi/HmiUdpProtocol.cpp:53-106 | a packet of at most 512 bytes validates to the header it was sealed with and its payload |
| `HmiUdpProtocol.ValidatedIsBuilt` | src/Core/Hmi/HmiUdpProtocol.cpp:88-106 | only built packets validate |
| `HmiUdpProtocol.PacketLayout` | src/Core/Hmi/HmiUdpProtocol.cpp:53-86 | the bytes of a packet: magic, version, kind, sequence, acknowledgement, flags and length little-endian at their offsets, and the payload behind the CRC |
| `HmiUdpProtocol.ValidityOf` | src/Core/Hmi/HmiUdpProtocol.cpp:88-106 | a packet with the right magic, version and length is valid if and only if its CRC field is the CRC of all its other bytes |
| `HmiUdpProtocol.Taps` | src/Core/Hmi/HmiUdpProtocol.cpp:37-43 | a shift feeds back x^16 + x^15 + x^2 + 1 exactly when a 1 falls out |
| `HmiUdpProtocol.SingleByteChangeIsCaught` | src/Core/Hmi/HmiUdpProtocol.cpp:88-106 | changing any one byte of a valid packet makes validation fail |
| `HmiUdpProtocol.AdjacentChangeIsCaught` | src/Core/Hmi/HmiUdpProtocol.cpp:88-106 | changing two adjacent bytes of a valid packet makes validation fail, except across the CRC's last byte and the payload's first |
| `HmiUdpProtocol.SpanningChangeExactly` | src/Core/Hmi/HmiUdpProtocol.cpp:88-106 | a change of the CRC's last byte and the payload's first is missed if and only if the CRC field changes by what the payload byte's change becomes over the payload's length |
| `HmiUdpProtocol.SpanningChangeIsMissed` | src/Core/Hmi/HmiUdpProtocol.cpp:88-106 | every packet with one payload byte shares all bytes but those two with another valid packet |
| `HmiUdpProtocol.AdjacentBytesShow` | src/Core/Hmi/HmiUdpProtocol.cpp:33-45 | messages that differ in two adjacent bytes at most have different CRCs |
| `HmiUdpProtocol.TwoBytesInjective` | src/Core/Hmi/HmiUdpProtocol.cpp:37-43 | from one register value different pairs of bytes lead to different register values |
| `HmiUdpProtocol.CrcChains` | src/Core/Hmi/HmiUdpProtocol.cpp:22-29 | the CRC of header and payload is the CRC of the payload started from the header's |
| `HmiUdpProtocol.CrcInjective` | src/Core/Hmi/HmiUdpProtocol.cpp:33-45 | for fixed data the CRC is injective in its seed |
| `HmiUdpProtocol.Crc16` | src/Core/Hmi/HmiUdpProtocol.cpp:33-45 | the nested bit loop computes `Crc`, the byte-by-byte CRC that the injectivity and damage theorems are about |
| `HmiUdpProtocol.BuildPacket` | src/Core/Hmi/HmiUdpProtocol.cpp:53-86 | succeeds exactly when header and payload fit, writes exactly the packet and leaves the rest of the buffer |
| `HmiUdpProtocol.ValidatePacket` | src/Core/Hmi/HmiUdpProtocol.cpp:88-106 | the result equals `Validated`, for which acceptance of exactly the built packets is proved |
| `PulseCheckpoint.DecodedIsEncoded` | src/Core/Values/PulseCheckpoint.h:25-38 | a blob decodes to a state if and only if it is the encoding of that state |
| `PulseCheckpoint.BlobLayout` | src/Core/Values/PulseCheckpoint.h:25-29 | the offset of every field of a blob: magic, version, sixteen entries of 14 bytes with count, generation and reset token, and the checksum of all of them |
| `PulseCheckpoint.SingleByteChangeIsCaught` | src/Core/Values/PulseCheckpoint.h:30-38 | changing any one byte of an accepted blob makes decoding fail |
| `PulseCheckpoint.HashInjective` | src/Core/Values/PulseCheckpoint.h:12-16 | for fixed bytes the FNV-1a hash is injective in its starting value |
| `PulseCheckpoint.OneByteShows` | src/Core/Values/PulseCheckpoint.h:12-16 | messages that differ in one byte at most have different hashes |
| `PulseCheckpoint.PrimeInjective` | src/Core/Values/PulseCheckpoint.h:14 | multiplication by the FNV prime is injective modulo 2^32 |
| `PulseCheckpoint.Encode` | src/Core/Values/PulseCheckpoint.h:25-29 | the moving-pointer encoder fills the whole buffer with `Encoded`, which `DecodedIsEncoded` inverts |
| `PulseCheckpoint.Decode` | src/Core/Values/PulseCheckpoint.h:30-38 | the result equals `Decoded`: size, magic, version and hash are checked before any entry is read |
| `PulseCheckpoint.Put` | src/Core/Values/PulseCheckpoint.h:17-19 | writes the low bytes of a number, least significant first |
| `PulseCheckpoint.Get` | src/Core/Values/PulseCheckpoint.h:20-24 | reads the number whose low bytes lie at the pointer, least significant first, of any width |
| `PulseCheckpoint.ComputeChecksum` | src/Core/Values/PulseCheckpoint.h:12-16 | the accumulating loop computes `Checksum`, the FNV-1a hash the damage theorem is about |
| `PulseRuntime.RunConserves` | src/Core/Values/PulseRuntime.h:13-52 | over every run of pulses, samples, checkpoints that may fail, reboots, driver restarts and resets: the pulses since the reset the total counts from are the total, those not sampled yet and those missed, which are never negative; the total never over-counts |
| `PulseRuntime.SamplesAddIncrements` | src/Core/Values/PulseRuntime.h:20-52 | over any sequence of raw readings the total is the restored base plus the sum of positive raw increments, never more, and it overflows if and only if these pass 2^64 - 1 |
| `PulseRuntime.RunCountsAll` | src/Core/Values/PulseRuntime.h:20-52 | within one boot, without driver restarts or resets and below 2^64 pulses, no pulse is missed |
| `PulseRuntime.GenerationCountsReturns` | src/Core/Values/PulseRuntime.h:22-25 | over any sequence of raw readings the generation counts how often the raw counter went back |
| `PulseRuntime.ResetStartsAfresh` | src/Core/Values/PulseRuntime.h:17-19 | after a reset, under a new generation, exactly the later pulses are counted |
| `PulseRuntime.UnsavedResetIsUndone` | src/Core/Values/PulseRuntime.h:13-19 | a reset that was not checkpointed is undone by a reboot |
| `PulseRuntime.RebootMissesSinceCheckpoint` | src/Core/Values/PulseRuntime.h:13-16 | a reboot restores the total and generation of the last written checkpoint whatever happened in between, and misses exactly what that total missed, the pulses not sampled then and those that came later |
| `PulseRuntime.SampleAddsTheIncrement` | src/Core/Values/PulseRuntime.h:20-52 | a sample adds exactly the raw increment unless the total would pass 2^64 - 1; a raw counter that went back adds nothing |
| `PulseRuntime.NoEarlyOverflow` | src/Core/Values/PulseRuntime.h:28-30 | no sample overflows while fewer than 2^64 pulses have happened, and it adds the raw increment |
| `PulseRuntime.CheckpointReadsBack` | src/Core/Values/PulseCheckpoint.h:25-38 | what a checkpoint writes is what the next boot reads |
| `PulseRuntime.Pulse.Sample` | src/Core/Values/PulseRuntime.h:20-52 | the state after the in-place sample and its result equal `Sampled`, which `SampleAddsTheIncrement` describes |
| `PulseRuntime.Pulse.Restore` | src/Core/Values/PulseRuntime.h:13-16 | the total is the restored base, nothing has been sampled and the overflow flag is clear |
| `PulseRuntime.Pulse.ResetTo` | src/Core/Values/PulseRuntime.h:17-19 | the state is `Reset`, whose effect `ResetStartsAfresh` states: the total is 0 and counting goes on from the given raw value |
| `RuntimeUi.Writer.Write` | src/Core/RuntimeUi.cpp:82-140 | a typed write appends one complete record or nothing and sets the overflow flag; the buffer stays the concatenation of the records the count byte counts modulo 256 |
| `RuntimeUi.Writer.WriteHeader` | src/Core/RuntimeUi.cpp:70-80 | a header is written exactly when the whole record fits |
| `RuntimeUi.Writer.WritePayload` | src/Core/RuntimeUi.cpp:82-140 | appends exactly the payload bytes of the value's wire type if and only if there is room for them, else fails with the overflow flag set |
| `RuntimeUi.Writer.AppendNumber` | src/Core/RuntimeUi.cpp:43-55 | a number is appended low byte first; without room the bytes that fit are written, the overflow flag is set and the call fails |
| `RuntimeUi.Writer.AppendBytes` | src/Core/RuntimeUi.cpp:57-68 | all bytes are appended after everything written, or none and the overflow flag is set |
| `RuntimeUi.RecordsRoundTrip` | src/Core/RuntimeUi.cpp:70-140 | a concatenation of records reads back as exactly those records |
| `RuntimeUi.ItemRoundTrip` | src/Core/RuntimeUi.cpp:82-140 | the payload of every wire type reads back, whatever follows it |
| `RuntimeUi.RecordLayout` | src/Core/RuntimeUi.cpp:70-140 | the bytes of a record of each type: id low byte first, tag, then the value low byte first, a text behind its length |
| `RuntimeUiService.ReadValues` | src/Core/RuntimeUi.cpp:142-184 | succeeds exactly when the count byte and all records fit, and then the buffer holds exactly the answers of the ids in order; a failure leaves length 0 and count byte 0 |
| `RuntimeUiService.AnswersReadBack` | src/Core/RuntimeUi.cpp:142-184 | with truthful providers the buffer decodes to one record per requested id, in order |
| `RuntimeUiService.OneRecordExactly` | src/Core/RuntimeUi.cpp:162-177 | an id contributes exactly one record of its own if and only if its provider writes one record for it and reports success, or writes none |
| `RuntimeUiService.ProviderExactly` | src/Core/RuntimeUi.h:22-45 | an id has a provider if and only if it is 100 times a registered module's index plus a value number, or that plus 25600, because the index is one byte; the provider is asked for that value |
| `RuntimeUiService.FailureAddsARecord` | src/Core/RuntimeUi.cpp:174-177 | a concrete provider that writes its record and reports failure makes its id contribute two records |
| `RuntimeUiService.CallProvider` | src/Core/RuntimeUi.cpp:174-178 | a provider's turn fits exactly when all its records do |
| `RuntimeUiService.WrittenAllFits` | src/Core/RuntimeUi.cpp:70-80 | several writes produce all their records, or overflow because these do not fit |

## Left out

- Evaluator.ProgramMeaning: `double` is modelled as `real`, so the finiteness tests always pass; after a division by a previous 0 the firmware holds an infinity or a NaN, or what later operators make of it, so nothing is claimed about the previous column and the difference of an expression in which a previous divisor is 0.
- Compile.CompileExactly: decimal literals are exact reals, so the rejection of literals beyond the range of `double` is not modelled.
- Parser.Parser.Reference: the generated catalogue of named data values is a parameter, a map from names to ids.
- Parser.Parser.FunctionCall: the loop over the arguments of a call is a recursive method, and null and dangling text pointers are not modelled beyond an absent text.
- `affine` is a fixed five-instruction program; it would add an easy instance of `Evaluator.ProgramMeaning`.
- LeaseRuns.LeaseAcrossReboots: true time stays below 2^62 / 4000 ms, which keeps the 64-bit clocks from wrapping, and a reboot takes no time.
- LeaseRuns.JumpsCannotMoveTheLease: the monotonic deadline is assumed not to wrap 64 bits.
- LeaseRuns.RunAgrees: every known UTC value is later than the longest lease (86400 s) and below 2^63; `LeaseRuns.TickAgreesExactly` gives the exact condition without either bound.
- I2cAddressSelection.Resolve: the bus probe is a function, a presence snapshot that answers the same address the same way.
- Startup.Manager.Tick: modules, the scheduler and the configuration are parameters of a tick; task handles, `removeTaskEntry`, logging and the preparation phase before the first tick are not modelled.
- NotificationPipeline.NoLostNotification: critical sections and the queue primitives are atomic steps; a post with a null payload of non-zero length is not modelled.
- EventBus.Bus.Dispatch: in the class a callback is recorded, not run, so callbacks that post or mark during dispatch appear only as interleaved steps of the pipeline model; profiling, window statistics, the subscription reject ring and posts from interrupts are not modelled.
- DataStore.Store.FlushPendingChanges: the expiry of stored values before the drain is part of the value registry, which is not part of this model.
- ConfigStore.Store.ApplyJson: starts from the parsed patch and a fixed table of registered variables; JSON syntax, document capacity, `atof` (a parameter), rounding of `float` and the serialisation of the configuration are not modelled, and texts carry no null character.
- ConfigStore.Store.Set: the overload for texts is not modelled, because after a failed write it reloads the variable with a call whose effect on an absent key is decided by the Preferences library.
- ConfigRuns.RunTracks: Preferences are attached and persistent variables have distinct keys; validators see the configuration through `contains` and `read` with buffers of the variables' own sizes; erasing keys and raw runtime blobs are not modelled.
- HmiUdpProtocol.AdjacentChangeIsCaught: the pair of bytes at offsets 12 and 13, adjacent in the packet but far apart in the order the CRC reads, has its own if-and-only-if in `HmiUdpProtocol.SpanningChangeExactly`.
- HmiUdpProtocol.BuildPacket: null buffers and payloads, and the typed payload structures, are not modelled.
- PulseRuntime.RunConserves: the rate estimate is not modelled, the checkpoint write is one step, and one counter is followed at a time; the request and receipt handshake around a reset belongs to the input module, which is not part of this model.
- RuntimeUi.Writer.Write: the typed calls are one method over a variant, floating-point values are their bit patterns, and a text is already cut to 255 characters.
- RuntimeUiService.ReadValues: a provider is a function from the value id to the records it writes; null buffers and null id lists are not modelled.
- Web pages, build scripts, generated tables, board descriptors, wire and update drivers and the Nextion upload are outside the scope.
