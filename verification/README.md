# Models of the BMC daemons

This project models eight pieces of the OpenBMC tree whose correctness spans a
loop or a whole run, and proves what they are for. `dafny verify dfyconfig.toml`
checks all of it.

| piece | files | what is shown |
|---|---|---|
| platform tree mirror | `ObjectPaths`, `MirrorProtocol`, `PlatformProtocol`, `FruServiceTree`, `PlatformTree` | under every interleaving of the hot-plug sweep and the D-Bus loop the remote trees follow the availability flags; the sequential code does what its steps claim |
| fan expressions | `FscExpr`, `FscLexer`, `FscEval`, `FscControl` | source text and trees correspond; the collected names decide the value; tables and PID keep to their band |
| fan zones | `FanZone`, `FanDaemon` | a zone is bounded and fail-safe, the ramp converges |
| fan speed table | `FanRpm` | the integer interpolation is monotone and exact |
| IPMB | `IpmbPacket`, `IpmbSequence` | when the repair restores a packet and when its length wraps; numbers and buffers are never mixed up |
| debug-card frame | `Rings`, `FrameText`, `FramePages`, `FrameBuffer`, `FrameRuns` | wrapping is exact and lossless, the ring is a bounded double-ended sequence, pages partition it and fit their buffer |
| SEL | `Rings`, `Sel` | the log is the last 128 entries since the last erase, in memory and on file |
| queues, logs, thresholds | `AddSelQueue`, `LogStamper`, `Thresholds` | FIFO and memory safety, chunk-insensitive stamping, one poll is one hysteresis rule |

## How the pieces are modelled

**Mirror.** A FRU is a path, a tree a set of paths closed under parents. The
program's two threads run as interleaved atomic actions with program counters
and the two service locks (`PlatformProtocol`); each action is shown to be a step
of a small protocol over one service's view (`MirrorProtocol`), where the
invariant lives: whatever the remote tree has too much or too little of is owed
by a handler some thread has still to run or is running. Remote adds may be lost
(`Lossless` is false); then only the safe half is claimed. `PlatformTree` and
`FruServiceTree` are the same code as classes with loops and recursion, run by
one thread, and carry the claims about the sweep.

**Fan expressions.** The grammar has one left-associative level for all four
operators and a binding that reaches as far right as it can. A tree is
`Canonical` if the grammar yields it. Evaluation works on nodes whose operators
carry their state; it returns the value, or that it raised, and the new nodes.

**Fan zones.** A zone sees per cycle the readings, the board's validity answers
and the time step. Speeds are exact reals.

**Frame.** Each laid out character carries a tag for what it is (indent, text,
escape, padding, delimiter); the statements about lines are about the tags, the
buffer holds the characters alone.

**IPMB.** Bytes are numbers below 256 with checksums modulo 256. The sequence
table is a class over an array; a run interleaves allocation, arriving responses
and release, with the callers' buffers and the arrival history as part of the
state.

**SEL.** One node's header, cache and file. Each store can fail; the file's own
header decides what a restart reads.

**Add-SEL queue.** Addresses of an explicit heap that can be freed and handed out
again; touching a dead address sets a fault flag that is shown never to be set.

**Thresholds.** A poll consumes readings; each check may ask for more of them.

Where the code does less than its comments or names suggest, a lemma gives an input
and another the exact condition:

- a name bound to the right of its last free use drops out of the collected set
  (`FscEval.ClashLosesName`, `FscEval.CollectedIsFreeIff`);
- a lost first byte is not always restored, and at a length of 255 the repair wraps
  the 8-bit length (`IpmbPacket.WrappedLengthLosesPacket`,
  `IpmbPacket.LostByteIsRestoredIff`, `IpmbPacket.ReceivesAsIntendedIff`);
- a frame that is both appended to and inserted into can have lines wider than the
  line width, and a page of more than 16+7*16 characters
  (`FrameRuns.MixedRunOverflows`, `FrameRuns.AppendKeepsNarrowIff`);
- the record ID an add returns does not read the entry back (`Sel.AddedId`), and
  reading on from the first record works if and only if the log begins at slot 0
  (`Sel.FirstContinuesIff`, `Sel.WalkReadsAllIff`);
- a record of type 0xFB can differ between memory and file
  (`Sel.UnifiedRecordDiffers`, `Sel.FileAgreesIff`);
- the counter logged as cycles counts zone passes
  (`FanDaemon.CounterCountsZonePasses`);
- a failed drive raises where the expression has no value while another sensor asks
  for a speed (`FanZone.FailedDriveWithoutValueRaises`, `FanZone.RaisedIff`).

## Model

| member | source | states |
|---|---|---|
| MirrorProtocol.NextKeeps | common/recipes-core/platform-svc/files/PlatformObjectTree.cpp:157-419 | every step of either thread, or of the service going up or down, keeps: the remote tree is ancestor-closed, what it has too much is owed a removal; and, if no add is lost, what it lacks is owed an add |
| MirrorProtocol.DisagreementIsPending | common/recipes-core/platform-svc/files/PlatformObjectTree.cpp:376-401 | in any state with the invariant, a FRU on which tree and flags differ has a handler pending on itself or an ancestor, and in the right direction: a due removal of something at or above what is there too much, a due add of, or a running push still to reach, something at or above what is missing |
| MirrorProtocol.ExcessIsPending | common/recipes-core/platform-svc/files/PlatformObjectTree.cpp:389-400 | even with lost adds, a FRU that should be gone lies under a pending removal |
| PlatformProtocol.ActionIsStep | common/recipes-core/platform-svc/files/PlatformObjectTree.cpp:157-401 | every atomic action of the two-lock, two-thread program is a step of the protocol, for each of the two services |
| PlatformProtocol.RunKeepsInv | common/recipes-core/platform-svc/files/PlatformObjectTree.h:54-57 | locks and views keep their invariants over every run and interleaving |
| PlatformProtocol.MirrorFollowsFlags | common/recipes-core/platform-svc/files/PlatformObjectTree.cpp:157-401 | in every state reached without a lost add, with the service up, any FRU on which the remote tree differs from "this FRU and all FRU ancestors available" has a handler pending on itself or an ancestor, of the right direction: a due removal at or above what is there too much, a due add at or above what is missing, or a running push that has still to reach such a FRU |
| PlatformProtocol.MirrorIsExactAtRest | common/recipes-core/platform-svc/files/PlatformObjectTree.cpp:305-401 | when both threads are idle the remote tree is exactly the set of FRUs available with all their ancestors |
| PlatformProtocol.MirrorIsSafe | common/recipes-core/platform-svc/files/PlatformObjectTree.cpp:259-303 | with lost adds too, the remote tree stays ancestor-closed, within the known FRUs, and any excess is owed a removal |
| PlatformProtocol.NeverStuck | common/recipes-core/platform-svc/files/PlatformObjectTree.cpp:376-401 | the two locks cannot deadlock the two threads: none holds both, and in every reachable state a thread in a handler can go on, or waits for a lock whose holder can |
| FruServiceTree.RemoteService.AddFRU | common/recipes-core/fru-svc/files/DBusFruServiceInterface.cpp:67-92 | added exactly if the parent is there and the FRU is not; refused otherwise without change |
| FruServiceTree.RemoteService.DeleteObjectByPath | common/recipes-qin/object-tree/files/src/ObjectTree.cpp:71-91 | removes one object without children, anything else is refused unchanged |
| FruServiceTree.RemoteService.DeleteSubtree | common/recipes-core/fru-svc/files/DBusFruServiceInterface.cpp:97-104 | the recursion over child maps removes exactly the subtree, children before parents |
| FruServiceTree.RemoteService.ResetTree | common/recipes-core/fru-svc/files/DBusFruServiceInterface.cpp:106-118 | nothing is left |
| FruServiceTree.RemoteService.RemoveFRU | common/recipes-core/fru-svc/files/DBusFruServiceInterface.cpp:120-142 | removes the subtree of a FRU that is there and reports whether it was |
| PlatformTree.PlatformObjectTree.CheckIfParentFruAvailable | common/recipes-core/platform-svc/files/PlatformObjectTree.cpp:403-419 | true exactly if all FRU ancestors are available |
| PlatformTree.PlatformObjectTree.AddToService | common/recipes-core/platform-svc/files/PlatformObjectTree.cpp:259-289 | the recursive push adds exactly the available chain below an accepted FRU, nothing if refused or the service is down |
| PlatformTree.PlatformObjectTree.ChangeInFruAvailabilityHandler | common/recipes-core/platform-svc/files/PlatformObjectTree.cpp:376-401 | one toggled flag is pushed so that both services are in step again |
| PlatformTree.PlatformObjectTree.SetFruAvailable | common/recipes-core/platform-svc/files/PlatformObjectTree.cpp:305-329 | only an externally detected FRU is written, and both services stay in step |
| PlatformTree.PlatformObjectTree.SetServiceAvailable | common/recipes-core/platform-svc/files/PlatformObjectTree.cpp:157-185 | a service that comes up is reset and refilled to be in step |
| PlatformTree.PlatformObjectTree.CheckHotPlugSupportedFrusRec | common/recipes-core/platform-svc/files/PlatformObjectTree.cpp:352-374 | below an available top every internal FRU reached carries its reading, no other flag changes, the services are in step, and no remote call is made if no flag changed |
| PlatformTree.PlatformObjectTree.CheckHotPlugSupportedFrus | common/recipes-core/platform-svc/files/PlatformObjectTree.cpp:352-401 | a whole sweep ends with every internal FRU under available ancestors carrying its reading; a second sweep over the same readings changes nothing and makes no remote call |
| PlatformTree.PlatformObjectTree.DetectAvailability | common/recipes-core/platform-svc/files/FRU.h:113-120 | an internal FRU takes its reading, any other keeps its flag |
| FscExpr.ParsePrintIff | common/recipes-core/fscd3/fscd/fsc_parser.py:44-110 | parsing the printed tokens of a tree gives the tree back if and only if it is one the grammar yields |
| FscExpr.PrintParse | common/recipes-core/fscd3/fscd/fsc_parser.py:44-110 | whatever is accepted prints back to the same tokens, and is a tree the grammar yields |
| FscExpr.GrammarIsAccepted | common/recipes-core/fscd3/fscd/fsc_parser.py:44-110 | every derivation of the ambiguous grammar is accepted and read as the tree the precedence declaration resolves it to |
| FscExpr.OperatorsGroupLeft | common/recipes-core/fscd3/fscd/fsc_parser.py:42-44 | of any two operators in a row the left one is read first, a sum in front of a product included |
| FscExpr.BindingReachesRight | common/recipes-core/fscd3/fscd/fsc_parser.py:54-60 | a binding takes the operators behind it into its inner expression |
| FscLexer.SourceRoundTrip | common/recipes-core/fscd3/fscd/fsc_expr.py:19-113 | the same round trip through source characters, for all valid names |
| FscLexer.OperatorCharacters | common/recipes-core/fscd3/fscd/fsc_parser.py:25-28 | which character is which operator |
| FscLexer.BracketCharacters | common/recipes-core/fscd3/fscd/fsc_parser.py:29-33 | brackets and comma |
| FscLexer.BindingCharacters | common/recipes-core/fscd3/fscd/fsc_parser.py:34-35 | equal sign and semicolon |
| FscLexer.WordsAreNames | common/recipes-core/fscd3/fscd/fsc_parser.py:19 | the longest run of letters, digits, underscores and colons behind a letter or underscore is one name |
| FscLexer.DigitsAreNumbers | common/recipes-core/fscd3/fscd/fsc_parser.py:21-23 | so is the longest run of digits one number |
| FscLexer.NumbersAreDecimal | common/recipes-core/fscd3/fscd/fsc_parser.py:21-23 | digits are read and written in base ten |
| FscLexer.OthersAreSkipped | common/recipes-core/fscd3/fscd/fsc_parser.py:37-41 | blanks, and what no rule matches, are skipped |
| FscEval.Compile | common/recipes-core/fscd3/fscd/fsc_expr.py:116-199 | the nodes built stand for exactly the parsed expression |
| FscEval.CompileCall | common/recipes-core/fscd3/fscd/fsc_expr.py:138-156 | hold starts with nothing held, max and profiles are taken by name, any other name is refused |
| FscEval.CollectedIs | common/recipes-core/fscd3/fscd/fsc_expr.py:159-170 | the add-and-remove traversal ends with exactly the names that occur, less those whose last occurrence is a binding |
| FscEval.CollectedIsFreeIff | common/recipes-core/fscd3/fscd/fsc_expr.py:195-199 | nothing but free names is collected, and all of them if and only if no free name occurs for the last time as the name of a binding |
| FscEval.CollectedIsFree | common/recipes-core/fscd3/fscd/fsc_expr.py:195-199 | in particular all of them if no name is both free and bound |
| FscEval.ClashLosesName | common/recipes-core/fscd3/fscd/fsc_expr.py:164-170 | an expression whose value depends on a name that is not collected |
| FscEval.EvalDependsOnFree | common/recipes-core/fscd3/fscd/fsc_expr.py:10-101 | contexts that agree on the free names and dt give equal values and equal new operator states |
| FscEval.CollectedNamesDecide | common/recipes-core/fscd3/fscd/fsc_expr.py:195-199 | under that exact condition the collected names and dt decide the value, in this run and the next |
| FscEval.EvalKeepsShape | common/recipes-core/fscd3/fscd/fsc_expr.py:206-242 | evaluation changes operator states alone |
| FscEval.EvalArithmetic | common/recipes-core/fscd3/fscd/fsc_expr.py:245-298 | operands that evaluate to a and b give a+b, a-b, a*b, and a/b or, for b = 0, a |
| FscEval.EvalOperands | common/recipes-core/fscd3/fscd/fsc_expr.py:245-298 | for any outcomes of the operands: which is missing or raises, when lists add up, and when an operator raises |
| FscEval.EvalNames | common/recipes-core/fscd3/fscd/fsc_expr.py:40-85 | a name gives what the context holds, or nothing; a constant itself; a binding its inner expression with the name set |
| FscEval.EvalMembers | common/recipes-core/fscd3/fscd/fsc_expr.py:23-28 | a list gives the values of its members in order, and raises exactly if one does |
| FscEval.EvalMax | common/recipes-core/fscd3/fscd/fsc_expr.py:222-231 | max gives the largest non-zero number of its list, nothing exactly if there is none, and raises on what is no list and on numbers and lists mixed |
| FscEval.ListsCompare | common/recipes-core/fscd3/fscd/fsc_expr.py:229-229 | between lists the first members that differ decide, or else the length |
| FscEval.HoldGivesLastKnown | common/recipes-core/fscd3/fscd/fsc_expr.py:206-219 | over any run of evaluations hold gives the last value its operand had, or nothing if it never had one |
| FscEval.TableProfileRuns | common/recipes-core/fscd3/fscd/fsc_expr.py:234-242 | over any run a table profile gives the output of the table run over the numbers its operand gave, and nothing where it gave nothing |
| FscEval.PidProfileRuns | common/recipes-core/fscd3/fscd/fsc_expr.py:234-242 | likewise a PID profile, with the time steps of those evaluations, raising where the PID does |
| FscEval.MaxApply | common/recipes-core/fscd3/fscd/fsc_expr.py:222-231 | the loop computes the fold over the values, and raises on what cannot be iterated |
| FscEval.MaxIsLargest | common/recipes-core/fscd3/fscd/fsc_expr.py:222-231 | over numbers and missing values, max is the largest non-zero one, and missing only if all are missing or zero |
| FscControl.TTable.Run | common/recipes-core/fscd3/fscd/fsc_control.py:61-81 | one run is one step of the table's state |
| FscControl.Sorted | common/recipes-core/fscd3/fscd/fsc_control.py:52-55 | the same rows, by falling threshold |
| FscControl.SortedIsStable | common/recipes-core/fscd3/fscd/fsc_control.py:52-55 | rows of one threshold keep their order, so the first of them is looked up |
| FscControl.TableStaysInBand | common/recipes-core/fscd3/fscd/fsc_control.py:61-81 | over any run the output is the lookup of a remembered value within the hysteresis band of the current one |
| FscControl.NoOutputIff | common/recipes-core/fscd3/fscd/fsc_control.py:56-70 | there is no output exactly as long as every value stayed in the band around 0 |
| FscControl.ZeroHysteresisIsLookup | common/recipes-core/fscd3/fscd/fsc_control.py:61-81 | without hysteresis the output is the stateless lookup |
| FscControl.LookupIsHighestReached | common/recipes-core/fscd3/fscd/fsc_control.py:72-81 | the lookup is the output of the highest threshold reached, or of the lowest if none is, and 0 without rows |
| FscControl.TableGoesOn | common/recipes-core/fscd3/fscd/fsc_control.py:61-81 | how any run goes on with a value v: if v is up to the positive hysteresis above the remembered value, or up to the negative one below, value and output stay; otherwise v is remembered and looked up |
| FscControl.TableHoldsOutput | common/recipes-core/fscd3/fscd/fsc_control.py:64-70 | values within the hysteresis of a remembered one never change the output |
| FscControl.TableOutputBetween | common/recipes-core/fscd3/fscd/fsc_control.py:61-81 | for outputs that rise with the threshold, the output lies between the lookups at the ends of the band |
| FscControl.PID.Run | common/recipes-core/fscd3/fscd/fsc_control.py:32-47 | one run is one step, raising for a zero time step above the band |
| FscControl.PidOutputIff | common/recipes-core/fscd3/fscd/fsc_control.py:32-47 | there is an output exactly if some sample exceeded the band since the last one below it, and the integral covers the samples since then |
| FscControl.PidOutputAbove | common/recipes-core/fscd3/fscd/fsc_control.py:38-45 | after any run a sample above the band gives kp times the error, plus ki times the accumulated error, plus kd times its change since the last sample above the band over the time step |
| FscControl.PidOutputElsewhere | common/recipes-core/fscd3/fscd/fsc_control.py:34-47 | below the band there is no output, within it the one there was |
| FscControl.PidRaisesIff | common/recipes-core/fscd3/fscd/fsc_control.py:41-41 | it raises exactly for a sample above the band with time step 0 |
| FanZone.Zone.Run | common/recipes-core/fscd3/fscd/fsc_zone.py:112-245 | the loop, the evaluation and the settling compute the cycle function, also where they raise part way |
| FanZone.Zone.ScanSensors | common/recipes-core/fscd3/fscd/fsc_zone.py:121-183 | the loop visits every sensor once and stops at an unknown board with the earlier ones updated |
| FanZone.Zone.Visit | common/recipes-core/fscd3/fscd/fsc_zone.py:121-183 | one sensor's branch: what is remembered of it, and its value, least speed or failed drive |
| FanZone.Zone.Settle | common/recipes-core/fscd3/fscd/fsc_zone.py:193-245 | fallback, drive offsets, least speed and clamp in the code's order |
| FanZone.OutminIsLargestAsk | common/recipes-core/fscd3/fscd/fsc_zone.py:145-168 | the least speed is the largest one any considered sensor asks for, or 0 |
| FanZone.AskIs | common/recipes-core/fscd3/fscd/fsc_zone.py:144-164 | what a reading asks for: the transitional speed if critical; the boost speed if unavailable, checked and no drive that is only counted; nothing otherwise |
| FanZone.NothingAskedUnseen | common/recipes-core/fscd3/fscd/fsc_zone.py:130-181 | a sensor that is skipped, missing or on an unknown board asks for nothing |
| FanZone.LookIs | common/recipes-core/fscd3/fscd/fsc_zone.py:122-137 | how a sensor is seen: skipped if its answer or the one before is 0, then an unknown board, its reading, or missing |
| FanZone.SlotNameIff | common/recipes-core/fscd3/fscd/fsc_zone.py:155-155 | which names the slot expression matches: those with `_C`, 2 to 4, `_`, 0 to 3, `_NVME_` behind some and in front of some character |
| FanZone.SsdLikeIff | common/recipes-core/fscd3/fscd/fsc_zone.py:155-160 | the drives that are only counted: not in such a slot, and named SSD or nvme |
| FanZone.FailedSsdIsCount | common/recipes-core/fscd3/fscd/fsc_zone.py:154-160 | the counter is the number of considered failed drives |
| FanZone.ContextShowsVisible | common/recipes-core/fscd3/fscd/fsc_zone.py:113-181 | the context holds dt and, per name, the value of a considered sensor that is there, else nothing |
| FanZone.ZoneValueIsOfReadings | common/recipes-core/fscd3/fscd/fsc_zone.py:113-190 | for a compiled expression any context with those values gives the same value: nothing else the scan did reaches it |
| FanZone.ScanStepsCommute | common/recipes-core/fscd3/fscd/fsc_zone.py:121-183 | two sensors can be visited in either order (the names come as a set) |
| FanZone.ResultIsPercentage | common/recipes-core/fscd3/fscd/fsc_zone.py:236-245 | every result lies in [0,100] |
| FanZone.FailSafe | common/recipes-core/fscd3/fscd/fsc_zone.py:145-168 | at least min(100, transitional) with a critical sensor, at least min(100, boost) with a failed one or with more failed drives than any offset covers |
| FanZone.HealthyResult | common/recipes-core/fscd3/fscd/fsc_zone.py:185-245 | otherwise the result is the expression's value clamped, or the transitional speed exactly when that is missing or zero |
| FanZone.FinishIs | common/recipes-core/fscd3/fscd/fsc_zone.py:193-245 | the result in numbers where no offset applies: the value, or the transitional speed if it is 0 and nothing is asked for; at least what is asked for, and the boost speed if no offset covers the failed drives; within 0 to 100 |
| FanZone.FinishAdds | common/recipes-core/fscd3/fscd/fsc_zone.py:211-219 | where some offset covers the failed drives, the first that does is added to that |
| FanZone.RaisedIff | common/recipes-core/fscd3/fscd/fsc_zone.py:136-239 | a cycle raises if and only if a considered sensor's board is unknown, the expression raises, its value is a non-empty list, or its value is nothing or an empty list while some sensor asks for a speed and an offset for the failed drives is to be added |
| FanZone.FailedDriveWithoutValueRaises | common/recipes-core/fscd3/fscd/fsc_zone.py:208-219 | an input of the last kind: a missing sensor, a failed drive and a critical sensor |
| FanZone.MissingReportedIff | common/recipes-core/fscd3/fscd/fsc_zone.py:128-181 | over a sensor's cycles it is reported missing exactly if it was missing three times in a row and not seen since |
| FanZone.RetryCountsMisses | common/recipes-core/fscd3/fscd/fsc_zone.py:174-178 | over a sensor's cycles the retry counter tells whether the last one or two missed it |
| FanZone.ZoneKeepsSlotRuns | common/recipes-core/fscd3/fscd/fsc_zone.py:121-183 | over any run of a zone's cycles whose scans pass, what it remembers of each sensor is what that sensor's own cycles leave, which MissingReportedIff, RetryCountsMisses and SkippedIff speak of |
| FanZone.ZoneReportsMissingIff | common/recipes-core/fscd3/fscd/fsc_zone.py:128-181 | so over such a run the zone reports a sensor missing if and only if it was missing three times in a row and not seen since |
| FanZone.SkippedIff | common/recipes-core/fscd3/fscd/fsc_zone.py:128-133 | a checked sensor is skipped exactly if this or the last answer was 0, hence in the first cycle |
| FanDaemon.Daemon.UpdateZones | common/recipes-core/fscd3/fscd/fscd.py:309-416 | each zone in order takes its pass; an exception leaves the later ones untouched |
| FanDaemon.Daemon.UpdateZone | common/recipes-core/fscd3/fscd/fscd.py:328-404 | one zone's pass: its result or the tray's boost, the override, the ramp, and whether the host action is due |
| FanDaemon.Daemon.HandleDeadFans | common/recipes-core/fscd3/fscd/fscd.py:345-397 | progressive or full boost, and the counter of all fans dead |
| FanDaemon.DeadFansBoost | common/recipes-core/fscd3/fscd/fscd.py:345-379 | without dead fans nothing changes; with some the boost speed replaces the result, unless the setting is progressive and an entry covers their number |
| FanDaemon.DeadFansAdd | common/recipes-core/fscd3/fscd/fscd.py:353-355 | then the first such entry adds its rate per dead fan, within 0 to 100 |
| FanDaemon.RampIs | common/recipes-core/fscd3/fscd/fscd.py:399-404 | a target within the ramp rate is taken, otherwise the speed goes the whole rate its way |
| FanDaemon.PassIs | common/recipes-core/fscd3/fscd/fscd.py:328-404 | a whole pass: with the tray out the zone is not run and the speed goes towards the overridden boost speed; a zone that raises keeps its speed; otherwise it goes towards the overridden result |
| FanDaemon.HostAskedIff | common/recipes-core/fscd3/fscd/fscd.py:382-397 | in any pass of any run the host action is asked for if and only if an action and a threshold are set and all fans have been dead for as many zone passes as the threshold, this one included |
| FanDaemon.CountsDeadFansIff | common/recipes-core/fscd3/fscd/fscd.py:345-383 | the settings under which dead cycles are counted: fan failure handling on, a boost section, and not progressive |
| FanDaemon.CounterCountsZonePasses | common/recipes-core/fscd3/fscd/fscd.py:382-397 | after any run the counter is the number of zones times the number of cycles all fans have been dead for, so that number exactly with one zone or while some fan works |
| FanDaemon.RampConverges | common/recipes-core/fscd3/fscd/fscd.py:399-404 | towards a constant target the distance shrinks by the ramp rate per cycle, to 0 |
| FanDaemon.RampArrivesIff | common/recipes-core/fscd3/fscd/fscd.py:399-404 | the target is reached after n cycles if and only if n times the ramp rate covers the distance |
| FanDaemon.RampReaches | common/recipes-core/fscd3/fscd/fscd.py:399-404 | targets that vary within bounds draw the output into the bounds at the ramp rate |
| FanDaemon.OutputFollowsTargets | common/recipes-core/fscd3/fscd/fscd.py:328-404 | over a run without exceptions the output is the ramp over the cycles' targets |
| FanDaemon.OutputReaches | common/recipes-core/fscd3/fscd/fscd.py:399-404 | the same bounds for whole cycles of a zone |
| FanDaemon.OutputStaysInRange | common/recipes-core/fscd3/fscd/fscd.py:328-404 | over any run, with exceptions too, the output stays in [0,100] and moves at most the ramp rate per cycle |
| FanDaemon.FailSafeLatency | common/recipes-core/fscd3/fscd/fscd.py:328-404 | with some sensor critical or down in each of n cycles the output has reached what it asks for, up to the boost speed, or has climbed n times the ramp rate, whatever fans are dead |
| FanRpm.FanRpmToPct | common/recipes-core/fan-ctrl/fan-ctrl/fand.cpp:672-703 | the scan and the two interpolations compute the reference function, for every speed |
| FanRpm.PctMonotone | common/recipes-core/fan-ctrl/fan-ctrl/fand.cpp:672-703 | a faster fan never reads a lower percentage |
| FanRpm.PctAtPoints | common/recipes-core/fan-ctrl/fan-ctrl/fand.cpp:672-703 | exact at every table point, never above the last percentage |
| FanRpm.PctNearExact | common/recipes-core/fan-ctrl/fan-ctrl/fand.cpp:672-703 | off by less than one from the rational interpolation, rounded down below the first point and up elsewhere |
| FanRpm.ProductsFit | common/recipes-core/fan-ctrl/fan-ctrl/fand.cpp:692-702 | no product exceeds the last speed times the last percentage |
| IpmbPacket.CalcCksum | common/recipes-core/ipmbd/files/ipmbd.c:123-133 | the byte that completes the sum to 0 modulo 256 |
| IpmbPacket.HandleReceived | common/recipes-core/ipmbd/files/ipmbd.c:563-604 | the in-place repair over the two buffers delivers exactly what the receiver function says, for every 8-bit length, the one that wraps included |
| IpmbPacket.ReceivesIntact | common/recipes-core/ipmbd/files/ipmbd.c:563-604 | fewer than 6 bytes are dropped; a packet whose first three bytes and whose other bytes add up to 0 modulo 256 passes as it is |
| IpmbPacket.ReceivesAsIntendedIff | common/recipes-core/ipmbd/files/ipmbd.c:568-604 | whatever lies in front of the buffer the receiver does what it is meant to, if and only if it need not put a byte in front of a packet of 255: the header passes as it is or with the first byte replaced, the first byte is the address already, or the header fails in any case |
| IpmbPacket.WrappedLengthLosesPacket | common/recipes-core/ipmbd/files/ipmbd.c:583-604 | at 255 received bytes: a correct packet without its first byte that is dropped, or for one value of the byte in front of the buffer passed on as an empty message |
| IpmbPacket.ChangedByteIsRestored | common/recipes-core/ipmbd/files/ipmbd.c:568-576 | a correctly framed packet with any first byte is delivered as it was sent |
| IpmbPacket.LostByteIsRestoredIff | common/recipes-core/ipmbd/files/ipmbd.c:577-604 | with the first byte lost the packet is restored if and only if the requester is neither the BMC nor the NetFn byte, the NetFn byte is not the BMC, and the whole is at most 255 bytes long; every other outcome is stated too |
| IpmbPacket.NeverDeliversWrong | common/recipes-core/ipmbd/files/ipmbd.c:563-604 | for a requester other than 0 a packet with its first byte changed or lost is delivered as sent or not at all, save for the empty message of the wrapped length |
| IpmbPacket.FrameRequest | common/recipes-core/ipmbd/files/ipmbd.c:657-673 | both checksums hold, the number survives the shift into seq_lun, all other bytes are kept |
| IpmbPacket.BuildResponse | common/recipes-core/ipmbd/files/ipmbd.c:404-447 | the transmit buffer byte by byte: responder and requester addresses, NetFn, command and number from the request, completion code and data from the IPMI stack, both checksums in their places; all other bytes are kept |
| IpmbPacket.ResponseReturns | common/recipes-core/ipmbd/files/ipmbd.c:410-438 | any response that answers a request byte by byte passes the receiver if its length fits 8 bits, is routed as a response for an odd NetFn, and carries the request's number back |
| IpmbSequence.SeqTable.SeqGetNew | common/recipes-core/ipmbd/files/ipmbd.c:173-209 | the wrapping search takes the first free number from curr_seq on |
| IpmbSequence.SeqTable.SeqPut | common/recipes-core/ipmbd/files/ipmbd.c:149-171 | a response is stored exactly if its number is waited for, into that caller's buffer and nowhere else |
| IpmbSequence.SeqTable.Release | common/recipes-core/ipmbd/files/ipmbd.c:696-703 | the number is freed, and the length returned |
| IpmbSequence.NumbersAreExclusive | common/recipes-core/ipmbd/files/ipmbd.c:149-209 | over every run no two outstanding calls share a number; in_use holds exactly if some call has it and exactly if p_buf is set |
| IpmbSequence.AllocationFailsIff | common/recipes-core/ipmbd/files/ipmbd.c:173-209 | an allocation fails exactly if all 64 numbers are taken by outstanding calls |
| IpmbSequence.ReturnedIsOwn | common/recipes-core/ipmbd/files/ipmbd.c:651-703 | a call returns the last response put under its number while it held it, or nothing |
| IpmbSequence.ReissueComesLast | common/recipes-core/ipmbd/files/ipmbd.c:181-204 | a number is issued again only after every other one was issued or seen busy since |
| FrameText.LayoutIsExact | common/recipes-core/ipmid/files/usb-dbg.c:264-325 | the output is lines of exactly the line width of characters outside escape sequences, each followed by one delimiter; indents fill the first places of each line with input, a line after the first begins with text, and padding stands at the end of the last line alone |
| FrameText.LayoutIsUnique | common/recipes-core/ipmid/files/usb-dbg.c:264-325 | that and losslessness pin the layout down: no other sequence of cells has both |
| FrameText.LayoutIsLossless | common/recipes-core/ipmid/files/usb-dbg.c:264-325 | removing delimiters, indents and padding returns the input, and escape characters are exactly those of the carried escape state |
| FrameText.ControlSequenceIsSkipped | common/recipes-core/ipmid/files/usb-dbg.c:242-325 | ESC, `[`, parameters outside 0x40 to 0x7E and a final byte inside take no room, and what follows is laid out as if it stood there alone |
| FrameText.ShortSequenceIsSkipped | common/recipes-core/ipmid/files/usb-dbg.c:250-253 | ESC and any other character are a sequence of two |
| FrameText.PlainTakesAPlace | common/recipes-core/ipmid/files/usb-dbg.c:264-325 | any other character outside a sequence takes a place, on the next line if this one is full |
| FrameText.UnfinishedSequences | common/recipes-core/ipmid/files/usb-dbg.c:242-261 | the state in which each unfinished sequence leaves off, for the next call to take up |
| FrameText.IndentsFirst | common/recipes-core/ipmid/files/usb-dbg.c:285-293 | in front of input a line is filled with blanks up to the indent |
| FrameText.LayoutCountsLines | common/recipes-core/ipmid/files/usb-dbg.c:264-325 | for input without delimiters the delimiters are the line ends, at least one, and the last character is one |
| FrameBuffer.Frame.Parse | common/recipes-core/ipmid/files/usb-dbg.c:264-325 | succeeds exactly if the indent is below the line width and the text with its terminator fits, and then holds that text |
| FrameBuffer.Frame.IsEscSeq | common/recipes-core/ipmid/files/usb-dbg.c:242-261 | the escape state by its numbers: ESC opens, `[` makes a control sequence, any other second character ends the sequence, a byte from 0x40 to 0x7E ends a control sequence; the result says whether the character belongs to one |
| FrameBuffer.Frame.Append | common/recipes-core/ipmid/files/usb-dbg.c:105-141 | with overwrite the last max_size-1 characters of old and new stay, without it the first; `lines` counts the stored delimiters also after a failed call; `pages` follows after a success |
| FrameBuffer.Frame.Insert | common/recipes-core/ipmid/files/usb-dbg.c:144-182 | mirrored: with overwrite the first max_size-1 characters of new and old stay |
| FrameBuffer.Frame.Reinit | common/recipes-core/ipmid/files/usb-dbg.c:74-84 | empty, one page |
| FrameBuffer.PageCountIs | common/recipes-core/ipmid/files/usb-dbg.c:134-138 | the page count is the least with room for every line, up to the limit |
| FrameBuffer.Frame.FullIff | common/recipes-core/ipmid/files/usb-dbg.c:230-239 | full exactly if max_size-1 characters are stored |
| FrameBuffer.Frame.GetPage | common/recipes-core/ipmid/files/usb-dbg.c:185-227 | header and the page's lines without delimiters, cut at the buffer's end; a page out of range changes nothing |
| FrameBuffer.HeaderText | common/recipes-core/ipmid/files/usb-dbg.c:201-201 | the header below 100 pages with a title of up to 10 characters: title, blanks up to the 11th place, page and pages in two digits around a slash |
| FrameBuffer.LongHeaderText | common/recipes-core/ipmid/files/usb-dbg.c:201-201 | a longer title moves the rest to the right, cut at 16 characters |
| FramePages.PagesPartitionIff | common/recipes-core/ipmid/files/usb-dbg.c:206-224 | the page bodies concatenate to the text without delimiters if and only if the text is empty or ends in a delimiter, or its number of delimiters is no multiple of 7 |
| FramePages.PageHoldsLines | common/recipes-core/ipmid/files/usb-dbg.c:206-224 | page k of a text is the text of its lines from the 7(k-1)-th on, seven of them |
| FramePages.LastPageHoldsRest | common/recipes-core/ipmid/files/usb-dbg.c:206-224 | the last page is the text of the lines left and what stands behind the last delimiter |
| FramePages.PagesForIs | common/recipes-core/ipmid/files/usb-dbg.c:134-135 | the page count is the least that gives every line a place |
| FramePages.BodyFits | common/recipes-core/ipmid/files/usb-dbg.c:214-224 | with lines within the line width a body has at most 7 lines of 16 characters |
| FramePages.WrappedIsNarrow | common/recipes-core/ipmid/files/usb-dbg.c:264-325 | wrapped text without escape sequences has such lines, and ends in a delimiter |
| FrameBuffer.PagesReadBackIff | common/recipes-core/ipmid/files/usb-dbg.c:134-227 | when pages are neither stale nor capped, all pages together return the stored text under that same condition |
| FrameRuns.Replay | common/recipes-core/ipmid/files/usb-dbg.c:74-182 | a frame driven by any run of appends and inserts of text without escapes holds the text the run says, and with overwrite its page count is current |
| FrameRuns.AppendsAreNarrow | common/recipes-core/ipmid/files/usb-dbg.c:105-141 | from an empty frame, appends of such text alone keep every line within the line width, and end in a delimiter unless one found no room |
| FrameRuns.InsertsAreNarrow | common/recipes-core/ipmid/files/usb-dbg.c:144-182 | so do inserts alone, though their last line may be cut |
| FrameRuns.PagesFit | common/recipes-core/ipmid/files/usb-dbg.c:185-227 | so a frame used in one of the two ways never has a page of more than 16+7*16 characters |
| FrameRuns.InsertKeepsNarrow | common/recipes-core/ipmid/files/usb-dbg.c:157-173 | an insert keeps the lines within the line width, whatever is stored |
| FrameRuns.AppendKeepsNarrowIff | common/recipes-core/ipmid/files/usb-dbg.c:117-132 | an append does if and only if the stored text is empty or ends in a delimiter, or the new text overwrites all of it, or, without overwrite, so little of it finds room that the cut line takes it |
| FrameRuns.MixedRunOverflows | common/recipes-core/ipmid/files/usb-dbg.c:105-227 | eight inserts and one append of a letter on a frame of 136 characters leave one page whose text alone takes 16+7*16 characters |
| Sel.CountIsLength | common/recipes-core/ipmid/files/sel.c:391-399 | the entry count is the length of the log |
| Sel.SelNode.AddEntry | common/recipes-core/ipmid/files/sel.c:502-551 | the log becomes its last 128 entries with the new one; the file likewise if both stores succeed, and still reads as the old log if either fails |
| Sel.StampedBytes | common/recipes-core/ipmid/files/sel.c:515-517 | in memory bytes 3 to 6 of a record of a type below 0xE0 are the time, all other bytes as given |
| Sel.FiledBytes | common/recipes-core/ipmid/files/sel.c:351-357 | in the file bytes 4 to 7 of a record of type 0xFB are the time of filing, all other bytes as in memory |
| Sel.SelNode.Erase | common/recipes-core/ipmid/files/sel.c:557-576 | a matching reservation empties the log, any other changes nothing |
| Sel.SelNode.ReserveId | common/recipes-core/ipmid/files/sel.c:415-423 | the next ID, in range, never the one before |
| Sel.SelNode.Reload | common/recipes-core/ipmid/files/sel.c:595-616 | a restart reads the file's log |
| Sel.SelNode.Read | common/recipes-core/ipmid/files/sel.c:428-487 | the two special IDs read the ends of the log, any other ID the log entry its slot holds, and exactly if it holds one; the next ID is the end mark or a slot other than the end |
| Sel.LogAdd | common/recipes-core/ipmid/files/sel.c:506-539 | a store at `end` is invisible until the header moves, and then appends, dropping the oldest only when full |
| Sel.DirectIdIff | common/recipes-core/ipmid/files/sel.c:441-473 | an ID other than the two special ones is accepted exactly if it is the slot of some log entry, counted from `begin` modulo 129, and reads that entry |
| Sel.SpecialIds | common/recipes-core/ipmid/files/sel.c:432-449 | first and last read the ends of the log, or fail when it is empty |
| Sel.WalkReadsAllIff | common/recipes-core/ipmid/files/sel.c:475-484 | following next IDs from 0x0000 reads every entry of a non-empty log once, in order, and ends at 0xFFFF, if and only if the log begins at slot 0, as it does before the first rollover |
| Sel.FirstContinuesIff | common/recipes-core/ipmid/files/sel.c:432-479 | reading the first of several records continues at the second exactly if the log begins at slot 0 |
| Sel.AddedId | common/recipes-core/ipmid/files/sel.c:523-523 | the ID returned by an add is refused by get; the one below it reads the entry |
| Sel.Replay | common/recipes-core/ipmid/files/sel.c:502-576 | after any sequence of adds and erases the log is the last 128 entries since the last erase, and the file's is the last 128 as they were stamped on the way to it |
| Sel.FileAgreesIff | common/recipes-core/ipmid/files/sel.c:351-357 | the two agree if and only if every entry that is left is of another type than 0xFB or came with the very stamp it gets |
| Sel.UnifiedRecordDiffers | common/recipes-core/ipmid/files/sel.c:520-531 | a record on which they differ |
| AddSelQueue.RunKeepsInv | common/recipes-core/kcsd/files/kcsd.c:105-264 | the pointer, lock and order invariants hold over every interleaving |
| AddSelQueue.QueueIsSafeAndFifo | common/recipes-core/kcsd/files/kcsd.c:105-264 | no dead address is touched; what was sent is a prefix of what arrived, and all of it when both threads rest and the list is empty |
| AddSelQueue.SentAreReceived | common/recipes-core/kcsd/files/kcsd.c:105-264 | told from the events alone, in every interleaving: what the IPMI stack got are the requests the host sent, in their order, each behind the byte 1, and all of them once both threads rest |
| AddSelQueue.TailIsLast | common/recipes-core/kcsd/files/kcsd.c:136-145 | whenever head is set the static tail pointer is reached from it and is the last node, but for the moment between linking and advancing, under the lock, when the last node is the one behind it |
| AddSelQueue.NothingLeaks | common/recipes-core/kcsd/files/kcsd.c:165-215 | every allocated node is in the list or in a thread's hands, and a node is freed only after its buffer |
| LogStamper.BufStore.WriteTimestamp | common/recipes-core/mTerm/files/mTerm_helper.c:173-188 | one stamp with the current number, which moves on |
| LogStamper.BufStore.WriteToBuffer | common/recipes-core/mTerm/files/mTerm_helper.c:230-289 | the newline-seeking loop is the character by character transducer, after rotation where that is due |
| LogStamper.FeedAppend | common/recipes-core/mTerm/files/mTerm_helper.c:270-287 | two chunks leave the same log, line number and flag as their concatenation |
| LogStamper.AnyChunking | common/recipes-core/mTerm/files/mTerm_helper.c:270-287 | so does any chunking |
| LogStamper.FeedAdds | common/recipes-core/mTerm/files/mTerm_helper.c:270-287 | what is appended does not depend on the log, and the number moves by the stamps in it |
| LogStamper.AddedIsStamped | common/recipes-core/mTerm/files/mTerm_helper.c:270-287 | each line begins with exactly one stamp, numbers are consecutive, and without stamps the raw data is left |
| LogStamper.StampedLogIsFaithful | common/recipes-core/mTerm/files/mTerm_helper.c:173-287 | all of that for a whole log under any chunking |
| Thresholds.Sensor.CheckThreshAssert | common/recipes-core/sensor-mon/files/sensord.c:285-386 | raises the level and its flagged milder ones exactly if it is flagged, not raised, not exempt, and every reading in its retries is beyond the limit |
| Thresholds.Sensor.CheckThreshDeassert | common/recipes-core/sensor-mon/files/sensord.c:181-277 | settles the level and the graver ones exactly if every reading is back inside by more than the hysteresis |
| Thresholds.Sensor.Monitor | common/recipes-core/sensor-mon/files/sensord.c:501-515 | the twelve checks in their order, none if the first reading fails |
| Thresholds.PollFollowsRule | common/recipes-core/sensor-mon/files/sensord.c:503-515 | under a steady reading an upper level is raised after a poll if and only if it is flagged and, in hundredths, the reading is at least the limit, or the level was raised and the reading is at least the limit less the negative hysteresis; a lower level likewise, with at most and the limit plus the positive hysteresis |
| Thresholds.FormatConvIs | common/recipes-lib/sdr/files/sdr.h:43-43 | the hundredth a value counts as: halves up from -0.005 on, and cut toward zero after the added half below |
| Thresholds.RaisedOnceIff | common/recipes-core/sensor-mon/files/sensord.c:285-386 | under any readings a check raises the levels of its side up to its own, as far as flagged, if and only if its level is flagged, not raised and not exempt, and the value and one more reading have reached the limit |
| Thresholds.SettledOnceIff | common/recipes-core/sensor-mon/files/sensord.c:181-277 | under any readings a check settles its level and the graver ones of its side if and only if its level is flagged and raised, and the value and three more readings are back inside by more than the hysteresis |
| Thresholds.PollOrder | common/recipes-core/sensor-mon/files/sensord.c:501-515 | a poll is the twelve checks in this order: raising from mildest to gravest, upper before lower, then settling from gravest to mildest |
| Thresholds.CascadeHolds | common/recipes-core/sensor-mon/files/sensord.c:285-386 | under any readings and any order of checks, a raised level keeps every flagged milder level raised |

## Left out

- The rest of the repository: ipmid command handling, healthd, fw-util, fruid tools, power-util, peci-util, ncsi, bios-util and log-util.
- Devices, files, sockets, D-Bus, GPIO, clocks and threads themselves: they appear as abstract steps, inputs, or not at all.
- PlatformProtocol.MirrorFollowsFlags: assumes no add is lost; a remove or reset that fails is not modelled.
- The shared `std::unique_lock` objects are taken as the mutual exclusion their comments intend; which thread's lock object reports ownership is not modelled.
- FruServiceTree.RemoteService.AddFRU: the base class throws on a duplicate and the call is refused without change; the exception's way through D-Bus is not modelled.
- The sensor service's sensors: `addSensors` and its failure are left out, the FRU part of the sensor service follows the same code as the FRU service.
- The sweep's place in its recursion is not part of PlatformProtocol: its thread may check any internal FRU at any time, which covers every order.
- FscExpr.ParsePrintIff: the parser generator's tables are not modelled, the grammar is written with its conflicts resolved; illegal characters are skipped by the lexer in the code and in FscLexer alike.
- FscEval.EvalDependsOnFree: operator state is passed along with the nodes, so one controller object per node as the constructors build them; numbers are exact reals, and what Python does beyond numbers (repeating a list by a number) counts as raised.
- `dbgeval` is left out: some of its nodes do not follow its own convention.
- FscControl.TTable.Run: values are exact reals, not floating point.
- FanZone.Zone.Run: the fan mode, the record files and the log messages, which no speed depends on; the regular expressions on sensor names take the dot to match any character; names are already split at the colon, as the daemon does when it starts.
- FanDaemon.Daemon.UpdateZones: the mode files, a `fan_dead_boost` section without the entries it needs, and the board's own actions.
- FanDaemon.FailSafeLatency: for configurations whose progressive rates are not negative, and cycles that do not raise (FanZone.RaisedIff says which do; the daemon does not continue after one).
- FanRpm.FanRpmToPct: integers are unbounded; ProductsFit bounds what the 32-bit arithmetic sees.
- IpmbPacket.HandleReceived: bus reads of 256 bytes and more, whose length i2c_slave_read already cuts to 8 bits; the byte in front of the buffer, which C leaves undefined, is a parameter.
- Constants from headers that are not part of this model follow from their use: the checksum constant is 0 modulo 256, the LUN takes 2 bits, request data begins at the fourth byte, and the address byte is a parameter.
- IpmbSequence.ReturnedIsOwn: waking up by the semaphore is not modelled; it can be left posted by an earlier owner, so a woken caller may find no response.
- FrameBuffer.Frame.GetPage: the page buffer has room for the header's 17 characters and terminator, as the code demands of its callers; allocation failure and changing the size of an initialised frame are left out.
- FrameRuns.PagesFit: for text without escape bytes, which take no room in a line but do on a page; for a frame used with appends alone or inserts alone, since mixed use breaks it.
- FrameBuffer.Frame.Parse: after a failed call the escape state is that of some prefix of the input.
- Sel.Replay: for stores that succeed; SelNode.AddEntry and SelNode.Erase state what a failed one leaves.
- Sel.SelNode.Reload: a file that cannot be read or is too short; creating the file beyond its first state; parsing entries for the platform.
- AddSelQueue.QueueIsSafeAndFifo: on an explicit heap rather than objects, which cannot be freed or reused; passing a request on is the send event, failed requests included; the replies to the host are left out.
- LogStamper.BufStore.WriteToBuffer: a stamp's time text is not modelled, only its number; the first number is arbitrary because the code never sets it; `unsigned long` does not wrap.
- Thresholds.PollFollowsRule: values are exact reals compared in hundredths; the platform's exemption is empty here (the checks model it); reinitialised thresholds and discrete sensors are left out.
