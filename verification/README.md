# A verified model of the SecVerilog front end

SecVerilog is Icarus Verilog 0.9.6 with an information-flow checker. Before it checks an assignment it
works out which facts about signal values hold at that point. This project models that predicate
analysis, and the parts of the compiler around it that carry hard properties: statement elaboration,
constant folding on four-state vectors, parameter evaluation, width discovery, part-select index
arithmetic, the elaboration work list, and the permanent string heap.

`dafny verify dfyconfig.toml` checks everything.

## Files

| file | what it models |
|---|---|
| `PForm.dfy` | expressions as the checker sees them, their printed names, `contains_expr`, their value |
| `DumpUnique.dfy` | a reader for printed names: equal names mean equal expressions |
| `Projection.dfy` | projection of a branch condition and of its negation onto the tracked names |
| `Statements.dfy` | how statements run, `mustmodify`, translation of ternary right-hand sides |
| `Analysis.dfy` | what the analysis knows after each statement and what it hands to the solver, and its soundness |
| `Absint.dfy` | the mutable set of hypotheses: invalidate, insert, merge by `set_intersection` |
| `Driver.dfy` | the recursive checker that drives the analysis, shown to stay within it |
| `StmtElab.dfy` | procedural statements to netlist processes, meaning preserved |
| `WorkList.dfy` | the pass-by-pass elaboration queue |
| `ParamEval.dfy` | memoised parameter evaluation with its `solving` flag |
| `Verinum.dfy` | powers of two, arithmetic modulo them, four-state vectors |
| `AddFold.dfy`, `ConcatFold.dfy`, `ShiftFold.dfy`, `EqFold.dfy`, `Clog2.dfy` | the constant folder |
| `Widths.dfy` | the two-pass width algorithm |
| `PartSelect.dfy` | the index normalisations of part selects and the reading of the bits |
| `StringHeap.dfy` | the bump allocator and its one-entry-per-bucket table |

## Reading the model

* A concrete state is the current values of the signals and the pending non-blocking writes. Operators
  and literals whose meaning the analysis does not look at are interpreted by a parameter (`Interp`,
  `Design`, `Sem`); every theorem holds for all interpretations.
* Methods follow the loops and the in-place updates of the source. Each is proved equal to a function,
  and the laws are proved of the function.
* Loops of the modelled programs are run with fuel that only iterations spend, so equality for every
  fuel gives equal final states and equal divergence.
* The bits of a vector are listed from the least significant one.

## Where the code does not do what it is for

Each of these is a theorem with the exact condition, or a concrete input.

* `Predicate::operator=` (`sectypes.cc:518-523`) fills a new object and returns it, so `pred = oldh` in the
  case statement changes nothing. Guard equations and other hypotheses of earlier items stay while later ones
  are checked, and at the end: `Analysis.GuardCarried`, `Analysis.CaseSoundExactly`,
  `Analysis.CaseSoundFromNothing`, `Analysis.CaseLeaksAssignments`. So over a tracked selector only an item with
  no guard before it is checked under hypotheses that can hold: `Analysis.RunCoveredExactly`,
  `Analysis.SecondItemUncovered`, `Driver.CaseRunChecked`.
* `merge` walks sets ordered by address with a comparator on names. What it yields is always common to both
  sides. All merges yield everything common exactly when the addresses follow the names and no two different
  hypotheses share a name: `Absint.MergeWalkWithinMeet`, `Absint.MergeCompleteExactly`, `Absint.MergeLoses`.
* Projection below a comparison can turn a true condition into a false hypothesis, and a false one into a
  false negated hypothesis: `Projection.DroppedBelowComparison`, `Projection.NegDroppedBelowComparison`.
* `contains_expr` does not look into ternaries: `PForm.TernaryEscapesContainsExpr`.
* The `solving` flag belongs to one reference node, so evaluation can recurse without end behind the entry being
  evaluated and even through it: `ParamEval.TerminatesExactly`, `ParamEval.EntryTerminatesExactly`,
  `ParamEval.EvalAllTerminatesExactly`, `ParamEval.CycleBehindEntryDiverges`, `ParamEval.SecondNodeDiverges`.
* A constant repeat count of 2^63 or more is cut to 63 bits: `StmtElab.CountKeptExactly`, `StmtElab.LostCountShows`.
* The folder keeps shift amounts in 32 bits, the parse-tree evaluator in 64:
  `ShiftFold.FolderExactly`, `ShiftFold.FolderDividesExactly`, `ShiftFold.EvaluatorsAgreeExactly`,
  `ShiftFold.WideAmountDiffers`. A negative number shifted left in a context wider than itself is read as
  unsigned: `ShiftFold.WiderContextExactly`.
* Constants narrower than their context fold at their own width, an unsigned difference without a width
  loses its borrow, and a negative constant beside an unsigned one is read as unsigned: `AddFold.NarrowFoldExactly`, `AddFold.UnsizedFoldExactly`.
* The parse-tree evaluator of concatenations ignores the repeat count: `ConcatFold.EvaluatorsAgreeExactly`.
* `==` on operands of different lengths gives x where a defined difference is known, and differs from `===`
  for a negative number against a longer unsigned one: `EqFold.EqEqExactly`, `EqFold.UndefinedHidesDifference`,
  `EqFold.CaseEqualityAgreesExactly`.
* `$clog2` trims a negative number without a length and raises the answer to 32: `Clog2.NegativeExactly`.
* A conditional's true branch is tested again with a larger minimum, so the order of the branches decides the
  width: `Widths.LateConditional`, `Widths.BranchOrderShows`.
* Net part selects are wrong for ascending ranges taken whole, and `-:` is wrong on one-bit ranges:
  `PartSelect.NetExactly`, `PartSelect.LvalExactly`.

## Model

| member | source | states |
|---|---|---|
| PForm.ContainsExprFrame | hwtiming/verilog-0.9.6/PExpr.cc:99-103 | an expression of identifiers, numbers, unary and binary nodes that does not contain a name keeps its value when that name is assigned |
| PForm.ContainsExactly | hwtiming/verilog-0.9.6/PExpr.cc:99-103 | of such expressions the test reports the leaves and nothing else |
| PForm.TernaryEscapesContainsExpr | hwtiming/verilog-0.9.6/PExpr.h:55 | a ternary inherits the default and hides its operands: its value changes though it reports not to contain the name |
| DumpUnique.ReadDump | hwtiming/verilog-0.9.6/pform_dump.cc:250-344 | a reader recovers every expression from its printed form and leaves the rest of the text |
| DumpUnique.DumpInjective | hwtiming/verilog-0.9.6/sectypes.h:489-496 | comparing printed names, as the hypothesis comparator does, identifies exactly the equal expressions |
| DumpUnique.EscapedNamesCollide | hwtiming/verilog-0.9.6/pform_dump.cc:250-344 | an identifier called `=` makes two different hypotheses print alike |
| DumpUnique.ReadableIsPlain | hwtiming/verilog-0.9.6/PExpr.h:55-59 | expressions whose printed form can be read back are of the kind `contains_expr` looks through |
| Projection.ToWellformed | hwtiming/verilog-0.9.6/PExpr.cc:121-136 | the projection is non-null exactly when `is_wellformed` holds, and never builds on a null operand |
| Projection.NegToWellformed | hwtiming/verilog-0.9.6/PExpr.cc:154-169 | the same for the projection used under a negation |
| Projection.ProjectionIdempotent | hwtiming/verilog-0.9.6/PExpr.cc:105-136 | projecting twice changes nothing more, and only tracked names remain outside unary nodes |
| Projection.ConjunctsKept | hwtiming/verilog-0.9.6/PExpr.cc:121-136 | the projection keeps every well-formed conjunct, projected and in order, and no other, and there is a projection exactly when some conjunct is well-formed |
| Projection.DisjunctsKept | hwtiming/verilog-0.9.6/PExpr.cc:154-169 | the same for the disjuncts of a condition under a negation |
| Projection.KeptExactly | hwtiming/verilog-0.9.6/PExpr.cc:105-169 | a condition is its own projection, and its own under a negation, exactly when it is made of names, numbers and negations joined by operators with a letter and all its names are tracked |
| Projection.NegationIsDual | hwtiming/verilog-0.9.6/PExpr.cc:138-169 | the projection for negations is the De Morgan dual of the other: swap && and \|\|, project, swap back |
| Projection.ProjectionReadable | hwtiming/verilog-0.9.6/PExpr.cc:121-169 | projections of readable conditions are readable |
| Projection.ProjectionWeakens | hwtiming/verilog-0.9.6/absinterp.cc:83-86 | a condition implies its projection when nothing is dropped inside a comparison |
| Projection.NegProjectionStrengthens | hwtiming/verilog-0.9.6/absinterp.cc:87-90 | the projection for negations implies the condition, so its negation follows from the failed condition |
| Projection.FlatKeepsComparisons | hwtiming/verilog-0.9.6/PExpr.cc:105-169 | no && (no \|\|) below a comparison is enough for the two laws above, whatever is tracked |
| Projection.DroppedBelowComparison | hwtiming/verilog-0.9.6/PExpr.cc:121-136 | an && below a comparison breaks the law: a state in which the condition holds and its projection does not |
| Projection.NegDroppedBelowComparison | hwtiming/verilog-0.9.6/PExpr.cc:154-169 | an \|\| below a comparison breaks the law for negations: the projection holds in a state in which the condition does not |
| Projection.BranchHypothesesDiffer | hwtiming/verilog-0.9.6/absinterp.cc:81-91 | the hypotheses added on the two branches are never the same expression |
| Projection.UnaryProjectionIsSmall | hwtiming/verilog-0.9.6/PExpr.cc:503-515 | when a condition projects to a unary node, that node is no larger than the projection for its negation |
| Statements.MustModifyExact | hwtiming/verilog-0.9.6/Statement.cc:203-213 | what `mustmodify` reports is tracked and assigned on every path; on statements without case, which inherits the empty default, it reports all such names |
| Statements.MustModifySeqExact | hwtiming/verilog-0.9.6/Statement.cc:129-135 | the same for a block, with the same reading of blocks that hold a case |
| Statements.ExecFollowsPath | hwtiming/verilog-0.9.6/Statement.cc:77-81 | every run assigns the targets of one syntactic path, in its order |
| Statements.RunsAssignReported | hwtiming/verilog-0.9.6/Statement.cc:203-213 | every run assigns every reported name |
| Statements.TranslateCorrect | hwtiming/verilog-0.9.6/PExpr.cc:458-481 | running the if/else made of a nested ternary is assigning the ternary: same state, same executed assignment |
| Statements.TranslateShape | hwtiming/verilog-0.9.6/PExpr.cc:458-481 | each of its paths assigns the target once and nothing else, no ternary stays at a root, and `mustmodify` reports the target if tracked |
| Analysis.MeetIsIntersection | hwtiming/verilog-0.9.6/absinterp.cc:96-101 | on readable hypotheses, meeting by printed name is intersection |
| Analysis.KillSound | hwtiming/verilog-0.9.6/absinterp.cc:31-42 | hypotheses that survive invalidation of a name hold after any assignment to it |
| Analysis.GenSound | hwtiming/verilog-0.9.6/absinterp.cc:52-60 | a generated equation holds after the assignment when the value fits and does not mention the target |
| Analysis.AssignmentLeaves | hwtiming/verilog-0.9.6/absinterp.cc:31-60 | after a blocking assignment known is what was known and does not mention the target, and the equation of target and right-hand side exactly when the target is tracked and the right-hand side is tracked or a number |
| Analysis.EquationKnown | hwtiming/verilog-0.9.6/typecheck.cc:674-697 | in a block that equation is known at the end, and in every question asked after the assignment, unless a later statement assigns what it mentions |
| Analysis.BranchSound | hwtiming/verilog-0.9.6/absinterp.cc:81-91 | the hypothesis added on a branch holds whenever that branch is taken |
| Analysis.ConditionKnown | hwtiming/verilog-0.9.6/absinterp.cc:81-91 | every question of the true branch assumes the projected condition, if there is one, and every question of the false branch the negation of the projection for negations, unless the branch assigns what they mention |
| Analysis.LeafConditionKnown | hwtiming/verilog-0.9.6/typecheck.cc:469-471 | the same for every leaf of a ternary right-hand side |
| Analysis.AfterReadable | hwtiming/verilog-0.9.6/absinterp.cc:52-101 | readable hypotheses stay readable through every statement |
| Analysis.QuietShrinks | hwtiming/verilog-0.9.6/typecheck.cc:776-841 | a statement that generates and leaks nothing never adds a hypothesis |
| Analysis.AnalysisSound | hwtiming/verilog-0.9.6/absinterp.cc:31-101 | from every state satisfying the incoming hypotheses, every run ends in a state satisfying the outgoing ones, and every assignment it executes was handed to the solver under hypotheses that then held |
| Analysis.BranchAnalysisSound | hwtiming/verilog-0.9.6/typecheck.cc:824-840 | the same for if/else with its snapshot, branch hypotheses and join |
| Analysis.SequenceSound | hwtiming/verilog-0.9.6/typecheck.cc:692-696 | the same for a block |
| Analysis.ItemsSound | hwtiming/verilog-0.9.6/typecheck.cc:747-770 | the same for case statements whose items leave no hypotheses behind |
| Analysis.ActivationCovered | hwtiming/verilog-0.9.6/typecheck.cc:358-366 | a process checked from no hypotheses covers every assignment of every activation |
| Analysis.TranslatedObligations | hwtiming/verilog-0.9.6/typecheck.cc:469-471 | checking a ternary assignment is checking its translation |
| Analysis.CaseKeepsGuards | hwtiming/verilog-0.9.6/typecheck.cc:755-769 | over a tracked selector the guard equations of every item are still there at the end, whatever the bodies do that does not assign what the equations mention |
| Analysis.GuardCarried | hwtiming/verilog-0.9.6/typecheck.cc:755-769 | a guard equation reaches the end of the case, and every question asked for its own item and all later ones carries it, unless one of those items assigns what it mentions |
| Analysis.CaseSoundExactly | hwtiming/verilog-0.9.6/typecheck.cc:755-769 | for items that generate no hypotheses over a selector and guards they do not assign: the case is analysed soundly from all states of the incoming hypotheses exactly when those already say that a tracked selector equals every guard of every item |
| Analysis.CaseSoundAt | hwtiming/verilog-0.9.6/typecheck.cc:755-769 | the same state by state: the final state satisfies what is left behind exactly when the state at entry satisfies all guard equations |
| Analysis.CaseSoundFromNothing | hwtiming/verilog-0.9.6/typecheck.cc:755-769 | at the start of a process, over a signal with literal guards: exactly when the signal is not tracked or no item has a guard |
| Analysis.CaseChecksUnderContradiction | hwtiming/verilog-0.9.6/typecheck.cc:755-769 | in a case of any items, an item at or behind a guard that does not equal a tracked selector executes nothing that was checked under hypotheses that held, as long as no item assigns what the guard equation mentions |
| Analysis.ItemCoveredExactly | hwtiming/verilog-0.9.6/typecheck.cc:755-769 | for a safe item behind items that generate nothing: if the state it starts in satisfies the guard equations of all items up to and including it, everything it executes was checked under hypotheses that held; otherwise nothing was |
| Analysis.RunCoveredExactly | hwtiming/verilog-0.9.6/typecheck.cc:755-769 | of the item that runs, everything executed was checked under hypotheses that held when the selector is not tracked, or no item before it has a guard and all its own guards equal the selector; otherwise nothing was |
| Analysis.SecondItemUncovered | hwtiming/verilog-0.9.6/typecheck.cc:755-769 | an example: `case (s) 0: ; 1: y = 1;` with s tracked and 1 executes its assignment, and no question about it was asked under hypotheses that held |
| Analysis.StatementCoveredExactly | hwtiming/verilog-0.9.6/typecheck.cc:626-841 | the converse of soundness for a statement that assigns nothing its incoming hypotheses mention: if one of them is false at entry, nothing it executes was checked under hypotheses that held |
| Analysis.CaseLeaksAssignments | hwtiming/verilog-0.9.6/sectypes.cc:518-523 | an assignment in an item that did not run leaves a hypothesis that fails afterwards |
| Absint.NameLessTotal | hwtiming/verilog-0.9.6/sectypes.h:489-496 | the order on names is total |
| Absint.MergeWalkWithinMeet | hwtiming/verilog-0.9.6/absinterp.cc:96-101 | in whatever order the sets are, the walk yields only hypotheses both sides have |
| Absint.MergeWalkComplete | hwtiming/verilog-0.9.6/absinterp.cc:96-101 | on sides whose names never go down it yields every common name, and every common hypothesis where names tell hypotheses apart |
| Absint.SortedList | hwtiming/verilog-0.9.6/absinterp.cc:96-101 | every set of hypotheses has an order in which names never go down, so that its merges lose nothing |
| Absint.MergeCompleteExactly | hwtiming/verilog-0.9.6/absinterp.cc:96-101 | for an address order of any hypotheses: all merges of sets of them yield every common name exactly when names never go down in that order, and every common hypothesis exactly when moreover no two different ones share a name |
| Absint.MergeLoses | hwtiming/verilog-0.9.6/absinterp.cc:96-101 | with b at the lower address, merging {b, a} with {a} yields nothing |
| Absint.MergeWalkFinds | hwtiming/verilog-0.9.6/absinterp.cc:96-101 | a name common to given positions of sorted sides, repeated names included, is found |
| Absint.Predicate.Assign | hwtiming/verilog-0.9.6/sectypes.cc:518-523 | the assignment operator returns a fresh copy and leaves the receiver as it was |
| Absint.Predicate.Insert | hwtiming/verilog-0.9.6/absinterp.cc:58 | insertion adds the one hypothesis, anywhere in the address order |
| Absint.Predicate.Invalidate | hwtiming/verilog-0.9.6/absinterp.cc:31-42 | erasing while iterating leaves exactly the hypotheses that do not mention the name |
| Absint.Predicate.Merge | hwtiming/verilog-0.9.6/absinterp.cc:96-101 | merging inserts exactly the output of the walk |
| Driver.ChecksWithinAnalysis | hwtiming/verilog-0.9.6/typecheck.cc:626-841 | whatever order the sets have, the checker keeps no more hypotheses and asks the solver no weaker questions than the analysis |
| Driver.AnalysisReached | hwtiming/verilog-0.9.6/typecheck.cc:626-841 | that bound is reached: at some addresses the checker keeps and asks all the analysis says |
| Driver.AssignmentKnownExactly | hwtiming/verilog-0.9.6/typecheck.cc:626-645 | the checker knows after a blocking assignment exactly the surviving hypotheses and the equation, which is there exactly when the target is tracked and the right-hand side is tracked or a number |
| Driver.ChecksExactly | hwtiming/verilog-0.9.6/typecheck.cc:626-771 | on statements without if nothing is merged and the checker keeps and asks exactly what the analysis says, leaks of case statements included |
| Driver.DriverSound | hwtiming/verilog-0.9.6/typecheck.cc:358-366 | every assignment executed by every activation of a checked process was checked under hypotheses that held |
| Driver.CaseRunChecked | hwtiming/verilog-0.9.6/typecheck.cc:727-771 | the same for the questions the checker really asks, whatever the addresses: under the condition of `Analysis.RunCoveredExactly` everything the item executes was checked under hypotheses that held; otherwise, where the items merge nothing, nothing was |
| Driver.ChecksTranslated | hwtiming/verilog-0.9.6/typecheck.cc:469-471 | checking the translation of a ternary stands for checking the assignment |
| Driver.Typecheck | hwtiming/verilog-0.9.6/typecheck.cc:626-841 | the recursive checker on the mutable set does what the relation allows |
| Driver.TypecheckBlocking | hwtiming/verilog-0.9.6/typecheck.cc:626-645 | blocking assignments: snapshot, update the set, check under the snapshot; what the update leaves is `Driver.AssignmentKnownExactly` |
| Driver.TypecheckNonblocking | hwtiming/verilog-0.9.6/typecheck.cc:650-669 | non-blocking assignments leave the set alone |
| Driver.TypecheckAssignment | hwtiming/verilog-0.9.6/typecheck.cc:419-472 | one question per assignment, or those of the translated ternary, for targets whose type does not depend on themselves |
| Driver.TypecheckBlock | hwtiming/verilog-0.9.6/typecheck.cc:674-697 | blocks thread the set from left to right |
| Driver.AbsintpCondit | hwtiming/verilog-0.9.6/absinterp.cc:81-91 | entering a branch adds the projected condition or the negated projection |
| Driver.TypecheckCondit | hwtiming/verilog-0.9.6/typecheck.cc:776-841 | if/else: branch, restore, branch, clear and merge |
| Driver.TypecheckCase | hwtiming/verilog-0.9.6/typecheck.cc:727-771 | case items are checked one after the other on the set the previous ones left |
| Driver.InsertGuards | hwtiming/verilog-0.9.6/typecheck.cc:755-761 | one equation per guard is inserted when the selector is tracked |
| Driver.FillMustModify | hwtiming/verilog-0.9.6/Statement.cc:77-213 | `mustmodify` adds exactly the reported names to the set it is given |
| Driver.FillMustModifyBlock | hwtiming/verilog-0.9.6/Statement.cc:129-135 | for a block, those of all its statements |
| Driver.FillMustModifyCondit | hwtiming/verilog-0.9.6/Statement.cc:203-213 | for if/else, those of both branches |
| StmtElab.ElabCorrect | hwtiming/verilog-0.9.6/elaborate.cc:2366-2590 | for every program, state and fuel the elaborated process has the result of the source program, when constant counts survive the cut to 63 bits |
| StmtElab.ElabTidy | hwtiming/verilog-0.9.6/elaborate.cc:2366-2590 | in elaborated processes no condition is a constant, no constant repeat count is below two, and no empty block stands in a block or as a branch, except before the step of a for; a single statement loses its unnamed block |
| StmtElab.SameOutcome | hwtiming/verilog-0.9.6/elaborate.cc:2366-2590 | source and elaborated program end in the same states, and diverge together |
| StmtElab.FuelEnough | hwtiming/verilog-0.9.6/elaborate.cc:2366-2590 | a result does not depend on the fuel once there is enough |
| StmtElab.ForCorrect | hwtiming/verilog-0.9.6/elaborate.cc:3576-3692 | a for loop is its initialisation followed by a while whose body ends with the step |
| StmtElab.WhileCorrect | hwtiming/verilog-0.9.6/elaborate.cc:3884-3890 | while loops iterate alike |
| StmtElab.RepeatCorrect | hwtiming/verilog-0.9.6/elaborate.cc:3760-3791 | constant counts of zero and one are simplified without changing the outcome |
| StmtElab.ConditCorrect | hwtiming/verilog-0.9.6/elaborate.cc:2504-2590 | constant conditions pick the branch the condition picks |
| StmtElab.BlockCorrect | hwtiming/verilog-0.9.6/elaborate.cc:2395-2428 | dropping empty statements and unwrapping blocks of one statement keep the outcome |
| StmtElab.ExpansionChooses | hwtiming/verilog-0.9.6/elaborate.cc:2433-2502 | one item per guard, in order, chooses the statement the source case chooses |
| StmtElab.ChosenCorrect | hwtiming/verilog-0.9.6/elaborate.cc:2433-2502 | running the chosen item has the source's outcome |
| StmtElab.ConditionKept | hwtiming/verilog-0.9.6/netmisc.cc:410-445 | the reduced condition is 1 exactly when the condition is true |
| StmtElab.ReduceIsTruth | hwtiming/verilog-0.9.6/elaborate.cc:2533-2549 | or-ing the bits decides truth, with x and z not true by themselves |
| StmtElab.CountKeptExactly | hwtiming/verilog-0.9.6/verinum.cc:420-467 | the 63-bit count agrees on zero and one exactly when the count is below 2^63 or its low 63 bits are at least 2 |
| StmtElab.LostCountShows | hwtiming/verilog-0.9.6/elaborate.cc:3777-3787 | for every other count there is a program that ends differently |
| StmtElab.Elaborate | hwtiming/verilog-0.9.6/elaborate.cc:2366-2590 | the elaborator computes the process that the theorems are about |
| StmtElab.ElaborateBlock | hwtiming/verilog-0.9.6/elaborate.cc:2395-2428 | appending the non-empty parts one by one gives the block |
| StmtElab.CountCases | hwtiming/verilog-0.9.6/elaborate.cc:2445-2456 | the first loop counts the slots the expansion needs |
| StmtElab.ElaborateItems | hwtiming/verilog-0.9.6/elaborate.cc:2461-2499 | the second loop fills them in order, duplicating bodies |
| StmtElab.SetCases | hwtiming/verilog-0.9.6/elaborate.cc:2481-2498 | one slot per guard from the running index on |
| StmtElab.ReduceAll | hwtiming/verilog-0.9.6/elaborate.cc:2533-2535 | the constant condition's bits are reduced in a loop |
| WorkList.PassDiscipline | hwtiming/verilog-0.9.6/elaborate.cc:4624-4653 | the run is a sequence of passes; pass d runs the scopes of depth d in order, then the later defparams the pass before queued, then its own top defparams, item by item |
| WorkList.CreatedRunsBetween | hwtiming/verilog-0.9.6/elaborate.cc:4624-4653 | the scopes a pass creates run right after its top defparams; the later defparams it queued run once, after those scopes and just before the next top defparams |
| WorkList.KidsAppend | hwtiming/verilog-0.9.6/elaborate.cc:4624-4653 | a level queues what its scopes queue, in the order of the scopes |
| WorkList.PassCount | hwtiming/verilog-0.9.6/elaborate.cc:4624-4653 | there are exactly as many passes as the spawn forest is deep |
| WorkList.LevelHeight | hwtiming/verilog-0.9.6/elaborate.cc:4624-4653 | each pass leaves one level less |
| WorkList.EveryScopeOnce | hwtiming/verilog-0.9.6/elaborate.cc:4643-4648 | every item runs exactly as often as it occurs in the spawn forest |
| WorkList.FirstPasses | hwtiming/verilog-0.9.6/elaborate.cc:4624-4653 | after d passes what is left is the schedule of level d |
| WorkList.PassEffect | hwtiming/verilog-0.9.6/elaborate.cc:4630-4652 | a pass runs its level in creation order and creates the next one |
| WorkList.Design.Transfer | hwtiming/verilog-0.9.6/elaborate.cc:4633-4637 | the queue moves to the temporary queue in order |
| WorkList.Design.RunQueue | hwtiming/verilog-0.9.6/elaborate.cc:4643-4648 | items run in order and what they create is queued for the next pass |
| WorkList.Design.Elaborate | hwtiming/verilog-0.9.6/elaborate.cc:4617-4653 | the loop ends, its log is the schedule, and items ran in the order they were created |
| ParamEval.EvalNameCorrect | hwtiming/verilog-0.9.6/eval_tree.cc:1277-1393 | evaluation of a reference returns its directly recursive value, and every entry it overwrites becomes the constant it denoted |
| ParamEval.NameRemembers | hwtiming/verilog-0.9.6/eval_tree.cc:1323-1347 | a reference evaluated to a value leaves that value in its entry, and whenever an entry has become a constant so has everything it refers to |
| ParamEval.EvaluatedOnce | hwtiming/verilog-0.9.6/eval_tree.cc:1277-1393 | after that, every name on any walk from the reference is a constant, and asking for it again returns the same without recursion and changes nothing |
| ParamEval.EvalCopyCorrect | hwtiming/verilog-0.9.6/eval_tree.cc:1323-1347 | a private copy evaluates to the directly recursive value of its expression, and writes the same way |
| ParamEval.CopyRemembers | hwtiming/verilog-0.9.6/eval_tree.cc:1323-1347 | whatever a private copy refers to that has a value is a constant afterwards, even if the copy has none |
| ParamEval.TerminatesExactly | hwtiming/verilog-0.9.6/eval_tree.cc:1277-1393 | evaluation terminates exactly when no cycle of unflagged references is reachable; one level per entry is then enough |
| ParamEval.InPlaceSettles | hwtiming/verilog-0.9.6/eval_tree.cc:1277-1393 | whatever the table: evaluating an entry's nodes in place, where it ends, writes only constants that entries denote, and a constant result is the direct value |
| ParamEval.InPlaceRemembers | hwtiming/verilog-0.9.6/netmisc.cc:465-484 | every reference that an evaluation in place replaced has left its entry evaluated |
| ParamEval.EvalEntryCorrect | hwtiming/verilog-0.9.6/net_design.cc:348-381 | whatever the table: an entry whose evaluation ends is the constant it denotes, or null because it denotes nothing, and so is every entry written on the way; it ends where no cycle is reachable from any of its nodes with that node's flag up |
| ParamEval.EntryRemembers | hwtiming/verilog-0.9.6/net_design.cc:348-381 | an entry that ends as a constant has left everything it referred to evaluated |
| ParamEval.EvalAllCorrect | hwtiming/verilog-0.9.6/net_design.cc:590-625 | the same for every listed entry of a scope, with no flag left up; it ends where no cycle is reachable at any turn |
| ParamEval.EvalAllTerminatesExactly | hwtiming/verilog-0.9.6/net_design.cc:590-625 | for every table and list of names the loop ends exactly when, at the turn of each name and with the entries before it taken away, no cycle is reachable from any node of its entry with that node's flag up; one level per entry is then enough |
| ParamEval.EvaluatedIsGone | hwtiming/verilog-0.9.6/net_design.cc:590-625 | an evaluated entry, and whatever was written on the way, is for the cycles of every other entry as good as gone |
| ParamEval.AcyclicEnds | hwtiming/verilog-0.9.6/net_design.cc:590-625 | a scope in which no walk along references comes back always ends |
| ParamEval.EntryTerminatesExactly | hwtiming/verilog-0.9.6/eval_tree.cc:1326-1330 | for every table and entry: its evaluation ends exactly when, for each of its reference nodes, no cycle is reachable from the node with that node's flag up; one level per entry is then enough |
| ParamEval.CycleThroughEntryDetected | hwtiming/verilog-0.9.6/eval_tree.cc:1289-1293 | an example: in the two-entry cycle P := Q, Q := P both entries end up null |
| ParamEval.SecondNodeDiverges | hwtiming/verilog-0.9.6/eval_tree.cc:1289-1293 | an example: with P := Q + R, Q := P, R := P every cycle passes through P, and evaluating P recurses without end through its second node |
| ParamEval.CycleBehindEntryDiverges | hwtiming/verilog-0.9.6/net_expr.cc:523-529 | a cycle behind it is not: copies of the entry never show a raised flag |
| ParamEval.Scope.ReplaceParameter | hwtiming/verilog-0.9.6/net_scope.cc:155-168 | an existing entry is overwritten, a missing one is reported |
| ParamEval.Scope.EvalTree | hwtiming/verilog-0.9.6/eval_tree.cc:1277-1393 | evaluation of a private copy updates the table as specified |
| ParamEval.Scope.EvalParam | hwtiming/verilog-0.9.6/eval_tree.cc:1277-1393 | evaluation of an unflagged reference, with its write-back |
| ParamEval.Scope.EvalInPlace | hwtiming/verilog-0.9.6/netmisc.cc:465-484 | nodes are replaced by their results where they sit |
| ParamEval.Scope.EvaluateParameters | hwtiming/verilog-0.9.6/net_design.cc:590-625 | every entry in the order of the names |
| AddFold.RippleValue | hwtiming/verilog-0.9.6/verinum.cc:942-984 | the carry chain computes the sum modulo 2^n |
| AddFold.RippleUndefined | hwtiming/verilog-0.9.6/verinum.cc:942-984 | an undefined operand bit shows in the sum |
| AddFold.PlusLow | hwtiming/verilog-0.9.6/verinum.cc:942-984 | the low w bits of a sum are the sum of the low w bits modulo 2^w, or undefined |
| AddFold.MinusLow | hwtiming/verilog-0.9.6/verinum.cc:986-1027 | the same for a difference |
| AddFold.UnsignedMinus | hwtiming/verilog-0.9.6/verinum.cc:986-1027 | subtraction of numbers of any lengths, not both signed, is exact modulo the longer length on their unsigned readings |
| AddFold.SignedExact | hwtiming/verilog-0.9.6/verinum.cc:942-1027 | sums and differences of signed numbers are exact |
| AddFold.NarrowFoldExactly | hwtiming/verilog-0.9.6/eval_tree.cc:107-114 | the exact condition, for all defined constants with lengths and every width w, for folding to their sum or difference modulo 2^w: two signed ones when w is no larger than the folded width, nothing is pruned, or the result is in its signed range; unsigned ones when w is no larger or nothing is carried or borrowed out of it; mixed ones as if both were unsigned, which a negative one survives only up to its own length or through a lost carry or borrow |
| AddFold.UnsizedFoldExactly | hwtiming/verilog-0.9.6/eval_tree.cc:115-119 | the exact condition, for all defined constants, for folding without a width to the exact integer: always when both are signed; otherwise both are read as unsigned, so sums need two that are not negative, and differences one that is not negative less one that is no larger, or less a negative one no shorter whose unsigned reading is larger |
| AddFold.FoldConstShape | hwtiming/verilog-0.9.6/eval_tree.cc:107-119 | the length and the flags of a folded constant |
| AddFold.ConstantWidened | hwtiming/verilog-0.9.6/netmisc.cc:465-484 | a constant with a length is left alone; one without is widened to a wider pruning context by its x, z, sign or zero |
| AddFold.MergeValue | hwtiming/verilog-0.9.6/eval_tree.cc:131-185 | replacing (a op1 c1) op2 c2 by a op2 c keeps the value modulo 2^w for all four sign combinations and constants of any lengths, padding and undefined bits included |
| AddFold.FoldCorrect | hwtiming/verilog-0.9.6/eval_tree.cc:71-189 | folding a chain keeps its value modulo 2^w under every valuation and leaves no constant over a sum with a constant; constants beside names may have any length, and constants that meet constants must have the common width or meet one of the two exact conditions |
| AddFold.WideSumsRight | hwtiming/verilog-0.9.6/eval_tree.cc:107-114 | constants of the common width always do, undefined bits included |
| AddFold.NetEBAdd.EvalTree | hwtiming/verilog-0.9.6/eval_tree.cc:71-189 | the in-place rewrite of the node is that fold, with and without a width |
| ConcatFold.CopiesAt | hwtiming/verilog-0.9.6/eval_tree.cc:1238-1255 | bit j of the copies is bit j modulo the width of one copy |
| ConcatFold.FlatAt | hwtiming/verilog-0.9.6/eval_tree.cc:1243-1258 | each operand's bits sit above those of all operands after it |
| ConcatFold.FlatValue | hwtiming/verilog-0.9.6/eval_tree.cc:1243-1258 | the first operand is the most significant |
| ConcatFold.FoldsExactly | hwtiming/verilog-0.9.6/eval_tree.cc:1195-1241 | the folder gives a constant exactly when every operand is one or folds to one with a length and a width; the parse-tree evaluator needs no length |
| ConcatFold.NetEConcat.EvalOperands | hwtiming/verilog-0.9.6/eval_tree.cc:1195-1236 | operands are replaced by their constants, widths add up to the gap, and unsized or empty results are errors |
| ConcatFold.NetEConcat.EvalTree | hwtiming/verilog-0.9.6/eval_tree.cc:1185-1276 | every bit of the result is written exactly once and in bounds, and the result is the repeated operands; there is none exactly when an operand is missing, not constant or rejected |
| ConcatFold.EvalConst | hwtiming/verilog-0.9.6/eval.cc:144-165 | the parse-tree evaluator accumulates one copy of the same vector, or gives nothing when an operand has no constant |
| ConcatFold.EvaluatorsAgreeExactly | hwtiming/verilog-0.9.6/eval.cc:144-165 | the two evaluators agree exactly when an operand has no constant, or none is rejected and there is one copy or nothing to copy |
| ShiftFold.TrimValue | hwtiming/verilog-0.9.6/verinum.cc:602-657 | trimming keeps the unsigned or two's complement value |
| ShiftFold.TrimShape | hwtiming/verilog-0.9.6/verinum.cc:602-657 | one leading zero, or copy of the sign, is left and no more |
| ShiftFold.AsULongValue | hwtiming/verilog-0.9.6/verinum.cc:367-386 | `as_ulong` is the number modulo 2^64, and 0 for an undefined one |
| ShiftFold.LeftValue | hwtiming/verilog-0.9.6/eval_tree.cc:1160-1171 | << gives v·2^s modulo 2^wid |
| ShiftFold.RightValue | hwtiming/verilog-0.9.6/eval_tree.cc:1149-1158 | >> and >>> give the quotient by 2^s, rounded down, modulo 2^wid |
| ShiftFold.ArithRightValue | hwtiming/verilog-0.9.6/eval_tree.cc:1143-1158 | at the operand's width a signed >>> divides the two's complement value, rounding down |
| ShiftFold.UnsizedLeftLossless | hwtiming/verilog-0.9.6/eval_tree.cc:1128-1137 | a left shift of an unsized number loses nothing exactly when the widened length fits an unsigned, or the number is zero |
| ShiftFold.EvalTree | hwtiming/verilog-0.9.6/eval_tree.cc:1100-1183 | the folder's loops compute that shift, x for an undefined amount, or fail an assertion at width zero |
| ShiftFold.FoldedWidth | hwtiming/verilog-0.9.6/eval_tree.cc:1100-1183 | the width of a folded shift: the context's, or for an operand without a length its trimmed one plus the amount of a left shift, and no more than a pruning context has |
| ShiftFold.SizedFoldBits | hwtiming/verilog-0.9.6/eval_tree.cc:1100-1183 | at any width, wider or narrower than the operand, every bit is the operand's at the shifted position, or the sign for a signed >>> and else 0 |
| ShiftFold.SizedFoldValue | hwtiming/verilog-0.9.6/eval_tree.cc:1100-1183 | there << multiplies, and the others divide rounding down, modulo the width |
| ShiftFold.WiderContextExactly | hwtiming/verilog-0.9.6/eval_tree.cc:1100-1183 | a negative operand shifted left gives the product of the signed number exactly up to its length plus the amount; beyond, it is read as unsigned |
| ShiftFold.UnsizedFoldValue | hwtiming/verilog-0.9.6/eval_tree.cc:1100-1183 | a number without a length is shifted as the number it stands for, modulo the width worked at |
| ShiftFold.UndefinedAmount | hwtiming/verilog-0.9.6/eval_tree.cc:1100-1183 | an undefined amount gives x in every bit, as wide as the node or else the operand |
| ShiftFold.EvalConst | hwtiming/verilog-0.9.6/eval.cc:111-132 | the parse-tree evaluator's loops compute the shift at the operand's width |
| ShiftFold.AmountsAgreeExactly | hwtiming/verilog-0.9.6/eval_tree.cc:1143-1171 | for <<, >> and both kinds of >>>: two amounts move all vectors of a width alike exactly when they are equal or both move everything out, the sign bit of a signed >>> staying |
| ShiftFold.EvaluatorsAgreeExactly | hwtiming/verilog-0.9.6/eval_tree.cc:1119 | on sized operands folder and evaluator agree exactly when the amount survives the cut to 32 bits or everything moves out before and after it |
| ShiftFold.FolderExactly | hwtiming/verilog-0.9.6/eval_tree.cc:1119 | for <<, >> and both kinds of >>>: the folder shifts every operand of a width by the exact amount exactly when the amount fits 32 bits, or it and its low 32 bits move everything out |
| ShiftFold.FolderDividesExactly | hwtiming/verilog-0.9.6/eval_tree.cc:1119-1158 | under that condition and no other a folded signed >>> is the two's complement value divided by 2^amount, rounded down |
| ShiftFold.WideAmountDiffers | hwtiming/verilog-0.9.6/eval.cc:122-132 | for the amount 2^32 one drops the bit and the other keeps it |
| EqFold.EvalEqEq | hwtiming/verilog-0.9.6/eval_tree.cc:624-739 | the loops of `==` and `!=` compute the verdict stated on positions |
| EqFold.EvalEqEqEq | hwtiming/verilog-0.9.6/eval_tree.cc:741-796 | the loops of === and !== decide what `EqFold.CaseEqualExactly` says |
| EqFold.CaseEqualExactly | hwtiming/verilog-0.9.6/eval_tree.cc:741-796 | === is 1 exactly when the longer operand is, in all four values, the shorter one followed by copies of its top bit if both are signed and of 0 otherwise, and 0 in every other case |
| EqFold.EqualLengths | hwtiming/verilog-0.9.6/eval_tree.cc:643-682 | on equal lengths == is 0 exactly when defined bits differ, 1 exactly when both are defined and identical, x otherwise |
| EqFold.EqualityOfMeanings | hwtiming/verilog-0.9.6/eval_tree.cc:643-682 | that is: == is 1 (is 0) exactly when the vectors are the same (differ) whatever values their undefined bits take |
| EqFold.EqEqExactly | hwtiming/verilog-0.9.6/eval_tree.cc:684-736 | the exact verdicts for different lengths |
| EqFold.UndefinedHidesDifference | hwtiming/verilog-0.9.6/eval_tree.cc:693-700 | an undefined bit above the shorter operand turns a known difference into x |
| EqFold.NotEqualNegates | hwtiming/verilog-0.9.6/eval_tree.cc:624-796 | != and !== are the three-valued negations on all inputs, and === is never x |
| EqFold.Symmetric | hwtiming/verilog-0.9.6/eval_tree.cc:624-796 | the verdicts do not depend on the order of the operands |
| EqFold.IntegerEquality | hwtiming/verilog-0.9.6/eval_tree.cc:624-796 | on defined operands of one signedness and any lengths both operators decide integer equality |
| EqFold.CaseEqualityAgreesExactly | hwtiming/verilog-0.9.6/eval_tree.cc:763-785 | === agrees with == wherever == is not x, exactly when the shorter operand is not a defined negative number held against a longer unsigned one |
| Clog2.EvaluateClog2 | hwtiming/verilog-0.9.6/eval_tree.cc:1766-1812 | the loop ends; for a number that is not negative the result is the least r with n <= 2^r, for a negative one it is raised to 32, for x it is undefined |
| Clog2.CeilLog2Correct | hwtiming/verilog-0.9.6/eval_tree.cc:1798-1804 | counting halvings of n-1 gives the least r with n <= 2^r, and 0 for 0 |
| Clog2.NegativeExactly | hwtiming/verilog-0.9.6/eval_tree.cc:1789-1807 | for every negative number the answer is the one section 17.11.1 of IEEE 1364-2005 asks for exactly when its unsigned value is above 2^31 and, if it has no length and more than 32 bits, nothing is trimmed |
| Widths.Fields.TestWidth | hwtiming/verilog-0.9.6/elab_expr.cc:152-236 | the traversal with its flag, its second tests and the widths recorded in the nodes |
| Widths.Fields.TestNumber | hwtiming/verilog-0.9.6/elab_expr.cc:3353-3372 | a literal takes at least the minimum and at most the l-value's width, and sets the flag if it has no length |
| Widths.TraversalIsOneVisit | hwtiming/verilog-0.9.6/elab_expr.cc:152-236 | for every expression the traversal with its second tests returns the width and flag, and leaves the recorded widths, of one visit to every node, where an operand's flag is the context's or its sibling's and a conditional with only its false branch unsized visits that branch first |
| Widths.TwoPassIsOnePass | hwtiming/verilog-0.9.6/elab_expr.cc:152-236 | without such conditionals the width and flag are those of a pass that knows in advance whether anything is unsized |
| Widths.TwoPassRecords | hwtiming/verilog-0.9.6/elab_expr.cc:152-236 | and that pass's width is left recorded in every node |
| Widths.SizedTraversal | hwtiming/verilog-0.9.6/elab_expr.cc:186-213 | for every expression whose flag ends down, products and conditionals included, the traversal finds the larger of the minimum and the longest leaf, a literal limited by the l-value and a parameter or literal alone possibly less than the minimum |
| Widths.SizedClosed | hwtiming/verilog-0.9.6/elab_expr.cc:186-213 | the same of the one pass |
| Widths.WidthClosed | hwtiming/verilog-0.9.6/elab_expr.cc:152-236 | without products the width of an unsized expression is the larger of its minimum plus one bit for each level of sums and of what its leaves need; without sums a literal limited by the l-value, or a parameter, may stay below the minimum |
| Widths.LateConditional | hwtiming/verilog-0.9.6/elab_expr.cc:3432-3462 | for a conditional with only its false branch unsized: the width found, never less than the one-pass width; for a true branch without products it is that width exactly when the true branch has no sum, the false branch is no wider than the minimum, or the leaves of the true branch need the false branch's width and a bit for each level of sums anyway |
| Widths.UnsizedChainLossless | hwtiming/verilog-0.9.6/elab_expr.cc:187-195 | the width of an unsized chain holds its exact value: below 2^width for sums of non-negative operands, within 2^width of zero in general |
| Widths.FlaggedChainLossless | hwtiming/verilog-0.9.6/elab_expr.cc:152-236 | the same for what the traversal finds, whenever the flag ends set |
| Widths.ProductNode | hwtiming/verilog-0.9.6/elab_expr.cc:197-209 | an unsized product is as narrow as it may be that is no narrower than its minimum, its operands, and the operands together or 32 |
| Widths.ProductClosed | hwtiming/verilog-0.9.6/elab_expr.cc:197-209 | a product of signals and literals takes the lengths of all its leaves together, and beyond 32 bits 32 or the longest leaf |
| Widths.FlaggedProductLossless | hwtiming/verilog-0.9.6/elab_expr.cc:197-209 | what the traversal finds for such a product holds its exact value unless the leaves together have more than 32 bits |
| Widths.SizedSumOverflows | hwtiming/verilog-0.9.6/elab_expr.cc:187-195 | without the flag the carry is lost |
| Widths.BranchOrderShows | hwtiming/verilog-0.9.6/elab_expr.cc:3432-3447 | the second test of a conditional's true branch makes the width depend on the order of the branches |
| PartSelect.LowestPosition | hwtiming/verilog-0.9.6/netlist.cc:779-785 | a select covers consecutive canonical positions from exactly one lowest one |
| PartSelect.NetIdx | hwtiming/verilog-0.9.6/elab_expr.cc:3045-3190 | the r-value path's arithmetic, in terms of that position |
| PartSelect.ParamIdx | hwtiming/verilog-0.9.6/elab_expr.cc:2492-2597 | the parameter path computes that position |
| PartSelect.LvalIdx | hwtiming/verilog-0.9.6/elab_lval.cc:478-494 | the l-value path's arithmetic, in terms of that position |
| PartSelect.WireIdx | hwtiming/verilog-0.9.6/elab_net.cc:284-328 | the structural path computes that position, or finds the select outside |
| PartSelect.VariableIdx | hwtiming/verilog-0.9.6/netmisc.cc:238-327 | the expression built for a variable base has that position as its value |
| PartSelect.PathsAgree | hwtiming/verilog-0.9.6/elab_expr.cc:3045-3190 | for msb > lsb every path denotes exactly the selected bits, for every base, width and direction |
| PartSelect.WireAndParameterRight | hwtiming/verilog-0.9.6/elab_net.cc:284-328 | the structural and parameter paths are right for every range, and the structural one drops a select exactly when none of its bits is in the vector |
| PartSelect.NetExactly | hwtiming/verilog-0.9.6/elab_expr.cc:3045-3190 | the r-value path is right exactly unless an ascending range is taken whole or a one-bit range is stepped down; otherwise it returns the vector itself exactly when every bit of a range that does not ascend is selected |
| PartSelect.LvalExactly | hwtiming/verilog-0.9.6/elab_lval.cc:478-494 | the l-value path is right exactly unless a one-bit range is stepped down, and takes the vector whole exactly when every bit of it is selected |
| PartSelect.ParamPartSelectBits | hwtiming/verilog-0.9.6/elab_expr.cc:2301-2320 | each bit read is the constant's bit, x below it, and zero, x or the sign above it |
| PartSelect.ParameterReadsNumber | hwtiming/verilog-0.9.6/elab_expr.cc:2301-2320 | of a defined number without a length the parameter path reads its two's complement form at any position and any width; above a string it reads 0 |
| PartSelect.EvalSelect | hwtiming/verilog-0.9.6/eval_tree.cc:1395-1442 | a folded select reads the window at its base with x outside, or extends the vector when it has no base |
| PartSelect.ReadingAgreesExactly | hwtiming/verilog-0.9.6/elab_expr.cc:2301-2320 | the two ways of reading give the same bits exactly when none lies above the constant, or the constant is no string and has a length or an x for its sign |
| PartSelect.ExtensionKeepsNumber | hwtiming/verilog-0.9.6/eval_tree.cc:1417-1427 | a select without a base keeps the number it extends |
| PartSelect.ExtensionRepeats | hwtiming/verilog-0.9.6/eval_tree.cc:1417-1427 | and repeats an x, z or 0 at the top, and a 1 only if it is a sign |
| PartSelect.LengthFor | hwtiming/verilog-0.9.6/verinum.cc:318-326 | the loop that sizes an integer's constant |
| PartSelect.FromLong | hwtiming/verilog-0.9.6/verinum.cc:313-333 | the constant holds the low bits of the integer's two's complement form |
| PartSelect.LongRoundTrip | hwtiming/verilog-0.9.6/verinum.cc:420-467 | a position made into a constant is read back by `as_long` unchanged, for every 64-bit value |
| StringHeaps.Store | hwtiming/verilog-0.9.6/StringHeap.cc:62-65 | copying a text and its terminator touches those bytes only |
| StringHeaps.HoldsKept | hwtiming/verilog-0.9.6/StringHeap.cc:43-70 | bytes that are not written keep holding their text |
| StringHeaps.HoldsUnique | hwtiming/verilog-0.9.6/StringHeap.cc:134-138 | a position holds at most one text |
| StringHeaps.StringHeap.Add | hwtiming/verilog-0.9.6/StringHeap.cc:43-70 | the new text is stored past every earlier one in its cell, the cursor stays within the cell, and earlier allocations keep their text |
| StringHeaps.HashString | hwtiming/verilog-0.9.6/StringHeap.cc:117-126 | the loop computes the hash with wrap-around and sign-extended bytes |
| StringHeaps.HashIsXor | hwtiming/verilog-0.9.6/StringHeap.cc:117-126 | the hash is the xor of the characters, each turned left by four bits for every character after it |
| StringHeaps.SignExtends | hwtiming/verilog-0.9.6/StringHeap.cc:117-126 | a character keeps its eight bits and repeats its top bit above them |
| StringHeaps.BucketOf | hwtiming/verilog-0.9.6/StringHeap.cc:128-130 | a text's bucket is its hash modulo 4096 |
| StringHeaps.StringHeapLex.Lookup | hwtiming/verilog-0.9.6/StringHeap.cc:134-138 | a hit is exactly a bucket that reads back the text |
| StringHeaps.StringHeapLex.Replace | hwtiming/verilog-0.9.6/StringHeap.cc:140-147 | a miss allocates the text and makes its bucket point at it |
| StringHeaps.StringHeapLex.Add | hwtiming/verilog-0.9.6/StringHeap.cc:128-148 | every answer ever given still reads back the text asked for; the answer is the bucket's pointer exactly on a hit; other buckets are untouched |
| StringHeaps.StringHeapLex.Permanence | hwtiming/verilog-0.9.6/StringHeap.cc:128-148 | all answers read back their texts and no two allocations overlap |
| StringHeaps.StringHeapLex.Accounting | hwtiming/verilog-0.9.6/StringHeap.cc:136-145 | hits plus additions equal the number of calls, in the counters' arithmetic |
| StringHeaps.AddAll | hwtiming/verilog-0.9.6/StringHeap.cc:128-148 | after any sequence of calls every returned pointer reads back its text |

## Left out

- Security labels: the types, the lattice, the program-counter label and the no-sensitive-upgrade check are not modelled; a question to the solver is the assignment and the hypotheses it is asked under.
- Driver.TypecheckAssignment: when the type of the target depends on the target, the code asks under a fresh name for it with an equation for that name, and may ask the no-sensitive-upgrade question first; neither is modelled, because the types are not.
- Conditions of x or z: the analysis and its runs are two-state, so what `if` and the ternary do on an undefined condition is not modelled there.
- Array and bit-select left-hand sides, par blocks, delays, events, task calls and the other statements whose analysis does nothing or throws.
- The terms `min` and `max` that the printer also knows; they print through the general binary form here.
- Real numbers, in folding, widths and parameters.
- Strings: a concatenation or part select of strings is turned back into a string by the code; the model stops at the bits. An empty operand list, which the grammar does not admit, would give the empty string's eight zero bits.
- AddFold.FoldCorrect: two errors that cancel out further up are not looked for: each sum of two constants must be folded right, for which `AddFold.NarrowFoldExactly` and `AddFold.UnsizedFoldExactly` give the exact condition. A chain whose sub-expression is narrower than the chain is only checked by an assertion in the code and is not modelled.
- AddFold.NetEBAdd.EvalTree: the operand trees are values, so sharing between nodes and the deletion of the replaced node are not visible.
- ConcatFold.NetEConcat.EvalTree: widths are unbounded; in the code the product of repeat count and gap is a 32-bit number, and a larger one fails the range assertion of the bit writes. Turning a result of strings back into a string is not modelled.
- ShiftFold.UnsizedFoldValue: `>>` on a signed number without a length, which brings zeros in above the trimmed number, is covered by `ShiftFold.RightValue` on the trimmed bits only; a left shift whose widened length passes 2^32 by `ShiftFold.UnsizedLeftLossless`.
- Shifts, comparisons, calls, concatenations and reductions as operands in width discovery: they determine their own width.
- PartSelect.VariableIdx: the value of the expression is exact; the widths it is padded to so that its arithmetic does not wrap are not modelled.
- PartSelect.NetIdx: positions are unbounded integers; the 64-bit wrap-around of a base near 2^63 is not modelled. Bases that are not defined give x, leave the l-value to code generation or drop the structural select; they have no position.
- ParamEval.Scope.EvalTree: one operator that evaluates both operands stands for all of them; operators that can skip an operand are not modelled. Exhausted fuel stands for unbounded recursion.
- StmtElab.ElabCorrect: expressions are opaque except for their value, width and constant; what an assignment stores and how case guards compare are parameters. Padding of case guards is part of that comparison.
- Analysis.AnalysisSound: the assigned value must fit its target and may mention the target only when it is the target; hypotheses are built from identifiers, numbers, unary and binary nodes over scalars; conditions must not drop anything inside a comparison; `absintp` for a true branch is called only when there is one.
- Analysis.CaseSoundExactly: items that generate hypotheses, or assign what the guard equations mention, are excluded: a generated equation may happen to hold although its item did not run, and a removed one no longer matters.
- Analysis.CaseSoundAt: the same items are excluded.
- Analysis.CaseSoundFromNothing: the same items are excluded.
- Analysis.RunCoveredExactly: the items before the one that runs generate nothing, no item assigns what the guards up to it mention, and no line of it is also a line of an item before it; it may itself generate hypotheses, and the items behind it may do anything else.
- Driver.CaseRunChecked: where a merge has lost a guard equation, some of what an item executes may be checked under hypotheses that hold after all; only items that merge nothing are said to be uncovered.
- Widths.LateConditional: for a true branch with a product the condition compares the width of the second test with the one-pass width; no closed form is given.
- StringHeaps.StringHeap.Add: allocation of a cell does not fail; texts are shorter than a cell, as the code asserts.
- Diagnostics, file handling, netlist construction and code generation.
