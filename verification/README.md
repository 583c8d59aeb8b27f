# fuaran-rs: a verified model of its cores

A Dafny model of the algorithmic cores of fuaran-rs, and proofs of what its comments promise: the
tree-op engine and its structural diff, the three-way facet merge, the hash-chained journal and the
durable edge session, the column-expression evaluator with its static typer and unit resolver, the keyed
relational verbs, the columnar undo history, function composition, the exact conversion ratios, and the
bounded program loop with its confirm round trip.

`dafny verify dfyconfig.toml` checks everything. No file includes another; the modules import one another.

| files | models |
|---|---|
| `Ordinal`, `Trees`, `TreeOps`, `TreeFacts`, `WellFormed` | the id-addressed tree, the op engine, what every accepted op keeps |
| `TreeDiff`, `DiffCorrect`, `DiffGuarantee` | the structural diff and when folding its script rebuilds the target |
| `Merge`, `MergeSymmetry`, `MergeClean`, `MergeLaws` | the three-way merge, its symmetry, exactly when it is refused, identity and pick laws |
| `Chain`, `Edge`, `EdgeProtocol`, `EdgeSteps` | the hash chain, replay, the fenced store, one activation, every interleaving of activations and crashes, and the activation's methods as steps of it |
| `Cells`, `Exprs`, `Typer`, `Rewrites`, `Derive` | cells, the evaluator, unit resolution, type soundness, param binding, the derived column |
| `RowKeys`, `Verbs`, `Windows`, `SortOrders`, `CivilDays` | row identity, distinct, set operations, group-by, sort, windows, when sort keys order the rows, day counting |
| `Power`, `Naturals`, `Ratios`, `Factors`, `PrimeRatio` | exact powers, limb arithmetic, rounding to a double, prime factorisation |
| `Registry`, `Composition` | signature search and backward-chaining composition |
| `GridEdits`, `GridHistory`, `GridDelta` | columnar edits, undo and redo over all runs, the row delta |
| `ConfirmTokens`, `BoundedFold`, `BoundedLoop`, `ConfirmProtocol`, `StateSeeds` | question tokens, the fold, the program loop, the confirm protocol and the seeded slots over all event sequences |

Code that the repository writes as loops or in-place updates is written here as methods (the journal
walk, the store and the session, the registry, limb multiplication, trial division, grouping, windows,
`handle_event`), each proved against a function or a stated outcome; the laws are lemmas about those.

## What the proofs found

Places where the code does not keep what its comments say, each as a lemma with the input that shows it,
beside the exact condition under which the code does keep it:

- `DiffGuarantee.MovedIdRefused`: the script for an id that moves to an earlier sibling's subtree is refused;
  `DiffCorrect.DiffExact` says exactly when a script rebuilds its target.
- `DiffGuarantee.EmptyAccessibilityMissed`: an accessibility record that sets nothing is never reached by the diff;
  `DiffCorrect.ResultExact` says exactly which edits are.
- `WellFormed.ReorderGrowsRepeatedSiblings`: restating the order over two siblings of one id can grow the tree,
  although that op is exempt from the size walk. `WellFormed.UncheckedShrinksExactly`: an exempt op, batches
  included, never deepens any tree, and it adds nodes exactly when its steps together grow what they rewrite, which
  (`StepGrowth`) only a restated order of children that their first holders outweigh does.
- `MergeClean.RepeatedSiblingAsymmetric`: a branch inserting two children of one id merges differently in the two
  orders. `MergeClean.MergeSymmetricExactly`: the two orders differ exactly when the inputs are clean and, at some
  node the merge keeps, both sides add children and one adds two of one id. Clean inputs are exactly those that merge
  without a refusal (`MergedExactly`).
- `MergeLaws.InsertUnderRetypedNodeLost`: a child inserted under a node the other branch retypes to a leaf is dropped
  without a conflict; `MergeLaws.InsertKeptExactly` says exactly when an insert is kept.
- `MergeLaws.EditOfDeletedChildLost`: an edit of a child the other branch deletes is dropped without a conflict;
  `MergeLaws.DeletedEditKeptExactly` says exactly when it is kept.
- `MergeLaws.MergeIdentity`: merging against an unmoved base clears tooltips, visibility and fallbacks of matched
  nodes, and is the identity exactly where they carry none.
- `Rewrites.BindingExponentVisible`: binding a param that is a power's exponent under a conversion changes the
  answer, although the comment says the evaluator answers both alike. `Rewrites.PowerBindsExactly`: such a power
  resolves alike exactly when its base states no unit, or is dimensionless to the power of zero.
- `Power.PowSquareWraps`: two to the thirty-second, squared, leaves 64 bits and wraps to zero, which is answered
  although the power lies outside the int32 band. `Power.PowExactIff` says exactly which bases and exponents are
  answered as the comment says.
- `StateSeeds.SeedLostByEvent`: the first event that acts empties a slot the tree seeded, because an event re-resolves
  the tree against the store alone. `StateSeeds.SeedsShownExactly`: over every run the seeds lie under the store
  exactly when no event acted, or when they change what no node reads.
- `GridHistory.UnfitColumnBlocksUndo`: a column set with cells that do not fit it makes a later undo fail.
  `GridHistory.UndoRedoEveryRun`: over every run, an available undo is refused exactly when it would write back a
  cell its column does not take, and an available redo never is.

## Model

| member | source | states |
|---|---|---|
| Trees.TreeMetrics | src/ops/mod.rs:1844-1856 | the single walk answers the depth and the node count of the tree |
| Trees.FindNodeSound | src/ops/mod.rs:301-309 | the depth-first find answers a node exactly when the id occurs, and the node it answers has that id and lies in the tree |
| TreeFacts.LayoutParentFound | src/ops/mod.rs:330-340 | with unique ids, the parent search finds the layout node that holds the child |
| TreeOps.AllNodeIds | src/ops/mod.rs:321-329 | the collected list is the subtree's ids in depth-first order, each with its multiplicity |
| TreeOps.CheckInstalledIds | src/ops/mod.rs:1907-1930 | reports a clash exactly when an installed id occurs more than once in the result |
| TreeOps.ApplyOne | src/ops/mod.rs:1292-1673 | the recursive reduction with its batch loop meets its functional specification, telemetry included |
| TreeOps.ApplyTree | src/ops/mod.rs:1763-1808 | apply answers the specified tree or refusal, and emits telemetry only when it accepts |
| TreeOps.ApplyAllConcat | src/opstream/replay.rs:38-52 | folding two scripts in turn is folding their concatenation |
| WellFormed.ApplyKeepsIdsUnique | src/ops/mod.rs:1763-1930 | every accepted op, batches included, keeps ids unique |
| WellFormed.ApplyKeepsLimits | src/ops/mod.rs:1763-1900 | every accepted op keeps a tree of unique ids within the depth and node limits |
| WellFormed.UncheckedShrinksExactly | src/ops/mod.rs:1802-1818 | on every tree an op exempt from the size walk, batches included, deepens nothing, and its size moves by what its steps grow, so it adds nodes if and only if that is positive |
| WellFormed.StepGrowth | src/ops/mod.rs:1802-1818 | of the exempt ops but a batch, only a reorder of children whose first holders outweigh them grows what it rewrites |
| WellFormed.ReorderTrades | src/ops/mod.rs:1674-1733 | an accepted reorder trades the parent's children for the first holders of their ids, in count, and deepens nothing |
| WellFormed.UncheckedShrinks | src/ops/mod.rs:1802-1818 | batches of exempt ops included, none grows a tree of unique ids |
| WellFormed.ReorderGrowsRepeatedSiblings | src/ops/mod.rs:1809-1818 | without unique ids an exempt reorder can grow the tree |
| WellFormed.ScriptKeepsOrder | src/ops/mod.rs:1763-1930 | every tree a whole script reaches has unique ids and is within the limits |
| WellFormed.RemoveTakes | src/ops/mod.rs:1581-1615 | a removal takes exactly the subtree's ids and nodes |
| WellFormed.MoveConserves | src/ops/mod.rs:1616-1673 | an accepted move keeps every id and node, and leaves the subtree unchanged as the last child of its new parent |
| TreeDiff.PushDiff | src/diff/mod.rs:135-192 | the recursion that pushes onto one op vector meets its functional specification |
| TreeDiff.DiffScript | src/diff/mod.rs:194-204 | the public diff is that script, or one root edit when the root ids differ |
| DiffCorrect.DiffRuns | src/diff/mod.rs:135-192 | running a node's script where the node is seated leaves exactly the specified node, siblings back in order, or is refused when a replacement site is not in order |
| DiffCorrect.ResultExact | src/diff/mod.rs:110-133 | the node a script leaves is the target exactly when every accessibility edit is representable |
| DiffCorrect.DiffExact | src/diff/mod.rs:135-204 | folding apply over the diff rebuilds the target if and only if every replacement site and accessibility edit is in order |
| DiffGuarantee.RoomForSites | src/diff/mod.rs:135-192 | shared ancestor paths and node headroom put every replacement site in order |
| DiffGuarantee.DiffRebuildsTarget | src/diff/mod.rs:135-204 | folding apply over diff(a, b) from a gives exactly b, for unique ids on the same ancestor paths, no empty accessibility record and room for the mixed trees |
| DiffGuarantee.MovedIdRefused | src/diff/mod.rs:135-192 | an id moved to an earlier sibling's subtree makes the script refused |
| DiffGuarantee.EmptyAccessibilityMissed | src/diff/mod.rs:110-133 | a target whose accessibility record is empty is not reached |
| Merge.MergeInto | src/dag/merge.rs:510-712 | the recursion that appends to one conflict vector meets its functional specification |
| Merge.MergeTrees | src/dag/merge.rs:715-723 | the public merge answers the merged tree, or the conflicts in the order they were recorded |
| MergeSymmetry.IdsCommuteExactly | src/dag/merge.rs:600-705 | the two orders record one children conflict with sides exchanged, and keep the same child ids if and only if no side that adds beside the other adds two of one id |
| MergeSymmetry.ConflictsTranspose | src/dag/merge.rs:510-712 | on every input, merging in the other order records the same conflicts in the same order with sides exchanged |
| MergeClean.ConflictsExactly | src/dag/merge.rs:395-708 | a merge records a conflict for a node and facet if and only if, at a node it keeps, both sides moved that facet, apart, or both introduced a child there, unlike |
| MergeClean.MergedExactly | src/dag/merge.rs:715-723 | the public merge answers a tree, and not a refusal, if and only if the inputs are clean at every node it keeps |
| MergeClean.MergeSymmetricExactly | src/dag/merge.rs:715-723 | the other order gives the transposed result if and only if the inputs are not clean or the ids commute at every node the merge keeps |
| MergeSymmetry.MergeTransposes | src/dag/merge.rs:510-712 | among distinct siblings, the other order gives the same node and the same conflicts with sides exchanged |
| MergeSymmetry.MergeSymmetric | src/dag/merge.rs:715-723 | the same for the public result |
| MergeClean.RepeatedSiblingAsymmetric | src/dag/merge.rs:570-650 | with two siblings of one id in one branch both orders merge cleanly, to different trees |
| MergeLaws.MergeIdentity | src/dag/merge.rs:336-353 | merge(base, a, base), merge(base, base, a) and merge(base, a, a) are a without conflict if and only if the matched nodes carry no trait the merge clears |
| MergeLaws.MergePicksFacets | src/dag/merge.rs:391-712 | at every node reached in all three trees, each facet is the three-way pick, or a recorded conflict where the sides moved apart (and nowhere else, by `ConflictsExactly`), and the children are exactly the ids the three lists and the picked kind say |
| MergeLaws.NoCellConflictsTwice | src/dag/merge.rs:223-227 | no node and facet occurs twice in one conflict list |
| MergeLaws.InsertKeptExactly | src/dag/merge.rs:600-708 | an inserted child is kept, as the inserted subtree itself, if and only if the kind picked from the three holds children and the sides did not restructure apart; it is lost with no children conflict exactly under a picked kind that holds none |
| MergeLaws.InsertUnderRetypedNodeLost | src/dag/merge.rs:545-600 | an insert under a node the other branch retypes is dropped silently |
| MergeLaws.DeletedEditKeptExactly | src/dag/merge.rs:600-708 | a child either branch deletes is kept, as the other's edit of it, if and only if that other branch restructured too and the picked kind holds children; only then does the children cell conflict |
| MergeLaws.EditOfDeletedChildLost | src/dag/merge.rs:600-708 | an edit of the only child, deleted by the other branch, is dropped silently |
| Chain.VerifyChain | src/opstream/chain.rs:236-263 | clean exactly when every record links; a reported break is the first, and the prefix before it verifies |
| Chain.AppendVerified | src/opstream/chain.rs:194-228 | a longer chain verifies exactly when the shorter one does and its last record is the append of its own op |
| Chain.OpStream.Append | src/opstream/chain.rs:194-228 | append adds one linked record, answers the new head and keeps the chain verified |
| Chain.HeadDeterminesHistory | src/opstream/chain.rs:81-96 | two verified chains with equal heads are equal record for record |
| Chain.FoldConcat | src/opstream/replay.rs:38-52 | resuming from the fold of a prefix folds the whole |
| Chain.Replay | src/opstream/replay.rs:38-52 | the loop with its early exit is the fold |
| Edge.DurableStore.Append | src/edge/mod.rs:521-540 | refused to any but the newest activation and for a journaled sequence, else appends one record; a refusal leaves the store |
| Edge.DurableStore.PutCheckpoint | src/edge/mod.rs:542-555 | the fence guards checkpoints alike |
| Edge.AfterVerified | src/edge/mod.rs:265-272 | in a verified journal the records past a sequence are its suffix |
| Edge.ReplayAfter | src/edge/mod.rs:265-272 | the rehydration loop is the fold of the records past the checkpoint |
| Edge.EdgeSession.Activate | src/edge/mod.rs:246-280 | acquires first, refuses a broken journal, and otherwise holds the rehydrated tree and the whole journal |
| Edge.EdgeSession.ApplyOp | src/edge/mod.rs:361-411 | decode or apply refusals and store refusals change nothing held; success appends exactly the next record and adopts its tree |
| Edge.EdgeSession.TakeCheckpoint | src/edge/mod.rs:418-428 | writes the held tree at the current sequence, or is refused |
| EdgeSteps.ActivateInSteps | src/edge/mod.rs:246-280 | activating is the token taken, the journal read and the fold: a session is answered exactly when those steps end live, and stands where they end |
| EdgeSteps.ApplyInSteps | src/edge/mod.rs:361-411 | applying an op is the record proposed, appended and adopted, whatever it answers |
| EdgeSteps.CheckpointInSteps | src/edge/mod.rs:418-428 | taking a checkpoint is the snapshot step |
| EdgeProtocol.StepKeeps | src/edge/mod.rs:246-428 | every step of every activation keeps: verified journals that fold from the seed, checkpoints equal to the fold of their prefix, the newest activation in step with its journal |
| EdgeProtocol.EveryRunIsSafe | src/edge/mod.rs:246-428 | so does every interleaving with crashes anywhere |
| EdgeProtocol.SupersededWritesNothing | src/edge/mod.rs:496-555 | a superseded activation's step never changes the store |
| EdgeProtocol.JournalsOnlyGrow | src/edge/mod.rs:506-540 | a journal changes only by one record appended by its newest activation |
| EdgeProtocol.NewestHoldsReplay | src/edge/mod.rs:361-411 | the newest activation's held tree is the replay of the whole journal |
| EdgeProtocol.NewestNeverStops | src/edge/mod.rs:246-280 | the newest activation's rehydration and appends are never refused |
| EdgeProtocol.CheckpointsAreOptional | src/edge/mod.rs:411-428 | dropping a session's checkpoint changes no rehydrated tree |
| EdgeProtocol.AcknowledgedSurvives | src/edge/mod.rs:345-411 | a journaled record stays in place in every later state |
| Exprs.ResolveUnits | src/core/transform.rs:2221-2463 | a resolved expression holds no conversion, and a resolved conversion has the unit it converts to |
| Typer.JoinCovers | src/core/transform.rs:1363-1373 | the join of typings covers what each of them covers |
| Typer.ApplySound | src/core/transform.rs:1475-1556 | every scalar function answers an error, null or a cell of its typing |
| Typer.ResolveKeepsTyping | src/core/transform.rs:2221-2463 | resolving units leaves the typing of an expression unchanged |
| Typer.Sound | src/core/transform.rs:1570-1627 | over a row that fits its schema, for every environment, an expression typed `Of(ty)` answers an error, null or a `ty` cell, and one typed `Absent` only an error or null |
| Rewrites.PowerBindsExactly | src/core/transform.rs:2221-2463 | a power whose exponent is a bound param resolves to one unit before and after binding if and only if its base states none, or is dimensionless to the power of zero, or does not resolve |
| Rewrites.ResolveBinds | src/core/transform.rs:2221-2463 | binding params commutes with resolving units wherever every bound exponent under a conversion has such a base |
| Rewrites.BindKeepsMeaning | src/core/transform.rs:1678-1750 | under the same condition the evaluator answers the bound expression as the written one |
| Rewrites.BindingIsInvisible | src/core/transform.rs:1678-1750 | in particular wherever no conversion remains, which is where the column typer binds |
| Rewrites.BindingExponentVisible | src/core/transform.rs:1676-1750 | under a conversion binding an exponent changes the answer |
| Derive.DecidedTypeIsSound | src/core/transform.rs:1755-1763 | the column type chosen with the environment's help is the type of every present cell the evaluator computes |
| Derive.TypeFromCells | src/core/transform.rs:1826-1858 | the loop answers the least type every present cell widens into, `string` when none is present, and refuses exactly when no type holds them together |
| Derive.ColumnTypeBy | src/core/transform.rs:1860-1870 | the decided type, else the least type the cells agree on, refused when the schema or the cells refuse |
| Derive.EvalDerive | src/core/transform.rs:2587-2654 | a derive is refused by its units, its static typing or the first row that refuses, else answers every row in place with its cell under a column of the decided type, or of the least type that covers the cells |
| Derive.DerivedFrameFits | src/core/transform.rs:2587-2654 | a decided derive of a frame that fits its schema fits its schema |
| Power.PowGo | src/core/transform.rs:731-746 | the loop computes the pinned product tree |
| Power.TreeIsPower | src/core/transform.rs:724-746 | over every associative multiplication that tree is the power |
| Power.PowIntExact | src/core/transform.rs:767-797 | for every 64-bit base, answers what the loop is left to take if that lies in the int32 band and refuses it otherwise; no product but the first square can leave 64 bits |
| Power.PowExactIff | src/core/transform.rs:763-797 | that answer is x^n, or its refusal outside the band, if and only if the first square fits 64 bits, or is not taken first, or its wrapped value has a power outside the band |
| Power.PowSquareWraps | src/core/transform.rs:763-797 | two to the thirty-second, squared, is answered as zero |
| CivilDays.NextDayIsOneMore | src/core/transform.rs:1191-1199 | each calendar day is one more than the day before |
| CivilDays.CountsDays | src/core/transform.rs:1171-1199 | the difference of two dates is the number of days between them |
| CivilDays.EpochIsZero | src/core/transform.rs:1171-1199 | the first of January 1970 is day zero |
| RowKeys.RowKeyInjective | src/core/transform.rs:2111-2119 | two token rows share a key exactly when they are equal |
| RowKeys.Partition | src/core/transform.rs:2665-2678 | the loop lists the keys in first-appearance order and each key's rows in row order |
| RowKeys.ExactlyOneGroup | src/core/transform.rs:2665-2678 | each row belongs to exactly one group |
| RowKeys.HeadIsFirst | src/core/transform.rs:2665-2678 | a group's first member is the first row of its key |
| Verbs.SameRow | src/core/transform.rs:2107-2119 | rows are one row exactly when their cells' tokens agree one by one |
| Verbs.EvalDistinct | src/core/transform.rs:2734-2747 | keeps exactly the first row of each key, in order |
| Verbs.EvalSetOp | src/core/transform.rs:2891-2917 | the left rows whose key is, or is not, among the right's, after the name and unit refusals |
| Verbs.SelectedExact | src/core/transform.rs:2891-2917 | a row is in the outcome exactly when it is a left row whose key is, or is not, among the right's |
| Verbs.SetOpsSplit | src/core/transform.rs:2888-2917 | intersect and except split the left rows with their multiplicities |
| Verbs.EvalGroupBy | src/core/transform.rs:2656-2723 | one row per key in first-appearance order, with the first row's key cells and the aggregates over exactly the key's rows; refusals in the source's order, the first group's first |
| Windows.EvalSort | src/core/transform.rs:2725-2732 | a permutation of the rows, stably sorted wherever the keys order them, which `FittingFrameOrders` gives |
| SortOrders.FittingFrameOrders | src/core/transform.rs:202-229 | over a frame that fits its schema any sort keys order the rows, from the total orders of the cell families |
| SortOrders.FittingSortIsStable | src/core/transform.rs:2074-2106 | so the sort of such a frame is stable |
| Windows.Answers | src/core/transform.rs:2962-3038 | the per-partition passes with running accumulators answer each position's value |
| Windows.SortedAnswers | src/core/transform.rs:3039-3046 | sorting the computed pairs by row index puts each row's own answer at its place |
| Windows.EvalWindow | src/core/transform.rs:2920-3067 | every input row comes back in its own place with its own answer behind it |
| Windows.RowNumbersAreABijection | src/core/transform.rs:2970-2972 | row numbers are a bijection onto 1 to k in each partition of k rows |
| SortOrders.FittingRowNumbers | src/core/transform.rs:2962-2972 | over such a frame, of two rows of a partition the one that belongs before has the smaller number, ties in row order |
| Naturals.LimbBit | src/core/unit.rs:134-137 | a bit read from its limb is the number's bit |
| Naturals.MantissaIsNearest | src/core/unit.rs:163-181 | the 53-bit mantissa is the nearest of all multiples of its last place, and the even one of two as near |
| Ratios.Natural.MulSmall | src/core/unit.rs:117-127 | multiplies the value exactly and keeps a nonzero top limb |
| Ratios.Natural.Bits | src/core/unit.rs:129-132 | the bit length of the value |
| Ratios.Natural.ToU128 | src/core/unit.rs:140-150 | the exact value up to four limbs |
| Ratios.Natural.ToF64 | src/core/unit.rs:154-181 | the nearest double, ties to even, infinity past the largest |
| Factors.PrimeDividesProduct | src/core/unit.rs:98-103 | a prime dividing a product divides a factor, on which lowest terms rest |
| PrimeRatio.Ratio.AddFactor | src/core/unit.rs:184-197 | terminates with prime keys and multiplies the ratio by x^e |
| PrimeRatio.Ratio.Side | src/core/unit.rs:199-209 | multiplies one side out with each prime cut to 32 bits, which is exact where every prime fits them |
| PrimeRatio.WorthIsQuotient | src/core/unit.rs:199-221 | the ratio times its denominator is its numerator |
| PrimeRatio.LowestTerms | src/core/unit.rs:97-103 | numerator and denominator share no divisor above one |
| PrimeRatio.EqualRatiosHaveOneMap | src/core/unit.rs:97-103 | two factorisations have one worth if and only if they are one map |
| PrimeRatio.ScaleOf | src/core/unit.rs:229-244 | the scale is the product of each factor's (num/den times its power of ten) to its exponent |
| Registry.SubsumptionIsInclusion | src/core/function.rs:285-300 | a subsumed space supplies only acceptable values |
| Registry.InclusionIsSubsumption | src/core/function.rs:285-300 | within one family an inhabited included range is subsumed |
| Registry.ComposeSound | src/core/function.rs:193-264 | the steps answered are a post-order of a real derivation, its root last |
| Composition.DepthIsLevels | src/core/function.rs:193-264 | at every depth the search succeeds exactly on the types derivable in that many levels |
| Composition.ComposeExact | src/core/function.rs:178-264 | with depth at least the number of produced types, a path is answered if and only if a derivation exists |
| Composition.FunctionRegistry.Register | src/core/function.rs:130-141 | a duplicate id changes nothing; otherwise the entry is added and the index still agrees with a scan |
| Composition.FunctionRegistry.FindBySignature | src/core/function.rs:154-176 | search through the index answers what a scan of the entries would |
| Composition.FunctionRegistry.Steps | src/core/function.rs:193-264 | the loops meet the functional specification of the search |
| Composition.FunctionRegistry.Compose | src/core/function.rs:178-192 | sound and, with enough depth, complete |
| GridHistory.InverseRestoresIff | src/core/grid_edit.rs:265-305 | whatever cells the columns hold, the inverse read off the columns before an edit gives them back if and only if the edit wrote over no cell its column refuses; otherwise it is refused for that cell |
| GridHistory.EditKeepsAligned | src/core/grid_edit.rs:96-120 | schema names and types follow the columns through every edit |
| GridHistory.ApplyKeepsTable | src/core/grid_edit.rs:129-257 | an accepted op leaves an aligned table of one length and distinct names, and of fitting cells if it carries fitting ones |
| GridHistory.UndoThenRedo | src/core/grid_edit.rs:483-511 | an available undo is refused exactly when stuck on an unfit cell, and otherwise redo restores columns, schema names and types, and both lists |
| GridHistory.RedoThenUndo | src/core/grid_edit.rs:483-511 | an available redo is never refused, and undo then restores everything |
| GridHistory.ApplyThenUndo | src/core/grid_edit.rs:468-497 | undoing a fresh edit restores the columns it was made on if and only if it wrote over no unfit cell |
| GridHistory.UndoRedoEveryRun | src/core/grid_edit.rs:428-511 | at every point of every run of any edits: undo plus redo within capacity, an undo refused exactly when there is none or it is stuck on an unfit cell, a redo exactly when there is none, each reversing the other |
| GridHistory.FittingRunsNeverStick | src/core/grid_edit.rs:428-511 | where the table and the edits carry fitting cells no run is ever stuck, so neither fails when available |
| GridHistory.UnfitColumnBlocksUndo | src/core/grid_edit.rs:157-171 | a column set with unfit cells makes a later undo fail |
| GridDelta.ChangedRows | src/core/grid_edit.rs:386-400 | the keys of exactly the rows whose cells differ, each once |
| GridDelta.AddedRows | src/core/grid_edit.rs:401-416 | the appended keys, exactly when each is present and new |
| GridDelta.GridEditDelta | src/core/grid_edit.rs:360-419 | a row set is precisely the difference of the keyed rows, in key order without repeats, and is answered exactly when the touched rows have keys of their own |
| ConfirmTokens.AddressedConfirm | src/bounded/actions.rs:330-362 | the cursor loop meets its functional specification |
| ConfirmTokens.TokenRoundTrip | src/bounded/actions.rs:323-362 | a question's token addresses exactly its own path and confirm |
| ConfirmTokens.AddressesOnlyMinted | src/bounded/actions.rs:323-362 | a text addresses something in an action if and only if it is the token of one of its questions |
| ConfirmTokens.TokenIsItsNodes | src/bounded/actions.rs:318-340 | a token minted for one node addresses nothing under another, whatever `#` their ids hold |
| BoundedFold.FoldWrites | src/bounded/witness.rs:80-132 | a fold changes a key only if a state write or a flushed commit names it, and never a reserved one |
| BoundedFold.FoldAsks | src/bounded/witness.rs:58-91 | every question a fold asks carries the token of the confirm it came from |
| BoundedLoop.ResolveKeepsHandlers | src/bounded/resolve.rs:119-150 | re-resolution moves no node and no handler |
| BoundedLoop.BoundedProgram.Reprice | src/bounded/program.rs:166-180 | the cached cost is the tree's, and an over-budget tree is shown unresolved |
| BoundedLoop.BoundedProgram.HandleEvent | src/bounded/program.rs:228-364 | the field updates in sequence are one step of the specified loop |
| ConfirmProtocol.RefusedChangesNothing | src/bounded/program.rs:191-199 | a refused event leaves store, resolved tree and pending questions, and reaches no effect |
| ConfirmProtocol.PendingIsStanding | src/bounded/program.rs:264-350 | after every run a token is pending if and only if it was asked since the last admitted non-answer event and not consumed since |
| ConfirmProtocol.AnswersOnlyStandingQuestions | src/bounded/program.rs:264-290 | an answer is admitted only to such a question |
| ConfirmProtocol.EveryRunKeepsLoop | src/bounded/program.rs:228-364 | after every run the shown tree keeps the fixed tree's handlers and every pending token was minted in one |
| ConfirmProtocol.PendingStillAddresses | src/bounded/program.rs:264-290 | every pending token still addresses a question in its node's action |
| ConfirmProtocol.AdmittedIsGated | src/bounded/program.rs:264-364 | an admitted event folds nothing, or folds the one action at its place in its node's action, which the dispatch gate permitted together with every commit write it flushes |
| ConfirmProtocol.WritesAreGated | src/bounded/actions.rs:300-317 | every key a step changes is named by that folded action or by one of those commit writes |
| ConfirmProtocol.EveryRunsWritesAreGated | src/bounded/actions.rs:300-317 | over every run, a key whose value changed was changed by some event of it, whose gated action names the key |
| StateSeeds.ShownTree | src/bounded/program.rs:166-351 | a run shows the tree seeded until its first event that acts, and read from the store alone from then on |
| StateSeeds.SeedsShownExactly | src/bounded/program.rs:166-351 | so the seeds lie under the store if and only if no event acted, or they change what no node reads |
| StateSeeds.HeldSeedsShown | src/bounded/program.rs:170-178 | where the store holds every seeded slot the difference cannot be seen |
| StateSeeds.SeedLostByEvent | src/bounded/program.rs:349-351 | an event whose action writes nothing empties a seeded slot |
| ConfirmProtocol.ReservedKeysAreNeverWritten | src/bounded/witness.rs:183-196 | no run writes a reserved key |

## Left out

- The per-kind payload tables (`update_field`, `update_nested`, `replace_binding`): one abstract update table per node stands for them, which keeps a node's id and children.
- The wire codec, canonical JSON, SHA-256 and `encode_node`: parameters, with decode undoing encode and an injective encoding, link and payload as stated hypotheses.
- Float rounding inside expressions, the decimal kernel, string search, case mapping, number parsing and unit parsing: total functions of the right result tag.
- Error texts: refusals carry their kind and the names or values that decide them, not their wording; a unit mismatch does not carry the expression it met in, nor an unknown column the columns there are.
- TreeOps.ApplyOne: the records a refused op had already pushed are not specified, because `apply` discards them.
- EdgeProtocol.StepKeeps: one fixed seed per session is assumed, as the comment on `activate` allows; the checkpoint is read in the step that folds, so a checkpoint written between those two reads is seen whole.
- EdgeProtocol.SupersededWritesNothing: stores other than the in-memory reference store are not modelled, and a store that fails after writing is not either.
- Chain.HeadDeterminesHistory: assumes no collision, and no record hash equal to the genesis hash.
- DiffGuarantee.DiffRebuildsTarget: the comment's promise for all trees is false, so it is stated under its hypotheses; `DiffExact` has the exact condition for trees of unique ids.
- MergeLaws.MergePicksFacets: traits the merge rebuilds empty (tooltip, visibility, fallback) are not facets.
- Rewrites.BindKeepsMeaning: one direction for a whole expression, because another operand that refuses first can hide the difference; `PowerBindsExactly` has both directions where it arises.
- Exprs.ResolveUnits: what the unit of the result means physically is not modelled; the unit algebra is a parameter.
- Cells: integers are unbounded where the source computes on `i64`, so an `i64` overflow in `add`, `sub`, `mul` or a day difference is not modelled; int arithmetic that the source routes through doubles is a kernel parameter.
- Power.PowIntExact: the first square wraps as in a release build; the panic of a debug build at that square is not modelled.
- DiffCorrect.DiffExact: for unique ids in the first tree; a find reaches only the first holder of a repeated id, so the script's edits of the others land elsewhere.
- SortOrders.FittingSortIsStable: asks that decimal cells hold decimal texts and that the kernel's float and decimal comparisons are total orders; over columns of mixed families only the permutation is stated.
- Windows.EvalWindow: the mean of a rolling window is a parameter over the floats of its positions.
- Verbs.EvalGroupBy: what one aggregate computes is a parameter.
- The substitution of list params, joins, unions, pivots, unpivots, limits, filters and projections: they would add easy members.
- Ratios.Natural.ToF64: the value a double holds is modelled as an exact natural number; the branch at or below 64 bits is the language's own conversion and is taken to round to nearest, ties to even.
- PrimeRatio.Ratio.AddFactor: the trial divisor's square is an unbounded number, so its 64-bit overflow for factors near the top of the range is not modelled; the scale tables stay far below it.
- PrimeRatio.ScaleOf: takes a unit's factors with their table rows looked up; the tables and the division of two units are not part of this model.
- Registry: float bounds are reals, so a NaN bound is not modelled; strings have one length and one order.
- GridEdits: a table holds one schema entry per column and columns of one length; the panics that ragged tables meet in the source are not modelled. Strings are ordered by code unit.
- GridDelta.GridEditDelta: exactness asks that no cell is unequal to itself (no NaN) and that equal cells have equal tokens.
- GridHistory.UndoRedoEveryRun: a whole pipeline is a parameter that keeps tables aligned and fitting.
- BoundedFold: the fold lives in a crate that is not part of this model; it is written as the left fold the witness describes, with a write that resolves to nothing refused.
- BoundedLoop.BoundedProgram.HandleEvent: per-kind event legitimacy and value-space checks are one host predicate, and the tree cost walk a host function.
- `structural_children` and `replace_children` of `src/bounded/resolve.rs`: their per-kind tables are the model's `children` field.
- The FFI, the clients, rendering, the gate, envelopes, elicitation, introspection and file-backed sinks.
