# BREATH bookkeeping in Dafny

BREATH (Bayesian REconstruction of Ancestral Transmission Histories) is a
BEAST 2 package. It infers who infected whom from a time-scaled phylogeny. In
BREATH every branch of the tree carries a *block* of infections:

- a block count: -1 means no infection, 0 means one, c > 0 means c + 1;
- two fractions of the branch length where the block starts and ends.

A colouring assigns each node the host it lies in. The likelihood splits the
tree into one segment per host and scores each segment's coalescent
intervals. MCMC operators add, remove and move infections.

This project models the discrete bookkeeping of that machinery and proves its
properties:

- `SegmentIntervals`: the per-host `SegmentIntervalList`. It keeps time-sorted
  events, sweeps them into intervals and lineage counts, and answers the
  accessors. The sweep is specified by a ghost function, `Intervals`.
- `SegmentCollection`: `collectSegments`, which distributes the nodes of a
  coloured tree into one segment per colour. It adds block-top SAMPLE events,
  sets birth times and calculates every segment's intervals.
- `TransmissionLikelihood`: the parameter repair of `initAndValidate` /
  `sanityCheck`, the control skeleton of `calculateLogP` with its
  short-branch penalty, and the `updateColours` cache flag.
- `BlockOperators`, `InfectionMovers`, `AdjacentMovers` and `AddOrDelete`: the
  four block-editing proposal operators. The Randomizer draws are method
  parameters. Each proposal becomes a deterministic update of the parameter
  vectors, with "nothing else changes" frames. It reports `Rejected` (BEAST's
  log Hastings ratio of minus infinity), `Proposed`, or `Err(fault)` for a
  Java exception.
- `RootMovers`: the origin/root-height co-shift and the
  performance-suggestion clamp of `OriginAndRootHeightMover`.
- `Growth`: the `LinearGrowth` population function.

These modules support the ones above:

- `TreeArena`: the tree as an arena of sequences (parent, children, height,
  depth, leaf count; root at the last index). The depth witnesses acyclicity.
- `Parameters`: BEAST's `RealParameter` / `IntegerParameter` as classes with
  a value vector and bounds.
- `Scans`: prefix sums and the k-th-element / strictly-inside predicates,
  which are the specifications of the operators' scans.
- `Blocks`: the block rule, `BlockState` (the three block parameters as one
  value, which the operators' specification functions map old to new), and the
  shared scan over branch lengths.
- `BranchEdits`: the one-branch edits shared by the two infection movers.
- `Doubles`: the infinities and NaN of IEEE doubles.
- `Outcomes`: results and faults.

The colouring (`ColourProvider`), its validation (`Validator`), the
`TransmissionSet` of the transmission2 package and all likelihood numerics are
code this model does not contain. Their results enter as parameters: a
colouring, a success flag, a validity flag, infection counts, or the
coalescent and transmission log-likelihood values.

## Model

| member | source | states |
|---|---|---|
| SegmentIntervals.SearchRange | src/breath/distribution/TransmissionTreeLikelihood.java:587 | the probes of Collections.binarySearch on a[low..high]: a non-negative result lies in the range and indexes the key; a negative result -p-1 has p between low and high+1 |
| SegmentIntervals.InsertionIndex | src/breath/distribution/TransmissionTreeLikelihood.java:587-590 | the index addEvent inserts at when it does not append, the found index or the insertion point, is at most the list length |
| SegmentIntervals.SearchRangeSplits | src/breath/distribution/TransmissionTreeLikelihood.java:587-590 | on a sorted list, when everything below low is smaller than the key and everything above high larger, a missing key's insertion point has only smaller elements before it and only larger ones from it on |
| SegmentIntervals.BinarySearch | src/breath/distribution/TransmissionTreeLikelihood.java:587-590 | the while loop returns exactly SearchRange over the whole list: a non-negative result indexes the key; on a sorted list a negative result -p-1 has every element before p below the key and every element from p on above it |
| SegmentIntervals.InsertionPoint | src/breath/distribution/TransmissionTreeLikelihood.java:587-590 | returns InsertionIndex; on a sorted list every element before it is no larger than the key and every element from it on no smaller |
| SegmentIntervals.InsertSorted | src/breath/distribution/TransmissionTreeLikelihood.java:582-594 | inserting a value at a position whose left side is no larger and whose right side is no smaller keeps a sorted list sorted |
| SegmentIntervals.SegmentIntervalList.constructor | src/breath/distribution/TransmissionTreeLikelihood.java:430-445 | a new list has no events, no interval arrays, interval count 0 and birth time 0 |
| SegmentIntervals.SegmentIntervalList.AddEvent | src/breath/distribution/TransmissionTreeLikelihood.java:582-594 | the time and its type are inserted at the same index of both lists, so both grow by one and stay paired, and times stay sorted; when the list is empty or the time exceeds the last, the index is the end (an append); otherwise it is InsertionIndex, the index Collections.binarySearch finds or its insertion point, so an equal time goes where the search hits it; nothing else changes |
| SegmentIntervals.ScanGroup | src/breath/distribution/TransmissionTreeLikelihood.java:533-556 | the do-while loop consumes exactly the group the ghost function GroupFrom describes: SAMPLEs at the same time, closed by at most one COALESCENT |
| SegmentIntervals.GroupShape | src/breath/distribution/TransmissionTreeLikelihood.java:533-556 | with multifurcationLimit 0 a group shares one time, holds only SAMPLEs before its last event, removes one lineage exactly when it ends in a COALESCENT, and adds the rest |
| SegmentIntervals.GroupMaximal | src/breath/distribution/TransmissionTreeLikelihood.java:533-556 | a group of SAMPLEs stops only at the end of the list or before an event at another time, so SAMPLEs at one time are merged into one group |
| SegmentIntervals.CloseGroup | src/breath/distribution/TransmissionTreeLikelihood.java:558-576 | the interval recording after a group writes into the arrays exactly what one step of the ghost sweep records, and the new start and lineage count match it |
| SegmentIntervals.FillIntervals | src/breath/distribution/TransmissionTreeLikelihood.java:521-577 | the while loop leaves intervals[..count] and lineageCounts[..count] equal to the widths and lineage counts of the ghost sweep Intervals(times, events) |
| SegmentIntervals.SegmentIntervalList.CalculateIntervals | src/breath/distribution/TransmissionTreeLikelihood.java:509-580 | the arrays are reallocated exactly when missing or of the wrong size; with events present the list ends Computed (its arrays hold Intervals(times, events), whose groups merge same-time SAMPLEs by GroupMaximal); times and events are unchanged |
| SegmentIntervals.GroupStepKeeps | src/breath/distribution/TransmissionTreeLikelihood.java:527-576 | one outer iteration of the sweep keeps the sweep invariant (recorded widths span consecutive closing events, lineage counts are the net count of events before each closer) |
| SegmentIntervals.GroupFromIsGroup | src/breath/distribution/TransmissionTreeLikelihood.java:533-556 | the group the do-while loop consumes from any position satisfies the group description the sweep invariant uses |
| SegmentIntervals.AddedRecords | src/breath/distribution/TransmissionTreeLikelihood.java:558-566 | a group with SAMPLEs records the open interval (width finish - start, the current lineage count) when it is not the first or has positive width, keeping the sweep invariant |
| SegmentIntervals.AddedSkips | src/breath/distribution/TransmissionTreeLikelihood.java:558-566 | a first group with SAMPLEs at the start time records nothing, keeping the sweep invariant |
| SegmentIntervals.RemovedRecords | src/breath/distribution/TransmissionTreeLikelihood.java:568-576 | a group ending in a COALESCENT records an interval at its time with the lineage count after its SAMPLEs, then removes the lineage, keeping the sweep invariant |
| SegmentIntervals.SweepResult | src/breath/distribution/TransmissionTreeLikelihood.java:509-580 | the sweep run to the end records every interval, and on sorted times the widths sum to last time minus first time |
| SegmentIntervals.IntervalsRecorded | src/breath/distribution/TransmissionTreeLikelihood.java:509-580 | Intervals(times, events) records every interval; on sorted times its widths sum to times[last] - times[0] |
| SegmentIntervals.IntervalCountBound | src/breath/distribution/TransmissionTreeLikelihood.java:509-580 | the widths, lineage counts and closing events are equally many, and there are no more intervals than events |
| SegmentIntervals.IntervalLineages | src/breath/distribution/TransmissionTreeLikelihood.java:566-575 | the lineage count of interval i is the number of SAMPLE events before its closing event minus the number of COALESCENT events before it |
| SegmentIntervals.CoalescenceCloses | src/breath/distribution/TransmissionTreeLikelihood.java:545-550 | every COALESCENT event closes an interval of its own, and the closing events strictly increase |
| SegmentIntervals.IntervalWidths | src/breath/distribution/TransmissionTreeLikelihood.java:558-576 | on sorted times each width is the time between its closing event and the previous closer (or the first time), is non-negative, and the widths sum to the total duration |
| SegmentIntervals.NetStep | src/breath/distribution/TransmissionTreeLikelihood.java:541-545 | adding an event to a prefix changes the net lineage count by +1 for SAMPLE and -1 otherwise |
| SegmentIntervals.NetSplit | src/breath/distribution/TransmissionTreeLikelihood.java:562-575 | the net lineage count of a prefix splits at any point into the counts of the two parts |
| SegmentIntervals.NetSamples | src/breath/distribution/TransmissionTreeLikelihood.java:541-543 | a run of b - a SAMPLEs raises the net lineage count by b - a |
| SegmentIntervals.SegmentIntervalList.GetInterval | src/breath/distribution/TransmissionTreeLikelihood.java:462-466 | an index below 0 or above intervalCount is an IllegalArgumentException; it succeeds exactly on 0..intervalCount within the array |
| SegmentIntervals.SegmentIntervalList.GetLineageCount | src/breath/distribution/TransmissionTreeLikelihood.java:468-472 | an index at or above intervalCount is an IllegalArgumentException; it succeeds exactly on 0..intervalCount-1 within the array |
| SegmentIntervals.SegmentIntervalList.GetCoalescentEvents | src/breath/distribution/TransmissionTreeLikelihood.java:474-482 | the same bounds as getLineageCount, plus the next entry the difference reads |
| SegmentIntervals.SegmentIntervalList.GetIntervalType | src/breath/distribution/TransmissionTreeLikelihood.java:484-492 | succeeds exactly when getCoalescentEvents does; COALESCENT if and only if the coalescent events are positive, SAMPLE if and only if negative, NOTHING otherwise |
| SegmentIntervals.SegmentIntervalList.GetTotalDuration | src/breath/distribution/TransmissionTreeLikelihood.java:494-496 | defined exactly when the list holds an event (times.get(0) throws otherwise) |
| SegmentIntervals.LineageCountMeaning | src/breath/distribution/TransmissionTreeLikelihood.java:468-472 | on a computed list getLineageCount(i) succeeds exactly for the recorded intervals and is the net number of lineages before the interval's closing event |
| SegmentIntervals.IntervalMeaning | src/breath/distribution/TransmissionTreeLikelihood.java:462-466 | on a computed list getInterval(i), for i below intervalCount, is the time between consecutive closing events and is non-negative |
| SegmentIntervals.TotalDurationMeaning | src/breath/distribution/TransmissionTreeLikelihood.java:494-496 | on a computed list getTotalDuration equals the sum of the recorded interval widths |
| SegmentIntervals.CoalescentEventsMeaning | src/breath/distribution/TransmissionTreeLikelihood.java:474-482 | for an interval that is not the last, getCoalescentEvents is the number of COALESCENT minus SAMPLE events between its closer and the next |
| SegmentCollection.ZipInsert | src/breath/distribution/TransmissionTreeLikelihood.java:582-594 | inserting a (time, type) pair at one index of both lists adds exactly that pair to the multiset of pairs |
| SegmentCollection.NewSegments | src/breath/distribution/TransmissionTreeLikelihood.java:618-630 | one slot per node; a slot holds a fresh, empty, distinct segment list exactly when that colour occurs in the colouring |
| SegmentCollection.AddTo | src/breath/distribution/TransmissionTreeLikelihood.java:638 | an addEvent on the list of colour c adds that event to colour c's events and leaves every other list as it was |
| SegmentCollection.NodeEventsCases | src/breath/distribution/TransmissionTreeLikelihood.java:632-650 | node i adds its own event (SAMPLE for a leaf, COALESCENT otherwise) to its own colour, a block-top SAMPLE at height + end*length to its parent's colour when the colour changes on its branch, and nothing elsewhere |
| SegmentCollection.BirthCases | src/breath/distribution/TransmissionTreeLikelihood.java:639-653 | the root writes its height as its colour's birth time, a node where a colour starts writes height + start*length, other nodes write nothing |
| SegmentCollection.RootStep | src/breath/distribution/TransmissionTreeLikelihood.java:651-653 | processing the root adds its event to its colour and sets that colour's birth time to its height |
| SegmentCollection.SameColourStep | src/breath/distribution/TransmissionTreeLikelihood.java:632-642 | processing a non-root node of its parent's colour adds only its own event, and no birth time changes |
| SegmentCollection.ColourStartStep | src/breath/distribution/TransmissionTreeLikelihood.java:639-650 | processing a node where a colour starts adds its event to its colour and the block-top SAMPLE to the parent's colour, and sets its colour's birth time |
| SegmentCollection.ColourStartEvents | src/breath/distribution/TransmissionTreeLikelihood.java:642-646 | the events part of the colour-start step |
| SegmentCollection.AddNode | src/breath/distribution/TransmissionTreeLikelihood.java:633-653 | one iteration of the node loop moves every segment list from the state after nodes 0..i-1 to the state after nodes 0..i |
| SegmentCollection.AddRoot | src/breath/distribution/TransmissionTreeLikelihood.java:651-653 | the loop iteration for the root |
| SegmentCollection.AddColourStart | src/breath/distribution/TransmissionTreeLikelihood.java:639-650 | the loop iteration for a node whose colour differs from its parent's |
| SegmentCollection.AddSameColour | src/breath/distribution/TransmissionTreeLikelihood.java:632-642 | the loop iteration for a non-root node of its parent's colour |
| SegmentCollection.AddAllNodes | src/breath/distribution/TransmissionTreeLikelihood.java:632-654 | after the node loop every segment list holds exactly the events and birth time all nodes gave its colour |
| SegmentCollection.OwnEventCollected | src/breath/distribution/TransmissionTreeLikelihood.java:632-638 | every node's own event is in its colour's segment |
| SegmentCollection.BlockTopCollected | src/breath/distribution/TransmissionTreeLikelihood.java:642-646 | every branch where the colour changes puts its block-top SAMPLE into the parent colour's segment |
| SegmentCollection.LastBirthWins | src/breath/distribution/TransmissionTreeLikelihood.java:649-653 | a colour's birth time is the last value written into it |
| SegmentCollection.UnwrittenBirth | src/breath/distribution/TransmissionTreeLikelihood.java:628 | a colour nobody writes keeps the fresh list's birth time 0 |
| SegmentCollection.StartedColourBirth | src/breath/distribution/TransmissionTreeLikelihood.java:647-649 | a non-root colour that starts on one branch only has birth time height + start*length of that branch |
| SegmentCollection.SetBirth | src/breath/distribution/TransmissionTreeLikelihood.java:656-659 | writing the birth time of one list changes only that list's birth time |
| SegmentCollection.CalculateOne | src/breath/distribution/TransmissionTreeLikelihood.java:661-665 | calculateIntervals on the list of colour c finishes it (intervals computed, events and birth time kept) and leaves the other lists as they were |
| SegmentCollection.FinishSegments | src/breath/distribution/TransmissionTreeLikelihood.java:656-665 | the root colour's birth time becomes the origin, or the root height with no origin; then every list is finished with its colour's events and birth time |
| SegmentCollection.CollectSegments | src/breath/distribution/TransmissionTreeLikelihood.java:618-669 | a fresh segment list exists exactly for each colour present, and each holds exactly the events its colour receives (own node events and block-top SAMPLEs), the final birth time, and calculated intervals |
| TransmissionLikelihood.SanityCheck | src/breath/distribution/TransmissionTreeLikelihood.java:182-195 | the fraction parameter is resized to n, a negative lower bound becomes 0 and an upper bound above 1 becomes 1; other bounds are kept |
| TransmissionLikelihood.RepairBlockCount | src/breath/distribution/TransmissionTreeLikelihood.java:111-120 | a block count of the wrong dimension is resized to n with the root entry set to -1; a lower bound below -1 is raised to -1; the upper bound is kept |
| TransmissionLikelihood.TransmissionTreeLikelihood.constructor | src/breath/distribution/TransmissionTreeLikelihood.java:96-120 | initAndValidate: a fresh colour array, both flags set; each fraction parameter is Resized to n-1 entries (kept entries unchanged, new ones from its fill) with its lower bound raised to 0 and its upper bound lowered to 1; the block count keeps its values when it has n entries and is otherwise Resized to n with -1 at the root; its lower bound is raised to -1 and its upper bound kept; logP and the stored logP start at 0 |
| TransmissionLikelihood.ShortBranches | src/breath/distribution/TransmissionTreeLikelihood.java:228-234 | the number of non-root nodes among the first k whose branch is shorter than the threshold, at most k |
| TransmissionLikelihood.ShortBranchesBound | src/breath/distribution/TransmissionTreeLikelihood.java:228-234 | on a well-formed tree at most N-1 branches are penalised, the root never; a non-positive threshold penalises none |
| TransmissionLikelihood.BranchPenalty | src/breath/distribution/TransmissionTreeLikelihood.java:228-234 | the node loop adds -10000 once per short non-root branch |
| TransmissionLikelihood.LogPRange | src/breath/distribution/TransmissionTreeLikelihood.java:211-250 | calculateLogP never returns plus infinity; it returns minus infinity when the origin is below the root, the colouring fails or the validator rejects; finite terms give a finite result; NaN arises only from a NaN term or opposite infinities |
| TransmissionLikelihood.ColourOnlyPenalty | src/breath/distribution/TransmissionTreeLikelihood.java:228-238 | with colourOnly set, an accepted colouring scores exactly -10000 per short non-root branch |
| TransmissionLikelihood.TransmissionTreeLikelihood.CalcColourAtBase | src/breath/distribution/TransmissionTreeLikelihood.java:259-262 | the colouring is stored and updateColours becomes the colour provider's success result, which is also returned |
| TransmissionLikelihood.TransmissionTreeLikelihood.GetColour | src/breath/distribution/TransmissionTreeLikelihood.java:956-961 | recolours exactly when updateColours is set, otherwise keeps the cached colouring; then reads entry i, out of range being an index exception |
| TransmissionLikelihood.TransmissionTreeLikelihood.GetColouring | src/breath/distribution/TransmissionTreeLikelihood.java:963-968 | recolours exactly when updateColours is set and returns the colour array itself |
| TransmissionLikelihood.TransmissionTreeLikelihood.Restore | src/breath/distribution/TransmissionTreeLikelihood.java:1000-1003 | sets updateColours and, as Distribution's restore() does, puts back the logP saved by store(); nothing else changes |
| TransmissionLikelihood.TransmissionTreeLikelihood.RequiresRecalculation | src/breath/distribution/TransmissionTreeLikelihood.java:1006-1009 | sets updateColours, returns true, changes nothing else |
| TransmissionLikelihood.TransmissionTreeLikelihood.Collect | src/breath/distribution/TransmissionTreeLikelihood.java:240 | the segments field is the result of collectSegments on the current colouring |
| TransmissionLikelihood.TransmissionTreeLikelihood.ScoreColouring | src/breath/distribution/TransmissionTreeLikelihood.java:228-250 | after a valid colouring, logP is the penalty alone with colourOnly, otherwise the penalty plus the included terms with infinities mapped to minus infinity; segments are collected exactly when not colourOnly |
| TransmissionLikelihood.TransmissionTreeLikelihood.CalculateLogP | src/breath/distribution/TransmissionTreeLikelihood.java:199-250 | a missing origin is a NullPointerException; otherwise initialCalculation is cleared and logP is LogPOutcome; the colouring is recomputed only when the origin is not below the root; segments are collected only on the full path |
| Doubles.Add | src/breath/distribution/TransmissionTreeLikelihood.java:231-249 | double addition: NaN exactly for a NaN operand or opposite infinities, finite exactly for two finite operands |
| BlockOperators.AtLeastZero | src/breath/operator/BlockOperator.java:40-43 | a negative bound is clamped to 0, others kept |
| BlockOperators.CheckBounds | src/breath/operator/BlockOperator.java:40-81 | initAndValidate succeeds exactly when the clamped bounds are at most 1, each upper at least its lower, and the start bounds at most the end bounds; otherwise IllegalArgumentException |
| BlockOperators.BlockOperator.InitAndValidate | src/breath/operator/BlockOperator.java:34-81 | an operator is created exactly when the fraction bounds pass the checks, keeping the clamped bounds; otherwise IllegalArgumentException |
| Blocks.Ordered | src/breath/operator/BlockOperator.java:124-130 | the swap puts two draws in order: the result is the same pair, smaller first |
| Blocks.TreeLength | src/breath/operator/BlockOperator.java:273-276 | the loop over the nodes sums every branch length |
| Blocks.FirstStrictlyInside | src/breath/operator/BlockOperator.java:282-291 | subtracting lengths while the point stays positive finds a branch exactly when one holds the point strictly inside, with the remainder measured from that branch's start |
| Blocks.FramedTwice | src/breath/operator/InfectionMover.java:89-95 | two edits that each change only one branch's fractions together change only those two branches' fractions |
| BlockOperators.SharedFraction | src/breath/operator/BlockOperator.java:119 | lowerStart + u*(upperEnd - lowerStart) lies in [lowerStart, upperEnd), closed at upperEnd only when the two bounds coincide |
| BlockOperators.EvenBlock | src/breath/operator/BlockOperator.java:399-401 | the fractions 1/k and (k-1)/k with k = count+2 keep the block rule and lie strictly in (0,1); a count of 0 gives 1/2 and 1/2 |
| BlockOperators.RemovalWeight | src/breath/operator/BlockOperator.java:219-235 | a branch's weight is 0, 1 or 2, and positive only when the branch carries an infection |
| BlockOperators.RemovalWeights | src/breath/operator/BlockOperator.java:219-235 | the per-branch weights, non-negative |
| BlockOperators.EligibleCountZero | src/breath/operator/BlockOperator.java:219-236 | the eligible count is 0 exactly when every branch has no infection, or has one infection with its own and its parent's colour both sampled colours (non-root) |
| BlockOperators.Picked | src/breath/operator/BlockOperator.java:104-110 | the redraw loop stops at the first draw whose branch carries an infection, or at the last draw |
| BlockOperators.Inserted | src/breath/operator/BlockOperator.java:296-333 | the state after one infection more on branch i: the count rises by 1, only branch i's fractions may change, and the block rule is kept |
| BlockOperators.Removed | src/breath/operator/BlockOperator.java:346-378 | the state after one infection fewer on branch i: from -1 nothing changes, otherwise the count drops by 1; only branch i's fractions may change, and the block rule is kept |
| BlockOperators.MovedBoundaries | src/breath/operator/BlockOperator.java:101-133 | the state after the boundary move on branch i: the counts are unchanged, only branch i's fractions may change, and the block rule is kept |
| BlockOperators.BlockOperator.constructor | src/breath/operator/BlockOperator.java:34-38 | the inputs are stored and the eligible count starts at 0 |
| BlockOperators.BlockOperator.CalcEligibleInfectionCount | src/breath/operator/BlockOperator.java:209-238 | the field eligibleInfectionCount becomes the sum of the weights: 2 per count > 0, 1 per count 0 unless both colours are sampled, 0 otherwise |
| BlockOperators.BlockOperator.ChooseInfectionToRemove | src/breath/operator/BlockOperator.java:240-267 | null exactly when the eligible count is 0; otherwise the first branch where the cumulative weight exceeds k, which has positive weight, with the remainder k - cumulative weight |
| BlockOperators.BlockOperator.ChooseBlockToInsert | src/breath/operator/BlockOperator.java:269-292 | succeeds exactly when the point u*length falls strictly inside a branch, which is then the branch returned (never the root); otherwise the programmer-error exception |
| BlockOperators.BlockOperator.MoveBoundaries | src/breath/operator/BlockOperator.java:101-133 | the new state is MovedBoundaries of the old one at the picked branch: the block count is untouched; count -1 changes nothing; count 0 sets start = end = the shared fraction; count > 0 sets the ordered pair; only the picked branch changes |
| BlockOperators.BlockOperator.InsertInfection | src/breath/operator/BlockOperator.java:296-333 | the new state is Inserted of the old one: the count rises by exactly 1; -1 to 0 sets start = end = f; 0 to 1 sets the ordered pair of draws; higher counts keep the fractions; no other branch changes; the eligible count is then recomputed for the colouring of the new counts |
| BlockOperators.BlockOperator.RemoveInfection | src/breath/operator/BlockOperator.java:346-378 | the new state is Removed of the old one: count -1 changes nothing; otherwise the count drops by exactly 1; 1 to 0 copies one fraction onto the other (coin); other counts keep the fractions; the root entry of 1 is an index exception |
| BlockOperators.BlockOperator.InsertInfection0 | src/breath/operator/BlockOperator.java:396-403 | the count rises by 1 and the fractions become 1/k and (k-1)/k for the new count |
| BlockOperators.BlockOperator.RemoveInfection0 | src/breath/operator/BlockOperator.java:405-419 | count -1 throws with nothing changed; otherwise the count drops by 1 and the fractions become 1/k and (k-1)/k |
| BlockOperators.BlockOperator.RemoveOne | src/breath/operator/BlockOperator.java:157-169 | rejected exactly when nothing is eligible, with nothing changed; otherwise the branch changed is the k-th eligible one (IsKth over the removal weights), it had an infection, and the new state is Removed of the old one at that branch, so its fractions follow the removal rule and no other branch changes; it throws IndexOutOfBounds exactly when that branch is the root with count 1; a proposed removal lowers the total by 1; the eligible count is that of the counts before the removal |
| BlockOperators.BlockOperator.InsertOne | src/breath/operator/BlockOperator.java:170-176 | never rejected; it fails (programmer error, nothing changed) exactly when the point u*length is strictly inside no branch; otherwise the new state is Inserted of the old one at the branch holding the point strictly inside, so only that branch changes; a proposed insertion raises the total by 1 and leaves the eligible count of the colouring after the insertion |
| BlockOperators.BlockOperator.Proposal | src/breath/operator/BlockOperator.java:86-179 | the boundary move gives MovedBoundaries at the picked branch and keeps the counts; rejected exactly when counts are to change, the removal comes first and nothing is eligible, with nothing changed; a removal alone gives Removed at the k-th eligible branch; an insertion alone gives Inserted at the branch holding the drawn point, failing exactly when no branch holds it; keepConstantCount gives Inserted after Removed at those two branches; the total count changes by 0, -1 or +1 accordingly; after an insertion the eligible count is that of the new colouring, after a removal alone that of the old one; the block rule is kept |
| BranchEdits.TakeOne | src/breath/operator/InfectionMover3.java:117-144 | one infection fewer on branch i, and the new state is Taken of the old one: at -1 the fractions stay, at 0 one fraction is copied onto the other (coin), above 0 both are redrawn and ordered; only branch i changes and the block rule is kept |
| BranchEdits.Taken | src/breath/operator/InfectionMover3.java:117-144 | the state after one infection fewer on branch i: that count drops by 1, only branch i's fractions may change, and the block rule is kept when the branch had an infection |
| BranchEdits.Put | src/breath/operator/InfectionMover3.java:146-164 | the state after one infection more on branch i: that count rises by 1, only branch i's fractions may change, and the block rule is kept |
| BranchEdits.PutOne | src/breath/operator/InfectionMover3.java:146-164 | one infection more on branch i, and the new state is Put of the old one: at 0 start = end = f, above 0 an ordered redraw; only branch i changes and the block rule is kept |
| InfectionMovers.MoveWeight | src/breath/operator/InfectionMover.java:235-236 | the weight min(bc+1, 2) is in [0,2], positive exactly when the branch has an infection, 2 for counts of 1 or more |
| InfectionMovers.PathWeights | src/breath/operator/InfectionMover.java:233-236 | the weights of the path nodes, non-negative |
| InfectionMovers.KthOnPath | src/breath/operator/InfectionMover.java:233-237 | the scan stops at the first path node where the cumulative weight exceeds k, which has an infection; it runs past the end exactly when k is at least the total path weight |
| InfectionMovers.PathLengths | src/breath/operator/InfectionMover.java:320-321 | the branch lengths of the path nodes |
| InfectionMovers.AllNodesLengths | src/breath/operator/InfectionMover.java:119-125 | the path of all nodes has the tree's branch lengths, non-negative, with a non-negative total |
| InfectionMovers.OneBranchHolds | src/breath/operator/InfectionMover.java:92-95 | on the sibling's one-node path the drawn point u * length lies in the branch exactly when its length is positive |
| InfectionMovers.FirstFromBelow | src/breath/operator/InfectionMover.java:319-360 | the scan subtracting path lengths stops at the node holding the point (lower end included), and runs off the end exactly when no node holds it |
| InfectionMovers.ScanLands | src/breath/operator/InfectionMover.java:118-125 | with the whole tree length, the scan fails exactly when that length is 0 |
| TreeArena.Sibling | src/breath/operator/InfectionMover.java:92 | the other child of the parent: a different node with the same parent |
| InfectionMovers.InfectionMover.constructor | src/breath/operator/InfectionMover.java:35-41 | the inputs are stored |
| InfectionMovers.InfectionMover.RemoveInfectionFromPath | src/breath/operator/InfectionMover.java:231-310 | fails (programmer error, nothing changed) exactly when k is at least the total weight; otherwise the chosen node is the k-th by weight on the path, it had an infection, and the new state is Taken of the old one at that node: its count drops by exactly 1, at -1 its fractions stay, at 0 one is copied onto the other by the coin, above 0 an ordered redraw, and no other branch changes |
| InfectionMovers.InfectionMover.InsertInfectionToPath | src/breath/operator/InfectionMover.java:312-361 | succeeds exactly when some path node's length exceeds the running remainder, and then returns that node; the new state is Put of the old one there: its count rises by exactly 1, a new count of 0 gives start = end = f, a higher one an ordered redraw, and no other branch changes; otherwise it throws with nothing changed |
| InfectionMovers.InfectionMover.TakeFrom | src/breath/operator/InfectionMover.java:89 | the removal on a one-node path: the new state is Taken of the old one at the branch, its count drops by 1 and so does the total |
| InfectionMovers.InfectionMover.PutOnSibling | src/breath/operator/InfectionMover.java:92-95 | the infection is reinserted on the sibling: the new state is Put of the old one there, the count rises by 1; a zero-length sibling throws with nothing changed |
| InfectionMovers.InfectionMover.PutAnywhere | src/breath/operator/InfectionMover.java:118-125 | the infection goes to the non-root branch holding the drawn point u * length (lower end included): the new state is Put of the old one there, the count rises by 1; a tree of zero length throws with nothing changed |
| InfectionMovers.AnywhereLands | src/breath/operator/InfectionMover.java:118-125 | the scan over all nodes with the whole tree length finds a branch exactly when the length is positive, and the node found holds the drawn point |
| InfectionMovers.InfectionMover.SiblingMove | src/breath/operator/InfectionMover.java:81-96 | one infection moves from the drawn branch to its sibling: the new state is Put on the sibling after Taken on the drawn branch, the sum is kept and no third branch's fractions change; a sibling of length 0 throws after the removal, leaving Taken of the old state |
| InfectionMovers.InfectionMover.AnywhereMove | src/breath/operator/InfectionMover.java:106-125 | one infection moves from the drawn branch to the branch holding the drawn point u * length (possibly the same): the new state is Put there after Taken on the drawn branch, the sum is kept and no third branch's fractions change; a tree of length 0 throws after the removal, leaving Taken of the old state |
| InfectionMovers.InfectionMover.Proposal | src/breath/operator/InfectionMover.java:78-136 | a branch without infection rejects before any change; otherwise the sibling move gives Put on the sibling after Taken on the drawn branch and the anywhere move gives Put on the branch holding the drawn point after Taken, only those branches' fractions change and the total count is kept; it throws (leaving Taken of the old state) exactly when the chosen length is 0, and is proposed exactly when the new colouring is valid |
| InfectionMovers.InfectionMover.ClimbSide | src/breath/operator/InfectionMover.java:375-412 | which endpoint climbs: the lower one, and on equal heights the rule for zero-length branches; the climbing node is never an ancestor of the other |
| InfectionMovers.ClimbStart | src/breath/operator/InfectionMover.java:368-372 | the climb starts with both endpoints on the path and below every common ancestor |
| InfectionMovers.ClimbFirst | src/breath/operator/InfectionMover.java:377-379 | climbing from n1 while it is not above n2 never reaches the root or passes a common ancestor, and the path grows by n1's parent |
| InfectionMovers.ClimbSecond | src/breath/operator/InfectionMover.java:380-382 | the same for climbing from n2 |
| InfectionMovers.InfectionMover.GetPathExcludingMRCA | src/breath/operator/InfectionMover.java:367-419 | the result is exactly the nodes strictly between each endpoint and their most recent common ancestor (endpoints included unless one is the MRCA), and never the MRCA |
| InfectionMovers.Without | src/breath/operator/InfectionMover.java:417 | the list with every occurrence of x removed |
| InfectionMovers.RemoveAll | src/breath/operator/InfectionMover.java:417 | the `while (path.remove(n1))` loop leaves exactly Without(path, n1) |
| InfectionMovers.AncestorsChain | src/breath/operator/InfectionMover.java:374-415 | two ancestors of a node are ordered by ancestry, the fact the climb's termination and MRCA proof rest on |
| InfectionMovers.LowerNotAbove | src/breath/operator/InfectionMover.java:377-382 | a lower node is not an ancestor of a higher one, so climbing the lower one never passes the other |
| InfectionMovers.LongBranchNotAbove | src/breath/operator/InfectionMover.java:386-392 | of two nodes at equal height, one with a positive branch length is not below the other |
| AdjacentMovers.BranchesWithInfections | src/breath/operator/InfectionMover3.java:55-60 | at most 3 (2 at the root), and 0 exactly when neither the own branch (non-root) nor either child branch carries an infection |
| AdjacentMovers.ChoiceAdjacent | src/breath/operator/InfectionMover3.java:64-93 | the source and destination are two different adjacent branches, neither the root's, and the source has an infection |
| AdjacentMovers.ChoiceCoversSources | src/breath/operator/InfectionMover3.java:64-80 | every adjacent branch with an infection is the source for some draw below numBranchesWithInfections |
| AdjacentMovers.MoveKeepsSum | src/breath/operator/InfectionMover3.java:69-93 | moving one infection between two branches keeps the sum of counts |
| AdjacentMovers.Moved | src/breath/operator/InfectionMover3.java:69-164 | one infection from branch s to branch e: the counts move by one, their sum is kept, only the two branches' fractions may change, and the block rule is kept when s had an infection |
| AdjacentMovers.MovedBranches | src/breath/operator/InfectionMover3.java:117-164 | the source keeps its fractions at -1, gets start = end copied from the end (heads) or the start (tails) at 0 and the removal draws in order above; the destination gets start = end = f at 0 and the insertion draws in order above |
| AdjacentMovers.InfectionMover3.constructor | src/breath/operator/InfectionMover3.java:32-42 | the inputs are stored |
| AdjacentMovers.InfectionMover3.PickBranches | src/breath/operator/InfectionMover3.java:64-93 | the branch choice of proposal equals Choice, and yields distinct non-root branches with an infection at the source |
| AdjacentMovers.InfectionMover3.MoveOne | src/breath/operator/InfectionMover3.java:69-93 | the new state is Moved of the old one: the counts lose one at the source and gain one at the destination, the sum is kept, no other branch's fractions change, and the block rule is kept |
| AdjacentMovers.InfectionMover3.Proposal | src/breath/operator/InfectionMover3.java:44-113 | with no adjacent infection it rejects with nothing changed; otherwise the new state is MovedAdjacent of the old one (the move between the branches Choice names), the sum and the root entry are kept, and it is proposed exactly when the new colouring is valid |
| AddOrDelete.EligibleWeights | src/transmission2/AddOrDeleteInfectionOperator.java:108-116 | the per-branch eligible infections, non-negative |
| AddOrDelete.Eligible | src/transmission2/AddOrDeleteInfectionOperator.java:103-118 | the eligible count is non-negative |
| AddOrDelete.EligibleZero | src/transmission2/AddOrDeleteInfectionOperator.java:103-118 | the eligible count is 0 exactly when every branch has no infections or one infection between two sampled colours |
| AddOrDelete.CountEligible | src/transmission2/AddOrDeleteInfectionOperator.java:106-117 | the loop's sum is Eligible; it throws (the root's missing parent) exactly when the root has one infection and a sampled colour |
| AddOrDelete.KthEligible | src/transmission2/AddOrDeleteInfectionOperator.java:129-142 | for k below the eligible count, the first index where the cumulative weight exceeds k |
| AddOrDelete.AddOrDeleteInfectionOperator.constructor | src/transmission2/AddOrDeleteInfectionOperator.java:30-33 | the inputs are stored |
| AddOrDelete.AddOrDeleteInfectionOperator.CalcEligableInfectionCount | src/transmission2/AddOrDeleteInfectionOperator.java:103-118 | the colouring is stored and the eligible count returned; a null-pointer exception exactly when the scan reaches the root's parent |
| AddOrDelete.AddOrDeleteInfectionOperator.ChooseInfectionToRemove | src/transmission2/AddOrDeleteInfectionOperator.java:120-143 | -1 exactly when nothing is eligible; otherwise the first index where the cumulative eligible weight exceeds k |
| AddOrDelete.AddOrDeleteInfectionOperator.ChooseBlockToInsert | src/transmission2/AddOrDeleteInfectionOperator.java:88-100 | succeeds exactly when the point u*length lies strictly inside a branch (never the root's); r is what is left of the point on it, strictly between 0 and the branch length |
| AddOrDelete.FractionInside | src/transmission2/AddOrDeleteInfectionOperator.java:58 | a remainder strictly inside a branch gives a fraction r/length strictly between 0 and 1 |
| AddOrDelete.Dropped | src/transmission2/AddOrDeleteInfectionOperator.java:73-78 | removing entry j: one entry fewer, entries before j kept, entries after j shifted down by one |
| AddOrDelete.DroppedEntry | src/transmission2/AddOrDeleteInfectionOperator.java:73-78 | dropping entry j removes exactly that value from the multiset of entries |
| AddOrDelete.AddOrDeleteInfectionOperator.ShiftDown | src/transmission2/AddOrDeleteInfectionOperator.java:73-78 | the shift loop and the two setDimension calls leave both vectors Dropped at j; empty vectors throw with nothing changed |
| AddOrDelete.AddOrDeleteInfectionOperator.DeleteAtNodeNumber | src/transmission2/AddOrDeleteInfectionOperator.java:68-78 | as written: both vectors are Dropped at the node number i, used as a vector position; empty vectors throw with nothing changed |
| AddOrDelete.DeleteByNodeNumberRemovesWrongEntry | src/transmission2/AddOrDeleteInfectionOperator.java:68-78 | with node numbers [3, 0] and node 0 chosen, the as-written delete keeps the transmission on node 0 and removes the one on node 3 |
| AddOrDelete.AddOrDeleteInfectionOperator.DeleteTransmissionOn | src/transmission2/AddOrDeleteInfectionOperator.java:68-78 | corrected: the first transmission on node i is removed from both vectors, node number and fraction together; the multiset of node numbers loses exactly one i; a node with no transmission fails with nothing changed |
| AddOrDelete.AddOrDeleteInfectionOperator.AddTransmission | src/transmission2/AddOrDeleteInfectionOperator.java:49-65 | both vectors grow by one with earlier entries unchanged; when the point falls inside a branch the new last entries are that node and r/length in (0,1); success exactly when it does and the eligible count can be computed; on success the eligible count field is Eligible of the inputs, on failure it is unchanged |
| AddOrDelete.AddOrDeleteInfectionOperator.DeleteTransmission | src/transmission2/AddOrDeleteInfectionOperator.java:66-83 | as written: nothing eligible rejects with nothing changed; otherwise, with i the k-th eligible branch, both vectors are Dropped at position i; it fails (NegativeArraySize, nothing changed) exactly when the vectors are empty |
| AddOrDelete.AddOrDeleteInfectionOperator.Proposal | src/transmission2/AddOrDeleteInfectionOperator.java:39-84 | as written: the tree length is the sum of branch lengths; the add branch grows both vectors by one keeping earlier entries, and when the point falls inside a branch the new last entries are that node (never the root) and r/length strictly in (0,1); the delete branch rejects with nothing changed when nothing is eligible; otherwise, with i the k-th eligible branch, it fails (NegativeArraySize, nothing changed) exactly when the vectors are empty and else leaves both vectors Dropped at position i |
| AddOrDelete.AddOrDeleteInfectionOperator.IntendedDeleteTransmission | src/transmission2/AddOrDeleteInfectionOperator.java:66-83 | corrected: nothing eligible rejects with nothing changed; otherwise the k-th eligible branch's first transmission is removed (the multiset of node numbers loses one entry for it), or the move fails when that node has none |
| AddOrDelete.AddOrDeleteInfectionOperator.IntendedProposal | src/transmission2/AddOrDeleteInfectionOperator.java:39-84 | corrected: the add branch as in Proposal; the delete branch rejects with nothing changed when nothing is eligible; otherwise, with i the k-th eligible branch, it succeeds exactly when some transmission names i, and then the multiset of node numbers loses exactly one i and both vectors are Dropped at the first position naming i; a failure is ProgrammerError with nothing changed |
| RootMovers.Ratio | src/breath/operator/OriginAndRootHeightMover.java:93-98 | the acceptance ratio clamped to [0.5, 2], equal to prob/0.3 strictly inside the clamp |
| RootMovers.PerformanceSuggestion | src/breath/operator/OriginAndRootHeightMover.java:90-105 | no suggestion with no trials or exactly when the acceptance rate is in [0.10, 0.40]; otherwise the scale factor times the clamped ratio |
| RootMovers.SuggestionBounds | src/breath/operator/OriginAndRootHeightMover.java:90-105 | a suggestion lies between half and twice the scale factor; a rate below 0.10 halves it; a rate above 0.40 raises it |
| RootMovers.MovedRoot | src/breath/operator/OriginAndRootHeightMover.java:46-55 | rejected exactly when the new root height is below the taller child; otherwise only the root height changes and the tree stays well formed |
| RootMovers.RaisedRootWellFormed | src/breath/operator/OriginAndRootHeightMover.java:50-55 | a root height at least both children's keeps every parent at least as high as its child |
| RootMovers.OriginAndRootHeightMover.constructor | src/breath/operator/OriginAndRootHeightMover.java:36-42 | the scale factor starts at the scaleFactor input |
| RootMovers.OriginAndRootHeightMover.GetCoercableParameterValue | src/breath/operator/OriginAndRootHeightMover.java:63-65 | returns the scale factor |
| RootMovers.OriginAndRootHeightMover.SetCoercableParameterValue | src/breath/operator/OriginAndRootHeightMover.java:68-70 | stores the value as the scale factor, so a following get returns it |
| RootMovers.OriginAndRootHeightMover.Proposal | src/breath/operator/OriginAndRootHeightMover.java:45-60 | a scaled height below the taller child rejects with neither the root nor the origin changed; otherwise the root takes the scaled height and the origin shifts by the same delta, so origin minus root height is kept; a one-leaf tree or a missing or empty origin throws |
| Growth.LinearGrowth.constructor | src/breath/evolution/LinearGrowth.java:79 | the cached rate starts at 1.0 |
| Growth.LinearGrowth.GetRate | src/breath/evolution/LinearGrowth.java:33-36 | the cache is refreshed from the first value of the rate input and returned; an input without values throws |
| Growth.LinearGrowth.SetRate | src/breath/evolution/LinearGrowth.java:43-45 | the cache becomes the given rate |
| Growth.LinearGrowth.PopSize | src/breath/evolution/LinearGrowth.java:59-65 | throws IllegalArgumentException exactly for t > 0; non-negative for a non-negative rate; 0 at t = 0 |
| Growth.LinearGrowth.PopSizeLinear | src/breath/evolution/LinearGrowth.java:63 | going back d in time adds d * rate, so with a non-negative rate the population never shrinks going back |
| Growth.LinearGrowth.Intensity | src/breath/evolution/LinearGrowth.java:68-70 | always throws |
| Growth.LinearGrowth.InverseIntensity | src/breath/evolution/LinearGrowth.java:73-75 | always throws |

## Left out

- Doubles are exact reals everywhere outside the Doubles module. Rounding, NaN and overflow are not modelled in segment times and interval widths, tree lengths and their sums, the scans that subtract branch lengths from a drawn point, the fractions r/length, the block fractions the operators draw and order, or the root and origin heights.
- Likelihood numerics are not modelled: the coalescent, hazard, gamma and log terms, getp0's Newton iteration and getRetainedFrac's Monte-Carlo simulation. The coalescent and transmission terms of calculateLogP are inputs of type Double.
- Doubles.Add: rounding is not modelled; a finite double is an exact real.
- ColourProvider.getColour, Validator.isValid and TransmissionSet (infectionCount, getColour) are not part of this model. Their colouring, success flag, verdict and infection counts are parameters.
- The log Hastings ratios every proposal returns are not modelled; a proposal reports only Rejected or Proposed.
- Randomizer is not modelled: every draw is a parameter, with the range the draw has.
- BEAST's KernelDistribution and the operators' optimize are not modelled; OriginAndRootHeightMover's scale is a parameter.
- TreeWrapOperator only delegates to a wrapped operator, so it is not modelled.
- The calculateLogP start-up warnings are not modelled, nor are updateStats, toString, Log.warning and the System.err output.
- The inter-sample interval list of TransmissionTreeLikelihood.java:863-900 is not modelled.
- BEAST's setDimension fill value is not modelled: what it writes into new entries is a parameter (`fill`), and shrinking an empty vector is NegativeArraySize.
- Dead code is not modelled: the `if (false)` block and unreachable tail of InfectionMover.proposal, the `if (true) return` of updateStats, and commented-out alternatives.
- getSampleCount, isBinaryCoalescent and isCoalescentOnly of SegmentIntervalList always throw and are not modelled.
- getFreshColouring is not modelled: it is calcColourAtBase followed by a read.
- SegmentIntervals.SegmentIntervalList.CalculateIntervals: only multifurcationLimit 0, the value the code fixes, is modelled.
- Tree mutation is not modelled beyond the root height OriginAndRootHeightMover sets; each operator holds the tree as a value.
- RootMovers.PerformanceSuggestion: returns the suggested value rather than the formatted text.
- InfectionMovers.InfectionMover.Proposal: the colouring verdict is a parameter, decided after the move.
- AdjacentMovers.InfectionMover3.Proposal: same as InfectionMover.Proposal. Rejected moves leave the edited parameters for BEAST's restore, which is not modelled.
- TransmissionLikelihood.TransmissionTreeLikelihood.Restore: of BEAST's Distribution only the logP it saves and restores is modelled (the field storedLogP, set by Store); what restore() does in the rest of BEAST's state machinery is not.
- RootMovers.OriginAndRootHeightMover.Proposal: BEAST stores doubles, so the origin shift is exact only in real arithmetic.

## Findings

| source | as written | input that shows it | evidently intended | confidence | as-written member | corrected member |
|---|---|---|---|---|---|---|
| src/transmission2/AddOrDeleteInfectionOperator.java:68-78 | the delete move shifts both transmission vectors down from position i, where i is the node number chooseInfectionToRemove returned, not a position in the vectors | nodeNrs = [3, 0] with node 0 chosen: the entry at position 0, the transmission on node 3, is removed, and the one on node 0 stays | remove a transmission on node i, its node number and fraction together | not executed | AddOrDelete.AddOrDeleteInfectionOperator.DeleteAtNodeNumber, AddOrDelete.DeleteByNodeNumberRemovesWrongEntry | AddOrDelete.AddOrDeleteInfectionOperator.DeleteTransmissionOn, AddOrDelete.AddOrDeleteInfectionOperator.IntendedProposal |

## Notes on the code

- calcColourAtBase stores the colour provider's success in updateColours. So getColour and getColouring recompute after a successful colouring and serve the cache only after a failed one. The flag reads like a dirty flag, but the model keeps the code's behaviour.
- In AddOrDeleteInfectionOperator, TransmissionSet's per-node infection counts need not agree with nodeNrs. So the corrected delete fails (ProgrammerError) when the chosen node has no transmission in nodeNrs. The operator as written never fails on non-empty vectors: with i past the last position the shift loop does nothing and the last entry is dropped.
- OriginAndRootHeightMover moves the root before it reads the origin. A missing or empty origin therefore throws after the root height changed, and the model keeps that order.
