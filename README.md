# Time-slot block selection, modelled in Dafny

The system picks a block of `k` consecutive time slots for a recurring event. Its input is a preference
matrix with one row per person and one column per slot. `TimeSlotOptimizer` (optimization.py) stores
the matrix and `k`, which starts at 1. From these it builds a 0/1 integer program and hands it to an
external solver:

- one binary variable `y[j]` per slot;
- one binary start variable `s[i]` for each of the `T - k + 1` block positions;
- the objective `sum score(j) * y[j]`, to be maximised, where
  `score(j) = (1 - 1/n) * attending(j) + (1/n) * prefsum(j)` for `n` people;
- a constraint that exactly one start is chosen;
- per slot, either `y[j] <= sum of the starts whose block holds j`, or `y[j] = 0` when no start holds it.

There are two mutators. `split_matrix` duplicates every column and doubles `k`. `change_entry_matrix`
overwrites one cell. Both rebuild the program. `optimize` reads back the slots whose value exceeds 0.5.

The project has two modules:

- `TimeSlots` (time_slots.dfy) holds pure definitions and the lemmas about them:
  - the score of a slot;
  - the starts that cover a slot;
  - the constraints, as a datatype, and what they mean for 0/1 assignments (`Satisfies`);
  - the objective;
  - the readout;
  - splitting a matrix.
- `Optimization` (optimization.dfy) holds the class `TimeSlotOptimizer`:
  - its fields are `k` and `matrix`, plus the derived program (`numPeople`, `numTimeSlots`, the two
    weights, `objective`, `maxStart`, `constraints`);
  - its methods rebuild that program with the loops of the source;
  - its `Valid()` ties the derived fields to the functions of `TimeSlots`.

The external solver is not modelled. `Optimize` takes the solver's report as a parameter: the
`y` values and the objective value, or "not optimal". What the solver guarantees is a precondition of
`Optimize`: an optimal report is, as reals, a 0/1 solution that satisfies the constraints and that no
other such solution beats (`IsOptimal`, `ReportsOptimum`). From this the model proves what the
returned slots and score must be. Which of several equally good blocks the solver returns is not
modelled.

For the example matrix of optimization.py:91-95 every entry is positive, so with four people each
slot scores 0.75 * 4 + 0.25 * (column sum). That gives 3.9, 4, 4 and 3.9 (`ExampleScores`). With
k = 1 every optimal solution scores 4 and selects slot 1 or slot 2 (`ExampleBestSingleSlot`). After
one split the eight slots score 3.9, 3.9, 4, 4, 4, 4, 3.9, 3.9 (`ExampleSplitScores`). With k = 2 the
blocks starting at 2, 3 and 4 then tie at 8, and every optimal solution scores 8 and selects one of
them (`ExampleSplitOptimum`).

## Model

Five definitions carry no contract of their own: `Score` (optimization.py:35), `StartCount`
(optimization.py:41), `ModelConstraints` (optimization.py:44-56), and `Holds` and `Satisfies`
(optimization.py:45, 54, 56). What they mean is stated by the lemmas below that cite those lines.

| member | source | states |
|---|---|---|
| `TimeSlots.SetEntry` | optimization.py:73 | overwriting cell (r, c) keeps every row's length, puts the new value in (r, c) and leaves every other cell as it was |
| `TimeSlots.CoverageWeight` | optimization.py:16 | the coverage weight 1 - 1/n lies in [0, 1) |
| `TimeSlots.PreferenceWeight` | optimization.py:16-17 | the preference weight 1/n lies in (0, 1], the coverage weight 1 - 1/n lies in [0, 1), and the two weights sum to 1 |
| `TimeSlots.Attends` | optimization.py:31-32 | a person adds 1 to a slot's attending count exactly when their entry is strictly positive, and 0 otherwise |
| `TimeSlots.Attending` | optimization.py:29-32 | the attending count over the first n people is at most n |
| `TimeSlots.PrefSum` | optimization.py:29-33 | the preference sum over the first n people is non-negative when their entries are |
| `TimeSlots.AttendingCountsPositive` | optimization.py:29-32 | the attending count of a slot is the size of the set of people whose entry is strictly positive, so it lies between 0 and the number of people |
| `TimeSlots.PrefSumBounds` | optimization.py:29-33 | with non-negative entries the preference sum is non-negative and at least every single entry; with entries at most 1 it is at most the number of people |
| `TimeSlots.BlendMonotone` | optimization.py:35 | the weighted score grows with both the attending count and the preference sum |
| `TimeSlots.BlendBounds` | optimization.py:16-35 | an attending count and a preference sum between 0 and n give a weighted score between 0 and n |
| `TimeSlots.BlendPositive` | optimization.py:16-35 | a non-negative attending count and a positive preference sum give a positive weighted score |
| `TimeSlots.ScoreBounds` | optimization.py:29-35 | with entries in [0, 1] a slot's score lies between 0 and the number of people |
| `TimeSlots.ScorePositive` | optimization.py:29-35 | a slot that nobody rates negatively and someone rates positively has a score above 0 |
| `TimeSlots.ScoreMonotone` | optimization.py:35 | a slot with no fewer attending people and no smaller preference sum does not score less |
| `TimeSlots.ChangeEntryColumn` | optimization.py:72-74 | overwriting cell (r, c) leaves the attending count and the preference sum of every other column unchanged; for column c each changes by exactly the new value's contribution minus the old one's |
| `TimeSlots.ChangeEntryOtherSlots` | optimization.py:72-74 | overwriting cell (r, c) keeps the matrix rectangular with the same width and leaves the score of every slot other than c unchanged |
| `TimeSlots.ChangeEntryScore` | optimization.py:72-74 | raising cell (r, c) does not lower the score of slot c, and lowering the cell does not raise it |
| `TimeSlots.SplitRow` | optimization.py:62-66 | a split row is exactly twice as long as the row |
| `TimeSlots.SplitRowAt` | optimization.py:62-66 | position p of a split row holds entry p / 2 of the row, so positions 2j and 2j+1 both hold entry j |
| `TimeSlots.Split` | optimization.py:60-66 | splitting keeps the number of rows and splits each row |
| `TimeSlots.SplitShape` | optimization.py:58-68 | a split matrix is rectangular, with the same people and twice the slots |
| `TimeSlots.SplitCellAt` | optimization.py:60-66 | in row i of a split matrix, position p holds the original cell (i, p / 2) |
| `TimeSlots.SplitCells` | optimization.py:58-68 | every cell (i, p) of a split matrix is the original cell (i, p / 2) |
| `TimeSlots.SplitTwice` | optimization.py:58-69 | splitting twice keeps the people, gives four times the slots, and cell (i, p) is the original cell (i, p / 4) |
| `TimeSlots.SplitColumn` | optimization.py:29-33 | column p of a split matrix has the attending count and preference sum of original column p / 2 |
| `TimeSlots.SplitScore` | optimization.py:58-69 | both halves of a split slot score what the whole slot scored |
| `TimeSlots.StartCountEmpty` | optimization.py:41-42 | there is no start variable exactly when k exceeds the number of slots; otherwise the start count plus k is the number of slots plus 1 |
| `TimeSlots.CoveringStarts` | optimization.py:49-52 | the collected starts are exactly the starts t below the start count with t <= j < t + k, in strictly increasing order |
| `TimeSlots.CoveringStartsInterval` | optimization.py:41-52 | the starts covering slot j are exactly the interval [max(0, j-k+1), min(j, T-k)], which is non-empty whenever 1 <= k <= T |
| `TimeSlots.SlotConstraint` | optimization.py:48-56 | slot j gets one constraint about y[j]: a link to a non-empty list of starts, or a zero-out |
| `TimeSlots.SlotConstraints` | optimization.py:48-56 | one constraint per slot, in slot order: a link to the covering starts when there are any, otherwise a zero-out |
| `TimeSlots.ZeroOutIffNoStarts` | optimization.py:53-56 | a slot is forced to 0 exactly when the program has no start variable at all |
| `TimeSlots.ExactlyOneStart` | optimization.py:45 | a 0/1 start vector sums to 1 exactly when it has a single 1 |
| `TimeSlots.SumOverIndicator` | optimization.py:54 | with a single start i chosen, the sum over a strictly increasing list of starts is 1 when i is in the list and 0 otherwise |
| `TimeSlots.SumOverPositive` | optimization.py:54 | a 0/1 sum over listed starts that reaches 1 has one listed start set to 1 |
| `TimeSlots.LinkNeedsStart` | optimization.py:54 | when a link holds for a selected slot, one of the starts it lists is chosen |
| `TimeSlots.SlotConstraintWithStart` | optimization.py:51-54 | with the single start i chosen, slot j's constraint holds exactly when y[j] = 1 implies i <= j < i + k |
| `TimeSlots.FeasibleIsInWindow` | optimization.py:41-56 | a feasible 0/1 assignment has a single chosen start i, and every selected slot lies in [i, i + k) |
| `TimeSlots.ConstraintsOfFeasible` | optimization.py:44-56 | in a feasible assignment the start variables sum to 1, and every slot's own constraint holds |
| `TimeSlots.SlotHoldsInWindow` | optimization.py:48-56 | with the single start i chosen, each slot's constraint holds for an assignment inside [i, i + k) |
| `TimeSlots.InWindowIsFeasible` | optimization.py:41-56 | an assignment that chooses the single start i and selects only slots in [i, i + k) satisfies every constraint |
| `TimeSlots.FeasibleIffInWindow` | optimization.py:41-56 | a 0/1 assignment (y, s) satisfies all constraints exactly when s chooses one start i and every selected slot lies in [i, i + k) |
| `TimeSlots.NoStartsInfeasible` | optimization.py:41-45 | when k exceeds the number of slots no assignment satisfies the constraints, so no optimum exists |
| `TimeSlots.WindowFeasible` | optimization.py:41-56 | every whole block [i, i + k), with its start chosen, satisfies the constraints |
| `TimeSlots.Objective` | optimization.py:36 | the objective of a 0/1 assignment is non-negative when the coefficients are |
| `TimeSlots.WindowObjective` | optimization.py:36 | the objective of the whole block [i, i + k) over the first n slots is the sum of the scores from i up to min(n, i + k) |
| `TimeSlots.BlockObjectives` | optimization.py:36 | the objective of every whole block is that block's score, the sum of its slots' scores |
| `TimeSlots.WindowBoundsPrefix` | optimization.py:35-36 | over any prefix of the slots, an assignment inside block i scores no more than the whole block when the block's scores are non-negative, and matches it only by agreeing with it when they are positive |
| `TimeSlots.FullWindowIsBest` | optimization.py:35-38 | among assignments inside the block of the chosen start, the whole block scores most when its scores are non-negative, and with positive scores it is the only one that scores that much |
| `TimeSlots.ObjectiveIgnoresZeroScore` | optimization.py:36 | clearing the variable of a slot whose score is 0 leaves the objective unchanged |
| `TimeSlots.ZeroScoreSlotMayBeDropped` | optimization.py:36-54 | a score-0 slot inside the chosen block may be left unselected: the smaller assignment is feasible, differs from the whole block and reaches the same objective |
| `TimeSlots.SlotsAbove` | optimization.py:81 | the readout is strictly increasing and holds exactly the indices j < n whose value exceeds 0.5 |
| `TimeSlots.ReadoutOfFeasible` | optimization.py:81 | reading out a feasible 0/1 assignment gives exactly its selected slots, all inside the block of its single chosen start |
| `TimeSlots.ReadoutOfBinary` | optimization.py:81 | reading out a 0/1 assignment gives exactly the slots set to 1 |
| `TimeSlots.WindowReadoutPrefix` | optimization.py:81 | reading the first n values of a whole block [i, i + k) gives the consecutive slots from i up to min(n, i + k) |
| `TimeSlots.ReadoutOfWindow` | optimization.py:81 | reading out a whole block [i, i + k) gives exactly the k consecutive slots i, ..., i + k - 1 |
| `TimeSlots.OptimalSolution` | optimization.py:36-56 | an optimal solution needs k <= T; it chooses one start i and selects only slots in [i, i + k); no whole block beats it; with positive scores it is that whole block, read out as i, ..., i + k - 1 |
| `TimeSlots.OptimalBlock` | optimization.py:36-56 | with positive scores an optimal solution selects the block i, ..., i + k - 1, its objective is that block's score, and no block scores more |
| `TimeSlots.OptimalBlockValue` | optimization.py:36-56 | with every slot scoring above 0, when the best block score is known, every optimal solution reaches it and selects a block that scores it |
| `TimeSlots.OptimalReadout` | optimization.py:77-81 | reading out an optimal solution gives slots inside one block of k, a score no block beats, and exactly k slots when every score is positive |
| `TimeSlots.ReportedOptimum` | optimization.py:77-81 | the same facts for the real values and objective value a solver reports for an optimal solution |
| `TimeSlots.ExampleScores` | optimization.py:91-95 | the four slots of the example matrix score 3.9, 4, 4 and 3.9 |
| `TimeSlots.ExampleCoefficients` | optimization.py:91-95 | every example slot scores above 0 and at most 4, and exactly slots 1 and 2 score 4 |
| `TimeSlots.ExampleBestSingleSlot` | optimization.py:91-98 | with k = 1 every optimal solution for the example scores 4 and selects slot 1 alone or slot 2 alone |
| `TimeSlots.ExampleSplitScores` | optimization.py:91-100 | after one split the eight slots of the example score 3.9, 3.9, 4, 4, 4, 4, 3.9, 3.9 |
| `TimeSlots.ExampleSplitCoefficients` | optimization.py:91-99 | after one split every example slot scores above 0, no block of two scores more than 8, and exactly the blocks starting at 2, 3 and 4 score 8 |
| `TimeSlots.ExampleSplitBestBlocks` | optimization.py:91-99 | after one split a block of two that scores 8 is {2, 3}, {3, 4} or {4, 5} |
| `TimeSlots.ExampleSplitOptimum` | optimization.py:91-100 | after one split, with k = 2, every optimal solution for the example scores 8 and selects {2, 3}, {3, 4} or {4, 5} |
| `Optimization.PyIndex` | optimization.py:73 | an index is accepted exactly when -len <= i < len, and it then denotes the unique position in [0, len) congruent to i modulo len |
| `Optimization.TimeSlotOptimizer.constructor` | optimization.py:7-11 | a new optimizer stores the matrix, has k = 1 and carries the program derived from them |
| `Optimization.TimeSlotOptimizer.BuildNewModel` | optimization.py:13-20 | the dimensions are the matrix's row count and row length, the weights are 1 - 1/n and 1/n, and the program is rebuilt; matrix and k are unchanged |
| `Optimization.TimeSlotOptimizer.BuildModel` | optimization.py:22-56 | afterwards the objective and the constraints are those the stored matrix and k determine |
| `Optimization.TimeSlotOptimizer.BuildObjective` | optimization.py:23-38 | the objective has one coefficient per slot, equal to that slot's score |
| `Optimization.TimeSlotOptimizer.BuildConstraints` | optimization.py:40-56 | the start count is T - k + 1, and the constraints are "choose one start" followed by each slot's link or zero-out |
| `Optimization.TimeSlotOptimizer.SplitMatrix` | optimization.py:58-69 | the matrix becomes its split, with cell (i, p) equal to the old cell (i, p / 2); k and the slot count double, the people stay; k <= T is preserved; the program is rebuilt |
| `Optimization.SplitMatrixTwice` | optimization.py:58-69 | two splits give 4k and 4T, and cell (i, p) is the original cell (i, p / 4) |
| `Optimization.TimeSlotOptimizer.ChangeEntryMatrix` | optimization.py:72-74 | for indices in range (negative ones counting from the end) exactly one cell is overwritten, every other cell and k stay, and the program is rebuilt; an index out of range changes nothing |
| `Optimization.TimeSlotOptimizer.Optimize` | optimization.py:75-87 | a non-optimal report gives the no-solution result; an optimal one gives its objective value and exactly the slots whose value exceeds 0.5, strictly increasing; k > T always gives no solution; a solution lies inside one block of k slots and scores at least every whole block; with positive scores it has exactly k slots |

## Left out

- The external solver: building solver models and variables, adding constraints, setting the
  objective, solving, and reading the status and objective value (optimization.py:18-19, 38, 42, 45,
  54, 56, 76-82). The program is represented as `Constraint` values with a meaning given by
  `Satisfies`. The solver's report is a parameter of `Optimize`.
- `Optimize`: the solver reports optimal status when its solution is optimal within its numerical
  tolerances. The model treats this as exact, as it does for values (see floating point below): an
  optimal report is a precondition (`ReportsOptimum`) saying it is an exact optimum of the program,
  not something the model proves. Which of several equally good
  solutions the solver returns is not modelled, so the example lemmas name every tied block.
- The solver variables that the class stores (`self.y`, `self.s`): `y` and `s` are explicit sequences
  in `Satisfies`.
- `TimeSlotOptimizer.constructor`: the matrix conversion (optimization.py:14-15) fails on an empty or
  ragged matrix. That failure is a precondition (`WellShaped`), not an error value.
- Floating point: entries, weights, scores and the 0.5 threshold are exact `real`s.
- A negative start count (`T - k + 1 < 0`, possible only after splitting a matrix with no slots):
  the model treats it as zero start variables. How the solver library treats a negative variable
  count is not part of this model.
- `ChangeEntryMatrix`: indices must be integers and the new value a real. Python's type errors for
  other inputs are not modelled.
- The matrix is stored without copying (optimization.py:10), so the caller's list is aliased. The
  model stores a value, so it captures neither the caller seeing later edits nor rows shared inside
  the caller's matrix (for example `[[0.0] * T] * n`): with shared rows, one `change_entry_matrix` call
  at optimization.py:73 changes that cell in every row sharing the list, while `ChangeEntryMatrix`
  changes exactly one cell. A split builds fresh rows (optimization.py:60-66), so after a split no
  rows are shared.
- The example driver (optimization.py:89-113) sits inside a string literal and prints results. Only
  its matrix is used, in the `Example` lemmas.
- `BuildModel` is split into `BuildObjective` and `BuildConstraints`, the two halves of
  optimization.py:22-56, to keep each proof small. The order of the steps is unchanged.
