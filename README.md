# A verified model of a small collection of sudoku solvers

The package solves 9x9 sudoku puzzles in several independent ways, each one a
script over a numpy grid. This project models the integer core of each
strategy in Dafny and proves what they promise:

- **Shared grid helpers** (module `Grid`, `grid.dfy`). These are copied into
  several scripts: the puzzle parser, the row, column and box views, the
  candidate set of a cell, the validity check and the "solved" test. The grid
  is a row-major sequence of 81 integers, with 0 for an empty cell.
- **Backtracking search** (module `BruteForce`, `brute_force.dfy`). It visits
  the cells column by column and tries every candidate of an empty cell in
  the iteration order of the candidate set, which is a parameter of the model.
  It resets the cell when a branch fails and counts the backtracks. It is a recursive specification function together with a method
  that mutates an array in place.
- **Naked-single propagation over a candidate map** (module `Constraint`,
  `constraint.dfy`). The map is built once. A pass fills every single and
  discards its value from the column, the row and the box. At most 30 passes
  run, and the run stops when the grid is solved.
- **The `Puzzle` class of the package entry point** (module `Sudoku`,
  `puzzle.dfy`). A class over an array finds the first naked single in
  row-major order and fills singles until none is left.
- **The integer parts of the simulated-annealing solver** (module `Annealing`,
  `annealing.dfy`). These are the fixed cells, the Markov chain length, the
  random box fill, the cost function and the neighbour move.
- **The exact-cover formulation of a 4x4 puzzle** (module `Dlx`, `dlx.dfy`).
  This covers the constraint matrix, the decoding of a matrix row back to a
  placement, and one selection step of Algorithm X.

Randomness (`np.random.shuffle`, `np.random.choice`, `rng.choice`) is supplied
by the caller as sequences of draws. Printing is left out.

## Model

| member | source | states |
|---|---|---|
| Grid.ReadPuzzle | src/sudoku/brute_force.py:82-83 | the grid is the digit characters of the text in order, row-major, exactly when there are 81 of them; otherwise a reshape error carrying the digit count; the same code is copied at src/sudoku/constraint.py:51-52 and src/sudoku/simulated_annealing.py:68-69 |
| Grid.DigitsOfDigitString | src/sudoku/brute_force.py:83 | on a text of digit characters only, the parsed values are the characters' numeric values, one per character |
| Grid.DigitsSkipOthers | src/sudoku/brute_force.py:83 | characters other than 0..9 contribute nothing |
| Grid.DigitsAppend | src/sudoku/brute_force.py:83 | parsing a concatenation is the concatenation of the parses |
| Grid.RowCells | src/sudoku/brute_force.py:86-87 | the row view lists the nine cells of row r in column order, and every cell of that row is in it; the same code is copied at src/sudoku/__main__.py:52-53 |
| Grid.ColCells | src/sudoku/brute_force.py:90-91 | the column view lists the nine cells of column c in row order, and every cell of that column is in it; the same code is copied at src/sudoku/__main__.py:55-56 |
| Grid.BoxAt | src/sudoku/brute_force.py:94-96 | entry i of the flattened box is the cell at row 3(r/3)+i/3, column 3(c/3)+i%3, which lies in the box of (r, c); the same code is copied at src/sudoku/__main__.py:58-60 |
| Grid.BoxHas | src/sudoku/constraint.py:98-100 | every cell of the box of (r, c) appears in the flattened box, at its row-major position inside the box |
| Grid.SameBoxCorner | src/sudoku/brute_force.py:95 | two cells share a box exactly when both lie in the 3x3 block starting at (3(r/3), 3(c/3)) |
| Grid.AllowedMeaning | src/sudoku/brute_force.py:99-102 | v is a candidate of (r, c) exactly when v is in 1..9 and no cell of the row, the column or the box holds v; the same code is copied at src/sudoku/constraint.py:103-106 |
| Grid.ScanMeaning | src/sudoku/brute_force.py:64-77 | the row-major scan returns True exactly when no cell from k on is out of range or repeats an earlier value in its row, column or box. False names such a repeat. ValueError names the first out-of-range cell reached before any repeat |
| Grid.ValidityMeaning | src/sudoku/brute_force.py:61-79 | is_valid is True exactly when every value is in 0..9 and no two distinct peers hold the same non-zero value. False implies such a pair exists. ValueError reports an out-of-range cell with everything before it clean |
| Grid.IsValid | src/sudoku/brute_force.py:61-79 | the loop with one seen-set per row, column and box returns exactly the verdict of the specification; the same code is copied at src/sudoku/constraint.py:113-131 and src/sudoku/simulated_annealing.py:85-103 |
| Grid.RepeatsByFamily | src/sudoku/brute_force.py:71-72 | a value repeats an earlier one of its peers exactly when it is already in the seen-set of its row, its column or its box |
| Grid.SeenInStep | src/sudoku/brute_force.py:75-77 | adding the value to the three seen-sets keeps them equal to the values seen so far per unit |
| Grid.SolvedMeaning | src/sudoku/brute_force.py:57-58 | is_solved is True exactly when no cell is 0, all values are in range and there is no conflict; a 0 anywhere gives False without raising |
| Grid.IsSolved | src/sudoku/brute_force.py:57-58 | the method returns the verdict of the specification; the same code is copied at src/sudoku/constraint.py:109-110 |
| Grid.SolvedCells | src/sudoku/brute_force.py:57-58 | a solved grid holds only 1..9 and has no conflict |
| Grid.SolvedRowIsPermutation | src/sudoku/brute_force.py:57-58 | every row of a solved grid is a permutation of 1..9 |
| Grid.SolvedColIsPermutation | src/sudoku/brute_force.py:57-58 | every column of a solved grid is a permutation of 1..9 |
| Grid.SolvedBoxIsPermutation | src/sudoku/brute_force.py:57-58 | every box of a solved grid is a permutation of 1..9 |
| Grid.PlacePreservesNoConflict | src/sudoku/brute_force.py:115-116 | writing a candidate into an empty cell of a conflict-free grid keeps it conflict-free |
| Grid.AllowedShrinks | src/sudoku/constraint.py:150 | filling empty cells only removes candidates from every cell |
| Grid.ListsOnceLength | src/sudoku/brute_force.py:115 | a loop that visits every member of a set once makes exactly as many steps as the set has members |
| Grid.AscendingLists | src/sudoku/brute_force.py:115 | listing a set of numerals in ascending order visits each member once; ascending is one iteration order the model admits, not CPython's order for every set |
| Grid.AscendingEnumerates | src/sudoku/brute_force.py:115 | the ascending listing is an iteration order in the sense of Grid.Enumerates |
| Grid.CoveringIsPermutation | src/sudoku/simulated_annealing.py:124 | nine cells containing all of 1..9 are a permutation of 1..9 |
| BruteForce.BruteForceSearch | src/sudoku/brute_force.py:105-122 | for every iteration order of the candidate sets, the in-place recursive search leaves the array and returns the flag, the backtrack count or the exception exactly as the specification function BruteForce does with that order |
| BruteForce.TryCandidates | src/sudoku/brute_force.py:115-122 | for every iteration order, the candidate loop agrees with the specification TryEach: write, recurse, reset on failure, one extra backtrack when all fail |
| BruteForce.SuccessKeepsClues | src/sudoku/brute_force.py:105-119 | a successful search returns a solved grid that keeps every filled cell of its input |
| BruteForce.TryEachSuccessKeepsClues | src/sudoku/brute_force.py:115-119 | the same for the candidate loop of one cell |
| BruteForce.FailureRestores | src/sudoku/brute_force.py:112-122 | a failed search returns its input grid unchanged (every tried cell is reset to 0) |
| BruteForce.TryEachFailureRestores | src/sudoku/brute_force.py:115-122 | the same for the candidate loop of one cell |
| BruteForce.BacktracksGrow | src/sudoku/brute_force.py:105-122 | the backtrack count never decreases, and a failed search has increased it |
| BruteForce.TryEachBacktracksGrow | src/sudoku/brute_force.py:115-122 | the same for the candidate loop of one cell |
| BruteForce.ValidNeverRaises | src/sudoku/brute_force.py:105-122 | on a valid grid whose earlier cells are filled the search raises nothing, and an already solved grid returns at once with True |
| BruteForce.TryEachNeverRaises | src/sudoku/brute_force.py:115-120 | trying candidates of a valid grid raises nothing |
| BruteForce.FilledStep | src/sudoku/brute_force.py:109-113 | stepping past a filled cell keeps every earlier cell filled, and the next position is one the search can reach |
| BruteForce.PlaceCandidate | src/sudoku/brute_force.py:115-117 | writing a candidate into the empty cell keeps the grid valid and the cells before the next position filled |
| BruteForce.AgreesValid | src/sudoku/brute_force.py:61-79 | a grid whose filled cells agree with a solved grid passes is_valid |
| BruteForce.SolutionValueAllowed | src/sudoku/brute_force.py:99-102 | at an empty cell, the value of any solution that agrees with the grid is among the candidates get_allowed returns |
| BruteForce.FindsSolution | src/sudoku/brute_force.py:105-122 | completeness: for every iteration order, a grid whose filled cells agree with some solved grid is reported solved, from any reachable position with the earlier cells filled |
| BruteForce.TryEachFinds | src/sudoku/brute_force.py:115-122 | the same for the candidate loop of one cell, when the solution's value is among the candidates still to try |
| BruteForce.FailureMeansUnsolvable | src/sudoku/brute_force.py:105-122 | a search from (0, 0) that reports failure is a definite answer: no solved grid keeps the given cells |
| BruteForce.SolvedFlagOrderFree | src/sudoku/brute_force.py:115 | on a valid grid, whether the search succeeds is the same for any two iteration orders |
| BruteForce.FullInvalidRaisesIndexError | src/sudoku/brute_force.py:106-113 | a full grid that is not valid walks past the last column and raises IndexError reading cell (0, 9) |
| BruteForce.AllOnesRaisesIndexError | src/sudoku/brute_force.py:105-113 | a concrete input, the grid of 81 ones, raises that IndexError |
| Constraint.InitCandidates | src/sudoku/constraint.py:137-139 | the candidate map holds the empty set for every filled cell and get_allowed for every empty one, in row-major order |
| Constraint.CandAfterPlace | src/sudoku/constraint.py:148-157 | after v is placed at k, the fresh candidate map empties k, removes v from every peer, and leaves other cells alone. This is what the discards compute |
| Constraint.DiscardFromColumn | src/sudoku/constraint.py:151-152 | v is removed from every cell of the column and from nothing else |
| Constraint.DiscardFromRow | src/sudoku/constraint.py:153-154 | v is removed from every cell of the row and from nothing else |
| Constraint.DiscardFromBox | src/sudoku/constraint.py:155-157 | v is removed from every cell of the box and from nothing else |
| Constraint.BoxSlot | src/sudoku/constraint.py:155-156 | the product of the two ranges visits each cell of the box exactly once |
| Constraint.DiscardFromPeers | src/sudoku/constraint.py:151-157 | the three loops together remove v from exactly the peers of the placed cell |
| Constraint.SweepOnce | src/sudoku/constraint.py:145-157 | one pass over the items fills cells as the specification Sweep does, and the map afterwards is the fresh candidate map of the new grid |
| Constraint.SweepPreserves | src/sudoku/constraint.py:145-157 | a pass keeps every filled cell, keeps a conflict-free grid conflict-free and keeps values in range |
| Constraint.Propagate | src/sudoku/constraint.py:141-157 | the pass loop ends in the grid and outcome of the specification Propagation, with the map matching the grid |
| Constraint.PropagationKeeps | src/sudoku/constraint.py:141-157 | from any pass on, the run keeps the clues and stops early only on a solved grid. An is_solved ValueError needs an out-of-range input. A valid grid stays valid and never raises |
| Constraint.PropagationMeaning | src/sudoku/constraint.py:134-157 | the whole run from pass 0: clues kept, at most 30 passes, fewer only with a solved grid, and validity kept |
| Sudoku.Puzzle.constructor | src/sudoku/__main__.py:36 | the array holds the given grid |
| Sudoku.Puzzle.FromString | src/sudoku/__main__.py:35-36 | __init__ builds a puzzle exactly when the text has 81 digits, holding the parsed grid |
| Sudoku.Puzzle.AllowedAt | src/sudoku/__main__.py:62-65 | _allowed is exactly the values 1..9 held by no peer of the cell |
| Sudoku.FirstSingleMeaning | src/sudoku/__main__.py:67-75 | nothing is found exactly when no empty cell has a single candidate; otherwise the result is the first such cell in row-major order, with its only candidate |
| Sudoku.Puzzle.SolveOne | src/sudoku/__main__.py:67-75 | the scan returns the first naked single of the current grid, or None |
| Sudoku.Puzzle.Add | src/sudoku/__main__.py:81-83 | the cell asserted to be 0 receives v; nothing else changes |
| Sudoku.Puzzle.Solve | src/sudoku/__main__.py:77-85 | the loop ends with the grid of the specification NakedSingles |
| Sudoku.NakedSinglesStep | src/sudoku/__main__.py:80-83 | each iteration fills an empty cell, so the count of empty cells drops and the loop terminates, and it keeps the final grid unchanged |
| Sudoku.NakedSinglesMeaning | src/sudoku/__main__.py:77-85 | solve keeps every clue and writes only candidates, so a conflict-free grid stays conflict-free and a valid one valid. It stops exactly when no naked single is left, after one placement per cell it filled |
| Annealing.FixedCellsCount | src/sudoku/simulated_annealing.py:81-82 | get_fixed is the set of coordinates of the non-zero cells, one per filled cell |
| Annealing.MarkovLengthOfFixed | src/sudoku/simulated_annealing.py:116-118 | get_ml is the square of the number of empty cells, which is (81 - len(fixed))², at most 6561 |
| Annealing.Shuffle | src/sudoku/simulated_annealing.py:110 | the shuffle permutes the missing values: the multiset is unchanged |
| Annealing.FillZeros | src/sudoku/simulated_annealing.py:111 | the zeros of the box receive the values in order, the other cells are kept, and the box then holds its old non-zero values plus the new ones |
| Annealing.MaskAssign | src/sudoku/simulated_annealing.py:111 | masked assignment succeeds exactly when the value count equals the zero count (or is 1, broadcast); it keeps non-zero cells; otherwise it raises numpy's ValueError with both counts |
| Annealing.CleanMissingCount | src/sudoku/simulated_annealing.py:109 | in a box with no repeated clue the missing values are exactly as many as its zeros and complete 1..9 |
| Annealing.CleanBoxFills | src/sudoku/simulated_annealing.py:108-111 | for every iteration order of the missing values and every draw sequence, such a box is filled without error and becomes a permutation of 1..9 |
| Annealing.WriteBoxCells | src/sudoku/simulated_annealing.py:112 | writing the box back changes exactly the cells of that box, each to its entry |
| Annealing.BoxAfterWrite | src/sudoku/simulated_annealing.py:112 | after the write-back the box holds the new values and every other box is unchanged |
| Annealing.WriteBack | src/sudoku/simulated_annealing.py:112 | the in-place write-back gives the grid of WriteBox |
| Annealing.RandomFill | src/sudoku/simulated_annealing.py:106-113 | the loop over the nine boxes in product order ends in the grid or error of the specification RandomFillFrom |
| Annealing.RandomFillKeepsClues | src/sudoku/simulated_annealing.py:106-113 | random_fill never changes a non-zero cell |
| Annealing.RandomFillPermutes | src/sudoku/simulated_annealing.py:106-113 | when the boxes not yet visited have no repeated clue, the fill succeeds and every box ends a permutation of 1..9 |
| Annealing.RandomFillFillsBoxes | src/sudoku/simulated_annealing.py:106-113 | on a grid whose boxes have no repeated clue, for every iteration order and every draw sequence, random_fill succeeds, makes every box a permutation of 1..9 and keeps every clue |
| Annealing.ValidBoxesAreClean | src/sudoku/simulated_annealing.py:106-113 | a puzzle that passes is_valid has no repeated clue in any box, so random_fill succeeds on it |
| Annealing.MissingMeaning | src/sudoku/simulated_annealing.py:124 | the per-unit term is the number of values of 1..9 absent from the unit, 0 exactly when all are present |
| Annealing.CostMeaning | src/sudoku/simulated_annealing.py:121-129 | the cost is at most 162 and is 0 exactly when every row and every column contains all of 1..9 |
| Annealing.GetCost | src/sudoku/simulated_annealing.py:121-129 | the two loops compute the specification Cost |
| Annealing.ZeroCostUnits | src/sudoku/simulated_annealing.py:121-129 | cost 0 makes every row a permutation of 1..9 and every column duplicate-free |
| Annealing.ZeroCostSolved | src/sudoku/simulated_annealing.py:176-195 | a grid of cost 0 whose boxes are permutations (as random_fill and swaps keep them) is solved, so the stop on best_cost 0 ends in a solution |
| Annealing.Neighbor | src/sudoku/simulated_annealing.py:136-139 | (row2, col2) is the cell at position `cell` of the box of (row, col) |
| Annealing.FirstAcceptable | src/sudoku/simulated_annealing.py:134-141 | the retry loop takes the first draw whose two cells are different and both not fixed; none is found exactly when no draw qualifies |
| Annealing.SwapKeepsBoxes | src/sudoku/simulated_annealing.py:143 | swapping two cells of one box keeps the multiset of every box, so boxes that are permutations of 1..9 stay so |
| Annealing.SwapInsideBox | src/sudoku/simulated_annealing.py:143 | the swapped box keeps its multiset of values |
| Annealing.SwapOutsideBox | src/sudoku/simulated_annealing.py:143 | a box holding neither cell is unchanged |
| Annealing.SwapNeighbors | src/sudoku/simulated_annealing.py:132-143 | d2 becomes d with the chosen pair exchanged, d is untouched, and every fixed cell keeps its value |
| Annealing.ShuffleKeeps | src/sudoku/simulated_annealing.py:110 | the shuffle keeps the length and the set of values |
| Dlx.Shape | src/sudoku/dlx.py:6-14 | SIZE = ROOT_SIZE², SIZE_SQUARED = SIZE², and the matrix is SIZE_SQUARED·SIZE rows by SIZE_SQUARED·4 columns |
| Dlx.DecodeEncode | src/sudoku/dlx.py:17 | enumerate(product(range(SIZE), repeat=3)) gives triple (row, col, val) the index 16·row + 4·col + val, and that index decodes back to the triple |
| Dlx.EncodeDecode | src/sudoku/dlx.py:17 | every row index is the index of exactly the triple it decodes to |
| Dlx.Constraint | src/sudoku/dlx.py:19-24 | the column of constraint family f set by a placement lies in block f, columns 16f to 16f+15 |
| Dlx.SetRow | src/sudoku/dlx.py:17-24 | one loop iteration sets the four columns of row idx and leaves all other rows unchanged |
| Dlx.BuildConstraints | src/sudoku/dlx.py:11-27 | build_constraints returns a fresh 64x64 array holding exactly the matrix Constraints |
| Dlx.RowOnes | src/sudoku/dlx.py:19-24 | the ones of a matrix row are its four constraint columns |
| Dlx.RowSum | src/sudoku/dlx.py:19-24 | every matrix row sums to 4 |
| Dlx.BlockSum | src/sudoku/dlx.py:19-24 | each block of 16 columns of a row holds exactly one 1, at that family's constraint |
| Dlx.BuiltMatrixSum | src/sudoku/dlx.py:50 | the built matrix sums to 256, so the opening assert of solve holds on it |
| Dlx.ColumnHas | src/sudoku/dlx.py:17-24 | a placement covers column j exactly when it is one of the four placements that agree on the two coordinates the column fixes |
| Dlx.ColumnRowCovers | src/sudoku/dlx.py:17-24 | each of those four placements covers j |
| Dlx.ColumnRowsDistinct | src/sudoku/dlx.py:17-24 | the four placements are different rows |
| Dlx.ColumnOnes | src/sudoku/dlx.py:17-24 | the ones of column j are exactly those four rows |
| Dlx.ColumnSum | src/sudoku/dlx.py:17-24 | every column of the built matrix sums to SIZE = 4, the exact-cover shape of a sudoku |
| Dlx.ArgMax | src/sudoku/dlx.py:36 | argmax is the first position of the largest entry |
| Dlx.RowToRcv | src/sudoku/dlx.py:30-41 | row_to_rcv decodes exactly when the row sums to 4 and each of its first two blocks sums to 1, and the decoded coordinates are below SIZE |
| Dlx.RowChecks | src/sudoku/dlx.py:33-38 | every row of the built matrix passes the three asserts, with its first two ones at 4·row + col and 4·row + val |
| Dlx.RowToRcvRoundTrip | src/sudoku/dlx.py:30-41 | row_to_rcv inverts build_constraints: the row of placement (row, col, val) decodes to (row, col, val) |
| Dlx.MinPositive | src/sudoku/dlx.py:57 | min_val is the smallest positive sum, and it is 0 only when every sum is 0 |
| Dlx.Positions | src/sudoku/dlx.py:58 | np.argwhere lists exactly the positions holding min_val, ascending |
| Dlx.NonzeroPositions | src/sudoku/dlx.py:59 | the coordinates of a column's stored entries are exactly the rows with a non-zero entry |
| Dlx.ColumnChoice | src/sudoku/dlx.py:58-59 | rng.choice returns a member of a non-empty candidate list and fails on an empty one |
| Dlx.SelectColumnMeaning | src/sudoku/dlx.py:56-58 | with a positive matrix sum a column is chosen; the chosen column has the smallest positive column sum |
| Dlx.SelectRowMeaning | src/sudoku/dlx.py:59-68 | the row choice cannot fail on a column with a positive sum. A recorded step comes from a row with entry 1 in the column, row_to_rcv decoded that row, and its cell was not yet in soln |
| Dlx.SolveStepMeaning | src/sudoku/dlx.py:44-71 | the step with the corrected column choice of the Findings row: it reports solved exactly when the matrix sums to 0. A sum that is not a multiple of 4 fails the assert. The choices never fail. A recorded placement comes from a row covering a column of minimal positive sum |
| Dlx.Solution.constructor | src/sudoku/dlx.py:46 | soln starts as the empty dictionary |
| Dlx.Solve | src/sudoku/dlx.py:44-71 | solve, with the corrected column choice of the Findings row, leaves mat unchanged, returns the step of the specification SolveStep and adds (r, c) ↦ v to soln exactly when a placement is recorded |
| Dlx.BuiltStep | src/sudoku/dlx.py:82-85 | solve on the built matrix always records a placement when soln has no cell of the grid. It otherwise fails only at the new-cell assert, and the recorded row is the row of its placement, covering the chosen column |
| Dlx.BuiltRowChoice | src/sudoku/dlx.py:59-68 | the same for the row part of the step, for any column of the built matrix |
| Dlx.AsWrittenMissesSingleColumn | src/sudoku/dlx.py:58 | with exactly one candidate column, the squeezed choice as written never returns that column (it draws from range(column)); the corrected choice always does |
| Dlx.AsWrittenOnTies | src/sudoku/dlx.py:56-58 | when two columns share the smallest positive column sum, solve as written takes exactly the step of the corrected solve |
| Dlx.AsWrittenOnSingle | src/sudoku/dlx.py:56-58 | when one column n alone has the smallest positive column sum, the corrected solve goes on with column n, while solve as written fails its choice for n = 0 and otherwise goes on with column colDraw % n, which is not n |
| Dlx.SingleMinimumChoices | src/sudoku/dlx.py:57-58 | with a single column of minimal positive sum, the corrected choice takes it and the choice as written draws from range(n) |
| Dlx.BuiltAsWritten | src/sudoku/dlx.py:82-85 | on the matrix the script builds, every column sums to 4, so solve as written takes the same step as the corrected solve |
| Dlx.SingleColumnCounterexample | src/sudoku/dlx.py:58 | on a matrix whose only non-zero column is column 5, the corrected selection picks column 5 while the selection as written picks column draw % 5, whose sum is 0 |

## Specification functions

These functions carry the model; each is stated about by the rows above.

- Grid.Row, Grid.Col, Grid.Box: src/sudoku/brute_force.py:86-96 (Grid.RowCells, Grid.ColCells, Grid.BoxAt, Grid.BoxHas).
- Grid.Allowed: src/sudoku/brute_force.py:99-102 (Grid.AllowedMeaning).
- Grid.Scan, Grid.Validity: src/sudoku/brute_force.py:61-79 (Grid.ScanMeaning, Grid.ValidityMeaning).
- Grid.Solved: src/sudoku/brute_force.py:57-58 (Grid.SolvedMeaning).
- Grid.Digits: src/sudoku/brute_force.py:83 (Grid.DigitsOfDigitString, Grid.DigitsSkipOthers, Grid.DigitsAppend).
- Grid.Enumerates: src/sudoku/brute_force.py:115, the iteration order of a set (Grid.AscendingEnumerates).
- BruteForce.BruteForce, BruteForce.TryEach: src/sudoku/brute_force.py:105-122 (the BruteForce lemmas, and the methods proved against them).
- Constraint.Sweep, Constraint.Propagation: src/sudoku/constraint.py:141-157 (Constraint.SweepOnce, Constraint.PropagationKeeps, Constraint.PropagationMeaning).
- Sudoku.FirstSingle, Sudoku.NakedSingles: src/sudoku/__main__.py:67-85 (Sudoku.FirstSingleMeaning, Sudoku.NakedSinglesMeaning).
- Annealing.BoxCell: src/sudoku/simulated_annealing.py:108, the cell at position p of the flattened box (Annealing.WriteBoxCells, Annealing.BoxAfterWrite).
- Annealing.RandomFillFrom: src/sudoku/simulated_annealing.py:106-113 (Annealing.RandomFillFillsBoxes). Annealing.Cost and Annealing.Missing: src/sudoku/simulated_annealing.py:121-129 (Annealing.CostMeaning, Annealing.MissingMeaning).
- Dlx.Constraints: src/sudoku/dlx.py:16-24, the matrix build_constraints fills (Dlx.RowOnes, Dlx.RowSum, Dlx.BlockSum, Dlx.ColumnSum, Dlx.RowToRcvRoundTrip, and Dlx.BuildConstraints for the loop).
- Dlx.ColSums: src/sudoku/dlx.py:56, the column sums `mat.sum(axis=0)` (Dlx.ColumnSum on the built matrix, Dlx.SelectColumnMeaning).
- Dlx.SelectColumn, Dlx.SelectRow, Dlx.SolveStep: src/sudoku/dlx.py:44-68 (Dlx.SelectColumnMeaning, Dlx.SelectRowMeaning, Dlx.SolveStepMeaning). Dlx.SelectColumnAsWritten, Dlx.SolveStepAsWritten: the same lines as written (Dlx.AsWrittenOnTies, Dlx.AsWrittenOnSingle).

## Left out

- Printing: `to_str`, `allowed_to_str`, `__str__` and every `print` are left out. So are the script blocks under `if __name__ == "__main__"`, apart from the loops modelled above.
- The annealing main loop (simulated_annealing.py:146-197) is left out: the variance of the costs, the temperature schedule and the acceptance test work on floating point, with `np.exp` and `np.random.random`. Its integer building blocks are modelled, and so is the meaning of reaching cost 0.
- Randomness is not modelled as a distribution:
  - `np.random.shuffle` is a Fisher–Yates shuffle over caller draws;
  - `np.random.choice` in swap_neighbors is a sequence of draws;
  - `rng.choice` takes draw modulo the number of candidates.
- Annealing.Shuffle: a step with no draw left keeps its element in place. The model only proves that the result is some permutation, and it does not capture the uniform distribution.
- Annealing.SwapNeighbors: the source draws until it finds an acceptable pair. It loops forever when none exists, for instance when the grid has fewer than two free cells. The model has a finite sequence of draws and can report that none qualified.
- The order a loop visits a Python set in is a parameter of the model (Grid.Order), constrained only to list each member once (Grid.Enumerates). For the sets iterated here, `numerals - ...` with `numerals = set(range(1, 10))`, CPython's order depends only on the members of the set: it is ascending for five or more members, but a set of two to four members that includes 8 or 9 follows the layout of an 8-slot hash table (`{2, 9}` visits 9 first, `{3, 8}` visits 8 first). The model does not spell out that order; every property is proved for every admitted order, and the ascending order (Grid.AscendingEnumerates) is one instance.
- BruteForceSearch: its result equals BruteForce for the order it is given. The model does not compute CPython's particular order, so it does not predict the backtrack count printed for a given puzzle, nor which solution is returned when a puzzle has several. Success or failure does not depend on the order (BruteForce.SolvedFlagOrderFree). When the search raises, the contract says nothing about the array: in the source the cells written along the failing path stay filled as the IndexError or ValueError propagates, but no caller catches the exception, so that state is never observed.
- TryCandidates: the same as BruteForceSearch; the candidates arrive in the order given.
- Annealing.RandomFill: `list(numerals - set(box))` is listed in the order parameter before the shuffle. For a given draw sequence the filled box therefore depends on that order; the proved properties hold for every order and every draw sequence.
- The candidate dictionary of constraint.py is a sequence of 81 sets in row-major order, the insertion order of the dictionary. The `val is None` test at constraint.py:146 can never succeed and is not modelled.
- numpy `int8` storage is modelled as unbounded integers. Only values 0..9 are ever written, so no wrap-around can happen.
- The type assertions with `isinstance` in dlx.py are left out; in the model the objects always have those types.
- The sparse matrix is a dense 64x64 array of naturals, not a dok or csr array of `uint8`. The sums are exact, as numpy's promoted sums are for these sizes. `row_to_rcv` receives the row as a vector of 64 entries.
- Dlx.NonzeroPositions: lists the rows in increasing order. The library does not fix the order of `coords` of a dok slice, so which row a given draw picks may differ; the set of candidate rows is the same.
- Dlx.Solve: models the single step of solve with the corrected column choice of the Findings row (SolveStep), not the choice as written. The step as written is Dlx.SolveStepAsWritten. It equals the corrected step whenever two columns tie at the smallest positive sum (Dlx.AsWrittenOnTies), which includes the matrix the script builds (Dlx.BuiltAsWritten). It differs when a single column has that sum (Dlx.AsWrittenOnSingle). `cover` and `uncover` are empty and solve does not recurse, so there is nothing more to model. The mutable default argument `soln={}`, shared between calls, is a `Solution` object passed explicitly. The final `print(mat[4])` is left out, and the step then returns None.
- `np.argwhere(...).squeeze()` with no candidate column cannot happen once the total sum is positive (proved in Dlx.SelectColumnMeaning). The zero-dimensional case is the finding below.

## Findings

| source | as written | input that shows it | evidently intended | confidence | as-written member | corrected member |
|---|---|---|---|---|---|---|
| src/sudoku/dlx.py:58 | `np.argwhere(row_sums == min_val).squeeze()` is a zero-dimensional array when exactly one column has the minimal positive sum. `rng.choice` then treats it as the integer n and draws from range(n), or raises ValueError for column 0 | the 64x64 matrix whose only non-zero column is column 5, holding ones in rows 0..3: the choice is column draw % 5, whose sum is 0 | choose among the columns whose sum is the minimal positive sum, here column 5 | not executed; medium (follows numpy's documented handling of a 0-d argument to choice) | Dlx.SingleColumnCounterexample | Dlx.SelectColumnMeaning |
