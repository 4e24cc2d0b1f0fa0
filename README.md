# Sudoku constraint propagation, modelled in Dafny

This project models the solver of a small C# Sudoku program. The solver is the class
`Sudoku` in `Program.cs`, driven by the loop in `Main`. It keeps the caller's 9x9 board
by reference. Beside the board it keeps a table `possible[row, column, digit]` and the 27
regions of the board: 9 rows, 9 columns and 9 3x3 squares. The solver repeats two passes:

- **SetPossible**, region exclusion: every filled cell removes its digit from the
  candidates of the other cells of each of its regions. The pass reports whether anything
  was removed.
- **FindSingles**, naked-single placement: every empty cell whose candidates are exactly
  one digit gets that digit. The pass reports whether the board is now full.

The loop stops as *stuck* when an exclusion pass removes nothing, and as *solved* when a
placement pass leaves no empty cell.

The project has three modules.

- `regions.dfy`, module `Regions`, holds the 27 regions as values: rows, then columns,
  then squares. It states which cells each region contains. It also proves that two cells
  share a region exactly when they are in the same row, column or 3x3 block
  (`Regions.Peers`).
- `propagation.dfy`, module `Propagation`, holds the two passes as functions on values.
  `Eliminate(g, cs)` is one exclusion pass over grid `g` and candidate table `cs`.
  `Place(g, cs)` is one placement pass. The module also holds the properties the solver
  relies on: what a pass removes, idempotence, the invariants kept, and the two
  termination measures. The measures are the number of candidate entries (`Count`) and
  the number of empty cells (`EmptyCount`). Finally it holds the driver loop as a value:
  `Drive(g, cs)` is the final board, table and outcome the loop reaches from `g` and `cs`,
  and `DriveRounds(g, cs)` is the number of rounds it runs.
- `sudoku.dfy`, module `SudokuSolver`, holds the class `Sudoku`, which follows the
  source's own form:
  - the board is an `array2<byte>`, held by reference;
  - the candidate table is an `array3<bool>` of size 9 x 9 x 10, with index 0 unused;
  - the regions are `array2<Cell>`.

  Each method is proved against the value functions above. `SetPossible` ends with the
  table equal to `Eliminate` of the old table. `FindSingles` ends with the board equal to
  `Place` of the old board. One round of the loop of `Main` is `Sudoku.Round`, the whole
  loop is `Sudoku.Solve`, and `Run` is `Main` without its console calls. `Solve` and `Run`
  end in exactly the state `Drive` gives, after exactly `DriveRounds` rounds.

Orientation of squares: the source uses the first component of a region cell as the
board's first index (the row). So square `k`, built as `(bCol * 3 + sCol, bRow * 3 +
sRow)`, covers rows `(k % 3) * 3 ..` and columns `(k / 3) * 3 ..`. `Regions.SquareCells`
follows the code. The square order does not affect the set of regions.

Structure of the proof:
- The triple loop of `SetPossible` is proved as three nested methods:
  - `ExcludeDigit` is the innermost loop over the target cells;
  - `ExcludeRegion` is the loop over the cells of one region;
  - `SetPossible` is the loop over the regions.

  They take the same steps in the same order as the source. The state reached after step
  (region `k`, filled cell `p`, target `q`) is given by `Propagation.ClearedBefore`.
- The four loops of the constructor are the methods `BuildRows`, `BuildColumns`,
  `BuildSquares` and `InitialTable`.

Behaviour worth knowing:
- Filled cells keep exactly `{digit}` as their candidates only on a conflict-free grid
  (`Propagation.EliminatePreservesConsistent`). If a digit stands twice in one region,
  both cells lose it, and their sets become empty (`Propagation.EliminateConflictEmpties`).
- The invariant that holds on every input is weaker: a filled cell has no candidate other
  than its own digit (`Propagation.AtMostOwn`). The driver loop keeps this invariant.
- A board that is already full and conflict-free ends *stuck*, not *solved*
  (`Propagation.FullBoardStuck`). On such a board the first exclusion pass removes nothing
  (`Propagation.EliminateSolvedFixpoint`), and the loop stops before any placement pass.
  A full board with a conflict ends *solved* instead: the pass empties the conflicting
  cells, and placement leaves the full board as it is (`Propagation.FullConflictSolved`). When the loop ends *solved* with a
  conflict-free board, that board and table are settled in the same way
  (`Propagation.DriveSolvedSettles`).

## Model

| member | source | states |
|---|---|---|
| Regions.RegionCellsDistinct | Program.cs:62-89 | no region lists the same cell twice |
| Regions.SquareCells | Program.cs:76-89 | square k has 9 cells of the board, all in the 3x3 block of rows (k % 3) * 3 .. and columns (k / 3) * 3 .. |
| Regions.AllRegions | Program.cs:100-108 | the 27 regions in visiting order: first the 9 rows, then the 9 columns, then the 9 squares |
| Regions.RegionMembers | Program.cs:62-89 | row i is exactly the cells (i, 0..8), column j exactly (0..8, j), square k exactly one 3x3 block |
| Regions.ShareRegionIff | Program.cs:62-89 | two distinct cells share one of the 27 regions iff they are in the same row, column or 3x3 block |
| Regions.PeerPositions | Program.cs:62-89 | any two peers sit at known positions of one common region |
| SudokuSolver.BuildRows | Program.cs:62-67 | the row array holds (i, j) at [i, j], i.e. row i of the board |
| SudokuSolver.BuildColumns | Program.cs:69-74 | the column array holds (i, j) at [j, i], i.e. column j of the board |
| SudokuSolver.BuildSquares | Program.cs:76-89 | the square array holds at [k, l] the cell ((k % 3) * 3 + l % 3, (k / 3) * 3 + l / 3) |
| SudokuSolver.InitialTable | Program.cs:91-97 | a filled cell starts with only its own digit possible, an empty cell with 1..9; index 0 is never set |
| Propagation.InitialCandidates | Program.cs:91-97 | the initial table is a table of digits 1..9 in which every filled cell holds exactly {its digit} and every empty cell all of 1..9 |
| SudokuSolver.Sudoku.constructor | Program.cs:58-98 | keeps the caller's board (no copy), builds the 27 regions, and sets the table to the initial candidates of the board |
| SudokuSolver.Sudoku.EnumRegions | Program.cs:100-108 | the regions are visited as the 9 rows, then the 9 columns, then the 9 squares |
| Propagation.Eliminate | Program.cs:154-172 | an exclusion pass only removes candidates (monotone: every new set is a subset of the old) |
| Propagation.ClearedIffPeerHolds | Program.cs:157-168 | the pass over the 27 regions removes digit d from a cell iff a peer of the cell holds d |
| Propagation.EliminateMeaning | Program.cs:154-172 | after a pass, d is a candidate of a cell iff it was one before and no peer holds d |
| Propagation.EliminateClearsRegion | Program.cs:161-167 | after a pass, for every region and every filled cell of it, no other cell of the region keeps that cell's digit |
| Propagation.EliminateIdempotent | Program.cs:154-172 | a second pass on the same grid removes nothing more |
| Propagation.EliminateKeepsOwnDigit | Program.cs:163 | a filled cell keeps its own digit through a pass iff it had it and no peer holds the same digit (a cell is never used against itself) |
| Propagation.EliminatePreservesConsistent | Program.cs:154-172 | on a conflict-free grid, filled cells with exactly {digit} keep exactly {digit} |
| Propagation.EliminateConflictEmpties | Program.cs:161-167 | a filled cell whose digit also stands on a peer loses it, leaving no candidate |
| Propagation.EliminateSolvedFixpoint | Program.cs:154-172 | on a full, conflict-free grid whose cells have no candidate but their own digit, a pass changes nothing |
| SudokuSolver.Sudoku.ExcludeDigit | Program.cs:162-167 | clears the digit of one filled cell from every other cell of its region, and flags a change iff an entry of the starting table is gone |
| SudokuSolver.Sudoku.ExcludeRegion | Program.cs:159-168 | runs the exclusion for every filled cell of one region, in order |
| SudokuSolver.Sudoku.SetPossible | Program.cs:154-172 | the new table is Eliminate of the board and the old table; the board is untouched; the result is true iff the table changed |
| Propagation.Sole | Program.cs:181-190 | the result is the digit k when the set is exactly {k}, and 0 when it is empty or has several digits |
| SudokuSolver.Sudoku.SingleCandidate | Program.cs:181-190 | scanning digits 1..9 of one cell yields its only candidate, or 0 |
| Propagation.Place | Program.cs:177-196 | the placement pass keeps every filled cell and yields digits 0..9 |
| Propagation.PlaceWrites | Program.cs:192-193 | an empty cell receives digit k iff its candidates are exactly {k} |
| Propagation.PlaceLeaves | Program.cs:179-195 | a cell is left as it is iff it is filled or does not have exactly one candidate |
| Propagation.PlaceBlocked | Program.cs:192-195 | an empty cell with no candidate stays empty, so the board is not reported complete |
| Propagation.PlaceFull | Program.cs:176-198 | on a full board the placement pass changes nothing |
| Propagation.PlacePreservesAtMostOwn | Program.cs:192-193 | after placement every filled cell still has no candidate other than its digit |
| Propagation.PlacePreservesConsistent | Program.cs:192-193 | after placement every filled cell still has exactly {its digit} when that held before |
| Propagation.LastMissingDigit | Program.cs:154-199 | an empty cell whose peers hold every digit but m is left with {m} by one exclusion pass and receives m from the next placement pass |
| Propagation.OneEmptySolved | Program.cs:154-226 | a board whose only empty cell has every digit but m held by its peers is solved in one round, with m written in that cell |
| SudokuSolver.Sudoku.FindSingles | Program.cs:174-199 | the new board is Place of the old board and the table; the table and cells outside the 9x9 block are unchanged; the result is true iff no empty cell remains |
| Propagation.CountShrinks | Program.cs:156-167 | shrinking candidate sets never raises the number of candidate entries, and lowers it when some set shrinks |
| Propagation.CountBound | Program.cs:52 | the table holds at most 9 x 9 x 9 = 729 candidate entries |
| Propagation.EmptyCountShrinks | Program.cs:192-193 | filling empty cells never raises the number of empty cells, and lowers it when anything is written |
| Propagation.EmptyCountBound | Program.cs:177-178 | a board has at most 81 empty cells |
| Propagation.RoundStep | Program.cs:214-226 | a round keeps every original digit, keeps filled cells within {digit}, keeps the table inside the initial table, and never raises the candidate count, lowering it when exclusion changed something |
| Propagation.PlacementStep | Program.cs:214-226 | a round whose placement writes nothing leaves the table a fixpoint of exclusion, so the next round is stuck; otherwise it removes an empty cell |
| Propagation.Drive | Program.cs:214-226 | the loop as a value: a final board of digits 0..9 and a final table of candidates 1..9; it stops stuck when a pass removes nothing, otherwise runs a placement pass and stops solved once the board is full (DriveEnds states what its end states satisfy) |
| Propagation.DriveRounds | Program.cs:214-226 | the number of rounds the loop runs, the last one included: at least one |
| Propagation.DriveEnds | Program.cs:214-226 | the loop ends stuck at a fixpoint of exclusion or solved with a full board, keeping every digit of the starting board and a table inside the starting one |
| Propagation.DriveAtMostOwn | Program.cs:214-226 | when filled cells start with no candidate but their own digit, that still holds when the loop ends |
| Propagation.DriveSolvedSettles | Program.cs:214-226 | a solved end on a conflict-free board is settled: one more exclusion pass and one more placement pass change nothing |
| Propagation.DriveRoundsBound | Program.cs:214-226 | the loop runs at most one round more than the starting board has empty cells |
| Propagation.EmptyBoardStuck | Program.cs:154-172 | on a board with no digit, an exclusion pass removes nothing |
| Propagation.DriveRoundsLimit | Program.cs:214-226 | the loop runs at most 81 rounds from any board and table |
| Propagation.FullBoardStuck | Program.cs:214-221 | a full, conflict-free starting board ends stuck, after the first exclusion pass |
| Propagation.FullConflictSolved | Program.cs:214-226 | a full starting board with a conflict ends solved, with the board unchanged |
| SudokuSolver.Sudoku.Round | Program.cs:216-225 | one round: the table becomes Eliminate of the old one; the board becomes Place of the old one when the table changed and stays as it is otherwise; complete means the table changed and the board is now full |
| SudokuSolver.Sudoku.Solve | Program.cs:214-226 | the final board, table and outcome are exactly Drive of the starting board and table, after exactly DriveRounds rounds; hence stuck means a fixpoint of exclusion, solved means a full board, original digits stay, at most (empty cells + 1) and at most 81 rounds |
| SudokuSolver.Run | Program.cs:212-226 | building the solver and running the loop ends in exactly Drive of the board and its initial table, within (empty cells + 1) and within 81 rounds: stuck at an exclusion fixpoint or solved with a full board, every original digit in place, settled when the solved board has no conflict; a full starting board ends stuck iff it has no conflict |

## Left out

- `DrawGrid` and `Show` (Program.cs:110-152) are not part of this model. They only write
  to the console.
- The console setup in `Main` (Program.cs:207-210) is not modelled. The same goes for the
  "I dunno!" message (Program.cs:219) and the display after each round (Program.cs:224).
  `Run` returns the outcome `Stuck` or `Solved` instead.
- The puzzle constants (Program.cs:10-48) are not modelled. `Run` takes the board as a
  parameter instead of the constant `Medium`.
- `SudokuSolver.Sudoku.EnumRegions`: the lazy `yield` iterator is modelled as the sequence
  of the 27 regions it produces, in the same order. Laziness has no observable effect
  here, because the regions never change.
- `SudokuSolver.Sudoku.constructor`: the jagged region arrays `(byte, byte)[][]` are
  modelled as 9 x 9 two-dimensional arrays of cells. The solver allocates them and never
  changes them after construction, so aliasing between inner arrays is not modelled.
- `SudokuSolver.Sudoku.constructor`: it requires digits 0..9 in the leading 9x9 block of
  the board. With a larger digit, or with a board smaller than 9x9, the C# constructor
  throws an index-out-of-range exception, and that exception is not modelled.
- A board larger than 9x9 is accepted, as in C#. Only its leading 9x9 block is read or
  written, and the contracts state that the other cells are unchanged.
- `SudokuSolver.Sudoku.SetPossible`: the source does not check that the input board is
  free of conflicts, and neither does the model. The exact `{digit}` invariant for filled
  cells is therefore proved only for conflict-free grids. Every run keeps the weaker
  `AtMostOwn`.
- `SudokuSolver.Run`: it does not prove that a solved board is a valid Sudoku. The source
  does not ensure it either: two peers with the same single candidate both receive it in
  one placement pass.
- The `rounds` result of `Run` and `Solve` is a ghost counter that exists only for the
  bound; it equals `Propagation.DriveRounds`. The source does not count rounds.
