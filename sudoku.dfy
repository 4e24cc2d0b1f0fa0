/**
 * The solver object and its driver loop. A Sudoku keeps the caller's board
 * array by reference (so placements are visible to the caller), a candidate
 * table indexed by row, column and digit (index 0 unused), and the row,
 * column and square regions built once by the constructor.
 */
module SudokuSolver {
  import opened Regions
  import opened Propagation

  newtype byte = b: int | 0 <= b < 256

  /** A board the solver accepts: at least 9x9, digits 0..9 in the leading 9x9 block. */
  ghost predicate IsBoard(a: array2<byte>)
    reads a
  {
    a.Length0 >= 9 && a.Length1 >= 9 &&
    forall i, j :: 0 <= i < 9 && 0 <= j < 9 ==> a[i, j] <= 9
  }

  /** The digits of the leading 9x9 block of a board. */
  ghost function GridValues(a: array2<byte>): (g: Grid)
    requires IsBoard(a)
    reads a
    ensures IsGrid(g)
    ensures forall i, j :: 0 <= i < 9 && 0 <= j < 9 ==> g[i][j] == a[i, j] as int
  {
    seq(9, i requires 0 <= i < 9 reads a => seq(9, j requires 0 <= j < 9 reads a => a[i, j] as int))
  }

  /** The row regions: row i holds the cells (i, 0) .. (i, 8). */
  method BuildRows() returns (rs: array2<Cell>)
    ensures fresh(rs) && rs.Length0 == 9 && rs.Length1 == 9
    ensures forall k, l :: 0 <= k < 9 && 0 <= l < 9 ==> rs[k, l] == RowCells(k)[l]
  {
    rs := new Cell[9, 9];
    for i := 0 to 9
      invariant forall x, y :: 0 <= x < i && 0 <= y < 9 ==> rs[x, y] == RowCells(x)[y]
    {
      for j := 0 to 9
        invariant forall x, y :: 0 <= x < i && 0 <= y < 9 ==> rs[x, y] == RowCells(x)[y]
        invariant forall y :: 0 <= y < j ==> rs[i, y] == RowCells(i)[y]
      {
        rs[i, j] := (i, j);
      }
    }
  }

  /** The column regions: column j holds the cells (0, j) .. (8, j). */
  method BuildColumns() returns (cols: array2<Cell>)
    ensures fresh(cols) && cols.Length0 == 9 && cols.Length1 == 9
    ensures forall k, l :: 0 <= k < 9 && 0 <= l < 9 ==> cols[k, l] == ColumnCells(k)[l]
  {
    cols := new Cell[9, 9];
    for j := 0 to 9
      invariant forall x, y :: 0 <= x < j && 0 <= y < 9 ==> cols[x, y] == ColumnCells(x)[y]
    {
      for i := 0 to 9
        invariant forall x, y :: 0 <= x < j && 0 <= y < 9 ==> cols[x, y] == ColumnCells(x)[y]
        invariant forall y :: 0 <= y < i ==> cols[j, y] == ColumnCells(j)[y]
      {
        cols[j, i] := (i, j);
      }
    }
  }

  /** The square regions, cell l of square k at (bCol * 3 + sCol, bRow * 3 + sRow). */
  method BuildSquares() returns (sq: array2<Cell>)
    ensures fresh(sq) && sq.Length0 == 9 && sq.Length1 == 9
    ensures forall k, l :: 0 <= k < 9 && 0 <= l < 9 ==> sq[k, l] == SquareCells(k)[l]
  {
    sq := new Cell[9, 9];
    for k := 0 to 9
      invariant forall x, y :: 0 <= x < k && 0 <= y < 9 ==> sq[x, y] == SquareCells(x)[y]
    {
      for l := 0 to 9
        invariant forall x, y :: 0 <= x < k && 0 <= y < 9 ==> sq[x, y] == SquareCells(x)[y]
        invariant forall y :: 0 <= y < l ==> sq[k, y] == SquareCells(k)[y]
      {
        var bCol := k % 3;
        var bRow := k / 3;
        var sCol := l % 3;
        var sRow := l / 3;
        sq[k, l] := (bCol * 3 + sCol, bRow * 3 + sRow);
      }
    }
  }

  /** The initial candidate table: {d} at a cell holding d, 1..9 at an empty cell. */
  method InitialTable(board: array2<byte>) returns (pos: array3<bool>)
    requires IsBoard(board)
    ensures fresh(pos) && pos.Length0 == 9 && pos.Length1 == 9 && pos.Length2 == 10
    ensures forall x, y, d :: 0 <= x < 9 && 0 <= y < 9 && 0 <= d < 10 ==>
              (pos[x, y, d] <==> d in InitialCandidates(GridValues(board))[x][y])
  {
    pos := new bool[9, 9, 10]((i, j, d) => false);
    for i := 0 to 9
      invariant forall x, y, d :: 0 <= x < 9 && 0 <= y < 9 && 0 <= d < 10 ==>
                  (pos[x, y, d] <==> x < i && d in InitialCell(board[x, y] as int))
    {
      for j := 0 to 9
        invariant forall x, y, d :: 0 <= x < 9 && 0 <= y < 9 && 0 <= d < 10 ==>
                    (pos[x, y, d] <==> (x < i || (x == i && y < j)) && d in InitialCell(board[x, y] as int))
      {
        if board[i, j] > 0 {
          pos[i, j, board[i, j] as int] := true;
        } else {
          for k := 1 to 10
            invariant forall x, y, d :: 0 <= x < 9 && 0 <= y < 9 && 0 <= d < 10 ==>
                        (pos[x, y, d] <==>
                           ((x < i || (x == i && y < j)) && d in InitialCell(board[x, y] as int)) ||
                           (x == i && y == j && 1 <= d < k))
          {
            pos[i, j, k] := true;
          }
        }
      }
    }
  }

  /** An entry of the candidate table: row, column and digit index. */
  type Entry = (int, int, int)

  class Sudoku {
    const grid: array2<byte>
    const possible: array3<bool>
    const rows: array2<Cell>
    const columns: array2<Cell>
    const squares: array2<Cell>

    /** The candidate table is 9 x 9 x 10 and digit index 0 is never set. */
    ghost predicate ValidTable()
      reads possible
    {
      possible.Length0 == 9 && possible.Length1 == 9 && possible.Length2 == 10 &&
      forall i, j :: 0 <= i < 9 && 0 <= j < 9 ==> !possible[i, j, 0]
    }

    /** The region arrays hold the 9 rows, the 9 columns and the 9 squares. */
    ghost predicate ValidRegions()
      reads rows, columns, squares
    {
      rows.Length0 == 9 && rows.Length1 == 9 &&
      columns.Length0 == 9 && columns.Length1 == 9 &&
      squares.Length0 == 9 && squares.Length1 == 9 &&
      (forall k, l :: 0 <= k < 9 && 0 <= l < 9 ==> rows[k, l] == RowCells(k)[l]) &&
      (forall k, l :: 0 <= k < 9 && 0 <= l < 9 ==> columns[k, l] == ColumnCells(k)[l]) &&
      (forall k, l :: 0 <= k < 9 && 0 <= l < 9 ==> squares[k, l] == SquareCells(k)[l])
    }

    ghost predicate Valid()
      reads grid, possible, rows, columns, squares
    {
      IsBoard(grid) && ValidTable() && ValidRegions()
    }

    /** The digits still marked possible at (i, j). */
    function CandidatesAt(i: int, j: int): set<int>
      requires possible.Length0 == 9 && possible.Length1 == 9 && possible.Length2 == 10
      requires 0 <= i < 9 && 0 <= j < 9
      reads possible
    {
      set d | 0 <= d < 10 && possible[i, j, d]
    }

    /** The whole candidate table as a value. */
    ghost function Table(): (cs: Candidates)
      requires ValidTable()
      reads possible
      ensures IsCandidates(cs)
      ensures forall i, j :: 0 <= i < 9 && 0 <= j < 9 ==> cs[i][j] == CandidatesAt(i, j)
    {
      seq(9, i requires 0 <= i < 9 reads possible => seq(9, j requires 0 <= j < 9 reads possible =>
        CandidatesAt(i, j)))
    }

    /**
     * Builds the 9 rows, 9 columns and 9 squares and the initial candidate
     * table: {d} for a cell holding d, all of 1..9 for an empty cell. The
     * board array is kept, not copied.
     */
    constructor (board: array2<byte>)
      requires IsBoard(board)
      ensures Valid()
      ensures grid == board && fresh(possible) && fresh(rows) && fresh(columns) && fresh(squares)
      ensures Table() == InitialCandidates(GridValues(board))
    {
      grid := board;
      ghost var g := GridValues(board);

      var rs := BuildRows();
      var cols := BuildColumns();
      var sq := BuildSquares();
      var pos := InitialTable(board);
      possible := pos;
      rows := rs;
      columns := cols;
      squares := sq;
      new;
      forall x, y | 0 <= x < 9 && 0 <= y < 9
        ensures Table()[x][y] == InitialCandidates(g)[x][y]
      {
      }
      CandidatesExt(Table(), InitialCandidates(g));
    }

    /** The regions in the order the exclusion pass visits them: rows, columns, squares. */
    function EnumRegions(): (rs: seq<seq<Cell>>)
      requires ValidRegions()
      reads rows, columns, squares
      ensures rs == AllRegions()
    {
      var rs := seq(27, k requires 0 <= k < 27 reads rows, columns, squares =>
        seq(9, l requires 0 <= l < 9 reads rows, columns, squares =>
          if k < 9 then rows[k, l] else if k < 18 then columns[k - 9, l] else squares[k - 18, l]));
      assert forall k :: 0 <= k < 27 ==> rs[k] == AllRegions()[k];
      rs
    }

    /**
     * The state of the exclusion pass when it reaches step (k, p, q), given
     * the table t0 it started from: exactly the entries cleared by the
     * earlier steps are gone, and changed says whether any entry is gone
     * (when it is set, w is such an entry).
     */
    ghost predicate PassReached(g: Grid, t0: Candidates, k: int, p: int, q: int, changed: bool, w: Entry)
      requires IsGrid(g) && IsCandidates(t0) && 0 <= k <= 27 && 0 <= p <= 9 && 0 <= q <= 9
      requires possible.Length0 == 9 && possible.Length1 == 9 && possible.Length2 == 10
      reads possible
    {
      (forall x, y, d :: 0 <= x < 9 && 0 <= y < 9 && 0 <= d < 10 ==>
         (possible[x, y, d] <==> d in t0[x][y] && !ClearedBefore(g, x, y, d, k, p, q))) &&
      (changed ==> 0 <= w.0 < 9 && 0 <= w.1 < 9 && 0 <= w.2 < 10 &&
                   w.2 in t0[w.0][w.1] && !possible[w.0, w.1, w.2]) &&
      (!changed ==> forall x, y, d :: 0 <= x < 9 && 0 <= y < 9 && 0 <= d < 10 && d in t0[x][y] ==>
                      possible[x, y, d])
    }

    /**
     * The innermost loop of the exclusion pass: the digit of cell p of
     * region k is cleared from every other cell of that region.
     */
    method ExcludeDigit(ghost g: Grid, ghost t0: Candidates, region: seq<Cell>, k: int, p: int, digit: int,
                        changed0: bool, ghost w0: Entry) returns (changed: bool, ghost w: Entry)
      requires Valid() && g == GridValues(grid) && IsCandidates(t0)
      requires 0 <= k < 27 && 0 <= p < 9 && region == Region(k)
      requires digit == g[region[p].0][region[p].1] && digit != 0
      requires PassReached(g, t0, k, p, 0, changed0, w0)
      modifies possible
      ensures Valid()
      ensures PassReached(g, t0, k, p + 1, 0, changed, w)
    {
      var (c, r) := region[p];
      changed, w := changed0, w0;
      var q := 0;
      while q < 9
        invariant 0 <= q <= 9
        invariant ValidTable()
        invariant PassReached(g, t0, k, p, q, changed, w)
      {
        var (c1, r1) := region[q];
        forall x, y, d | 0 <= x < 9 && 0 <= y < 9 && 0 <= d < 10 {
          ClearedBeforeTarget(g, x, y, d, k, p, q);
        }
        if (c1, r1) != (c, r) && possible[c1, r1, digit] {
          possible[c1, r1, digit] := false;
          if !changed {
            w := (c1, r1, digit);
          }
          changed := true;
        }
        q := q + 1;
      }
      forall x, y, d | 0 <= x < 9 && 0 <= y < 9 && 0 <= d < 10 {
        ClearedBeforeCell(g, x, y, d, k, p);
      }
    }

    /**
     * The middle loop of the exclusion pass: every filled cell of region k
     * has its digit cleared from the rest of the region.
     */
    method ExcludeRegion(ghost g: Grid, ghost t0: Candidates, region: seq<Cell>, k: int,
                         changed0: bool, ghost w0: Entry) returns (changed: bool, ghost w: Entry)
      requires Valid() && g == GridValues(grid) && IsCandidates(t0)
      requires 0 <= k < 27 && region == Region(k)
      requires PassReached(g, t0, k, 0, 0, changed0, w0)
      modifies possible
      ensures Valid()
      ensures PassReached(g, t0, k + 1, 0, 0, changed, w)
    {
      changed, w := changed0, w0;
      var p := 0;
      while p < 9
        invariant 0 <= p <= 9
        invariant Valid()
        invariant PassReached(g, t0, k, p, 0, changed, w)
      {
        var (c, r) := region[p];
        if grid[c, r] != 0 {
          changed, w := ExcludeDigit(g, t0, region, k, p, grid[c, r] as int, changed, w);
        } else {
          forall x, y, d | 0 <= x < 9 && 0 <= y < 9 && 0 <= d < 10 {
            ClearedBeforeEmptyCell(g, x, y, d, k, p);
          }
        }
        p := p + 1;
      }
      forall x, y, d | 0 <= x < 9 && 0 <= y < 9 && 0 <= d < 10 {
        ClearedBeforeRegion(g, x, y, d, k);
      }
    }

    /**
     * One pass of region exclusion: for every region and every filled cell
     * of it, the cell's digit is cleared from the other cells of the region.
     * The grid is left alone; the result says whether any entry was cleared.
     */
    method SetPossible() returns (changed: bool)
      requires Valid()
      modifies possible
      ensures Valid()
      ensures unchanged(grid)
      ensures Table() == Eliminate(GridValues(grid), old(Table()))
      ensures changed <==> Table() != old(Table())
    {
      ghost var g := GridValues(grid);
      ghost var t0 := Table();
      var regions := EnumRegions();
      changed := false;
      ghost var w: Entry := (0, 0, 0);
      forall x, y, d {
        ClearedBeforeStart(g, x, y, d);
      }
      var k := 0;
      while k < 27
        invariant 0 <= k <= 27
        invariant Valid()
        invariant PassReached(g, t0, k, 0, 0, changed, w)
      {
        changed, w := ExcludeRegion(g, t0, regions[k], k, changed, w);
        k := k + 1;
      }
      forall x, y | 0 <= x < 9 && 0 <= y < 9
        ensures Table()[x][y] == Eliminate(g, t0)[x][y]
      {
        forall d {
          ClearedBeforeEnd(g, x, y, d);
        }
      }
      CandidatesExt(Table(), Eliminate(g, t0));
      if changed {
        assert w.2 in t0[w.0][w.1] && w.2 !in Table()[w.0][w.1];
      } else {
        forall x, y | 0 <= x < 9 && 0 <= y < 9
          ensures Table()[x][y] == t0[x][y]
        {
        }
        CandidatesExt(Table(), t0);
      }
    }

    /**
     * Scans digits 1..9 of the candidate table at (i, j): the result is the
     * only candidate there, or 0 when there is none or more than one.
     */
    method SingleCandidate(i: int, j: int) returns (number: byte)
      requires ValidTable() && 0 <= i < 9 && 0 <= j < 9
      ensures number as int == Sole(CandidatesAt(i, j))
    {
      number := 0;
      var k := 1;
      while k <= 9
        invariant 1 <= k <= 10
        invariant 0 <= number as int < k
        invariant number == 0 ==> forall d :: 1 <= d < k ==> !possible[i, j, d]
        invariant number != 0 ==> possible[i, j, number as int] &&
                                  forall d :: 1 <= d < k && d != number as int ==> !possible[i, j, d]
      {
        if possible[i, j, k] {
          if number == 0 {
            number := k as byte;
          } else {
            assert number as int in CandidatesAt(i, j) && k in CandidatesAt(i, j);
            assert Sole(CandidatesAt(i, j)) == 0;
            number := 0;
            break;
          }
        }
        k := k + 1;
      }
      if number != 0 {
        assert CandidatesAt(i, j) == {number as int};
        SoleOf(CandidatesAt(i, j), number as int);
      } else if k == 10 {
        assert CandidatesAt(i, j) == {};
        assert forall m :: 1 <= m <= 9 ==> !IsOnly(CandidatesAt(i, j), m);
      }
    }

    /**
     * One pass of naked-single placement: every empty cell whose candidates
     * are a single digit gets that digit. The result says whether no empty
     * cell is left.
     */
    method FindSingles() returns (complete: bool)
      requires Valid()
      modifies grid
      ensures Valid()
      ensures unchanged(possible)
      ensures GridValues(grid) == Place(old(GridValues(grid)), Table())
      ensures forall x, y :: 0 <= x < grid.Length0 && 0 <= y < grid.Length1 && !(x < 9 && y < 9) ==>
                grid[x, y] == old(grid[x, y])
      ensures complete <==> Full(GridValues(grid))
    {
      ghost var g := GridValues(grid);
      complete := true;
      for i := 0 to 9
        invariant forall x, y :: 0 <= x < 9 && 0 <= y < 9 ==>
                    grid[x, y] as int == if x < i then PlaceCell(g[x][y], CandidatesAt(x, y)) else g[x][y]
        invariant forall x, y :: 0 <= x < grid.Length0 && 0 <= y < grid.Length1 && !(x < 9 && y < 9) ==>
                    grid[x, y] == old(grid[x, y])
        invariant complete <==> forall x, y :: 0 <= x < i && 0 <= y < 9 ==> grid[x, y] != 0
      {
        for j := 0 to 9
          invariant forall x, y :: 0 <= x < 9 && 0 <= y < 9 ==>
                      grid[x, y] as int ==
                        if x < i || (x == i && y < j) then PlaceCell(g[x][y], CandidatesAt(x, y)) else g[x][y]
          invariant forall x, y :: 0 <= x < grid.Length0 && 0 <= y < grid.Length1 && !(x < 9 && y < 9) ==>
                      grid[x, y] == old(grid[x, y])
          invariant complete <==> forall x, y :: 0 <= x < 9 && 0 <= y < 9 && (x < i || (x == i && y < j)) ==>
                                    grid[x, y] != 0
        {
          if grid[i, j] == 0 {
            var number := SingleCandidate(i, j);
            if number > 0 {
              grid[i, j] := number;
            } else {
              complete := false;
            }
          }
        }
      }
      ghost var placed := Place(g, Table());
      GridExt(GridValues(grid), placed);
    }

    /**
     * One round of the driver loop: an exclusion pass and, when it removed
     * something, a placement pass. The results are whether the exclusion
     * changed the table and whether the placement left the board full.
     */
    method Round() returns (changed: bool, complete: bool)
      requires Valid()
      modifies grid, possible
      ensures Valid()
      ensures forall i, j :: 0 <= i < grid.Length0 && 0 <= j < grid.Length1 && !(i < 9 && j < 9) ==>
                grid[i, j] == old(grid[i, j])
      ensures Table() == Eliminate(old(GridValues(grid)), old(Table()))
      ensures changed <==> Table() != old(Table())
      ensures GridValues(grid) == if changed then Place(old(GridValues(grid)), Table()) else old(GridValues(grid))
      ensures complete <==> changed && Full(GridValues(grid))
    {
      changed := SetPossible();
      complete := false;
      if changed {
        complete := FindSingles();
      }
    }

    /**
     * The rounds of the driver loop over this solver's board and table: the
     * final board, table and outcome are those of Drive. A round that places
     * nothing leaves a fixpoint of exclusion, so the next round is the last:
     * there is at most one round more than empty cells, and at most 81.
     */
    method Solve() returns (outcome: Outcome, ghost rounds: nat)
      requires Valid()
      modifies grid, possible
      ensures Valid()
      ensures forall i, j :: 0 <= i < grid.Length0 && 0 <= j < grid.Length1 && !(i < 9 && j < 9) ==>
                grid[i, j] == old(grid[i, j])
      ensures (GridValues(grid), Table(), outcome) == Drive(old(GridValues(grid)), old(Table()))
      ensures KeepsFilled(old(GridValues(grid)), GridValues(grid))
      ensures outcome == Solved ==> Full(GridValues(grid))
      ensures outcome == Stuck ==> Eliminate(GridValues(grid), Table()) == Table()
      ensures old(AtMostOwn(GridValues(grid), Table())) ==> AtMostOwn(GridValues(grid), Table())
      ensures Within(Table(), old(Table()))
      ensures rounds == DriveRounds(old(GridValues(grid)), old(Table()))
      ensures rounds <= EmptyCount(old(GridValues(grid))) + 1 && rounds <= 81
    {
      ghost var g0 := GridValues(grid);
      ghost var init := Table();
      rounds := 0;
      while true
        invariant Valid()
        invariant forall i, j :: 0 <= i < grid.Length0 && 0 <= j < grid.Length1 && !(i < 9 && j < 9) ==>
                    grid[i, j] == old(grid[i, j])
        invariant Drive(GridValues(grid), Table()) == Drive(g0, init)
        invariant rounds + DriveRounds(GridValues(grid), Table()) == DriveRounds(g0, init)
        decreases Count(Table())
      {
        ghost var g := GridValues(grid);
        ghost var before := Table();
        CountShrinks(Eliminate(g, before), before);
        var changed, complete := Round();
        rounds := rounds + 1;
        if !changed {
          outcome := Stuck;
          break;
        }
        if complete {
          outcome := Solved;
          break;
        }
      }
      DriveResult(g0, init, GridValues(grid), Table(), outcome);
      DriveRoundsBound(g0, init);
      DriveRoundsLimit(g0, init);
    }
  }

  /**
   * The driver loop: build the solver over the board, then repeat the
   * exclusion pass; if it cleared nothing the solver is stuck, otherwise
   * run the placement pass and stop when it reports the grid complete.
   */
  method Run(board: array2<byte>) returns (s: Sudoku, outcome: Outcome, ghost rounds: nat)
    requires IsBoard(board)
    modifies board
    ensures s.Valid() && s.grid == board
    ensures forall i, j :: 0 <= i < board.Length0 && 0 <= j < board.Length1 && !(i < 9 && j < 9) ==>
              board[i, j] == old(board[i, j])
    ensures (GridValues(board), s.Table(), outcome) ==
              Drive(old(GridValues(board)), InitialCandidates(old(GridValues(board))))
    ensures KeepsFilled(old(GridValues(board)), GridValues(board))
    ensures outcome == Solved ==> Full(GridValues(board))
    ensures outcome == Stuck ==> Eliminate(GridValues(board), s.Table()) == s.Table()
    ensures AtMostOwn(GridValues(board), s.Table())
    ensures Within(s.Table(), InitialCandidates(old(GridValues(board))))
    ensures outcome == Solved && NoConflicts(GridValues(board)) ==>
              Eliminate(GridValues(board), s.Table()) == s.Table() &&
              Place(GridValues(board), s.Table()) == GridValues(board)
    ensures rounds == DriveRounds(old(GridValues(board)), InitialCandidates(old(GridValues(board))))
    ensures rounds <= EmptyCount(old(GridValues(board))) + 1 && rounds <= 81
    ensures Full(old(GridValues(board))) ==> (outcome == Stuck <==> NoConflicts(old(GridValues(board))))
  {
    ghost var g0 := GridValues(board);
    s := new Sudoku(board);
    outcome, rounds := s.Solve();
    if Full(g0) {
      if NoConflicts(g0) {
        FullBoardStuck(g0);
      } else {
        FullConflictSolved(g0);
      }
    }
    if outcome == Solved && NoConflicts(GridValues(board)) {
      DriveSolvedSettles(g0, InitialCandidates(g0));
    }
  }
}
