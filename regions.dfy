/**
 * The 27 fixed regions of a 9x9 Sudoku board: 9 rows, 9 columns and 9
 * 3x3 squares, in the order the solver visits them.
 *
 * A cell is a pair whose first component is the grid's first index (the
 * row) and whose second component is the second index (the column).
 */
module Regions {

  type Cell = (int, int)

  predicate InRange(c: Cell) {
    0 <= c.0 < 9 && 0 <= c.1 < 9
  }

  /** Row i: the cells (i, 0) .. (i, 8). */
  function RowCells(i: int): (r: seq<Cell>)
    ensures |r| == 9
    ensures 0 <= i < 9 ==> forall l :: 0 <= l < 9 ==> InRange(r[l])
  {
    seq(9, j => (i, j))
  }

  /** Column j: the cells (0, j) .. (8, j). */
  function ColumnCells(j: int): (r: seq<Cell>)
    ensures |r| == 9
    ensures 0 <= j < 9 ==> forall l :: 0 <= l < 9 ==> InRange(r[l])
  {
    seq(9, i => (i, j))
  }

  /**
   * Square k, as the constructor builds it: cell l of the square is
   * (bCol * 3 + sCol, bRow * 3 + sRow) with bCol = k % 3, bRow = k / 3,
   * sCol = l % 3 and sRow = l / 3. Its first component is used as the row,
   * so square k lies in rows (k % 3) * 3 .. + 2 and columns (k / 3) * 3 .. + 2.
   */
  function SquareCells(k: int): (r: seq<Cell>)
    ensures |r| == 9
    ensures 0 <= k < 9 ==> forall l :: 0 <= l < 9 ==> InRange(r[l])
    ensures 0 <= k < 9 ==> forall l :: 0 <= l < 9 ==> r[l].0 / 3 == k % 3 && r[l].1 / 3 == k / 3
  {
    seq(9, l => ((k % 3) * 3 + l % 3, (k / 3) * 3 + l / 3))
  }

  function Region(k: int): (r: seq<Cell>)
    ensures |r| == 9
    ensures 0 <= k < 27 ==> forall l :: 0 <= l < 9 ==> InRange(r[l])
  {
    if k < 9 then RowCells(k) else if k < 18 then ColumnCells(k - 9) else SquareCells(k - 18)
  }

  /** The regions in enumeration order: rows, then columns, then squares. */
  function AllRegions(): (rs: seq<seq<Cell>>)
    ensures |rs| == 27
    ensures forall k :: 0 <= k < 27 ==> |rs[k]| == 9
    ensures forall k, l :: 0 <= k < 27 && 0 <= l < 9 ==> InRange(rs[k][l])
    ensures forall k, l :: 0 <= k < 9 && 0 <= l < 9 ==> rs[k][l] == (k, l) && rs[9 + k][l] == (l, k)
    ensures forall k :: 0 <= k < 9 ==> rs[18 + k] == SquareCells(k)
  {
    seq(27, k => Region(k))
  }

  /** The cells of square k are exactly those of one 3x3 block. */
  predicate InBlock(k: int, c: Cell) {
    (k % 3) * 3 <= c.0 < (k % 3) * 3 + 3 && (k / 3) * 3 <= c.1 < (k / 3) * 3 + 3
  }

  /** No region lists a cell twice. */
  lemma RegionCellsDistinct(k: int, a: int, b: int)
    requires 0 <= k < 27 && 0 <= a < 9 && 0 <= b < 9 && a != b
    ensures Region(k)[a] != Region(k)[b]
  {
  }

  /**
   * Membership of each region: row i is exactly the cells (i, 0..8),
   * column j exactly (0..8, j), square k exactly the block InBlock(k, _).
   */
  lemma RegionMembers(k: int, c: Cell)
    requires 0 <= k < 27
    ensures 0 <= k < 9 ==> (c in Region(k) <==> c.0 == k && 0 <= c.1 < 9)
    ensures 9 <= k < 18 ==> (c in Region(k) <==> c.1 == k - 9 && 0 <= c.0 < 9)
    ensures 18 <= k ==> (c in Region(k) <==> InBlock(k - 18, c))
  {
    var r := Region(k);
    if k < 9 {
      assert r == RowCells(k);
      if c.0 == k && 0 <= c.1 < 9 {
        assert r[c.1] == c;
      }
    } else if k < 18 {
      assert r == ColumnCells(k - 9);
      if c.1 == k - 9 && 0 <= c.0 < 9 {
        assert r[c.0] == c;
      }
    } else {
      var s := k - 18;
      assert r == SquareCells(s);
      if InBlock(s, c) {
        var a := c.0 - (s % 3) * 3;
        var b := c.1 - (s / 3) * 3;
        var l := b * 3 + a;
        assert l % 3 == a && l / 3 == b;
        assert r[l] == c;
      }
    }
  }

  /** Two cells share a region. */
  ghost predicate ShareRegion(c: Cell, e: Cell) {
    exists k, a, b :: 0 <= k < 27 && 0 <= a < 9 && 0 <= b < 9 && Region(k)[a] == c && Region(k)[b] == e
  }

  /** Two distinct cells that the Sudoku rule requires to hold different digits. */
  predicate Peers(c: Cell, e: Cell) {
    InRange(c) && InRange(e) && c != e &&
    (c.0 == e.0 || c.1 == e.1 || (c.0 / 3 == e.0 / 3 && c.1 / 3 == e.1 / 3))
  }

  /** Cell l of square s lies in block row s % 3 and block column s / 3. */
  lemma SquareCellBlock(s: int, l: int)
    requires 0 <= s < 9 && 0 <= l < 9
    ensures SquareCells(s)[l].0 / 3 == s % 3 && SquareCells(s)[l].1 / 3 == s / 3
  {
  }

  /** Two distinct cells of one region are peers. */
  lemma SameRegionPeers(k: int, a: int, b: int)
    requires 0 <= k < 27 && 0 <= a < 9 && 0 <= b < 9 && Region(k)[a] != Region(k)[b]
    ensures Peers(Region(k)[a], Region(k)[b])
  {
    if 18 <= k {
      SquareCellBlock(k - 18, a);
      SquareCellBlock(k - 18, b);
    }
  }

  /** Cells sharing a region are in the same row, column or 3x3 block. */
  lemma ShareRegionPeers(c: Cell, e: Cell)
    requires c != e && ShareRegion(c, e)
    ensures Peers(c, e)
  {
    var k, a, b :| 0 <= k < 27 && 0 <= a < 9 && 0 <= b < 9 && Region(k)[a] == c && Region(k)[b] == e;
    SameRegionPeers(k, a, b);
  }

  /** b * 3 + a has quotient b and remainder a when both are below 3. */
  lemma QuotientRemainder(a: int, b: int)
    requires 0 <= a < 3 && 0 <= b < 3
    ensures (b * 3 + a) % 3 == a && (b * 3 + a) / 3 == b
  {
  }

  /** Every cell sits at position l of the square s of its 3x3 block. */
  lemma SquarePosition(c: Cell) returns (s: int, l: int)
    requires InRange(c)
    ensures 0 <= s < 9 && 0 <= l < 9 && SquareCells(s)[l] == c
    ensures s == (c.1 / 3) * 3 + c.0 / 3
  {
    var br, bc := c.0 / 3, c.1 / 3;
    var ir, ic := c.0 % 3, c.1 % 3;
    s, l := bc * 3 + br, ic * 3 + ir;
    QuotientRemainder(br, bc);
    QuotientRemainder(ir, ic);
  }

  /** Two peers sit at positions a and b of a common region k. */
  lemma PeerPositions(c: Cell, e: Cell) returns (k: int, a: int, b: int)
    requires Peers(c, e)
    ensures 0 <= k < 27 && 0 <= a < 9 && 0 <= b < 9 && Region(k)[a] == c && Region(k)[b] == e
  {
    if c.0 == e.0 {
      k, a, b := c.0, c.1, e.1;
    } else if c.1 == e.1 {
      k, a, b := 9 + c.1, c.0, e.0;
    } else {
      var s, s' : int;
      s, a := SquarePosition(c);
      s', b := SquarePosition(e);
      k := 18 + s;
    }
  }

  /** Cells in the same row, column or 3x3 block share a region. */
  lemma PeersShareRegion(c: Cell, e: Cell)
    requires Peers(c, e)
    ensures ShareRegion(c, e)
  {
    var k, a, b := PeerPositions(c, e);
  }

  /** The 27 regions relate exactly the cells in the same row, column or 3x3 block. */
  lemma ShareRegionIff(c: Cell, e: Cell)
    requires c != e
    ensures ShareRegion(c, e) <==> Peers(c, e)
  {
    if ShareRegion(c, e) {
      ShareRegionPeers(c, e);
    }
    if Peers(c, e) {
      PeersShareRegion(c, e);
    }
  }
}
