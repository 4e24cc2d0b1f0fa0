/**
 * The solver's two propagation rules as functions on values: one pass of
 * region exclusion (Eliminate, what SetPossible computes) and one pass of
 * naked-single placement (Place, what FindSingles computes), with the
 * properties the solver relies on.
 */
module Propagation {
  import opened Regions

  /** The digits of the 9x9 board, row by row; 0 is an empty cell. */
  type Grid = seq<seq<int>>

  /** For every cell, the digits still possible there. */
  type Candidates = seq<seq<set<int>>>

  ghost predicate IsGrid(g: Grid) {
    |g| == 9 && (forall i :: 0 <= i < 9 ==> |g[i]| == 9) &&
    (forall i, j :: 0 <= i < 9 && 0 <= j < 9 ==> 0 <= g[i][j] <= 9)
  }

  ghost predicate IsCandidates(cs: Candidates) {
    |cs| == 9 && (forall i :: 0 <= i < 9 ==> |cs[i]| == 9) &&
    (forall i, j, d :: 0 <= i < 9 && 0 <= j < 9 && d in cs[i][j] ==> 1 <= d <= 9)
  }

  ghost function Digit(g: Grid, c: Cell): int
    requires IsGrid(g) && InRange(c)
  {
    g[c.0][c.1]
  }

  /** Every cell holds a digit. */
  ghost predicate Full(g: Grid)
    requires IsGrid(g)
  {
    forall i, j :: 0 <= i < 9 && 0 <= j < 9 ==> g[i][j] != 0
  }

  /** No digit occurs twice in a row, a column or a 3x3 block. */
  ghost predicate NoConflicts(g: Grid)
    requires IsGrid(g)
  {
    forall c, e :: Peers(c, e) && Digit(g, c) != 0 ==> Digit(g, c) != Digit(g, e)
  }

  /** A filled cell has its own digit as its only candidate. */
  ghost predicate Consistent(g: Grid, cs: Candidates)
    requires IsGrid(g) && IsCandidates(cs)
  {
    forall i, j :: 0 <= i < 9 && 0 <= j < 9 && g[i][j] != 0 ==> cs[i][j] == {g[i][j]}
  }

  /** A filled cell has no candidate other than its own digit. */
  ghost predicate AtMostOwn(g: Grid, cs: Candidates)
    requires IsGrid(g) && IsCandidates(cs)
  {
    forall i, j :: 0 <= i < 9 && 0 <= j < 9 && g[i][j] != 0 ==> cs[i][j] <= {g[i][j]}
  }

  ghost function AllDigits(): set<int> {
    {1, 2, 3, 4, 5, 6, 7, 8, 9}
  }

  /** Every digit of g is still in place in h. */
  ghost predicate KeepsFilled(g: Grid, h: Grid)
    requires IsGrid(g) && IsGrid(h)
  {
    forall i, j :: 0 <= i < 9 && 0 <= j < 9 && g[i][j] != 0 ==> h[i][j] == g[i][j]
  }

  /** Every candidate set of a is contained in the matching set of b. */
  ghost predicate Within(a: Candidates, b: Candidates)
    requires IsCandidates(a) && IsCandidates(b)
  {
    forall i, j :: 0 <= i < 9 && 0 <= j < 9 ==> a[i][j] <= b[i][j]
  }

  /** The candidates a cell holding v starts with: {v} when it is filled, every digit when it is empty. */
  ghost function InitialCell(v: int): set<int> {
    if v > 0 then {v} else AllDigits()
  }

  /** The table the constructor sets up: {d} for a cell holding d, every digit for an empty cell. */
  ghost function InitialCandidates(g: Grid): (cs: Candidates)
    requires IsGrid(g)
    ensures IsCandidates(cs)
    ensures Consistent(g, cs)
    ensures forall i, j :: 0 <= i < 9 && 0 <= j < 9 && g[i][j] == 0 ==> cs[i][j] == AllDigits()
  {
    seq(9, i requires 0 <= i < 9 => seq(9, j requires 0 <= j < 9 =>
      InitialCell(g[i][j])))
  }

  lemma CandidatesExt(a: Candidates, b: Candidates)
    requires IsCandidates(a) && IsCandidates(b)
    requires forall i, j :: 0 <= i < 9 && 0 <= j < 9 ==> a[i][j] == b[i][j]
    ensures a == b
  {
    forall i | 0 <= i < 9
      ensures a[i] == b[i]
    {
    }
  }

  lemma GridExt(a: Grid, b: Grid)
    requires IsGrid(a) && IsGrid(b)
    requires forall i, j :: 0 <= i < 9 && 0 <= j < 9 ==> a[i][j] == b[i][j]
    ensures a == b
  {
    forall i | 0 <= i < 9
      ensures a[i] == b[i]
    {
    }
  }

  // ---------------------------------------------------------------------
  // Region exclusion
  // ---------------------------------------------------------------------

  /**
   * Step (k, p, q) of the exclusion pass removes d from (x, y): position q of
   * region k is (x, y), position p of region k is another cell, and that cell
   * holds the digit d.
   */
  ghost predicate Clears(g: Grid, k: int, p: int, q: int, x: int, y: int, d: int)
    requires IsGrid(g) && 0 <= k < 27 && 0 <= p < 9 && 0 <= q < 9
  {
    var src := Region(k)[p];
    Region(k)[q] == (x, y) && src != (x, y) && Digit(g, src) != 0 && Digit(g, src) == d
  }

  /** The filled cell at position p of region k removes d from (x, y). */
  ghost predicate ClearedFrom(g: Grid, k: int, p: int, x: int, y: int, d: int)
    requires IsGrid(g) && 0 <= k < 27 && 0 <= p < 9
  {
    exists q :: 0 <= q < 9 && Clears(g, k, p, q, x, y, d)
  }

  /** Region k removes d from (x, y). */
  ghost predicate ClearedIn(g: Grid, k: int, x: int, y: int, d: int)
    requires IsGrid(g) && 0 <= k < 27
  {
    exists p :: 0 <= p < 9 && ClearedFrom(g, k, p, x, y, d)
  }

  /** One pass over all 27 regions removes d from (x, y). */
  ghost predicate Cleared(g: Grid, x: int, y: int, d: int)
    requires IsGrid(g)
  {
    exists k :: 0 <= k < 27 && ClearedIn(g, k, x, y, d)
  }

  /** The candidate table after one pass of region exclusion on grid g. */
  ghost function Eliminate(g: Grid, cs: Candidates): (r: Candidates)
    requires IsGrid(g) && IsCandidates(cs)
    ensures IsCandidates(r)
    ensures forall i, j :: 0 <= i < 9 && 0 <= j < 9 ==> r[i][j] <= cs[i][j]
  {
    seq(9, x requires 0 <= x < 9 => seq(9, y requires 0 <= y < 9 =>
      set d | d in cs[x][y] && !Cleared(g, x, y, d)))
  }

  /** Some peer of (x, y) holds the digit d. */
  ghost predicate PeerHolds(g: Grid, x: int, y: int, d: int)
    requires IsGrid(g)
  {
    d != 0 && exists c :: Peers((x, y), c) && Digit(g, c) == d
  }

  /** A digit the pass removes from (x, y) is held by a peer of (x, y). */
  lemma ClearedPeerHolds(g: Grid, x: int, y: int, d: int)
    requires IsGrid(g) && InRange((x, y)) && Cleared(g, x, y, d)
    ensures PeerHolds(g, x, y, d)
  {
    var k :| 0 <= k < 27 && ClearedIn(g, k, x, y, d);
    var p :| 0 <= p < 9 && ClearedFrom(g, k, p, x, y, d);
    var q :| 0 <= q < 9 && Clears(g, k, p, q, x, y, d);
    SameRegionPeers(k, q, p);
    assert Peers((x, y), Region(k)[p]) && Digit(g, Region(k)[p]) == d;
  }

  /** A digit held by a peer of (x, y) is removed from (x, y) by the pass. */
  lemma PeerHoldsCleared(g: Grid, x: int, y: int, d: int)
    requires IsGrid(g) && InRange((x, y)) && PeerHolds(g, x, y, d)
    ensures Cleared(g, x, y, d)
  {
    var c :| Peers((x, y), c) && Digit(g, c) == d;
    var k, q, p := PeerPositions((x, y), c);
    assert Clears(g, k, p, q, x, y, d);
    assert ClearedFrom(g, k, p, x, y, d);
    assert ClearedIn(g, k, x, y, d);
  }

  /** Exclusion over the 27 regions removes exactly the digits held by a peer. */
  lemma ClearedIffPeerHolds(g: Grid, x: int, y: int, d: int)
    requires IsGrid(g) && InRange((x, y))
    ensures Cleared(g, x, y, d) <==> PeerHolds(g, x, y, d)
  {
    if Cleared(g, x, y, d) {
      ClearedPeerHolds(g, x, y, d);
    }
    if PeerHolds(g, x, y, d) {
      PeerHoldsCleared(g, x, y, d);
    }
  }

  /** After one pass, a digit is still a candidate iff it was one and no peer holds it. */
  lemma EliminateMeaning(g: Grid, cs: Candidates, x: int, y: int, d: int)
    requires IsGrid(g) && IsCandidates(cs) && InRange((x, y))
    ensures d in Eliminate(g, cs)[x][y] <==> d in cs[x][y] && !PeerHolds(g, x, y, d)
  {
    ClearedIffPeerHolds(g, x, y, d);
  }

  /**
   * After one pass, for every region and every filled cell of it, no other
   * cell of that region has the filled cell's digit as a candidate.
   */
  lemma EliminateClearsRegion(g: Grid, cs: Candidates, k: int, p: int, q: int)
    requires IsGrid(g) && IsCandidates(cs) && 0 <= k < 27 && 0 <= p < 9 && 0 <= q < 9
    requires Region(k)[p] != Region(k)[q] && Digit(g, Region(k)[p]) != 0
    ensures Digit(g, Region(k)[p]) !in Eliminate(g, cs)[Region(k)[q].0][Region(k)[q].1]
  {
    var (x, y) := Region(k)[q];
    var d := Digit(g, Region(k)[p]);
    assert Clears(g, k, p, q, x, y, d);
    assert ClearedFrom(g, k, p, x, y, d);
    assert ClearedIn(g, k, x, y, d);
  }

  /** A second pass on the same grid removes nothing more. */
  lemma {:induction false} EliminateIdempotent(g: Grid, cs: Candidates)
    requires IsGrid(g) && IsCandidates(cs)
    ensures Eliminate(g, Eliminate(g, cs)) == Eliminate(g, cs)
  {
    var once := Eliminate(g, cs);
    var twice := Eliminate(g, once);
    forall i, j | 0 <= i < 9 && 0 <= j < 9
      ensures twice[i][j] == once[i][j]
    {
      forall d | d in once[i][j]
        ensures d in twice[i][j]
      {
        assert !Cleared(g, i, j, d);
      }
    }
    CandidatesExt(twice, once);
  }

  /**
   * A filled cell keeps its own digit through a pass iff no peer holds the
   * same digit: the exclusion never uses a cell against itself.
   */
  lemma EliminateKeepsOwnDigit(g: Grid, cs: Candidates, x: int, y: int)
    requires IsGrid(g) && IsCandidates(cs) && InRange((x, y)) && g[x][y] != 0
    ensures g[x][y] in Eliminate(g, cs)[x][y] <==>
              g[x][y] in cs[x][y] && forall c :: Peers((x, y), c) ==> Digit(g, c) != g[x][y]
  {
    EliminateMeaning(g, cs, x, y, g[x][y]);
  }

  /** On a grid with no conflicting pair, a pass keeps every filled cell at {digit}. */
  lemma EliminatePreservesConsistent(g: Grid, cs: Candidates)
    requires IsGrid(g) && IsCandidates(cs) && NoConflicts(g) && Consistent(g, cs)
    ensures Consistent(g, Eliminate(g, cs))
  {
    forall x, y | 0 <= x < 9 && 0 <= y < 9 && g[x][y] != 0
      ensures Eliminate(g, cs)[x][y] == {g[x][y]}
    {
      EliminateKeepsOwnDigit(g, cs, x, y);
      assert forall c :: Peers((x, y), c) ==> Digit(g, c) != g[x][y] by {
        forall c | Peers((x, y), c)
          ensures Digit(g, c) != g[x][y]
        {
          assert Peers(c, (x, y));
          assert Digit(g, (x, y)) == g[x][y];
        }
      }
    }
  }

  /** A filled cell whose digit also stands on a peer loses that digit: its candidates become empty. */
  lemma EliminateConflictEmpties(g: Grid, cs: Candidates, x: int, y: int, c: Cell)
    requires IsGrid(g) && IsCandidates(cs) && AtMostOwn(g, cs)
    requires InRange((x, y)) && g[x][y] != 0 && Peers((x, y), c) && Digit(g, c) == g[x][y]
    ensures Eliminate(g, cs)[x][y] == {}
  {
    EliminateKeepsOwnDigit(g, cs, x, y);
  }

  /**
   * A full, conflict-free grid whose cells have no candidate but their own
   * digit is a fixpoint of the pass.
   */
  lemma EliminateSolvedFixpoint(g: Grid, cs: Candidates)
    requires IsGrid(g) && IsCandidates(cs) && Full(g) && NoConflicts(g) && AtMostOwn(g, cs)
    ensures Eliminate(g, cs) == cs
  {
    forall x, y | 0 <= x < 9 && 0 <= y < 9
      ensures Eliminate(g, cs)[x][y] == cs[x][y]
    {
      forall d | d in cs[x][y]
        ensures d in Eliminate(g, cs)[x][y]
      {
        EliminateMeaning(g, cs, x, y, d);
        forall c | Peers((x, y), c)
          ensures Digit(g, c) != d
        {
          assert Peers(c, (x, y)) && Digit(g, (x, y)) == d;
        }
      }
    }
    CandidatesExt(Eliminate(g, cs), cs);
  }

  /**
   * The cell (x, y) is empty and its peers hold every digit but m: one pass
   * leaves m as its only candidate and the placement pass writes m there.
   */
  lemma LastMissingDigit(g: Grid, cs: Candidates, x: int, y: int, m: int)
    requires IsGrid(g) && IsCandidates(cs) && InRange((x, y)) && g[x][y] == 0
    requires 1 <= m <= 9 && m in cs[x][y]
    requires forall d :: 1 <= d <= 9 && d != m ==> PeerHolds(g, x, y, d)
    requires !PeerHolds(g, x, y, m)
    ensures Eliminate(g, cs)[x][y] == {m}
    ensures Place(g, Eliminate(g, cs))[x][y] == m
  {
    var e := Eliminate(g, cs);
    forall d
      ensures d in e[x][y] <==> d == m
    {
      if d in e[x][y] {
        EliminateMeaning(g, cs, x, y, d);
      }
      if d == m {
        EliminateMeaning(g, cs, x, y, m);
      }
    }
    assert e[x][y] == {m};
    SoleOf(e[x][y], m);
  }

  // ---------------------------------------------------------------------
  // The exclusion pass in enumeration order
  // ---------------------------------------------------------------------

  /**
   * d has been removed from (x, y) by the time the pass reaches step
   * (k, p, q): region k, filled cell p of it, target position q.
   */
  ghost predicate ClearedBefore(g: Grid, x: int, y: int, d: int, k: int, p: int, q: int)
    requires IsGrid(g) && 0 <= k <= 27 && 0 <= p <= 9 && 0 <= q <= 9
  {
    (exists k' :: 0 <= k' < k && ClearedIn(g, k', x, y, d)) ||
    (k < 27 && exists p' :: 0 <= p' < p && ClearedFrom(g, k, p', x, y, d)) ||
    (k < 27 && p < 9 && exists q' :: 0 <= q' < q && Clears(g, k, p, q', x, y, d))
  }

  lemma ClearedBeforeStart(g: Grid, x: int, y: int, d: int)
    requires IsGrid(g)
    ensures !ClearedBefore(g, x, y, d, 0, 0, 0)
  {
  }

  lemma ClearedBeforeEnd(g: Grid, x: int, y: int, d: int)
    requires IsGrid(g)
    ensures ClearedBefore(g, x, y, d, 27, 0, 0) <==> Cleared(g, x, y, d)
  {
  }

  lemma ClearedBeforeTarget(g: Grid, x: int, y: int, d: int, k: int, p: int, q: int)
    requires IsGrid(g) && 0 <= k < 27 && 0 <= p < 9 && 0 <= q < 9
    ensures ClearedBefore(g, x, y, d, k, p, q + 1) <==>
              ClearedBefore(g, x, y, d, k, p, q) || Clears(g, k, p, q, x, y, d)
  {
  }

  lemma ClearedBeforeCell(g: Grid, x: int, y: int, d: int, k: int, p: int)
    requires IsGrid(g) && 0 <= k < 27 && 0 <= p < 9
    ensures ClearedBefore(g, x, y, d, k, p + 1, 0) <==> ClearedBefore(g, x, y, d, k, p, 9)
  {
    if ClearedFrom(g, k, p, x, y, d) {
      assert exists p' :: 0 <= p' < p + 1 && ClearedFrom(g, k, p', x, y, d);
    }
    if exists p' :: 0 <= p' < p + 1 && ClearedFrom(g, k, p', x, y, d) {
      var p' :| 0 <= p' < p + 1 && ClearedFrom(g, k, p', x, y, d);
      if p' == p {
        assert ClearedFrom(g, k, p, x, y, d);
      }
    }
  }

  lemma ClearedBeforeEmptyCell(g: Grid, x: int, y: int, d: int, k: int, p: int)
    requires IsGrid(g) && 0 <= k < 27 && 0 <= p < 9 && Digit(g, Region(k)[p]) == 0
    ensures ClearedBefore(g, x, y, d, k, p + 1, 0) <==> ClearedBefore(g, x, y, d, k, p, 0)
  {
  }

  lemma ClearedBeforeRegion(g: Grid, x: int, y: int, d: int, k: int)
    requires IsGrid(g) && 0 <= k < 27
    ensures ClearedBefore(g, x, y, d, k + 1, 0, 0) <==> ClearedBefore(g, x, y, d, k, 9, 0)
  {
    if ClearedIn(g, k, x, y, d) {
      assert exists k' :: 0 <= k' < k + 1 && ClearedIn(g, k', x, y, d);
    }
    if exists k' :: 0 <= k' < k + 1 && ClearedIn(g, k', x, y, d) {
      var k' :| 0 <= k' < k + 1 && ClearedIn(g, k', x, y, d);
      if k' == k {
        var p :| 0 <= p < 9 && ClearedFrom(g, k, p, x, y, d);
        assert exists p' :: 0 <= p' < 9 && ClearedFrom(g, k, p', x, y, d);
      }
    }
  }

  // ---------------------------------------------------------------------
  // Naked singles
  // ---------------------------------------------------------------------

  ghost predicate IsOnly(s: set<int>, k: int) {
    s == {k}
  }

  /** The only digit of s, or 0 when s is not a single digit. */
  ghost function Sole(s: set<int>): (k: int)
    ensures 0 <= k <= 9
    ensures k != 0 ==> s == {k}
    ensures k == 0 ==> forall m :: 1 <= m <= 9 ==> !IsOnly(s, m)
  {
    if exists m :: 1 <= m <= 9 && IsOnly(s, m) then
      var m :| 1 <= m <= 9 && IsOnly(s, m); m
    else
      0
  }

  lemma SoleOf(s: set<int>, k: int)
    requires 1 <= k <= 9 && s == {k}
    ensures Sole(s) == k
  {
    assert IsOnly(s, k);
  }

  /** The placement rule for one cell holding v with candidates s. */
  ghost function PlaceCell(v: int, s: set<int>): int {
    if v == 0 then Sole(s) else v
  }

  /** The grid after one placement pass: each empty cell with a single candidate gets it. */
  ghost function Place(g: Grid, cs: Candidates): (r: Grid)
    requires IsGrid(g) && IsCandidates(cs)
    ensures IsGrid(r)
    ensures forall i, j :: 0 <= i < 9 && 0 <= j < 9 && g[i][j] != 0 ==> r[i][j] == g[i][j]
  {
    seq(9, i requires 0 <= i < 9 => seq(9, j requires 0 <= j < 9 => PlaceCell(g[i][j], cs[i][j])))
  }

  /** A set of digits with exactly one element is that digit's singleton. */
  lemma SingletonDigit(s: set<int>) returns (k: int)
    requires |s| == 1 && forall d :: d in s ==> 1 <= d <= 9
    ensures 1 <= k <= 9 && s == {k}
  {
    assert exists z :: z in s by {
      if forall z :: z !in s {
        assert false;
      }
    }
    var z :| z in s;
    k := z;
    assert |s - {k}| == 0;
    assert s - {k} == {};
  }

  /** The pass writes digit k into an empty cell iff k is that cell's only candidate. */
  lemma PlaceWrites(g: Grid, cs: Candidates, i: int, j: int, k: int)
    requires IsGrid(g) && IsCandidates(cs) && InRange((i, j)) && 1 <= k <= 9 && g[i][j] == 0
    ensures Place(g, cs)[i][j] == k <==> cs[i][j] == {k}
  {
    if cs[i][j] == {k} {
      SoleOf(cs[i][j], k);
    }
  }

  /** The pass leaves a cell as it is iff the cell is filled or has zero or several candidates. */
  lemma PlaceLeaves(g: Grid, cs: Candidates, i: int, j: int)
    requires IsGrid(g) && IsCandidates(cs) && InRange((i, j))
    ensures Place(g, cs)[i][j] == g[i][j] <==> g[i][j] != 0 || |cs[i][j]| != 1
  {
    if g[i][j] == 0 && |cs[i][j]| == 1 {
      var k := SingletonDigit(cs[i][j]);
      SoleOf(cs[i][j], k);
    }
  }

  /** An empty cell with no candidate stays empty, so the pass cannot complete the grid. */
  lemma PlaceBlocked(g: Grid, cs: Candidates, i: int, j: int)
    requires IsGrid(g) && IsCandidates(cs) && InRange((i, j)) && g[i][j] == 0 && cs[i][j] == {}
    ensures Place(g, cs)[i][j] == 0 && !Full(Place(g, cs))
  {
  }

  /** On a full grid the pass changes nothing (and so reports completion again). */
  lemma PlaceFull(g: Grid, cs: Candidates)
    requires IsGrid(g) && IsCandidates(cs) && Full(g)
    ensures Place(g, cs) == g
  {
    var r := Place(g, cs);
    forall i | 0 <= i < 9
      ensures r[i] == g[i]
    {
    }
  }

  /** A placed digit was the cell's only candidate, so filled cells keep candidates within {digit}. */
  lemma PlacePreservesAtMostOwn(g: Grid, cs: Candidates)
    requires IsGrid(g) && IsCandidates(cs) && AtMostOwn(g, cs)
    ensures AtMostOwn(Place(g, cs), cs)
  {
  }

  /** Likewise the stronger invariant: filled cells have exactly {digit}. */
  lemma PlacePreservesConsistent(g: Grid, cs: Candidates)
    requires IsGrid(g) && IsCandidates(cs) && Consistent(g, cs)
    ensures Consistent(Place(g, cs), cs)
  {
  }

  // ---------------------------------------------------------------------
  // The termination measure: the number of candidate entries
  // ---------------------------------------------------------------------

  function SizeSum(row: seq<set<int>>): nat {
    if row == [] then 0 else |row[0]| + SizeSum(row[1..])
  }

  function Count(cs: Candidates): nat {
    if cs == [] then 0 else SizeSum(cs[0]) + Count(cs[1..])
  }

  lemma SubsetSize(a: set<int>, b: set<int>)
    requires a <= b
    ensures |a| <= |b| && (a != b ==> |a| < |b|)
  {
    assert b == a + (b - a);
    assert a * (b - a) == {};
  }

  lemma {:induction false} SizeSumShrinks(a: seq<set<int>>, b: seq<set<int>>)
    requires |a| == |b| && forall i :: 0 <= i < |a| ==> a[i] <= b[i]
    ensures SizeSum(a) <= SizeSum(b)
    ensures a != b ==> SizeSum(a) < SizeSum(b)
  {
    if a != [] {
      SubsetSize(a[0], b[0]);
      SizeSumShrinks(a[1..], b[1..]);
    }
  }

  /** Shrinking some candidate set strictly lowers the count. */
  lemma {:induction false} CountShrinks(a: Candidates, b: Candidates)
    requires |a| == |b|
    requires forall i :: 0 <= i < |a| ==> |a[i]| == |b[i]|
    requires forall i, j :: 0 <= i < |a| && 0 <= j < |a[i]| ==> a[i][j] <= b[i][j]
    ensures Count(a) <= Count(b)
    ensures a != b ==> Count(a) < Count(b)
  {
    if a != [] {
      SizeSumShrinks(a[0], b[0]);
      CountShrinks(a[1..], b[1..]);
    }
  }

  lemma {:induction false} SizeSumBound(row: seq<set<int>>)
    requires forall i, d :: 0 <= i < |row| && d in row[i] ==> 1 <= d <= 9
    ensures SizeSum(row) <= 9 * |row|
  {
    if row != [] {
      forall d | d in row[0]
        ensures d in AllDigits()
      {
        assert d == 1 || d == 2 || d == 3 || d == 4 || d == 5 || d == 6 || d == 7 || d == 8 || d == 9;
      }
      SubsetSize(row[0], AllDigits());
      SizeSumBound(row[1..]);
    }
  }

  lemma {:induction false} CountRowsBound(cs: Candidates)
    requires forall i :: 0 <= i < |cs| ==> |cs[i]| == 9
    requires forall i, j, d :: 0 <= i < |cs| && 0 <= j < 9 && d in cs[i][j] ==> 1 <= d <= 9
    ensures Count(cs) <= 81 * |cs|
  {
    if cs != [] {
      SizeSumBound(cs[0]);
      CountRowsBound(cs[1..]);
    }
  }

  /** A candidate table holds at most 9 x 9 x 9 = 729 entries. */
  lemma CountBound(cs: Candidates)
    requires IsCandidates(cs)
    ensures Count(cs) <= 729
  {
    CountRowsBound(cs);
  }

  // ---------------------------------------------------------------------
  // The number of empty cells
  // ---------------------------------------------------------------------

  function RowEmpties(row: seq<int>): nat {
    if row == [] then 0 else (if row[0] == 0 then 1 else 0) + RowEmpties(row[1..])
  }

  function EmptyCount(g: Grid): nat {
    if g == [] then 0 else RowEmpties(g[0]) + EmptyCount(g[1..])
  }

  lemma {:induction false} RowEmptiesShrink(a: seq<int>, b: seq<int>)
    requires |a| == |b| && forall i :: 0 <= i < |a| && a[i] != 0 ==> b[i] == a[i]
    ensures RowEmpties(b) <= RowEmpties(a)
    ensures a != b ==> RowEmpties(b) < RowEmpties(a)
  {
    if a != [] {
      RowEmptiesShrink(a[1..], b[1..]);
      if a[1..] == b[1..] && a != b {
        assert a[0] != b[0];
      }
    }
  }

  /** Filling empty cells, and changing nothing else, lowers the number of empty cells. */
  lemma {:induction false} EmptyCountShrinks(a: Grid, b: Grid)
    requires |a| == |b| && forall i :: 0 <= i < |a| ==> |a[i]| == |b[i]|
    requires forall i, j :: 0 <= i < |a| && 0 <= j < |a[i]| && a[i][j] != 0 ==> b[i][j] == a[i][j]
    ensures EmptyCount(b) <= EmptyCount(a)
    ensures a != b ==> EmptyCount(b) < EmptyCount(a)
  {
    if a != [] {
      RowEmptiesShrink(a[0], b[0]);
      EmptyCountShrinks(a[1..], b[1..]);
      if a[1..] == b[1..] && a != b {
        assert a[0] != b[0];
      }
    }
  }

  lemma {:induction false} RowEmptiesBound(row: seq<int>)
    ensures RowEmpties(row) <= |row|
  {
    if row != [] {
      RowEmptiesBound(row[1..]);
    }
  }

  lemma {:induction false} EmptyRowsBound(g: Grid)
    requires forall i :: 0 <= i < |g| ==> |g[i]| == 9
    ensures EmptyCount(g) <= 9 * |g|
  {
    if g != [] {
      RowEmptiesBound(g[0]);
      EmptyRowsBound(g[1..]);
    }
  }

  lemma {:induction false} RowEmptiesPositive(row: seq<int>, j: int)
    requires 0 <= j < |row| && row[j] == 0
    ensures RowEmpties(row) >= 1
  {
    if j > 0 {
      RowEmptiesPositive(row[1..], j - 1);
    }
  }

  lemma {:induction false} RowEmptiesAll(row: seq<int>)
    requires RowEmpties(row) == |row|
    ensures forall j :: 0 <= j < |row| ==> row[j] == 0
  {
    if row != [] {
      RowEmptiesBound(row[1..]);
      RowEmptiesAll(row[1..]);
      assert forall j :: 1 <= j < |row| ==> row[j] == row[1..][j - 1];
    }
  }

  lemma {:induction false} EmptyRowsPositive(g: Grid, i: int, j: int)
    requires 0 <= i < |g| && 0 <= j < |g[i]| && g[i][j] == 0
    ensures EmptyCount(g) >= 1
  {
    if i == 0 {
      RowEmptiesPositive(g[0], j);
    } else {
      EmptyRowsPositive(g[1..], i - 1, j);
    }
  }

  lemma {:induction false} EmptyRowsAll(g: Grid)
    requires forall i :: 0 <= i < |g| ==> |g[i]| == 9
    requires EmptyCount(g) == 9 * |g|
    ensures forall i, j :: 0 <= i < |g| && 0 <= j < 9 ==> g[i][j] == 0
  {
    if g != [] {
      RowEmptiesBound(g[0]);
      EmptyRowsBound(g[1..]);
      RowEmptiesAll(g[0]);
      EmptyRowsAll(g[1..]);
      assert forall i :: 1 <= i < |g| ==> g[i] == g[1..][i - 1];
    }
  }

  /** A board that is not full has an empty cell to count. */
  lemma NotFullEmptyCount(g: Grid)
    requires IsGrid(g) && !Full(g)
    ensures EmptyCount(g) >= 1
  {
    var i, j :| 0 <= i < 9 && 0 <= j < 9 && g[i][j] == 0;
    EmptyRowsPositive(g, i, j);
  }

  /** A board with 81 empty cells has every cell empty. */
  lemma AllEmptyCount(g: Grid)
    requires IsGrid(g) && EmptyCount(g) == 81
    ensures forall i, j :: 0 <= i < 9 && 0 <= j < 9 ==> g[i][j] == 0
  {
    EmptyRowsAll(g);
  }

  /** A grid has at most 81 empty cells. */
  lemma EmptyCountBound(g: Grid)
    requires IsGrid(g)
    ensures EmptyCount(g) <= 81
  {
    EmptyRowsBound(g);
  }

  // ---------------------------------------------------------------------
  // One round of the driver loop
  // ---------------------------------------------------------------------

  /**
   * A round that starts from grid g and table before, with every filled cell
   * of g0 still in place and filled cells holding at most their own digit,
   * runs exclusion and then placement: the table stays within init, the
   * invariants carry over to the new grid, and the count does not grow
   * (it drops when exclusion changed something).
   */
  lemma RoundStep(g0: Grid, init: Candidates, g: Grid, before: Candidates)
    requires IsGrid(g0) && IsGrid(g) && IsCandidates(init) && IsCandidates(before)
    requires KeepsFilled(g0, g) && AtMostOwn(g, before) && Within(before, init)
    ensures Within(Eliminate(g, before), init)
    ensures AtMostOwn(Place(g, Eliminate(g, before)), Eliminate(g, before))
    ensures KeepsFilled(g0, Place(g, Eliminate(g, before)))
    ensures Count(Eliminate(g, before)) <= Count(before)
    ensures Eliminate(g, before) != before ==> Count(Eliminate(g, before)) < Count(before)
  {
    var after := Eliminate(g, before);
    assert AtMostOwn(g, after);
    PlacePreservesAtMostOwn(g, after);
    CountShrinks(after, before);
  }

  /**
   * The placement half of a round: it never adds an empty cell, it removes
   * one whenever it writes anything, and when it writes nothing the table
   * is already a fixpoint of exclusion, so the next round is stuck.
   */
  lemma PlacementStep(g: Grid, before: Candidates)
    requires IsGrid(g) && IsCandidates(before)
    ensures EmptyCount(Place(g, Eliminate(g, before))) <= EmptyCount(g)
    ensures Place(g, Eliminate(g, before)) != g ==> EmptyCount(Place(g, Eliminate(g, before))) < EmptyCount(g)
    ensures Place(g, Eliminate(g, before)) == g ==>
              Eliminate(Place(g, Eliminate(g, before)), Eliminate(g, before)) == Eliminate(g, before)
  {
    var after := Eliminate(g, before);
    EmptyCountShrinks(g, Place(g, after));
    EliminateIdempotent(g, before);
  }

  /**
   * A board whose only empty cell is (x, y), with every digit but m held by
   * a peer, is solved in one round: m is written there and the loop ends.
   */
  lemma OneEmptySolved(g: Grid, x: int, y: int, m: int)
    requires IsGrid(g) && InRange((x, y)) && g[x][y] == 0 && 1 <= m <= 9
    requires forall i, j :: 0 <= i < 9 && 0 <= j < 9 && (i, j) != (x, y) ==> g[i][j] != 0
    requires forall d :: 1 <= d <= 9 && d != m ==> PeerHolds(g, x, y, d)
    requires !PeerHolds(g, x, y, m)
    ensures Drive(g, InitialCandidates(g)).2 == Solved
    ensures Drive(g, InitialCandidates(g)).0[x][y] == m
    ensures DriveRounds(g, InitialCandidates(g)) == 1
  {
    var init := InitialCandidates(g);
    assert init[x][y] == AllDigits();
    LastMissingDigit(g, init, x, y, m);
    var e := Eliminate(g, init);
    var d := if m == 1 then 2 else 1;
    assert d in init[x][y] && d !in e[x][y];
    assert Full(Place(g, e));
  }

  // ---------------------------------------------------------------------
  // The driver loop as a value
  // ---------------------------------------------------------------------

  /** How the driver loop ends. */
  datatype Outcome = Stuck | Solved

  /**
   * The driver loop on values: an exclusion pass that removes nothing ends
   * the loop as stuck; otherwise a placement pass follows, and a full board
   * ends it as solved. The result is the final board, the final table and
   * the outcome. Every further round removes a candidate, so the loop ends.
   */
  ghost function Drive(g: Grid, cs: Candidates): (r: (Grid, Candidates, Outcome))
    requires IsGrid(g) && IsCandidates(cs)
    ensures IsGrid(r.0) && IsCandidates(r.1)
    decreases Count(cs)
  {
    var e := Eliminate(g, cs);
    if e == cs then (g, cs, Stuck)
    else
      CountShrinks(e, cs);
      var h := Place(g, e);
      if Full(h) then (h, e, Solved) else Drive(h, e)
  }

  /**
   * How the loop ends: stuck at a fixpoint of exclusion or solved with a
   * full board, with every digit of the starting board in place and the
   * final table inside the starting one.
   */
  lemma {:induction false} DriveEnds(g: Grid, cs: Candidates)
    requires IsGrid(g) && IsCandidates(cs)
    ensures KeepsFilled(g, Drive(g, cs).0) && Within(Drive(g, cs).1, cs)
    ensures Drive(g, cs).2 == Stuck ==> Eliminate(Drive(g, cs).0, Drive(g, cs).1) == Drive(g, cs).1
    ensures Drive(g, cs).2 == Solved ==> Full(Drive(g, cs).0)
    decreases Count(cs)
  {
    var e := Eliminate(g, cs);
    if e != cs {
      CountShrinks(e, cs);
      if !Full(Place(g, e)) {
        DriveEnds(Place(g, e), e);
      }
    }
  }

  /** The loop keeps every filled cell within {digit}. */
  lemma {:induction false} DriveAtMostOwn(g: Grid, cs: Candidates)
    requires IsGrid(g) && IsCandidates(cs) && AtMostOwn(g, cs)
    ensures AtMostOwn(Drive(g, cs).0, Drive(g, cs).1)
    decreases Count(cs)
  {
    var e := Eliminate(g, cs);
    if e != cs {
      RoundStep(g, cs, g, cs);
      CountShrinks(e, cs);
      if !Full(Place(g, e)) {
        DriveAtMostOwn(Place(g, e), e);
      }
    }
  }

  /** The number of rounds the loop runs from g and cs, counting the final one. */
  ghost function DriveRounds(g: Grid, cs: Candidates): (n: nat)
    requires IsGrid(g) && IsCandidates(cs)
    ensures n >= 1
    decreases Count(cs)
  {
    var e := Eliminate(g, cs);
    if e == cs then 1
    else
      CountShrinks(e, cs);
      var h := Place(g, e);
      if Full(h) then 1 else 1 + DriveRounds(h, e)
  }

  /**
   * A round either places a digit or leaves a fixpoint, after which the next
   * round is the last; so the loop runs at most one round more than there are
   * empty cells.
   */
  lemma {:induction false} DriveRoundsBound(g: Grid, cs: Candidates)
    requires IsGrid(g) && IsCandidates(cs)
    ensures DriveRounds(g, cs) <= EmptyCount(g) + 1
    decreases Count(cs)
  {
    var e := Eliminate(g, cs);
    if e != cs {
      CountShrinks(e, cs);
      var h := Place(g, e);
      if !Full(h) {
        PlacementStep(g, cs);
        if h == g {
          NotFullEmptyCount(g);
        } else {
          DriveRoundsBound(h, e);
        }
      }
    }
  }

  /** On a board with no digit at all, the first exclusion pass removes nothing. */
  lemma EmptyBoardStuck(g: Grid, cs: Candidates)
    requires IsGrid(g) && IsCandidates(cs) && EmptyCount(g) == 81
    ensures Eliminate(g, cs) == cs
  {
    AllEmptyCount(g);
    forall x, y | 0 <= x < 9 && 0 <= y < 9
      ensures Eliminate(g, cs)[x][y] == cs[x][y]
    {
      forall d | d in cs[x][y]
        ensures d in Eliminate(g, cs)[x][y]
      {
        EliminateMeaning(g, cs, x, y, d);
      }
    }
    CandidatesExt(Eliminate(g, cs), cs);
  }

  /** The loop runs at most 81 rounds, on any board and table. */
  lemma DriveRoundsLimit(g: Grid, cs: Candidates)
    requires IsGrid(g) && IsCandidates(cs)
    ensures DriveRounds(g, cs) <= 81
  {
    EmptyCountBound(g);
    DriveRoundsBound(g, cs);
    if EmptyCount(g) == 81 {
      EmptyBoardStuck(g, cs);
    }
  }

  /** A board that starts full and without conflicts ends stuck: the first pass removes nothing. */
  lemma FullBoardStuck(g: Grid)
    requires IsGrid(g) && Full(g) && NoConflicts(g)
    ensures Drive(g, InitialCandidates(g)).2 == Stuck
  {
    EliminateSolvedFixpoint(g, InitialCandidates(g));
  }

  /**
   * A board that starts full with a digit twice in one region ends solved:
   * the pass empties the conflicting cells, so the table changes, and the
   * placement pass leaves the full board as it is.
   */
  lemma FullConflictSolved(g: Grid)
    requires IsGrid(g) && Full(g) && !NoConflicts(g)
    ensures Drive(g, InitialCandidates(g)).2 == Solved
    ensures Drive(g, InitialCandidates(g)).0 == g
  {
    var init := InitialCandidates(g);
    var c, e :| Peers(c, e) && Digit(g, c) != 0 && Digit(g, c) == Digit(g, e);
    EliminateConflictEmpties(g, init, c.0, c.1, e);
    assert init[c.0][c.1] == {g[c.0][c.1]};
    assert Eliminate(g, init)[c.0][c.1] != init[c.0][c.1];
    PlaceFull(g, Eliminate(g, init));
  }

  /** The properties of an end state of the loop, stated on the state itself. */
  lemma DriveResult(g0: Grid, init: Candidates, g: Grid, cs: Candidates, o: Outcome)
    requires IsGrid(g0) && IsCandidates(init) && IsGrid(g) && IsCandidates(cs)
    requires (g, cs, o) == Drive(g0, init)
    ensures KeepsFilled(g0, g) && Within(cs, init)
    ensures o == Stuck ==> Eliminate(g, cs) == cs
    ensures o == Solved ==> Full(g)
    ensures AtMostOwn(g0, init) ==> AtMostOwn(g, cs)
  {
    DriveEnds(g0, init);
    if AtMostOwn(g0, init) {
      DriveAtMostOwn(g0, init);
    }
  }

  /**
   * A solved outcome on a board without conflicts is settled: one more
   * exclusion pass and one more placement pass would change nothing.
   */
  lemma DriveSolvedSettles(g: Grid, cs: Candidates)
    requires IsGrid(g) && IsCandidates(cs) && AtMostOwn(g, cs)
    requires Drive(g, cs).2 == Solved && NoConflicts(Drive(g, cs).0)
    ensures Eliminate(Drive(g, cs).0, Drive(g, cs).1) == Drive(g, cs).1
    ensures Place(Drive(g, cs).0, Drive(g, cs).1) == Drive(g, cs).0
  {
    var r := Drive(g, cs);
    DriveEnds(g, cs);
    DriveAtMostOwn(g, cs);
    EliminateSolvedFixpoint(r.0, r.1);
    PlaceFull(r.0, r.1);
  }
}
