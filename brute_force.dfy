/**
 * Backtracking search (brute_force in brute_force.py).
 *
 * The search visits cells in column-major order: the successor of (row, col)
 * is (row + 1, col), or (0, col + 1) after the last row. Every call first
 * asks whether the grid is already solved. A filled cell is skipped; at an
 * empty cell each candidate is written in turn, in the iteration order of the
 * candidate set (a parameter, see Grid.Enumerates), the search recurses, and
 * the cell is reset to 0 when the branch fails. A call whose candidates are all exhausted
 * reports failure and adds one to the backtrack count.
 *
 * Two exceptions can escape: the ValueError of the solved test (a full grid
 * with a value outside 0..9), and the IndexError of reading cell (0, 9) when
 * every cell has been filled but the grid is not valid.
 */
module BruteForce {
  import opened Grid

  /** The exceptions the search can raise. */
  datatype Error = InvalidValue(row: nat, col: nat, value: int) | IndexError(row: nat, col: nat)

  /** What a call returns: the grid, whether it is solved and the backtrack count; or what it raised. */
  datatype Search = Search(grid: Grid, solved: bool, backtracks: nat) | Raised(error: Error)

  /** The cell visited after (row, col): down the column, then on to the top of the next column. */
  function Next(row: nat, col: nat): (nat, nat)
  {
    if row != 8 then (row + 1, col) else (0, col + 1)
  }

  /** Number of cells from (row, col) to the end of the column-major order. */
  function Remaining(row: nat, col: nat): nat
  {
    if row < 9 && col < 9 then 81 - (9 * col + row) else 0
  }

  /** The recursive search of brute_force.py, one call per cell. */
  function BruteForce(g: Grid, order: Order, row: nat, col: nat, backtracks: nat): Search
    decreases Remaining(row, col), 1, 0
  {
    match Solved(g)
    case ValueError(r, c, v) => Raised(InvalidValue(r, c, v))
    case Verdict(solved) =>
      if solved then Search(g, true, backtracks)
      else if row >= 9 || col >= 9 then Raised(IndexError(row, col))
      else if g[Idx(row, col)] != 0 then BruteForce(g, order, Next(row, col).0, Next(row, col).1, backtracks)
      else TryEach(g, order, row, col, order(Allowed(g, row, col)), backtracks)
  }

  /** The loop over the candidates of the empty cell (row, col). */
  function TryEach(g: Grid, order: Order, row: nat, col: nat, vs: seq<int>, backtracks: nat): Search
    requires row < 9 && col < 9
    decreases Remaining(row, col), 0, |vs|
  {
    if vs == [] then Search(g, false, backtracks + 1)
    else
      match BruteForce(g[Idx(row, col) := vs[0]], order, Next(row, col).0, Next(row, col).1, backtracks)
      case Raised(e) => Raised(e)
      case Search(g', solved, bt) =>
        if solved then Search(g', true, bt)
        else TryEach(g'[Idx(row, col) := 0], order, row, col, vs[1..], bt)
  }

  // ---------------------------------------------------------------------------
  // Properties of the search, for every iteration order
  // ---------------------------------------------------------------------------

  /** A failed call hands back the grid exactly as it received it. */
  lemma {:induction false} FailureRestores(g: Grid, order: Order, row: nat, col: nat, backtracks: nat)
    ensures var s := BruteForce(g, order, row, col, backtracks); s.Search? && !s.solved ==> s.grid == g
    decreases Remaining(row, col), 1, 0
  {
    match Solved(g)
    case ValueError(_, _, _) =>
    case Verdict(solved) =>
      if !solved && row < 9 && col < 9 {
        if g[Idx(row, col)] != 0 {
          FailureRestores(g, order, Next(row, col).0, Next(row, col).1, backtracks);
        } else {
          TryEachFailureRestores(g, order, row, col, order(Allowed(g, row, col)), backtracks);
        }
      }
  }

  lemma {:induction false} TryEachFailureRestores(g: Grid, order: Order, row: nat, col: nat, vs: seq<int>, backtracks: nat)
    requires row < 9 && col < 9 && g[Idx(row, col)] == 0
    ensures var s := TryEach(g, order, row, col, vs, backtracks); s.Search? && !s.solved ==> s.grid == g
    decreases Remaining(row, col), 0, |vs|
  {
    if vs != [] {
      var k := Idx(row, col);
      FailureRestores(g[k := vs[0]], order, Next(row, col).0, Next(row, col).1, backtracks);
      var s := BruteForce(g[k := vs[0]], order, Next(row, col).0, Next(row, col).1, backtracks);
      if s.Search? && !s.solved {
        assert s.grid[k := 0] == g;
        TryEachFailureRestores(g, order, row, col, vs[1..], s.backtracks);
      }
    }
  }

  /** A successful call returns a solved grid that keeps every value that was non-zero on entry. */
  lemma {:induction false} SuccessKeepsClues(g: Grid, order: Order, row: nat, col: nat, backtracks: nat)
    ensures var s := BruteForce(g, order, row, col, backtracks);
      s.Search? && s.solved ==>
        Solved(s.grid) == Verdict(true) && forall k :: 0 <= k < 81 && g[k] != 0 ==> s.grid[k] == g[k]
    decreases Remaining(row, col), 1, 0
  {
    match Solved(g)
    case ValueError(_, _, _) =>
    case Verdict(solved) =>
      if !solved && row < 9 && col < 9 {
        if g[Idx(row, col)] != 0 {
          SuccessKeepsClues(g, order, Next(row, col).0, Next(row, col).1, backtracks);
        } else {
          TryEachSuccessKeepsClues(g, order, row, col, order(Allowed(g, row, col)), backtracks);
        }
      }
  }

  lemma {:induction false} TryEachSuccessKeepsClues(g: Grid, order: Order, row: nat, col: nat, vs: seq<int>, backtracks: nat)
    requires row < 9 && col < 9 && g[Idx(row, col)] == 0
    ensures var s := TryEach(g, order, row, col, vs, backtracks);
      s.Search? && s.solved ==>
        Solved(s.grid) == Verdict(true) && forall k :: 0 <= k < 81 && g[k] != 0 ==> s.grid[k] == g[k]
    decreases Remaining(row, col), 0, |vs|
  {
    if vs != [] {
      var k := Idx(row, col);
      SuccessKeepsClues(g[k := vs[0]], order, Next(row, col).0, Next(row, col).1, backtracks);
      FailureRestores(g[k := vs[0]], order, Next(row, col).0, Next(row, col).1, backtracks);
      var s := BruteForce(g[k := vs[0]], order, Next(row, col).0, Next(row, col).1, backtracks);
      if s.Search? && !s.solved {
        assert s.grid[k := 0] == g;
        TryEachSuccessKeepsClues(g, order, row, col, vs[1..], s.backtracks);
      }
    }
  }

  /** The backtrack count never decreases, and a failed call has added at least one. */
  lemma {:induction false} BacktracksGrow(g: Grid, order: Order, row: nat, col: nat, backtracks: nat)
    ensures var s := BruteForce(g, order, row, col, backtracks);
      s.Search? ==> s.backtracks >= backtracks && (!s.solved ==> s.backtracks > backtracks)
    decreases Remaining(row, col), 1, 0
  {
    match Solved(g)
    case ValueError(_, _, _) =>
    case Verdict(solved) =>
      if !solved && row < 9 && col < 9 {
        if g[Idx(row, col)] != 0 {
          BacktracksGrow(g, order, Next(row, col).0, Next(row, col).1, backtracks);
        } else {
          TryEachBacktracksGrow(g, order, row, col, order(Allowed(g, row, col)), backtracks);
        }
      }
  }

  lemma {:induction false} TryEachBacktracksGrow(g: Grid, order: Order, row: nat, col: nat, vs: seq<int>, backtracks: nat)
    requires row < 9 && col < 9
    ensures var s := TryEach(g, order, row, col, vs, backtracks);
      s.Search? ==> s.backtracks >= backtracks && (!s.solved ==> s.backtracks > backtracks)
    decreases Remaining(row, col), 0, |vs|
  {
    if vs != [] {
      var k := Idx(row, col);
      BacktracksGrow(g[k := vs[0]], order, Next(row, col).0, Next(row, col).1, backtracks);
      var s := BruteForce(g[k := vs[0]], order, Next(row, col).0, Next(row, col).1, backtracks);
      if s.Search? && !s.solved {
        TryEachBacktracksGrow(s.grid[k := 0], order, row, col, vs[1..], s.backtracks);
      }
    }
  }

  /** Every cell before (row, col) in column-major order is filled. */
  predicate FilledBefore(g: Grid, row: nat, col: nat)
  {
    forall r, c :: 0 <= r < 9 && 0 <= c < 9 && (c < col || (c == col && r < row)) ==> g[Idx(r, c)] != 0
  }

  /** The positions the search can reach from (0, 0): a cell, or (0, 9) just past the last one. */
  predicate Reachable(row: nat, col: nat)
  {
    (row < 9 && col < 9) || (row == 0 && col == 9)
  }

  /** Stepping past a filled cell keeps every earlier cell filled. */
  lemma FilledStep(g: Grid, row: nat, col: nat)
    requires row < 9 && col < 9 && g[Idx(row, col)] != 0 && FilledBefore(g, row, col)
    ensures FilledBefore(g, Next(row, col).0, Next(row, col).1) && Reachable(Next(row, col).0, Next(row, col).1)
  {
    var (nr, nc) := Next(row, col);
    forall r, c | 0 <= r < 9 && 0 <= c < 9 && (c < nc || (c == nc && r < nr))
      ensures g[Idx(r, c)] != 0
    {
      if r == row && c == col {
      } else {
        assert c < col || (c == col && r < row);
      }
    }
  }

  /** Writing a candidate into the empty cell (row, col) of a valid grid keeps it valid and lets the search step on. */
  lemma PlaceCandidate(g: Grid, row: nat, col: nat, v: int)
    requires row < 9 && col < 9 && g[Idx(row, col)] == 0
    requires Validity(g) == Verdict(true) && FilledBefore(g, row, col) && v in Allowed(g, row, col)
    ensures var g1 := g[Idx(row, col) := v];
      Validity(g1) == Verdict(true) && FilledBefore(g1, Next(row, col).0, Next(row, col).1) &&
      Reachable(Next(row, col).0, Next(row, col).1)
  {
    var g1 := g[Idx(row, col) := v];
    ValidityMeaning(g);
    PlacePreservesNoConflict(g, Idx(row, col), v);
    InNumerals(v);
    assert InRange(g1);
    ValidityMeaning(g1);
    FilledStep(g1, row, col);
  }

  /**
   * Starting from a valid grid, the search never raises: every value it writes
   * is a candidate, so when it runs past the last cell the grid is full and
   * valid, and the solved test at that call succeeds before (0, 9) is read.
   * An already solved grid is returned at once with the count unchanged.
   */
  lemma {:induction false} ValidNeverRaises(g: Grid, order: Order, row: nat, col: nat, backtracks: nat)
    requires Enumerates(order)
    requires Validity(g) == Verdict(true) && Reachable(row, col) && FilledBefore(g, row, col)
    ensures !BruteForce(g, order, row, col, backtracks).Raised?
    ensures Solved(g) == Verdict(true) ==> BruteForce(g, order, row, col, backtracks) == Search(g, true, backtracks)
    decreases Remaining(row, col), 1, 0
  {
    ValidityMeaning(g);
    SolvedMeaning(g);
    if col == 9 {
      forall k | 0 <= k < 81 ensures g[k] != 0 {
        assert g[Idx(k / 9, k % 9)] != 0;
      }
      assert Solved(g) == Verdict(true);
    } else if Solved(g) != Verdict(true) {
      assert Solved(g) == Verdict(false);
      var (nr, nc) := Next(row, col);
      if g[Idx(row, col)] != 0 {
        assert BruteForce(g, order, row, col, backtracks) == BruteForce(g, order, nr, nc, backtracks);
        FilledStep(g, row, col);
        ValidNeverRaises(g, order, nr, nc, backtracks);
      } else {
        var a := Allowed(g, row, col);
        assert BruteForce(g, order, row, col, backtracks) == TryEach(g, order, row, col, order(a), backtracks);
        assert ListsOnce(order(a), a);
        TryEachNeverRaises(g, order, row, col, order(a), backtracks);
      }
    }
  }

  lemma {:induction false} TryEachNeverRaises(g: Grid, order: Order, row: nat, col: nat, vs: seq<int>, backtracks: nat)
    requires Enumerates(order) && row < 9 && col < 9 && g[Idx(row, col)] == 0
    requires Validity(g) == Verdict(true) && FilledBefore(g, row, col)
    requires forall x :: x in vs ==> x in Allowed(g, row, col)
    ensures !TryEach(g, order, row, col, vs, backtracks).Raised?
    decreases Remaining(row, col), 0, |vs|
  {
    if vs != [] {
      var k := Idx(row, col);
      var (nr, nc) := Next(row, col);
      var g1 := g[k := vs[0]];
      PlaceCandidate(g, row, col, vs[0]);
      ValidNeverRaises(g1, order, nr, nc, backtracks);
      FailureRestores(g1, order, nr, nc, backtracks);
      var s := BruteForce(g1, order, nr, nc, backtracks);
      if s.Search? && !s.solved {
        assert s.grid[k := 0] == g;
        TryEachNeverRaises(g, order, row, col, vs[1..], s.backtracks);
      }
    }
  }

  /** Every filled cell of g holds the value sol has there. */
  predicate Agrees(g: Grid, sol: Grid)
  {
    forall k :: 0 <= k < 81 && g[k] != 0 ==> g[k] == sol[k]
  }

  /** A grid whose filled cells agree with a solved grid is valid. */
  lemma AgreesValid(g: Grid, sol: Grid)
    requires Solved(sol) == Verdict(true) && Agrees(g, sol)
    ensures Validity(g) == Verdict(true)
  {
    SolvedCells(sol);
    forall k | 0 <= k < 81 ensures InRangeValue(g[k]) {
      InNumerals(sol[k]);
    }
    forall i, j | 0 <= i < 81 && 0 <= j < 81 ensures !Conflict(g, i, j) {
      assert !Conflict(sol, i, j);
    }
    ValidityMeaning(g);
  }

  /** The value a solution agreeing with g has at an empty cell is a candidate there. */
  lemma SolutionValueAllowed(g: Grid, sol: Grid, row: nat, col: nat)
    requires row < 9 && col < 9 && g[Idx(row, col)] == 0
    requires Solved(sol) == Verdict(true) && Agrees(g, sol)
    ensures sol[Idx(row, col)] in Allowed(g, row, col)
  {
    var k := Idx(row, col);
    SolvedCells(sol);
    forall p | 0 <= p < 81 && Peers(p, k) ensures g[p] != sol[k] {
      assert !Conflict(sol, p, k);
    }
    AllowedMeaning(g, row, col, sol[k]);
  }

  /**
   * The search is complete: from any position it can reach with the cells
   * before it filled, a grid whose filled cells agree with a solution is
   * reported solved, whatever the iteration order.
   */
  lemma {:induction false} FindsSolution(g: Grid, order: Order, sol: Grid, row: nat, col: nat, backtracks: nat)
    requires Enumerates(order) && Solved(sol) == Verdict(true) && Agrees(g, sol)
    requires Reachable(row, col) && FilledBefore(g, row, col)
    ensures var s := BruteForce(g, order, row, col, backtracks); s.Search? && s.solved
    decreases Remaining(row, col), 1, 0
  {
    AgreesValid(g, sol);
    ValidNeverRaises(g, order, row, col, backtracks);
    SolvedMeaning(g);
    if col == 9 {
      ValidityMeaning(g);
      forall k | 0 <= k < 81 ensures g[k] != 0 {
        assert g[Idx(k / 9, k % 9)] != 0;
      }
    } else if Solved(g) != Verdict(true) {
      var (nr, nc) := Next(row, col);
      if g[Idx(row, col)] != 0 {
        FilledStep(g, row, col);
        FindsSolution(g, order, sol, nr, nc, backtracks);
      } else {
        var a := Allowed(g, row, col);
        SolutionValueAllowed(g, sol, row, col);
        assert ListsOnce(order(a), a);
        TryEachFinds(g, order, sol, row, col, order(a), backtracks);
      }
    }
  }

  lemma {:induction false} TryEachFinds(g: Grid, order: Order, sol: Grid, row: nat, col: nat, vs: seq<int>, backtracks: nat)
    requires Enumerates(order) && row < 9 && col < 9 && g[Idx(row, col)] == 0
    requires Solved(sol) == Verdict(true) && Agrees(g, sol) && FilledBefore(g, row, col)
    requires forall x :: x in vs ==> x in Allowed(g, row, col)
    requires sol[Idx(row, col)] in vs
    ensures var s := TryEach(g, order, row, col, vs, backtracks); s.Search? && s.solved
    decreases Remaining(row, col), 0, |vs|
  {
    var k := Idx(row, col);
    var (nr, nc) := Next(row, col);
    var g1 := g[k := vs[0]];
    AgreesValid(g, sol);
    PlaceCandidate(g, row, col, vs[0]);
    if vs[0] == sol[k] {
      assert Agrees(g1, sol);
      FindsSolution(g1, order, sol, nr, nc, backtracks);
    } else {
      ValidNeverRaises(g1, order, nr, nc, backtracks);
      FailureRestores(g1, order, nr, nc, backtracks);
      var s := BruteForce(g1, order, nr, nc, backtracks);
      if s.Search? && !s.solved {
        assert s.grid[k := 0] == g;
        assert sol[k] in vs[1..];
        TryEachFinds(g, order, sol, row, col, vs[1..], s.backtracks);
      }
    }
  }

  /**
   * So failure is a definite answer: when the search from (0, 0) reports
   * failure, no solved grid keeps the given cells.
   */
  lemma FailureMeansUnsolvable(g: Grid, order: Order, backtracks: nat)
    requires Enumerates(order)
    ensures var s := BruteForce(g, order, 0, 0, backtracks);
      s.Search? && !s.solved ==> forall sol: Grid :: Solved(sol) == Verdict(true) ==> !Agrees(g, sol)
  {
    forall sol: Grid | Solved(sol) == Verdict(true) && Agrees(g, sol)
      ensures var s := BruteForce(g, order, 0, 0, backtracks); s.Search? && s.solved
    {
      FindsSolution(g, order, sol, 0, 0, backtracks);
    }
  }

  /**
   * On a valid grid, whether the search succeeds does not depend on the
   * iteration order; the grid it finds and the backtrack count can.
   */
  lemma SolvedFlagOrderFree(g: Grid, o1: Order, o2: Order, b1: nat, b2: nat)
    requires Enumerates(o1) && Enumerates(o2) && Validity(g) == Verdict(true)
    ensures BruteForce(g, o1, 0, 0, b1).Search? && BruteForce(g, o2, 0, 0, b2).Search?
    ensures BruteForce(g, o1, 0, 0, b1).solved == BruteForce(g, o2, 0, 0, b2).solved
  {
    ValidNeverRaises(g, o1, 0, 0, b1);
    ValidNeverRaises(g, o2, 0, 0, b2);
    var s1 := BruteForce(g, o1, 0, 0, b1);
    var s2 := BruteForce(g, o2, 0, 0, b2);
    if s1.solved {
      SuccessKeepsClues(g, o1, 0, 0, b1);
      FindsSolution(g, o2, s1.grid, 0, 0, b2);
    }
    if s2.solved {
      SuccessKeepsClues(g, o2, 0, 0, b2);
      FindsSolution(g, o1, s2.grid, 0, 0, b1);
    }
  }

  /**
   * A full grid whose clues conflict is never reported unsolved: the search
   * steps over every filled cell and raises IndexError when it reads (0, 9).
   */
  lemma {:induction false} FullInvalidRaisesIndexError(g: Grid, order: Order, row: nat, col: nat, backtracks: nat)
    requires 0 !in g && Validity(g) == Verdict(false) && Reachable(row, col)
    ensures BruteForce(g, order, row, col, backtracks) == Raised(IndexError(0, 9))
    decreases Remaining(row, col)
  {
    if col < 9 {
      assert g[Idx(row, col)] in g;
      FullInvalidRaisesIndexError(g, order, Next(row, col).0, Next(row, col).1, backtracks);
    }
  }

  /** For instance, the grid of 81 ones raises IndexError instead of reporting failure. */
  lemma AllOnesRaisesIndexError(order: Order)
    ensures BruteForce(seq(81, _ => 1), order, 0, 0, 0) == Raised(IndexError(0, 9))
  {
    var g: Grid := seq(81, _ => 1);
    assert Peers(0, 1) && g[0] == g[1];
    assert RepeatsEarlier(g, 1);
    assert Validity(g) == Verdict(false);
    FullInvalidRaisesIndexError(g, order, 0, 0, 0);
  }

  // ---------------------------------------------------------------------------
  // The search on the array, in place
  // ---------------------------------------------------------------------------

  /** What the in-place search returns besides the grid it leaves in d. */
  datatype Outcome = Finished(solved: bool, backtracks: nat) | Failed(error: Error)

  /** The spec value that an outcome and a final grid stand for. */
  function AsSearch(r: Outcome, g: Grid): Search
  {
    match r
    case Finished(solved, n) => Search(g, solved, n)
    case Failed(e) => Raised(e)
  }

  /**
   * brute_force(d, row, col, backtracks): writes d in place and resets every
   * cell it tried when a branch fails. The loop over get_allowed visits the
   * candidates in the order given by order.
   */
  method BruteForceSearch(d: array<int>, order: Order, row: nat, col: nat, backtracks: nat) returns (r: Outcome)
    requires d.Length == 81
    modifies d
    ensures AsSearch(r, d[..]) == BruteForce(old(d[..]), order, row, col, backtracks)
    decreases Remaining(row, col), 1
  {
    ghost var g: Grid := d[..];
    var s := IsSolved(d);
    if s.ValueError? {
      return Failed(InvalidValue(s.row, s.col, s.value));
    }
    if s.valid {
      return Finished(true, backtracks);
    }
    if row >= 9 || col >= 9 {
      return Failed(IndexError(row, col));
    }
    var nextRow := if row != 8 then row + 1 else 0;
    var nextCol := if row != 8 then col else col + 1;
    assert (nextRow, nextCol) == Next(row, col);
    if d[9 * row + col] != 0 {
      assert BruteForce(g, order, row, col, backtracks) == BruteForce(g, order, nextRow, nextCol, backtracks);
      r := BruteForceSearch(d, order, nextRow, nextCol, backtracks);
      return;
    }
    var candidates := order(Allowed(d[..], row, col));
    assert BruteForce(g, order, row, col, backtracks) == TryEach(g, order, row, col, candidates, backtracks);
    r := TryCandidates(d, order, row, col, candidates, backtracks);
  }

  /** The for loop of brute_force over the candidates of the empty cell (row, col). */
  method TryCandidates(d: array<int>, order: Order, row: nat, col: nat, candidates: seq<int>, backtracks: nat) returns (r: Outcome)
    requires d.Length == 81 && row < 9 && col < 9
    modifies d
    ensures AsSearch(r, d[..]) == TryEach(old(d[..]), order, row, col, candidates, backtracks)
    decreases Remaining(row, col), 0
  {
    var (nextRow, nextCol) := Next(row, col);
    var k := 9 * row + col;
    assert k == Idx(row, col);
    var bt := backtracks;
    var i := 0;
    while i < |candidates|
      invariant 0 <= i <= |candidates|
      invariant TryEach(old(d[..]), order, row, col, candidates, backtracks) == TryEach(d[..], order, row, col, candidates[i..], bt)
    {
      ghost var before: Grid := d[..];
      d[k] := candidates[i];
      assert d[..] == before[k := candidates[i]];
      r := BruteForceSearch(d, order, nextRow, nextCol, bt);
      if r.Failed? || r.solved {
        return;
      }
      bt := r.backtracks;
      d[k] := 0;
      i := i + 1;
    }
    return Finished(false, bt + 1);
  }
}
