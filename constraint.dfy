/**
 * Naked-single propagation over a candidate map (the main block of
 * constraint.py, lifted into methods).
 *
 * The candidate map is kept as a sequence of 81 sets indexed like the grid:
 * the dictionary of the source is keyed by (row, col) and filled in row-major
 * order, which is also the order its items are visited in. Filled cells map to
 * the empty set, empty cells to their get_allowed candidates.
 *
 * One pass visits every cell once; a cell whose set has exactly one member is
 * given that value, and the value is discarded from every cell of the same
 * column, row and box. At most 30 passes run, and the run stops early once the
 * grid is solved.
 */
module Constraint {
  import opened Grid

  /** The entry the candidate map holds for cell k of g. */
  function Cand(g: Grid, k: nat): set<int>
    requires k < 81
  {
    if g[k] == 0 then Allowed(g, k / 9, k % 9) else {}
  }

  /** The whole candidate map of g, in key order. */
  function CandMap(g: Grid): (m: seq<set<int>>)
    ensures |m| == 81
  {
    seq(81, k requires 0 <= k < 81 => Cand(g, k))
  }

  /**
   * Placing v in the empty cell k changes the candidate map exactly as the
   * source updates it: k's own entry becomes empty, v is removed from its
   * peers' entries, and every other entry stays.
   */
  lemma CandAfterPlace(g: Grid, k: nat, v: int, j: nat)
    requires k < 81 && j < 81 && g[k] == 0 && v != 0
    ensures Cand(g[k := v], j) ==
      if j == k then {} else if Peers(j, k) then Cand(g, j) - {v} else Cand(g, j)
  {
    var g' := g[k := v];
    if j != k && g[j] == 0 {
      var r, c := j / 9, j % 9;
      assert Idx(r, c) == j;
      forall x
        ensures x in Allowed(g', r, c) <==> x in (if Peers(j, k) then Allowed(g, r, c) - {v} else Allowed(g, r, c))
      {
        AllowedMeaning(g, r, c, x);
        AllowedMeaning(g', r, c, x);
        if Peers(j, k) {
          assert Peers(k, j);
        }
      }
    }
  }

  // ---------------------------------------------------------------------------
  // Specification of a pass and of the run
  // ---------------------------------------------------------------------------

  /** One pass from cell k on: each cell with exactly one candidate receives it. */
  ghost function Sweep(g: Grid, k: nat): Grid
    requires k <= 81
    decreases 81 - k
  {
    if k == 81 then g
    else if |Cand(g, k)| == 1 then Sweep(g[k := TheOne(Cand(g, k))], k + 1)
    else Sweep(g, k + 1)
  }

  /**
   * A pass never touches a filled cell, writes only values that were
   * candidates in the grid it started from, and keeps the grid conflict-free
   * and in range.
   */
  lemma {:induction false} SweepPreserves(g: Grid, k: nat)
    requires k <= 81
    ensures Extends(g, Sweep(g, k))
    ensures NoConflict(g) ==> NoConflict(Sweep(g, k))
    ensures InRange(g) ==> InRange(Sweep(g, k))
    decreases 81 - k
  {
    if k < 81 {
      if |Cand(g, k)| == 1 {
        var v := TheOne(Cand(g, k));
        var g1 := g[k := v];
        assert g[k] == 0;
        assert v in Allowed(g, k / 9, k % 9) && v in Numerals;
        assert Extends(g, g1);
        SweepPreserves(g1, k + 1);
        ExtendsTrans(g, g1, Sweep(g1, k + 1));
        if NoConflict(g) {
          PlacePreservesNoConflict(g, k, v);
        }
        if InRange(g) {
          InNumerals(v);
        }
      } else {
        SweepPreserves(g, k + 1);
      }
    }
  }

  /** How the run ends: after some number of passes, or with the ValueError of the solved test. */
  datatype Run = Ran(passes: nat) | Raised(row: nat, col: nat, value: int)

  /** The pass loop: before each of at most 30 passes, stop if the grid is solved. */
  ghost function Propagation(g: Grid, pass: nat): (Grid, Run)
    decreases 30 - pass
  {
    if pass >= 30 then (g, Ran(pass))
    else match Solved(g)
      case ValueError(r, c, v) => (g, Raised(r, c, v))
      case Verdict(solved) =>
        if solved then (g, Ran(pass)) else Propagation(Sweep(g, 0), pass + 1)
  }

  /** What the run from pass `pass` promises about its result (g', run). */
  ghost predicate RunKeeps(g: Grid, pass: nat, g': Grid, run: Run)
  {
    Extends(g, g') &&
    (run.Ran? ==> pass <= run.passes <= 30 && (run.passes < 30 ==> Solved(g') == Verdict(true))) &&
    (run.Raised? ==> !InRange(g)) &&
    (Validity(g) == Verdict(true) ==> Validity(g') == Verdict(true) && run.Ran?)
  }

  /**
   * The run performs at most 30 passes and fewer only when the grid became
   * solved; it signals a ValueError only for a grid holding a value outside
   * 0..9; clues are kept, every written value was a candidate at the start,
   * and a valid grid stays valid and never signals.
   */
  lemma PropagationMeaning(g: Grid)
    ensures var (g', run) := Propagation(g, 0);
      Extends(g, g') &&
      (run.Ran? ==> run.passes <= 30 && (run.passes < 30 ==> Solved(g') == Verdict(true))) &&
      (run.Raised? ==> !InRange(g)) &&
      (Validity(g) == Verdict(true) ==> Validity(g') == Verdict(true) && run.Ran?)
  {
    PropagationKeeps(g, 0);
  }

  lemma {:induction false} PropagationKeeps(g: Grid, pass: nat)
    requires pass <= 30
    ensures RunKeeps(g, pass, Propagation(g, pass).0, Propagation(g, pass).1)
    decreases 30 - pass
  {
    if pass == 30 || Solved(g) != Verdict(false) {
      PropagationHalts(g, pass);
    } else {
      var g1 := Sweep(g, 0);
      assert Propagation(g, pass) == Propagation(g1, pass + 1);
      SweepPreserves(g, 0);
      PropagationKeeps(g1, pass + 1);
      PropagationStep(g, g1, pass, Propagation(g1, pass + 1).0, Propagation(g1, pass + 1).1);
    }
  }

  /** The run when it stops before a pass: the grid is returned as it is. */
  lemma PropagationHalts(g: Grid, pass: nat)
    requires pass <= 30 && (pass == 30 || Solved(g) != Verdict(false))
    ensures RunKeeps(g, pass, Propagation(g, pass).0, Propagation(g, pass).1)
  {
    assert Extends(g, g);
    if pass < 30 {
      SolvedMeaning(g);
      ValidityMeaning(g);
    }
  }

  /** A pass followed by the rest of the run keeps what the rest of the run keeps. */
  lemma PropagationStep(g: Grid, g1: Grid, pass: nat, g2: Grid, run: Run)
    requires Extends(g, g1) && (NoConflict(g) ==> NoConflict(g1))
    requires RunKeeps(g1, pass + 1, g2, run)
    ensures RunKeeps(g, pass, g2, run)
  {
    ExtendsTrans(g, g1, g2);
    ExtendsKeepsInRange(g, g1);
    ValidityMeaning(g);
    ValidityMeaning(g1);
  }

  // ---------------------------------------------------------------------------
  // The loops, in place
  // ---------------------------------------------------------------------------

  /** The initialisation loop: get_allowed for each empty cell, the empty set for each filled one. */
  method InitCandidates(d: array<int>) returns (allowed: seq<set<int>>)
    requires d.Length == 81
    ensures allowed == CandMap(d[..])
  {
    ghost var g: Grid := d[..];
    allowed := [];
    var k := 0;
    while k < 81
      invariant 0 <= k <= 81 && |allowed| == k
      invariant forall i :: 0 <= i < k ==> allowed[i] == Cand(g, i)
    {
      var row, col := k / 9, k % 9;
      var entry := if d[k] == 0 then Allowed(d[..], row, col) else {};
      assert entry == Cand(g, k);
      allowed := allowed + [entry];
      k := k + 1;
    }
  }

  /** The three discard loops: v leaves the set of every cell in the column, the row and the box of (row, col). */
  method DiscardFromPeers(allowed: seq<set<int>>, row: nat, col: nat, v: int) returns (a: seq<set<int>>)
    requires |allowed| == 81 && row < 9 && col < 9
    ensures |a| == 81
    ensures forall j :: 0 <= j < 81 ==>
      a[j] == if Peers(j, Idx(row, col)) then allowed[j] - {v} else allowed[j]
  {
    var a1 := DiscardFromColumn(allowed, col, v);
    var a2 := DiscardFromRow(a1, row, v);
    a := DiscardFromBox(a2, row, col, v);
    forall j | 0 <= j < 81
      ensures a[j] == if Peers(j, Idx(row, col)) then allowed[j] - {v} else allowed[j]
    {
      var k := Idx(row, col);
      if SameCol(j, k) || SameRow(j, k) {
        assert a2[j] == allowed[j] - {v};
      }
    }
  }

  /** The first discard loop: v leaves the set of every cell of column col. */
  method DiscardFromColumn(allowed: seq<set<int>>, col: nat, v: int) returns (a: seq<set<int>>)
    requires |allowed| == 81 && col < 9
    ensures |a| == 81
    ensures forall j :: 0 <= j < 81 ==> a[j] == if j % 9 == col then allowed[j] - {v} else allowed[j]
  {
    a := allowed;
    var i := 0;
    while i < 9
      invariant 0 <= i <= 9 && |a| == 81
      invariant forall j :: 0 <= j < 81 ==>
        a[j] == if j % 9 == col && j / 9 < i then allowed[j] - {v} else allowed[j]
    {
      a := a[Idx(i, col) := a[Idx(i, col)] - {v}];
      i := i + 1;
    }
  }

  /** The second discard loop: v leaves the set of every cell of row row. */
  method DiscardFromRow(allowed: seq<set<int>>, row: nat, v: int) returns (a: seq<set<int>>)
    requires |allowed| == 81 && row < 9
    ensures |a| == 81
    ensures forall j :: 0 <= j < 81 ==> a[j] == if j / 9 == row then allowed[j] - {v} else allowed[j]
  {
    a := allowed;
    var i := 0;
    while i < 9
      invariant 0 <= i <= 9 && |a| == 81
      invariant forall j :: 0 <= j < 81 ==>
        a[j] == if j / 9 == row && j % 9 < i then allowed[j] - {v} else allowed[j]
    {
      a := a[Idx(row, i) := a[Idx(row, i)] - {v}];
      i := i + 1;
    }
  }

  /** The third discard loop: v leaves the set of every cell of the box of (row, col). */
  method DiscardFromBox(allowed: seq<set<int>>, row: nat, col: nat, v: int) returns (a: seq<set<int>>)
    requires |allowed| == 81 && row < 9 && col < 9
    ensures |a| == 81
    ensures forall j :: 0 <= j < 81 ==> a[j] == if SameBox(j, Idx(row, col)) then allowed[j] - {v} else allowed[j]
  {
    var k := Idx(row, col);
    var r0, c0 := 3 * (row / 3), 3 * (col / 3);
    a := allowed;
    var i := 0;
    while i < 9
      invariant 0 <= i <= 9 && |a| == 81
      invariant forall j :: 0 <= j < 81 ==>
        a[j] == if SameBox(j, k) && 3 * (j / 9 - r0) + (j % 9 - c0) < i then allowed[j] - {v} else allowed[j]
    {
      var cell := Idx(r0 + i / 3, c0 + i % 3);
      forall j | 0 <= j < 81
        ensures (SameBox(j, k) && 3 * (j / 9 - r0) + (j % 9 - c0) == i) <==> j == cell
      {
        BoxSlot(j, row, col, i);
      }
      a := a[cell := a[cell] - {v}];
      i := i + 1;
    }
    forall j | 0 <= j < 81 && SameBox(j, k)
      ensures 3 * (j / 9 - r0) + (j % 9 - c0) < 9
    {
      SameBoxCorner(j, row, col);
    }
  }

  /** The i-th cell of the box of (row, col), counted row-major from its corner, is the only cell of that box at offset i. */
  lemma BoxSlot(j: nat, row: nat, col: nat, i: nat)
    requires j < 81 && row < 9 && col < 9 && i < 9
    ensures 3 * (row / 3) + i / 3 < 9 && 3 * (col / 3) + i % 3 < 9
    ensures (SameBox(j, Idx(row, col)) && 3 * (j / 9 - 3 * (row / 3)) + (j % 9 - 3 * (col / 3)) == i) <==>
      j == Idx(3 * (row / 3) + i / 3, 3 * (col / 3) + i % 3)
  {
    var r0, c0 := 3 * (row / 3), 3 * (col / 3);
    DivThree(i / 3, i % 3);
    SameBoxCorner(j, row, col);
    if SameBox(j, Idx(row, col)) {
      DivThree(j / 9 - r0, j % 9 - c0);
    }
    if j == Idx(r0 + i / 3, c0 + i % 3) {
      assert j / 9 == r0 + i / 3 && j % 9 == c0 + i % 3;
    }
  }

  /** One pass over the items of the candidate map, in key order. */
  method SweepOnce(d: array<int>, allowed: seq<set<int>>) returns (a: seq<set<int>>)
    requires d.Length == 81 && allowed == CandMap(d[..])
    modifies d
    ensures d[..] == Sweep(old(d[..]), 0)
    ensures a == CandMap(d[..])
  {
    a := allowed;
    var k := 0;
    while k < 81
      invariant 0 <= k <= 81
      invariant a == CandMap(d[..])
      invariant Sweep(old(d[..]), 0) == Sweep(d[..], k)
    {
      if |a[k]| == 1 {
        ghost var g: Grid := d[..];
        var v :| v in a[k];
        SingletonIs(a[k], v);
        assert TheOne(Cand(g, k)) == v;
        assert g[k] == 0 && v in Numerals;
        a := a[k := a[k] - {v}];
        d[k] := v;
        a := DiscardFromPeers(a, k / 9, k % 9, v);
        assert Idx(k / 9, k % 9) == k;
        assert d[..] == g[k := v];
        forall j | 0 <= j < 81 ensures a[j] == CandMap(d[..])[j] {
          CandAfterPlace(g, k, v, j);
        }
      }
      k := k + 1;
    }
  }

  /**
   * The main block of constraint.py: build the candidate map, then run at most
   * 30 passes, stopping before a pass once the grid is solved. Returns the
   * candidate map, which always matches the grid.
   */
  method Propagate(d: array<int>) returns (allowed: seq<set<int>>, run: Run)
    requires d.Length == 81
    modifies d
    ensures Propagation(old(d[..]), 0) == (d[..], run)
    ensures allowed == CandMap(d[..])
  {
    allowed := InitCandidates(d);
    var pass := 0;
    while pass < 30
      invariant 0 <= pass <= 30
      invariant allowed == CandMap(d[..])
      invariant Propagation(old(d[..]), 0) == Propagation(d[..], pass)
    {
      var s := IsSolved(d);
      if s.ValueError? {
        return allowed, Raised(s.row, s.col, s.value);
      }
      if s.valid {
        return allowed, Ran(pass);
      }
      allowed := SweepOnce(d, allowed);
      pass := pass + 1;
    }
    run := Ran(pass);
  }
}
