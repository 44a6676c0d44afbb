/**
 * The 9x9 grid shared by every solving strategy: cells, units (row, column,
 * 3x3 box), candidate sets, validity and the "solved" test, and the parser
 * that turns puzzle text into a grid.
 *
 * A grid is stored row-major, as numpy stores the 9x9 array: cell (r, c) is
 * element 9 * r + c. A 0 is an empty cell; 1..9 are placed values. Any other
 * integer is representable (the source stores int8) and is what the validity
 * check reports as an error.
 */
module Grid {

  /** A 9x9 grid, row-major. */
  type Grid = g: seq<int> | |g| == 81 witness seq(81, _ => 0)

  /** The values a unit must contain. */
  const Numerals: set<int> := {1, 2, 3, 4, 5, 6, 7, 8, 9}

  /** Index of cell (r, c). */
  function Idx(r: nat, c: nat): (k: nat)
    requires r < 9 && c < 9
    ensures k < 81 && k / 9 == r && k % 9 == c
  {
    9 * r + c
  }

  /** The box number used by the validity check: 3 * (row / 3) + col / 3. */
  function BoxIndex(k: nat): (b: nat)
    requires k < 81
    ensures b < 9
  {
    3 * ((k / 9) / 3) + (k % 9) / 3
  }

  predicate SameRow(i: nat, j: nat) { i / 9 == j / 9 }
  predicate SameCol(i: nat, j: nat) { i % 9 == j % 9 }
  predicate SameBox(i: nat, j: nat) requires i < 81 && j < 81 { BoxIndex(i) == BoxIndex(j) }

  /** Two cells are peers when they share a row, a column or a box (a cell is its own peer). */
  predicate Peers(i: nat, j: nat)
    requires i < 81 && j < 81
  {
    SameRow(i, j) || SameCol(i, j) || SameBox(i, j)
  }

  // ---------------------------------------------------------------------------
  // Unit accessors (get_row / get_col / get_box and the Puzzle methods _row,
  // _col, _box)
  // ---------------------------------------------------------------------------

  /** The nine values of row r, left to right. */
  function Row(g: Grid, r: nat): (u: seq<int>)
    requires r < 9
    ensures |u| == 9
  {
    g[9 * r .. 9 * r + 9]
  }

  /** The nine values of column c, top to bottom. */
  function Col(g: Grid, c: nat): (u: seq<int>)
    requires c < 9
    ensures |u| == 9
  {
    seq(9, i requires 0 <= i < 9 => g[Idx(i, c)])
  }

  /** The flattened 3x3 block whose top-left corner is (3 * (r / 3), 3 * (c / 3)). */
  function Box(g: Grid, r: nat, c: nat): (u: seq<int>)
    requires r < 9 && c < 9
    ensures |u| == 9
  {
    var r0, c0 := 3 * (r / 3), 3 * (c / 3);
    seq(9, i requires 0 <= i < 9 => g[Idx(r0 + i / 3, c0 + i % 3)])
  }

  /** Row r holds exactly the cells that share a row with (r, c). */
  lemma RowCells(g: Grid, r: nat, c: nat)
    requires r < 9 && c < 9
    ensures forall i :: 0 <= i < 9 ==> Row(g, r)[i] == g[Idx(r, i)] && SameRow(Idx(r, i), Idx(r, c))
    ensures forall k :: 0 <= k < 81 && SameRow(k, Idx(r, c)) ==> g[k] == Row(g, r)[k % 9]
  {
    forall k | 0 <= k < 81 && SameRow(k, Idx(r, c))
      ensures g[k] == Row(g, r)[k % 9]
    {
      assert k == 9 * r + k % 9;
    }
  }

  /** Column c holds exactly the cells that share a column with (r, c). */
  lemma ColCells(g: Grid, r: nat, c: nat)
    requires r < 9 && c < 9
    ensures forall i :: 0 <= i < 9 ==> Col(g, c)[i] == g[Idx(i, c)] && SameCol(Idx(i, c), Idx(r, c))
    ensures forall k :: 0 <= k < 81 && SameCol(k, Idx(r, c)) ==> g[k] == Col(g, c)[k / 9]
  {
    forall k | 0 <= k < 81 && SameCol(k, Idx(r, c))
      ensures g[k] == Col(g, c)[k / 9]
    {
      assert k == Idx(k / 9, c);
    }
  }

  /** Division by 3 of a number written as 3q + t with t < 3. */
  lemma DivThree(q: int, t: int)
    requires 0 <= t < 3
    ensures (3 * q + t) / 3 == q && (3 * q + t) % 3 == t
  {
  }

  /** Cell k lies in the box whose corner is (r0, c0) exactly when its row and column are within three of it. */
  lemma SameBoxCorner(k: nat, r: nat, c: nat)
    requires k < 81 && r < 9 && c < 9
    ensures SameBox(k, Idx(r, c)) <==>
      3 * (r / 3) <= k / 9 < 3 * (r / 3) + 3 && 3 * (c / 3) <= k % 9 < 3 * (c / 3) + 3
  {
    var kr, kc := k / 9, k % 9;
    DivThree(kr / 3, kr % 3);
    DivThree(kc / 3, kc % 3);
    DivThree(r / 3, r % 3);
    DivThree(c / 3, c % 3);
    assert BoxIndex(k) == 3 * (kr / 3) + kc / 3;
    assert BoxIndex(Idx(r, c)) == 3 * (r / 3) + c / 3;
    DivThree(kr / 3, kc / 3);
    DivThree(r / 3, c / 3);
    if 3 * (r / 3) <= kr < 3 * (r / 3) + 3 {
      DivThree(r / 3, kr - 3 * (r / 3));
    }
    if 3 * (c / 3) <= kc < 3 * (c / 3) + 3 {
      DivThree(c / 3, kc - 3 * (c / 3));
    }
  }

  /** Element i of Box(g, r, c) is a cell of the box of (r, c). */
  lemma BoxAt(g: Grid, r: nat, c: nat, i: nat)
    requires r < 9 && c < 9 && i < 9
    ensures 3 * (r / 3) + i / 3 < 9 && 3 * (c / 3) + i % 3 < 9
    ensures Box(g, r, c)[i] == g[Idx(3 * (r / 3) + i / 3, 3 * (c / 3) + i % 3)]
    ensures SameBox(Idx(3 * (r / 3) + i / 3, 3 * (c / 3) + i % 3), Idx(r, c))
  {
    SameBoxCorner(Idx(3 * (r / 3) + i / 3, 3 * (c / 3) + i % 3), r, c);
  }

  /** Every cell of the box of (r, c) appears in Box(g, r, c), at position BoxPos(k). */
  lemma BoxHas(g: Grid, r: nat, c: nat, k: nat)
    requires r < 9 && c < 9 && k < 81 && SameBox(k, Idx(r, c))
    ensures 0 <= 3 * (k / 9 - 3 * (r / 3)) + (k % 9 - 3 * (c / 3)) < 9
    ensures g[k] == Box(g, r, c)[3 * (k / 9 - 3 * (r / 3)) + (k % 9 - 3 * (c / 3))]
  {
    var r0, c0 := 3 * (r / 3), 3 * (c / 3);
    SameBoxCorner(k, r, c);
    var kr, kc := k / 9, k % 9;
    var i := 3 * (kr - r0) + (kc - c0);
    DivThree(kr - r0, kc - c0);
    assert k == Idx(r0 + i / 3, c0 + i % 3);
  }

  // ---------------------------------------------------------------------------
  // Candidates (get_allowed / Puzzle._allowed)
  // ---------------------------------------------------------------------------

  /** The values 1..9 that do not occur in the row, the column or the box of (r, c). */
  function Allowed(g: Grid, r: nat, c: nat): (a: set<int>)
    requires r < 9 && c < 9
    ensures a <= Numerals
  {
    set v | v in Numerals && v !in Row(g, r) && v !in Col(g, c) && v !in Box(g, r, c)
  }

  /** v is a candidate for (r, c) exactly when v is in 1..9 and no peer of (r, c) holds v. */
  lemma AllowedMeaning(g: Grid, r: nat, c: nat, v: int)
    requires r < 9 && c < 9
    ensures v in Allowed(g, r, c) <==>
      v in Numerals && forall k :: 0 <= k < 81 && Peers(k, Idx(r, c)) ==> g[k] != v
  {
    if v in Allowed(g, r, c) {
      forall k | 0 <= k < 81 && Peers(k, Idx(r, c))
        ensures g[k] != v
      {
        if SameRow(k, Idx(r, c)) {
          RowCells(g, r, c);
        } else if SameCol(k, Idx(r, c)) {
          ColCells(g, r, c);
        } else {
          BoxHas(g, r, c, k);
        }
      }
    }
    if v in Numerals && forall k :: 0 <= k < 81 && Peers(k, Idx(r, c)) ==> g[k] != v {
      RowCells(g, r, c);
      ColCells(g, r, c);
      assert v !in Row(g, r) by {
        forall i | 0 <= i < 9 ensures Row(g, r)[i] != v { assert Peers(Idx(r, i), Idx(r, c)); }
      }
      assert v !in Col(g, c) by {
        forall i | 0 <= i < 9 ensures Col(g, c)[i] != v { assert Peers(Idx(i, c), Idx(r, c)); }
      }
      assert v !in Box(g, r, c) by {
        forall i | 0 <= i < 9 ensures Box(g, r, c)[i] != v {
          BoxAt(g, r, c, i);
          assert Peers(Idx(3 * (r / 3) + i / 3, 3 * (c / 3) + i % 3), Idx(r, c));
        }
      }
    }
  }

  // ---------------------------------------------------------------------------
  // Validity (is_valid) and the solved test (is_solved)
  // ---------------------------------------------------------------------------

  /** Outcome of is_valid: a boolean, or the ValueError it raises for a value outside 0..9. */
  datatype Verdict = Verdict(valid: bool) | ValueError(row: nat, col: nat, value: int)

  predicate InRangeValue(v: int) { 0 <= v <= 9 }

  predicate InRange(g: Grid) { forall k :: 0 <= k < 81 ==> InRangeValue(g[k]) }

  /** Cells i and j are distinct peers holding the same non-zero value. */
  predicate Conflict(g: Grid, i: nat, j: nat)
    requires i < 81 && j < 81
  {
    i != j && g[i] != 0 && g[i] == g[j] && Peers(i, j)
  }

  /** No row, column or box holds a non-zero value twice. */
  predicate NoConflict(g: Grid)
  {
    forall i, j :: 0 <= i < 81 && 0 <= j < 81 ==> !Conflict(g, i, j)
  }

  /** The cells before k (row-major) are all in range and free of conflicts among themselves. */
  predicate CleanBefore(g: Grid, k: nat)
    requires k <= 81
  {
    (forall i :: 0 <= i < k ==> InRangeValue(g[i])) &&
    (forall i, j :: 0 <= i < k && 0 <= j < k ==> !Conflict(g, i, j))
  }

  /** Cell k holds a value already seen in an earlier peer. */
  predicate RepeatsEarlier(g: Grid, k: nat)
    requires k < 81
  {
    exists j :: 0 <= j < k && g[j] == g[k] && Peers(j, k)
  }

  /**
   * The row-major scan of is_valid from cell k on: zeros are skipped, the first
   * non-zero cell that is out of range raises, the first that repeats an
   * earlier peer's value gives false.
   */
  function Scan(g: Grid, k: nat): Verdict
    requires k <= 81
    decreases 81 - k
  {
    if k == 81 then Verdict(true)
    else if g[k] == 0 then Scan(g, k + 1)
    else if !InRangeValue(g[k]) then ValueError(k / 9, k % 9, g[k])
    else if RepeatsEarlier(g, k) then Verdict(false)
    else Scan(g, k + 1)
  }

  function Validity(g: Grid): Verdict { Scan(g, 0) }

  lemma {:induction false} CleanStep(g: Grid, k: nat)
    requires k < 81 && CleanBefore(g, k)
    requires InRangeValue(g[k]) && (g[k] == 0 || !RepeatsEarlier(g, k))
    ensures CleanBefore(g, k + 1)
  {
    forall i, j | 0 <= i < k + 1 && 0 <= j < k + 1
      ensures !Conflict(g, i, j)
    {
      if i == k && j < k && g[k] != 0 {
        assert !(g[j] == g[k] && Peers(j, k));
      }
    }
  }

  lemma {:induction false} ScanMeaning(g: Grid, k: nat)
    requires k <= 81 && CleanBefore(g, k)
    ensures Scan(g, k) == Verdict(true) <==> CleanBefore(g, 81)
    ensures Scan(g, k) == Verdict(false) ==>
      exists j :: k <= j < 81 && CleanBefore(g, j) && InRangeValue(g[j]) && g[j] != 0 && RepeatsEarlier(g, j)
    ensures Scan(g, k).ValueError? ==>
      var e := Scan(g, k);
      e.row < 9 && e.col < 9 && k <= Idx(e.row, e.col) && g[Idx(e.row, e.col)] == e.value &&
      !InRangeValue(e.value) && CleanBefore(g, Idx(e.row, e.col))
    decreases 81 - k
  {
    if k == 81 {
    } else if g[k] == 0 {
      CleanStep(g, k);
      ScanMeaning(g, k + 1);
    } else if !InRangeValue(g[k]) {
      assert !CleanBefore(g, 81);
      assert Idx(k / 9, k % 9) == k;
    } else if RepeatsEarlier(g, k) {
      var j :| 0 <= j < k && g[j] == g[k] && Peers(j, k);
      assert Conflict(g, k, j);
      assert !CleanBefore(g, 81);
    } else {
      CleanStep(g, k);
      ScanMeaning(g, k + 1);
    }
  }

  /**
   * is_valid's three outcomes: true exactly when every value is in 0..9 and no
   * unit repeats a non-zero value; false only for a genuine repeat reached while
   * all cells before it were in range; ValueError only for an out-of-range cell
   * reached before any repeat.
   */
  lemma ValidityMeaning(g: Grid)
    ensures Validity(g) == Verdict(true) <==> InRange(g) && NoConflict(g)
    ensures Validity(g) == Verdict(false) ==>
      exists i, j :: 0 <= i < 81 && 0 <= j < 81 && Conflict(g, i, j)
    ensures Validity(g).ValueError? ==>
      var e := Validity(g);
      e.row < 9 && e.col < 9 && g[Idx(e.row, e.col)] == e.value && !InRange(g) &&
      CleanBefore(g, Idx(e.row, e.col))
    ensures InRange(g) ==> Validity(g) == Verdict(NoConflict(g))
  {
    ScanMeaning(g, 0);
    if Validity(g) == Verdict(false) {
      var j :| 0 <= j < 81 && CleanBefore(g, j) && InRangeValue(g[j]) && g[j] != 0 && RepeatsEarlier(g, j);
      var i :| 0 <= i < j && g[i] == g[j] && Peers(i, j);
      assert Conflict(g, j, i);
    }
    if Validity(g).ValueError? {
      var e := Validity(g);
      assert !InRangeValue(g[Idx(e.row, e.col)]);
    }
  }

  /** is_solved: no cell is 0 and is_valid holds (is_valid is not reached when a 0 is present). */
  function Solved(g: Grid): Verdict
  {
    if 0 in g then Verdict(false) else Validity(g)
  }

  /** A solved grid is full, in range and conflict-free; a grid with a zero is never solved and never raises. */
  lemma SolvedMeaning(g: Grid)
    ensures Solved(g) == Verdict(true) <==> (forall k :: 0 <= k < 81 ==> g[k] != 0) && InRange(g) && NoConflict(g)
    ensures 0 in g ==> Solved(g) == Verdict(false)
    ensures Solved(g).ValueError? ==> !InRange(g) && 0 !in g
  {
    ValidityMeaning(g);
    if 0 !in g {
      assert forall k :: 0 <= k < 81 ==> g[k] != 0;
    } else {
      var k :| 0 <= k < 81 && g[k] == 0;
    }
  }

  /** The unit of cell j in one of the three families: its row (0), its column (1) or its box (2). */
  function UnitOf(family: nat, j: nat): (x: nat)
    requires j < 81
    ensures x < 9
  {
    if family == 0 then j / 9 else if family == 1 then j % 9 else BoxIndex(j)
  }

  /** The value sets of one family after the first k cells: the non-zero values seen so far in each unit. */
  ghost predicate SeenIn(g: Grid, sets: seq<set<int>>, family: nat, k: nat)
    requires k <= 81
  {
    |sets| == 9 &&
    forall x, v {:trigger v in sets[x]} :: 0 <= x < 9 ==>
      (v in sets[x] <==> exists j :: 0 <= j < k && UnitOf(family, j) == x && g[j] != 0 && g[j] == v)
  }

  lemma SeenInStep(g: Grid, sets: seq<set<int>>, family: nat, k: nat)
    requires k < 81 && SeenIn(g, sets, family, k)
    ensures g[k] == 0 ==> SeenIn(g, sets, family, k + 1)
    ensures g[k] != 0 ==> SeenIn(g, sets[UnitOf(family, k) := sets[UnitOf(family, k)] + {g[k]}], family, k + 1)
  {
    var u := UnitOf(family, k);
    if g[k] != 0 {
      var sets' := sets[u := sets[u] + {g[k]}];
      forall x, v | 0 <= x < 9
        ensures v in sets'[x] <==> exists j :: 0 <= j < k + 1 && UnitOf(family, j) == x && g[j] != 0 && g[j] == v
      {
        if v in sets'[x] && !(v in sets[x]) {
          assert UnitOf(family, k) == x && g[k] == v;
        }
      }
    }
  }

  /** A non-zero value repeats an earlier peer exactly when it repeats an earlier cell of its row, column or box. */
  lemma RepeatsByFamily(g: Grid, k: nat)
    requires k < 81
    ensures RepeatsEarlier(g, k) <==>
      (exists j :: 0 <= j < k && UnitOf(0, j) == UnitOf(0, k) && g[j] != 0 && g[j] == g[k]) ||
      (exists j :: 0 <= j < k && UnitOf(1, j) == UnitOf(1, k) && g[j] != 0 && g[j] == g[k]) ||
      (exists j :: 0 <= j < k && UnitOf(2, j) == UnitOf(2, k) && g[j] != 0 && g[j] == g[k]) ||
      (g[k] == 0 && RepeatsEarlier(g, k))
  {
    if RepeatsEarlier(g, k) && g[k] != 0 {
      var j :| 0 <= j < k && g[j] == g[k] && Peers(j, k);
      assert UnitOf(0, j) == UnitOf(0, k) || UnitOf(1, j) == UnitOf(1, k) || UnitOf(2, j) == UnitOf(2, k);
    }
  }

  /** The scanning loop of is_valid, with its per-row, per-column and per-box sets of values seen. */
  method IsValid(d: array<int>) returns (r: Verdict)
    requires d.Length == 81
    ensures r == Validity(d[..])
  {
    ghost var g: Grid := d[..];
    var rows: seq<set<int>> := seq(9, _ => {});
    var cols: seq<set<int>> := seq(9, _ => {});
    var boxes: seq<set<int>> := seq(9, _ => {});
    var k := 0;
    while k < 81
      invariant 0 <= k <= 81
      invariant Scan(g, 0) == Scan(g, k)
      invariant SeenIn(g, rows, 0, k) && SeenIn(g, cols, 1, k) && SeenIn(g, boxes, 2, k)
    {
      var val := d[k];
      SeenInStep(g, rows, 0, k);
      SeenInStep(g, cols, 1, k);
      SeenInStep(g, boxes, 2, k);
      if val != 0 {
        if val < 0 || val > 9 {
          return ValueError(k / 9, k % 9, val);
        }
        var row, col := k / 9, k % 9;
        var box := 3 * (row / 3) + col / 3;
        assert box == UnitOf(2, k);
        RepeatsByFamily(g, k);
        if val in rows[row] || val in cols[col] || val in boxes[box] {
          return Verdict(false);
        }
        rows := rows[row := rows[row] + {val}];
        cols := cols[col := cols[col] + {val}];
        boxes := boxes[box := boxes[box] + {val}];
      }
      k := k + 1;
    }
    return Verdict(true);
  }

  /** is_solved, as written: the zero test first, then the validity scan. */
  method IsSolved(d: array<int>) returns (r: Verdict)
    requires d.Length == 81
    ensures r == Solved(d[..])
  {
    if 0 in d[..] {
      return Verdict(false);
    }
    r := IsValid(d);
  }

  // ---------------------------------------------------------------------------
  // Placing a candidate
  // ---------------------------------------------------------------------------

  /** Writing a candidate of an empty cell keeps the grid conflict-free. */
  lemma PlacePreservesNoConflict(g: Grid, k: nat, v: int)
    requires k < 81 && g[k] == 0 && NoConflict(g)
    requires v in Allowed(g, k / 9, k % 9)
    ensures NoConflict(g[k := v])
  {
    AllowedMeaning(g, k / 9, k % 9, v);
    assert Idx(k / 9, k % 9) == k;
    var g' := g[k := v];
    forall i, j | 0 <= i < 81 && 0 <= j < 81
      ensures !Conflict(g', i, j)
    {
      if i != k && j != k {
        assert !Conflict(g, i, j);
      } else if i == k {
        assert Peers(j, k) ==> g[j] != v;
      } else {
        assert Peers(i, k) ==> g[i] != v;
      }
    }
  }

  /** Every cell of a solved grid holds one of 1..9, and no two peers agree. */
  lemma SolvedCells(g: Grid)
    requires Solved(g) == Verdict(true)
    ensures forall k :: 0 <= k < 81 ==> g[k] in Numerals
    ensures NoConflict(g)
  {
    SolvedMeaning(g);
    forall k | 0 <= k < 81 ensures g[k] in Numerals {
      assert InRangeValue(g[k]) && g[k] != 0;
      InNumerals(g[k]);
    }
  }

  /** A solved grid has each of 1..9 exactly once in every row. */
  lemma SolvedRowIsPermutation(g: Grid, r: nat)
    requires r < 9 && Solved(g) == Verdict(true)
    ensures ValueSet(Row(g, r)) == Numerals && Distinct(Row(g, r))
  {
    SolvedCells(g);
    var row := Row(g, r);
    forall i, j | 0 <= i < j < 9 ensures row[i] != row[j] {
      assert row[i] == g[Idx(r, i)] && row[j] == g[Idx(r, j)];
      assert !Conflict(g, Idx(r, i), Idx(r, j));
    }
    forall i | 0 <= i < 9 ensures row[i] in Numerals {
      assert row[i] == g[Idx(r, i)];
    }
    DistinctWithinNumerals(row);
  }

  /** A solved grid has each of 1..9 exactly once in every column. */
  lemma SolvedColIsPermutation(g: Grid, c: nat)
    requires c < 9 && Solved(g) == Verdict(true)
    ensures ValueSet(Col(g, c)) == Numerals && Distinct(Col(g, c))
  {
    SolvedCells(g);
    var col := Col(g, c);
    forall i, j | 0 <= i < j < 9 ensures col[i] != col[j] {
      assert !Conflict(g, Idx(i, c), Idx(j, c));
    }
    forall i | 0 <= i < 9 ensures col[i] in Numerals {
      assert col[i] == g[Idx(i, c)];
    }
    DistinctWithinNumerals(col);
  }

  /** A solved grid has each of 1..9 exactly once in every box. */
  lemma SolvedBoxIsPermutation(g: Grid, r: nat, c: nat)
    requires r < 9 && c < 9 && Solved(g) == Verdict(true)
    ensures ValueSet(Box(g, r, c)) == Numerals && Distinct(Box(g, r, c))
  {
    SolvedCells(g);
    var box := Box(g, r, c);
    forall i, j | 0 <= i < j < 9 ensures box[i] != box[j] {
      BoxAt(g, r, c, i);
      BoxAt(g, r, c, j);
      var ki := Idx(3 * (r / 3) + i / 3, 3 * (c / 3) + i % 3);
      var kj := Idx(3 * (r / 3) + j / 3, 3 * (c / 3) + j % 3);
      assert ki != kj by { DivThree(i / 3, i % 3); DivThree(j / 3, j % 3); }
      assert !Conflict(g, ki, kj);
    }
    forall i | 0 <= i < 9 ensures box[i] in Numerals {
      BoxAt(g, r, c, i);
    }
    DistinctWithinNumerals(box);
  }

  // ---------------------------------------------------------------------------
  // Sequences of unit values
  // ---------------------------------------------------------------------------

  /** The set of values of a sequence. */
  function ValueSet(s: seq<int>): (r: set<int>)
    ensures forall x :: x in r <==> x in s
  {
    set x | x in s
  }

  predicate Distinct(s: seq<int>) { forall i, j :: 0 <= i < j < |s| ==> s[i] != s[j] }

  lemma {:induction false} CardSetAtMost(s: seq<int>)
    ensures |ValueSet(s)| <= |s|
    ensures !Distinct(s) ==> |ValueSet(s)| < |s|
    ensures Distinct(s) ==> |ValueSet(s)| == |s|
  {
    if s != [] {
      var t := s[1..];
      CardSetAtMost(t);
      assert ValueSet(s) == ValueSet(t) + {s[0]};
      if s[0] in t {
        assert ValueSet(s) == ValueSet(t);
        var j :| 0 <= j < |t| && t[j] == s[0];
        assert s[0] == s[j + 1];
        assert !Distinct(s);
      } else {
        if !Distinct(s) {
          var i, j :| 0 <= i < j < |s| && s[i] == s[j];
          assert i != 0;
          assert t[i - 1] == t[j - 1];
          assert !Distinct(t);
        }
        if Distinct(s) {
          assert Distinct(t) by {
            forall i, j | 0 <= i < j < |t| ensures t[i] != t[j] { assert s[i + 1] != s[j + 1]; }
          }
        }
      }
    }
  }

  lemma InNumerals(v: int)
    ensures v in Numerals <==> 1 <= v <= 9
  {
  }

  lemma CardNumerals()
    ensures |Numerals| == 9
  {
  }

  lemma SubsetCard(a: set<int>, b: set<int>)
    requires a <= b
    ensures |a| <= |b|
    ensures a != b ==> |a| < |b|
  {
    assert b == a + (b - a);
    assert a * (b - a) == {};
    assert |b| == |a| + |b - a|;
    assert b - a == {} ==> b == a;
  }

  lemma SubsetSameSize(a: set<int>, b: set<int>)
    requires a <= b && |a| >= |b|
    ensures a == b
  {
    SubsetCard(a, b);
  }

  /** Nine distinct values of 1..9 are all of 1..9. */
  lemma DistinctWithinNumerals(s: seq<int>)
    requires |s| == 9 && Distinct(s) && forall i :: 0 <= i < 9 ==> s[i] in Numerals
    ensures ValueSet(s) == Numerals
  {
    CardSetAtMost(s);
    CardNumerals();
    SubsetSameSize(ValueSet(s), Numerals);
  }

  /** Nine cells that show all of 1..9 hold each of them once and nothing else. */
  lemma CoveringIsPermutation(s: seq<int>)
    requires |s| == 9 && Numerals <= ValueSet(s)
    ensures Distinct(s) && forall i :: 0 <= i < 9 ==> s[i] in Numerals
  {
    CardSetAtMost(s);
    CardNumerals();
    SubsetCard(Numerals, ValueSet(s));
    SubsetSameSize(Numerals, ValueSet(s));
  }

  // ---------------------------------------------------------------------------
  // Parsing (read_puzzle / Puzzle.__init__)
  // ---------------------------------------------------------------------------

  predicate IsDigit(ch: char) { '0' <= ch <= '9' }

  /** The digit characters of s, in order, as the integers 0..9. */
  function Digits(s: string): (ds: seq<int>)
    ensures |ds| <= |s|
    ensures forall i :: 0 <= i < |ds| ==> InRangeValue(ds[i])
  {
    if s == [] then []
    else (if IsDigit(s[0]) then [s[0] as int - '0' as int] else []) + Digits(s[1..])
  }

  lemma {:induction false} DigitsAppend(a: string, b: string)
    ensures Digits(a + b) == Digits(a) + Digits(b)
  {
    if a == [] {
      assert a + b == b;
    } else {
      assert (a + b)[1..] == a[1..] + b;
      DigitsAppend(a[1..], b);
    }
  }

  /** A string made only of digits is read digit for digit. */
  lemma {:induction false} DigitsOfDigitString(s: string)
    requires forall i :: 0 <= i < |s| ==> IsDigit(s[i])
    ensures Digits(s) == seq(|s|, i requires 0 <= i < |s| => s[i] as int - '0' as int)
  {
    if s != [] {
      DigitsOfDigitString(s[1..]);
    }
  }

  /** Characters other than '0'..'9' contribute nothing. */
  lemma {:induction false} DigitsSkipOthers(s: string)
    requires forall i :: 0 <= i < |s| ==> !IsDigit(s[i])
    ensures Digits(s) == []
  {
    if s != [] {
      DigitsSkipOthers(s[1..]);
    }
  }

  /** Outcome of read_puzzle: the grid, or the error reshape raises when there are not 81 digits. */
  datatype Parse = Parsed(grid: Grid) | ReshapeError(digits: nat)

  /** read_puzzle: keep the digit characters in order and reshape them into 9x9; cell (r, c) is digit 9r+c. */
  function ReadPuzzle(s: string): (p: Parse)
    ensures p.Parsed? <==> |Digits(s)| == 81
    ensures p.Parsed? ==> InRange(p.grid) && forall r, c :: 0 <= r < 9 && 0 <= c < 9 ==> p.grid[Idx(r, c)] == Digits(s)[9 * r + c]
    ensures p.ReshapeError? ==> p.digits == |Digits(s)|
  {
    var ds := Digits(s);
    if |ds| == 81 then Parsed(ds) else ReshapeError(|ds|)
  }

  // ---------------------------------------------------------------------------
  // Filling cells
  // ---------------------------------------------------------------------------

  lemma SingletonIs(s: set<int>, v: int)
    requires |s| == 1 && v in s
    ensures s == {v}
  {
    assert |s - {v}| == 0;
  }

  lemma NonEmptyHas(s: set<int>)
    requires |s| == 1
    ensures exists v :: v in s
  {
    if forall v :: v !in s { }
  }

  /** The member of a one-element set. */
  ghost function TheOne(s: set<int>): (v: int)
    requires |s| == 1
    ensures s == {v}
  {
    NonEmptyHas(s);
    var v :| v in s;
    SingletonIs(s, v);
    v
  }

  /** Candidates only shrink as cells are filled. */
  lemma AllowedShrinks(g: Grid, g': Grid, k: nat)
    requires k < 81
    requires forall i :: 0 <= i < 81 && g[i] != 0 ==> g'[i] == g[i]
    ensures Allowed(g', k / 9, k % 9) <= Allowed(g, k / 9, k % 9)
  {
    assert Idx(k / 9, k % 9) == k;
    forall x | x in Allowed(g', k / 9, k % 9)
      ensures x in Allowed(g, k / 9, k % 9)
    {
      AllowedMeaning(g, k / 9, k % 9, x);
      AllowedMeaning(g', k / 9, k % 9, x);
    }
  }

  /** g' agrees with g on g's filled cells, and fills some empty cells with values that were candidates in g. */
  ghost predicate Extends(g: Grid, g': Grid)
  {
    forall i :: 0 <= i < 81 ==>
      if g[i] != 0 then g'[i] == g[i] else g'[i] == 0 || g'[i] in Allowed(g, i / 9, i % 9)
  }

  lemma ExtendsTrans(g0: Grid, g1: Grid, g2: Grid)
    requires Extends(g0, g1) && Extends(g1, g2)
    ensures Extends(g0, g2)
  {
    forall i | 0 <= i < 81 && g0[i] == 0 && g2[i] != 0
      ensures g2[i] in Allowed(g0, i / 9, i % 9)
    {
      if g1[i] == 0 {
        AllowedShrinks(g0, g1, i);
      }
    }
  }

  lemma ExtendsKeepsInRange(g: Grid, g': Grid)
    requires Extends(g, g')
    ensures InRange(g) ==> InRange(g')
  {
    if InRange(g) {
      forall i | 0 <= i < 81 ensures InRangeValue(g'[i]) {
        if g[i] == 0 && g'[i] != 0 {
          InNumerals(g'[i]);
        }
      }
    }
  }

  /** The number of empty cells of s. */
  function Zeros(s: seq<int>): (n: nat)
    ensures n <= |s|
  {
    if s == [] then 0 else (if s[0] == 0 then 1 else 0) + Zeros(s[1..])
  }

  /** Filling the empty cell k lowers the count of empty cells by one. */
  lemma {:induction false} ZerosFill(s: seq<int>, k: nat, v: int)
    requires k < |s| && s[k] == 0 && v != 0
    ensures Zeros(s[k := v]) == Zeros(s) - 1
  {
    if k > 0 {
      assert s[k := v][1..] == s[1..][k - 1 := v];
      ZerosFill(s[1..], k - 1, v);
    } else {
      assert s[k := v][1..] == s[1..];
    }
  }

  // ---------------------------------------------------------------------------
  // Iteration order of a set of small integers
  // ---------------------------------------------------------------------------

  // A Python loop over a set visits each member once, in the order of the
  // set's hash table. The model takes that order as a parameter: a function
  // from the set of numerals being iterated to the list of its members. For the
  // candidate sets of this package CPython's order depends only on the members
  // (it is ascending for five or more of them, but {2, 9} visits 9 before 2),
  // so it is one of the orders admitted here.

  /** vs lists every member of s exactly once. */
  predicate ListsOnce(vs: seq<int>, s: set<int>)
  {
    ValueSet(vs) == s && Distinct(vs)
  }

  /** The order a loop visits the members of a set in. */
  type Order = set<int> -> seq<int>

  /** An iteration order for sets of numerals: each set is listed once each. */
  ghost predicate Enumerates(order: Order)
  {
    forall s: set<int> :: s <= Numerals ==> ListsOnce(order(s), s)
  }

  /** A listing of s once each has exactly |s| entries. */
  lemma ListsOnceLength(vs: seq<int>, s: set<int>)
    requires ListsOnce(vs, s)
    ensures |vs| == |s| && forall x :: x in vs <==> x in s
  {
    CardSetAtMost(vs);
  }

  /** The members of s in v..9, ascending: one admitted iteration order. */
  function Ascending(s: set<int>, v: int): (vs: seq<int>)
    decreases 10 - v
  {
    if v > 9 then [] else (if v in s then [v] else []) + Ascending(s, v + 1)
  }

  /** Candidates are listed once each, in ascending order, and exactly the members of s in v..9. */
  lemma {:induction false} AscendingMeaning(s: set<int>, v: int)
    ensures forall x :: x in Ascending(s, v) <==> x in s && v <= x <= 9
    ensures forall i, j :: 0 <= i < j < |Ascending(s, v)| ==> Ascending(s, v)[i] < Ascending(s, v)[j]
    decreases 10 - v
  {
    if v <= 9 {
      AscendingMeaning(s, v + 1);
      var t := Ascending(s, v + 1);
      if v in s {
        var a := Ascending(s, v);
        assert a == [v] + t;
        forall i, j | 0 <= i < j < |a| ensures a[i] < a[j] {
          if i == 0 {
            assert a[j] == t[j - 1] && t[j - 1] in t;
          } else {
            assert a[i] == t[i - 1] && a[j] == t[j - 1];
          }
        }
      } else {
        assert Ascending(s, v) == t;
      }
    }
  }

  /** Listing a set of numerals in ascending order visits each member once. */
  lemma AscendingLists(s: set<int>)
    requires s <= Numerals
    ensures ListsOnce(Ascending(s, 1), s) && |Ascending(s, 1)| == |s|
  {
    AscendingMeaning(s, 1);
    var a := Ascending(s, 1);
    assert Distinct(a) by {
      forall i, j | 0 <= i < j < |a| ensures a[i] != a[j] {
        assert a[i] < a[j];
      }
    }
    forall x ensures x in ValueSet(a) <==> x in s {
      InNumerals(x);
    }
    assert ValueSet(a) == s;
    CardSetAtMost(a);
  }

  /** The ascending order is an iteration order. */
  lemma AscendingEnumerates()
    ensures Enumerates(s => Ascending(s, 1))
  {
    forall s: set<int> | s <= Numerals ensures ListsOnce(Ascending(s, 1), s) {
      AscendingLists(s);
    }
  }
}
