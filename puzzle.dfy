/**
 * The Puzzle class of the package entry point: a grid held in place, a scan
 * for the first empty cell with a single candidate, and a loop that keeps
 * filling such cells until none is left.
 */
module Sudoku {
  import opened Grid

  /** What solve_one finds: the first naked single, or nothing. */
  datatype Single = NoSingle | Single(row: nat, col: nat, value: int)

  /** Cell k is empty and has exactly one candidate. */
  predicate IsSingle(g: Grid, k: nat)
    requires k < 81
  {
    g[k] == 0 && |Allowed(g, k / 9, k % 9)| == 1
  }

  /** The first naked single of g at or after cell k, in row-major order. */
  ghost function FirstSingle(g: Grid, k: nat): Single
    requires k <= 81
    decreases 81 - k
  {
    if k == 81 then NoSingle
    else if IsSingle(g, k) then Single(k / 9, k % 9, TheOne(Allowed(g, k / 9, k % 9)))
    else FirstSingle(g, k + 1)
  }

  /**
   * FirstSingle finds nothing exactly when no cell from k on is a naked
   * single; otherwise it names the first such cell and its only candidate.
   */
  lemma FirstSingleMeaning(g: Grid, k: nat)
    requires k <= 81
    ensures var s := FirstSingle(g, k);
      (s.NoSingle? <==> forall j :: k <= j < 81 ==> !IsSingle(g, j)) &&
      (s.Single? ==>
        s.row < 9 && s.col < 9 && k <= Idx(s.row, s.col) &&
        g[Idx(s.row, s.col)] == 0 && Allowed(g, s.row, s.col) == {s.value} &&
        forall j :: k <= j < Idx(s.row, s.col) ==> !IsSingle(g, j))
  {
    FirstSingleNone(g, k);
    FirstSingleFound(g, k);
  }

  lemma {:induction false} FirstSingleNone(g: Grid, k: nat)
    requires k <= 81
    ensures FirstSingle(g, k).NoSingle? <==> forall j :: k <= j < 81 ==> !IsSingle(g, j)
    decreases 81 - k
  {
    if k < 81 && !IsSingle(g, k) {
      FirstSingleNone(g, k + 1);
    }
  }

  lemma {:induction false} FirstSingleFound(g: Grid, k: nat)
    requires k <= 81
    ensures var s := FirstSingle(g, k);
      s.Single? ==>
        s.row < 9 && s.col < 9 && k <= Idx(s.row, s.col) &&
        g[Idx(s.row, s.col)] == 0 && Allowed(g, s.row, s.col) == {s.value} &&
        forall j :: k <= j < Idx(s.row, s.col) ==> !IsSingle(g, j)
    decreases 81 - k
  {
    if k < 81 {
      if IsSingle(g, k) {
        assert Idx(k / 9, k % 9) == k;
      } else {
        FirstSingleFound(g, k + 1);
      }
    }
  }

  lemma FirstSingleAt(g: Grid, k: nat)
    requires k < 81 && IsSingle(g, k)
    ensures FirstSingle(g, k) == Single(k / 9, k % 9, TheOne(Allowed(g, k / 9, k % 9)))
  {
  }

  lemma FirstSingleAfter(g: Grid, k: nat)
    requires k < 81 && !IsSingle(g, k)
    ensures FirstSingle(g, k) == FirstSingle(g, k + 1)
  {
  }

  /** The grid solve leaves: fill the first naked single until there is none. */
  ghost function NakedSingles(g: Grid): Grid
    decreases Zeros(g)
  {
    match FirstSingle(g, 0)
    case NoSingle => g
    case Single(r, c, v) =>
      FirstSingleMeaning(g, 0);
      InNumerals(v);
      ZerosFill(g, Idx(r, c), v);
      NakedSingles(g[Idx(r, c) := v])
  }

  /** One iteration of solve: filling the first naked single leaves the final grid the same and lowers the count of empty cells. */
  lemma NakedSinglesStep(g: Grid, r: nat, c: nat, v: int)
    requires r < 9 && c < 9 && FirstSingle(g, 0) == Single(r, c, v)
    ensures g[Idx(r, c)] == 0
    ensures NakedSingles(g[Idx(r, c) := v]) == NakedSingles(g)
    ensures Zeros(g[Idx(r, c) := v]) < Zeros(g)
  {
    FirstSingleMeaning(g, 0);
    InNumerals(v);
    ZerosFill(g, Idx(r, c), v);
  }

  /** The number of placements solve makes (one per iteration of its loop but the last). */
  ghost function Placements(g: Grid): nat
    decreases Zeros(g)
  {
    match FirstSingle(g, 0)
    case NoSingle => 0
    case Single(r, c, v) =>
      FirstSingleMeaning(g, 0);
      InNumerals(v);
      ZerosFill(g, Idx(r, c), v);
      1 + Placements(g[Idx(r, c) := v])
  }

  /**
   * solve keeps every clue, writes only values that were candidates in the
   * starting grid, keeps a conflict-free grid conflict-free, makes one
   * placement per empty cell it fills (so at most 81), and stops exactly when
   * no empty cell has a single candidate.
   */
  lemma {:induction false} NakedSinglesMeaning(g: Grid)
    ensures Extends(g, NakedSingles(g))
    ensures NoConflict(g) ==> NoConflict(NakedSingles(g))
    ensures Validity(g) == Verdict(true) ==> Validity(NakedSingles(g)) == Verdict(true)
    ensures forall k :: 0 <= k < 81 ==> !IsSingle(NakedSingles(g), k)
    ensures Placements(g) + Zeros(NakedSingles(g)) == Zeros(g)
    ensures Placements(g) <= 81
    decreases Zeros(g)
  {
    assert Extends(g, g);
    FirstSingleMeaning(g, 0);
    match FirstSingle(g, 0)
    case NoSingle =>
    case Single(r, c, v) =>
      var k := Idx(r, c);
      var g1 := g[k := v];
      InNumerals(v);
      ZerosFill(g, k, v);
      assert Extends(g, g1);
      NakedSinglesMeaning(g1);
      ExtendsTrans(g, g1, NakedSingles(g1));
      if NoConflict(g) {
        assert k / 9 == r && k % 9 == c;
        PlacePreservesNoConflict(g, k, v);
      }
      ValidityMeaning(g);
      ValidityMeaning(NakedSingles(g1));
      ExtendsKeepsInRange(g, NakedSingles(g1));
  }

  class Puzzle {
    /** The 9×9 grid, row-major. */
    var data: array<int>

    ghost predicate Valid()
      reads this
    {
      data.Length == 81
    }

    /** A puzzle holding grid g. */
    constructor (g: Grid)
      ensures Valid() && fresh(data) && data[..] == g
    {
      data := new int[81](i requires 0 <= i < 81 => g[i]);
    }

    /** __init__: the digit characters of s in order, which must number exactly 81. */
    static method FromString(s: string) returns (p: Puzzle?)
      ensures p == null <==> ReadPuzzle(s).ReshapeError?
      ensures p != null ==> fresh(p) && fresh(p.data) && p.Valid() && p.data[..] == ReadPuzzle(s).grid
    {
      var parsed := ReadPuzzle(s);
      if parsed.ReshapeError? {
        return null;
      }
      p := new Puzzle(parsed.grid);
    }

    /** _allowed: the candidates of (row, col) in the current grid. */
    function AllowedAt(row: nat, col: nat): (a: set<int>)
      reads this, data
      requires Valid() && row < 9 && col < 9
      ensures a <= Numerals
      ensures forall v :: v in a <==> v in Numerals && forall k :: 0 <= k < 81 && Peers(k, Idx(row, col)) ==> data[k] != v
    {
      var g: Grid := data[..];
      assert forall v :: v in Allowed(g, row, col) <==> v in Numerals && forall k :: 0 <= k < 81 && Peers(k, Idx(row, col)) ==> g[k] != v by {
        forall v ensures v in Allowed(g, row, col) <==> v in Numerals && forall k :: 0 <= k < 81 && Peers(k, Idx(row, col)) ==> g[k] != v {
          AllowedMeaning(g, row, col, v);
        }
      }
      Allowed(g, row, col)
    }

    /** solve_one: the first empty cell, row-major, whose candidate set is a single value. */
    method SolveOne() returns (s: Single)
      requires Valid()
      ensures s == FirstSingle(data[..], 0)
    {
      ghost var g: Grid := data[..];
      var k := 0;
      while k < 81
        invariant 0 <= k <= 81
        invariant FirstSingle(g, 0) == FirstSingle(g, k)
      {
        var row, col := k / 9, k % 9;
        if data[k] == 0 {
          var a := AllowedAt(row, col);
          assert a == Allowed(g, row, col);
          if |a| == 1 {
            NonEmptyHas(a);
            var v :| v in a;
            SingletonIs(a, v);
            FirstSingleAt(g, k);
            return Single(row, col, v);
          }
        }
        FirstSingleAfter(g, k);
        k := k + 1;
      }
      return NoSingle;
    }

    /** The placement of solve: add v to the cell at (row, col), which is asserted to hold 0. */
    method Add(row: nat, col: nat, v: int)
      requires Valid() && row < 9 && col < 9 && data[Idx(row, col)] == 0
      modifies data
      ensures data[..] == old(data[..])[Idx(row, col) := v]
    {
      var k := Idx(row, col);
      assert data[k] == 0;
      data[k] := data[k] + v;
    }

    /** solve: fill naked singles one at a time until solve_one finds none. */
    method Solve()
      requires Valid()
      modifies data
      ensures data[..] == NakedSingles(old(data[..]))
    {
      while true
        invariant NakedSingles(old(data[..])) == NakedSingles(data[..])
        decreases Zeros(data[..])
      {
        var s := SolveOne();
        if s.NoSingle? {
          assert NakedSingles(data[..]) == data[..];
          break;
        }
        FirstSingleMeaning(data[..], 0);
        NakedSinglesStep(data[..], s.row, s.col, s.value);
        Add(s.row, s.col, s.value);
      }
    }
  }
}
