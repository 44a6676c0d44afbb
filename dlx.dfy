/**
 * The exact-cover formulation of a SIZE x SIZE sudoku (SIZE = 4): the 0/1
 * constraint matrix, the decoding of one of its rows back to a placement, and
 * the column and row selection that opens a step of Algorithm X.
 *
 * A matrix row stands for one placement (row, col, val); a matrix column for
 * one constraint. The columns come in four blocks of SIZE * SIZE: cell (row,
 * col) is filled, row `row` holds val, column `col` holds val, box `box`
 * holds val.
 */
module Dlx {

  const RootSize: nat := 2
  /** ROOT_SIZE * ROOT_SIZE, written out (see Shape). */
  const Size: nat := 4
  /** SIZE * SIZE, written out (see Shape). */
  const SizeSquared: nat := 16
  /** One matrix row per (row, col, val) triple. */
  const NumRows: nat := 64
  /** Four blocks of SIZE * SIZE constraint columns. */
  const NumCols: nat := 64

  /** A matrix of the shape build_constraints creates; entries are the unsigned values of the sparse array. */
  type Matrix = m: seq<seq<nat>> | |m| == 64 && forall i :: 0 <= i < 64 ==> |m[i]| == 64
    witness seq(64, _ => seq(64, _ => 0))

  /** The constants are those of the source: SIZE = ROOT_SIZE², the matrix is SIZE²·SIZE by SIZE²·4. */
  lemma Shape()
    ensures Size == RootSize * RootSize && SizeSquared == Size * Size
    ensures NumRows == SizeSquared * Size && NumCols == SizeSquared * 4
  {
  }

  // ---------------------------------------------------------------------------
  // Placements and their matrix rows
  // ---------------------------------------------------------------------------

  /** The position of (row, col, val) in product(range(SIZE), repeat=3), which is its matrix row. */
  function Encode(row: nat, col: nat, val: nat): nat
    requires row < 4 && col < 4 && val < 4
  {
    row * 16 + col * 4 + val
  }

  /** The triple at position idx of the product: the last component varies fastest. */
  function Decode(idx: nat): (nat, nat, nat)
    requires idx < 64
  {
    (idx / 16, (idx / 4) % 4, idx % 4)
  }

  /** Decoding the index of a triple gives the triple back: the enumeration visits each triple at the index Encode gives it. */
  lemma DecodeEncode(row: nat, col: nat, val: nat)
    requires row < 4 && col < 4 && val < 4
    ensures Encode(row, col, val) < 64
    ensures Decode(Encode(row, col, val)) == (row, col, val)
  {
    var k := row * 16 + col * 4 + val;
    assert k == 16 * row + (4 * col + val);
    assert k / 16 == row;
    assert k / 4 == 4 * row + col;
    assert (k / 4) % 4 == col;
    assert k % 4 == val;
  }

  /** Every index is the index of the triple it decodes to. */
  lemma EncodeDecode(idx: nat)
    requires idx < 64
    ensures Decode(idx).0 < 4 && Decode(idx).1 < 4 && Decode(idx).2 < 4
    ensures Encode(Decode(idx).0, Decode(idx).1, Decode(idx).2) == idx
  {
  }

  /** The box of (row, col) as build_constraints numbers it: (row // ROOT_SIZE) * ROOT_SIZE + col // ROOT_SIZE. */
  function BoxOf(row: nat, col: nat): (b: nat)
    requires row < 4 && col < 4
    ensures b < 4
  {
    (row / 2) * 2 + col / 2
  }

  /**
   * The column of constraint family f (0: cell, 1: row, 2: column, 3: box)
   * that placement (row, col, val) covers, f * SIZE² plus the offset the
   * source gives it (SIZE = 4). It lies in block f.
   */
  function Constraint(row: nat, col: nat, val: nat, f: nat): (j: nat)
    requires row < 4 && col < 4 && val < 4 && f < 4
    ensures 16 * f <= j < 16 * f + 16
  {
    if f == 0 then 0 * 16 + row * 4 + col
    else if f == 1 then 1 * 16 + val + 4 * row
    else if f == 2 then 2 * 16 + val + 4 * col
    else 3 * 16 + val + 4 * BoxOf(row, col)
  }

  /** Column j of matrix row idx is set: it is one of the four constraints of idx's placement. */
  predicate Covers(idx: nat, j: nat)
    requires idx < 64
  {
    var (row, col, val) := Decode(idx);
    j == Constraint(row, col, val, 0) || j == Constraint(row, col, val, 1) ||
    j == Constraint(row, col, val, 2) || j == Constraint(row, col, val, 3)
  }

  /** Entry (idx, j) of the matrix build_constraints returns. */
  function Entry(idx: nat, j: nat): (e: nat)
    requires idx < 64
    ensures e <= 1
  {
    if Covers(idx, j) then 1 else 0
  }

  /** The matrix build_constraints returns. */
  function Constraints(): (m: Matrix)
    ensures forall i, j :: 0 <= i < 64 && 0 <= j < 64 ==> m[i][j] == Entry(i, j)
  {
    seq(64, i requires 0 <= i < 64 => seq(64, j requires 0 <= j < 64 => Entry(i, j)))
  }

  /** The entries of a 64 × 64 array as a matrix value. */
  function Contents(mat: array2<nat>): (m: Matrix)
    reads mat
    requires mat.Length0 == 64 && mat.Length1 == 64
    ensures forall i, j :: 0 <= i < 64 && 0 <= j < 64 ==> m[i][j] == mat[i, j]
  {
    seq(64, i requires 0 <= i < 64 reads mat => seq(64, j requires 0 <= j < 64 reads mat => mat[i, j]))
  }

  /** build_constraints: start from the all-zero matrix and set the four columns of each triple in product order. */
  method BuildConstraints() returns (mat: array2<nat>)
    ensures fresh(mat) && mat.Length0 == NumRows && mat.Length1 == NumCols
    ensures Contents(mat) == Constraints()
  {
    var numRows := SizeSquared * Size;
    var numCols := SizeSquared * 4;
    mat := new nat[numRows, numCols]((i, j) => 0);
    var idx := 0;
    while idx < numRows
      invariant 0 <= idx <= 64 && mat.Length0 == 64 && mat.Length1 == 64
      invariant forall i, j :: 0 <= i < 64 && 0 <= j < 64 ==> mat[i, j] == if i < idx then Entry(i, j) else 0
    {
      SetRow(mat, idx);
      idx := idx + 1;
    }
    assert forall i :: 0 <= i < 64 ==> Contents(mat)[i] == Constraints()[i];
  }

  /** The body of build_constraints' loop: the four columns of triple idx receive a 1. */
  method SetRow(mat: array2<nat>, idx: nat)
    requires idx < 64 && mat.Length0 == 64 && mat.Length1 == 64
    requires forall j :: 0 <= j < 64 ==> mat[idx, j] == 0
    modifies mat
    ensures forall i, j :: 0 <= i < 64 && 0 <= j < 64 ==> mat[i, j] == if i == idx then Entry(i, j) else old(mat[i, j])
  {
    var (row, col, val) := Decode(idx);
    var c0, c1, c2, c3 := Constraint(row, col, val, 0), Constraint(row, col, val, 1), Constraint(row, col, val, 2), Constraint(row, col, val, 3);
    assert c0 == 0 * SizeSquared + row * Size + col;
    mat[idx, 0 * SizeSquared + row * Size + col] := 1;
    mat[idx, 1 * SizeSquared + val + Size * row] := 1;
    mat[idx, 2 * SizeSquared + val + Size * col] := 1;
    var box := (row / RootSize) * RootSize + col / RootSize;
    mat[idx, 3 * SizeSquared + val + Size * box] := 1;
    assert forall j :: 0 <= j < 64 ==> (Covers(idx, j) <==> j == c0 || j == c1 || j == c2 || j == c3);
  }

  // ---------------------------------------------------------------------------
  // Sums and the ones of a 0/1 vector
  // ---------------------------------------------------------------------------

  /** The sum of a vector of matrix entries (taken whole, unlike the prefix sum Annealing's cost loop uses). */
  function Sum(s: seq<nat>): nat
  {
    if s == [] then 0 else Sum(s[..|s| - 1]) + s[|s| - 1]
  }

  /** The positions holding a 1. */
  function Ones(s: seq<nat>): set<nat>
  {
    set k: nat | k < |s| && s[k] == 1
  }

  /** The sum of a vector whose entries are 0 or 1 is the number of its ones. */
  lemma {:induction false} SumCountsOnes(s: seq<nat>)
    requires forall k :: 0 <= k < |s| ==> s[k] <= 1
    ensures Sum(s) == |Ones(s)|
    decreases |s|
  {
    if s != [] {
      var n := |s| - 1;
      var t := s[..n];
      SumCountsOnes(t);
      assert Ones(s) == Ones(t) + (if s[n] == 1 then {n} else {});
    }
  }

  /** Matrix row idx of the built matrix. */
  function BuiltRow(idx: nat): (u: seq<nat>)
    requires idx < 64
    ensures |u| == 64 && u == Constraints()[idx]
  {
    Constraints()[idx]
  }

  /** The ones of matrix row idx are its four constraint columns, one in each block. */
  lemma RowOnes(idx: nat)
    requires idx < 64
    ensures var (row, col, val) := Decode(idx);
      Ones(BuiltRow(idx)) ==
        {Constraint(row, col, val, 0), Constraint(row, col, val, 1), Constraint(row, col, val, 2), Constraint(row, col, val, 3)}
  {
    var (row, col, val) := Decode(idx);
    var four := {Constraint(row, col, val, 0), Constraint(row, col, val, 1), Constraint(row, col, val, 2), Constraint(row, col, val, 3)};
    forall k: nat ensures k in Ones(BuiltRow(idx)) <==> k in four {
      if k in four {
        assert k < 64;
      }
    }
  }

  /** Each row of the built matrix has exactly four ones, so sums to 4. */
  lemma RowSum(idx: nat)
    requires idx < 64
    ensures Sum(BuiltRow(idx)) == 4
  {
    RowOnes(idx);
    SumCountsOnes(BuiltRow(idx));
  }

  /** Block f of row idx (columns 16f to 16f + 15) holds exactly one 1, at its family-f constraint. */
  lemma BlockSum(idx: nat, f: nat)
    requires idx < 64 && f < 4
    ensures var (row, col, val) := Decode(idx);
      Ones(BuiltRow(idx)[16 * f .. 16 * f + 16]) == {Constraint(row, col, val, f) - 16 * f}
    ensures Sum(BuiltRow(idx)[16 * f .. 16 * f + 16]) == 1
  {
    var (row, col, val) := Decode(idx);
    var b := BuiltRow(idx)[16 * f .. 16 * f + 16];
    RowOnes(idx);
    forall k: nat ensures k in Ones(b) <==> k == Constraint(row, col, val, f) - 16 * f {
      if k < 16 {
        assert b[k] == BuiltRow(idx)[16 * f + k];
      }
    }
    SumCountsOnes(b);
  }

  /** The sum of all entries, row by row (mat.sum(axis=None)). */
  function MatrixSum(m: Matrix): nat
  {
    Sum(RowSums(m))
  }

  /** The row sums (mat.sum(axis=1)). */
  function RowSums(m: Matrix): (sums: seq<nat>)
    ensures |sums| == 64 && forall i :: 0 <= i < 64 ==> sums[i] == Sum(m[i])
  {
    seq(64, i requires 0 <= i < 64 => Sum(m[i]))
  }

  lemma {:induction false} SumConstant(s: seq<nat>, x: nat)
    requires forall k :: 0 <= k < |s| ==> s[k] == x
    ensures Sum(s) == |s| * x
    decreases |s|
  {
    if s != [] {
      SumConstant(s[..|s| - 1], x);
    }
  }

  /** The built matrix sums to 256, a multiple of 4, so the check that opens solve holds for it. */
  lemma BuiltMatrixSum()
    ensures MatrixSum(Constraints()) == 256
    ensures MatrixSum(Constraints()) % 4 == 0
  {
    var sums := RowSums(Constraints());
    forall i | 0 <= i < 64 ensures sums[i] == 4 {
      RowSum(i);
    }
    SumConstant(sums, 4);
    assert MatrixSum(Constraints()) == 4 * 64;
  }

  /** Column j of m, top to bottom. */
  function Column(m: Matrix, j: nat): (u: seq<nat>)
    requires j < 64
    ensures |u| == 64 && forall i :: 0 <= i < 64 ==> u[i] == m[i][j]
  {
    seq(64, i requires 0 <= i < 64 => m[i][j])
  }

  /** The column sums (mat.sum(axis=0)). */
  function ColSum(m: Matrix, j: nat): nat
    requires j < 64
  {
    Sum(Column(m, j))
  }

  /**
   * Column j read as a triple (f, a, b) with j = 16f + 4a + b, the way Decode
   * reads a row: f is the block, a and b the two coordinates the constraint
   * fixes. The t-th placement (t < 4) covering it: the four triples agreeing
   * with (a, b) on those coordinates.
   */
  function ColumnRow(j: nat, t: nat): (idx: nat)
    requires j < 64 && t < 4
    ensures idx < 64
  {
    EncodeDecode(j);
    var (f, a, b) := Decode(j);
    CoverRow(f, a, b, t)
  }

  function CoverRow(f: nat, a: nat, b: nat, t: nat): (idx: nat)
    requires f < 4 && a < 4 && b < 4 && t < 4
    ensures idx < 64
  {
    if f == 0 then Encode(a, b, t)
    else if f == 1 then Encode(a, t, b)
    else if f == 2 then Encode(t, a, b)
    else
      BoxJoin(a, t);
      Encode(2 * (a / 2) + t / 2, 2 * (a % 2) + t % 2, b)
  }

  lemma Div2(q: nat, t: nat)
    requires t < 2
    ensures (2 * q + t) / 2 == q && (2 * q + t) % 2 == t
  {
  }

  lemma Div4(q: nat, t: nat)
    requires t < 4
    ensures (4 * q + t) / 4 == q && (4 * q + t) % 4 == t
  {
  }

  /** The four constraint columns of a placement, read as triples (f, a, b). */
  lemma ConstraintEncode(row: nat, col: nat, val: nat)
    requires row < 4 && col < 4 && val < 4
    ensures Constraint(row, col, val, 0) == Encode(0, row, col)
    ensures Constraint(row, col, val, 1) == Encode(1, row, val)
    ensures Constraint(row, col, val, 2) == Encode(2, col, val)
    ensures Constraint(row, col, val, 3) == Encode(3, BoxOf(row, col), val)
  {
  }

  /** Box a and position t inside it give back a cell of that box at position t. */
  lemma BoxJoin(a: nat, t: nat)
    requires a < 4 && t < 4
    ensures var row, col := 2 * (a / 2) + t / 2, 2 * (a % 2) + t % 2;
      row < 4 && col < 4 && BoxOf(row, col) == a && 2 * (row % 2) + col % 2 == t
  {
    Div2(a / 2, t / 2);
    Div2(a % 2, t % 2);
  }

  /** A cell is given back by its box and its position inside the box. */
  lemma BoxSplit(row: nat, col: nat)
    requires row < 4 && col < 4
    ensures var box, t := BoxOf(row, col), 2 * (row % 2) + col % 2;
      2 * (box / 2) + t / 2 == row && 2 * (box % 2) + t % 2 == col
  {
    Div2(row / 2, col / 2);
    Div2(row % 2, col % 2);
  }

  /** Placement idx covers column j exactly when idx is one of the four rows ColumnRow lists for j. */
  lemma ColumnHas(j: nat, idx: nat)
    requires j < 64 && idx < 64
    ensures Covers(idx, j) <==> exists t :: 0 <= t < 4 && idx == ColumnRow(j, t)
  {
    var (row, col, val) := Decode(idx);
    EncodeDecode(idx);
    ConstraintEncode(row, col, val);
    if j == Encode(0, row, col) {
      DecodeEncode(0, row, col);
      assert idx == ColumnRow(j, val);
    } else if j == Encode(1, row, val) {
      DecodeEncode(1, row, val);
      assert idx == ColumnRow(j, col);
    } else if j == Encode(2, col, val) {
      DecodeEncode(2, col, val);
      assert idx == ColumnRow(j, row);
    } else if j == Encode(3, BoxOf(row, col), val) {
      DecodeEncode(3, BoxOf(row, col), val);
      BoxSplit(row, col);
      assert idx == ColumnRow(j, 2 * (row % 2) + col % 2);
    } else {
      forall t | 0 <= t < 4 ensures idx != ColumnRow(j, t) {
        ColumnRowCovers(j, t);
      }
    }
  }

  /** Each row ColumnRow lists for j covers j. */
  lemma ColumnRowCovers(j: nat, t: nat)
    requires j < 64 && t < 4
    ensures Covers(ColumnRow(j, t), j)
  {
    EncodeDecode(j);
    var (f, a, b) := Decode(j);
    var idx := ColumnRow(j, t);
    if f == 0 {
      DecodeEncode(a, b, t);
      ConstraintEncode(a, b, t);
    } else if f == 1 {
      DecodeEncode(a, t, b);
      ConstraintEncode(a, t, b);
    } else if f == 2 {
      DecodeEncode(t, a, b);
      ConstraintEncode(t, a, b);
    } else {
      var row, col := 2 * (a / 2) + t / 2, 2 * (a % 2) + t % 2;
      BoxJoin(a, t);
      DecodeEncode(row, col, b);
      ConstraintEncode(row, col, b);
    }
  }

  /** The four rows ColumnRow lists for j are different rows. */
  lemma ColumnRowsDistinct(j: nat, t1: nat, t2: nat)
    requires j < 64 && t1 < 4 && t2 < 4 && t1 != t2
    ensures ColumnRow(j, t1) != ColumnRow(j, t2)
  {
    EncodeDecode(j);
    var (f, a, b) := Decode(j);
    if f == 0 {
      DecodeEncode(a, b, t1);
      DecodeEncode(a, b, t2);
    } else if f == 1 {
      DecodeEncode(a, t1, b);
      DecodeEncode(a, t2, b);
    } else if f == 2 {
      DecodeEncode(t1, a, b);
      DecodeEncode(t2, a, b);
    } else {
      var r1, c1 := 2 * (a / 2) + t1 / 2, 2 * (a % 2) + t1 % 2;
      var r2, c2 := 2 * (a / 2) + t2 / 2, 2 * (a % 2) + t2 % 2;
      BoxJoin(a, t1);
      BoxJoin(a, t2);
      DecodeEncode(r1, c1, b);
      DecodeEncode(r2, c2, b);
    }
  }

  /** The ones of column j of the built matrix are the four rows ColumnRow lists. */
  lemma ColumnOnes(j: nat)
    requires j < 64
    ensures Ones(Column(Constraints(), j)) == {ColumnRow(j, 0), ColumnRow(j, 1), ColumnRow(j, 2), ColumnRow(j, 3)}
  {
    var four := {ColumnRow(j, 0), ColumnRow(j, 1), ColumnRow(j, 2), ColumnRow(j, 3)};
    forall i: nat ensures i in Ones(Column(Constraints(), j)) <==> i in four {
      if i < 64 {
        ColumnHas(j, i);
        if Covers(i, j) {
          var t :| 0 <= t < 4 && i == ColumnRow(j, t);
          assert t == 0 || t == 1 || t == 2 || t == 3;
        }
      }
    }
  }

  /** Every column of the built matrix has exactly SIZE = 4 ones: one constraint, four placements satisfying it. */
  lemma ColumnSum(j: nat)
    requires j < 64
    ensures ColSum(Constraints(), j) == 4
  {
    ColumnOnes(j);
    ColumnRowsDistinct(j, 0, 1);
    ColumnRowsDistinct(j, 0, 2);
    ColumnRowsDistinct(j, 0, 3);
    ColumnRowsDistinct(j, 1, 2);
    ColumnRowsDistinct(j, 1, 3);
    ColumnRowsDistinct(j, 2, 3);
    SumCountsOnes(Column(Constraints(), j));
  }

  // ---------------------------------------------------------------------------
  // row_to_rcv
  // ---------------------------------------------------------------------------

  /** argmax: the first position of the largest entry. */
  function ArgMax(s: seq<nat>): (i: nat)
    requires |s| > 0
    ensures i < |s| && forall j :: 0 <= j < |s| ==> s[j] <= s[i]
    ensures forall j :: 0 <= j < i ==> s[j] < s[i]
    decreases |s|
  {
    if |s| == 1 then 0
    else
      var t := ArgMax(s[..|s| - 1]);
      if s[|s| - 1] > s[t] then |s| - 1 else t
  }

  /** What row_to_rcv returns: a placement, or the AssertionError of one of its checks. */
  datatype Decoded = Decoded(row: nat, col: nat, val: nat) | DecodeAssertionError

  /**
   * row_to_rcv: the row must sum to 4 and each of its first two blocks to 1;
   * (row, col) is divmod of the position of the 1 in the cell block, val that
   * of the 1 in the row block modulo SIZE.
   */
  function RowToRcv(u: seq<nat>): (d: Decoded)
    requires |u| == 64
    ensures d.Decoded? <==> Sum(u) == 4 && Sum(u[..16]) == 1 && Sum(u[16..32]) == 1
    ensures d.Decoded? ==> d.row < 4 && d.col < 4 && d.val < 4
  {
    if Sum(u) != 4 then DecodeAssertionError
    else
      var tmp := u[..16];
      if Sum(tmp) != 1 then DecodeAssertionError
      else
        var (r, c) := (ArgMax(tmp) / 4, ArgMax(tmp) % 4);
        var tmp2 := u[16..32];
        if Sum(tmp2) != 1 then DecodeAssertionError
        else Decoded(r, c, ArgMax(tmp2) % 4)
  }

  /** In a vector whose only 1 sits at k and whose other entries are 0, argmax is k. */
  lemma ArgMaxOfOne(s: seq<nat>, k: nat)
    requires k < |s| && Ones(s) == {k} && forall i :: 0 <= i < |s| ==> s[i] <= 1
    ensures ArgMax(s) == k
  {
    assert s[k] == 1;
    assert s[ArgMax(s)] == 1;
    assert ArgMax(s) in Ones(s);
  }

  /** The 1 of block f of row idx is where argmax finds it. */
  lemma BlockArgMax(idx: nat, f: nat)
    requires idx < 64 && f < 4
    ensures var (row, col, val) := Decode(idx);
      ArgMax(BuiltRow(idx)[16 * f .. 16 * f + 16]) == Constraint(row, col, val, f) - 16 * f
  {
    var (row, col, val) := Decode(idx);
    BlockSum(idx, f);
    ArgMaxOfOne(BuiltRow(idx)[16 * f .. 16 * f + 16], Constraint(row, col, val, f) - 16 * f);
  }

  /** row_to_rcv inverts build_constraints: on matrix row Encode(row, col, val) it returns (row, col, val). */
  lemma RowToRcvRoundTrip(row: nat, col: nat, val: nat)
    requires row < 4 && col < 4 && val < 4
    ensures Encode(row, col, val) < 64
    ensures RowToRcv(BuiltRow(Encode(row, col, val))) == Decoded(row, col, val)
  {
    var idx := Encode(row, col, val);
    DecodeEncode(row, col, val);
    RowChecks(idx);
    Div4(row, col);
    Div4(row, val);
    RowToRcvOf(BuiltRow(idx), 4 * row + col, 4 * row + val);
  }

  /** Every row of the built matrix passes the checks of row_to_rcv, with its two first ones where its constraints put them. */
  lemma RowChecks(idx: nat)
    requires idx < 64
    ensures var (row, col, val) := Decode(idx); var u := BuiltRow(idx);
      Sum(u) == 4 && Sum(u[..16]) == 1 && Sum(u[16..32]) == 1 &&
      ArgMax(u[..16]) == 4 * row + col && ArgMax(u[16..32]) == 4 * row + val
  {
    var u := BuiltRow(idx);
    RowSum(idx);
    BlockSum(idx, 0);
    BlockSum(idx, 1);
    BlockArgMax(idx, 0);
    BlockArgMax(idx, 1);
    assert u[..16] == u[16 * 0 .. 16 * 0 + 16];
    assert u[16..32] == u[16 * 1 .. 16 * 1 + 16];
  }

  /** row_to_rcv on a row that passes its checks: divmod of the first argmax, and the second argmax modulo SIZE. */
  lemma RowToRcvOf(u: seq<nat>, a0: nat, a1: nat)
    requires |u| == 64 && Sum(u) == 4 && Sum(u[..16]) == 1 && Sum(u[16..32]) == 1
    requires ArgMax(u[..16]) == a0 && ArgMax(u[16..32]) == a1
    ensures RowToRcv(u) == Decoded(a0 / 4, a0 % 4, a1 % 4)
  {
  }

  // ---------------------------------------------------------------------------
  // The selection step of solve
  // ---------------------------------------------------------------------------

  datatype Option<T> = None | Some(value: T)

  /** Sum(s) is at least each of its entries. */
  lemma {:induction false} SumAtLeast(s: seq<nat>, k: nat)
    requires k < |s|
    ensures Sum(s) >= s[k]
    decreases |s|
  {
    if k < |s| - 1 {
      SumAtLeast(s[..|s| - 1], k);
    }
  }

  /** A positive sum has a positive entry. */
  lemma {:induction false} SumPositive(s: seq<nat>)
    requires Sum(s) > 0
    ensures exists k :: 0 <= k < |s| && s[k] > 0
    decreases |s|
  {
    if s[|s| - 1] == 0 {
      SumPositive(s[..|s| - 1]);
      var k :| 0 <= k < |s| - 1 && s[..|s| - 1][k] > 0;
      assert s[k] > 0;
    }
  }

  /** The column sums, in column order (row_sums in solve). */
  function ColSums(m: Matrix): (sums: seq<nat>)
    ensures |sums| == 64 && forall j :: 0 <= j < 64 ==> sums[j] == ColSum(m, j)
  {
    seq(64, j requires 0 <= j < 64 => ColSum(m, j))
  }

  /** The smallest positive entry of s (row_sums[row_sums > 0].min()), or 0 when there is none. */
  function MinPositive(s: seq<nat>): (r: nat)
    ensures r > 0 ==> r in s && forall k :: 0 <= k < |s| && s[k] > 0 ==> r <= s[k]
    ensures r == 0 ==> forall k :: 0 <= k < |s| ==> s[k] == 0
    decreases |s|
  {
    if s == [] then 0
    else
      var r := MinPositive(s[..|s| - 1]);
      var x := s[|s| - 1];
      if x > 0 && (r == 0 || x < r) then x else r
  }

  /** The positions holding x, in increasing order (np.argwhere(row_sums == x)). */
  function Positions(s: seq<nat>, x: nat): (p: seq<nat>)
    ensures forall k: nat :: k in p <==> k < |s| && s[k] == x
    ensures forall a, b :: 0 <= a < b < |p| ==> p[a] < p[b]
    decreases |s|
  {
    if s == [] then []
    else
      var p := Positions(s[..|s| - 1], x);
      assert forall a :: 0 <= a < |p| ==> p[a] < |s| - 1 by {
        forall a | 0 <= a < |p| ensures p[a] < |s| - 1 {
          assert p[a] in p;
        }
      }
      if s[|s| - 1] == x then p + [|s| - 1] else p
  }

  lemma {:induction false} PositionsNone(s: seq<nat>, x: nat)
    requires forall j :: 0 <= j < |s| ==> s[j] != x
    ensures Positions(s, x) == []
    decreases |s|
  {
    if s != [] {
      PositionsNone(s[..|s| - 1], x);
    }
  }

  /** A value held at position i alone has the positions [i]. */
  lemma {:induction false} PositionsUnique(s: seq<nat>, x: nat, i: nat)
    requires i < |s| && s[i] == x
    requires forall j :: 0 <= j < |s| && j != i ==> s[j] != x
    ensures Positions(s, x) == [i]
    decreases |s|
  {
    if i == |s| - 1 {
      PositionsNone(s[..|s| - 1], x);
    } else {
      PositionsUnique(s[..|s| - 1], x, i);
    }
  }

  /** The positions holding a non-zero value, in increasing order (the coordinates of a column's stored entries). */
  function NonzeroPositions(s: seq<nat>): (p: seq<nat>)
    ensures forall k: nat :: k in p <==> k < |s| && s[k] != 0
    decreases |s|
  {
    if s == [] then []
    else
      var p := NonzeroPositions(s[..|s| - 1]);
      if s[|s| - 1] != 0 then p + [|s| - 1] else p
  }

  /** rng.choice over a non-empty list of candidates, with the draw supplied by the caller. */
  function ColumnChoice(cols: seq<nat>, draw: nat): (c: Option<nat>)
    ensures c.Some? <==> cols != []
    ensures c.Some? ==> c.value in cols
  {
    if cols == [] then None else Some(cols[draw % |cols|])
  }

  /** The column solve chooses: one of the columns whose sum is the smallest positive column sum. */
  function SelectColumn(m: Matrix, draw: nat): Option<nat>
  {
    var sums := ColSums(m);
    var minVal := MinPositive(sums);
    if minVal == 0 then None else ColumnChoice(Positions(sums, minVal), draw)
  }

  /** What one call of solve does. */
  datatype Step =
    | Covered                                                  // the matrix is all zero: (True, mat, soln)
    | Chosen(row: nat, col: nat, r: nat, c: nat, v: nat)       // soln[(r, c)] = v, and solve returns None
    | AssertionError                                           // one of the assert statements fails
    | ChoiceError                                              // rng.choice or min over an empty selection

  /** The row part of the step: a row with a non-zero entry in col, decoded and recorded. */
  function SelectRow(m: Matrix, soln: map<(nat, nat), nat>, col: nat, draw: nat): Step
    requires col < 64
  {
    var rows := NonzeroPositions(Column(m, col));
    if rows == [] then ChoiceError
    else
      var row := rows[draw % |rows|];
      assert row in rows;
      if m[row][col] != 1 then AssertionError
      else match RowToRcv(m[row])
        case DecodeAssertionError => AssertionError
        case Decoded(r, c, v) => if (r, c) in soln then AssertionError else Chosen(row, col, r, c, v)
  }

  /** solve around its column choice: the sum checks, then the given column choice, then the row choice. */
  function StepWithColumn(m: Matrix, soln: map<(nat, nat), nat>, choice: Option<nat>, rowDraw: nat): Step
  {
    var total := MatrixSum(m);
    if total % 4 != 0 then AssertionError
    else if total == 0 then Covered
    else match choice
      case None => ChoiceError
      case Some(col) => if col < 64 then SelectRow(m, soln, col, rowDraw) else ChoiceError
  }

  /** solve with the corrected column choice of line 58 (see the column choice as written below). */
  function SolveStep(m: Matrix, soln: map<(nat, nat), nat>, colDraw: nat, rowDraw: nat): Step
  {
    StepWithColumn(m, soln, SelectColumn(m, colDraw), rowDraw)
  }

  /** A matrix with a positive sum has a column with a positive sum. */
  lemma PositiveColumn(m: Matrix)
    requires MatrixSum(m) > 0
    ensures exists j :: 0 <= j < 64 && ColSum(m, j) > 0
  {
    var sums := RowSums(m);
    SumPositive(sums);
    var i :| 0 <= i < 64 && sums[i] > 0;
    SumPositive(m[i]);
    var j :| 0 <= j < 64 && m[i][j] > 0;
    SumAtLeast(Column(m, j), i);
    assert ColSum(m, j) > 0;
  }

  /**
   * The chosen column has the smallest positive column sum; a column is
   * chosen whenever the matrix sum is positive.
   */
  lemma SelectColumnMeaning(m: Matrix, draw: nat)
    ensures MatrixSum(m) > 0 ==> SelectColumn(m, draw).Some?
    ensures SelectColumn(m, draw).Some? ==>
      var col := SelectColumn(m, draw).value;
      col < 64 && ColSum(m, col) > 0 &&
      forall j :: 0 <= j < 64 && ColSum(m, j) > 0 ==> ColSum(m, col) <= ColSum(m, j)
  {
    var sums := ColSums(m);
    var minVal := MinPositive(sums);
    if MatrixSum(m) > 0 {
      PositiveColumn(m);
      var j :| 0 <= j < 64 && ColSum(m, j) > 0;
      assert sums[j] > 0;
      var k :| 0 <= k < 64 && sums[k] == minVal;
      assert k in Positions(sums, minVal);
    }
  }

  /** The row part never fails to choose when the column has a positive sum, and every choice it records meets the asserts of solve. */
  lemma SelectRowMeaning(m: Matrix, soln: map<(nat, nat), nat>, col: nat, draw: nat)
    requires col < 64
    ensures ColSum(m, col) > 0 ==> !SelectRow(m, soln, col, draw).ChoiceError?
    ensures var s := SelectRow(m, soln, col, draw);
      s.Chosen? ==>
        s.col == col && s.row < 64 && m[s.row][col] == 1 &&
        RowToRcv(m[s.row]) == Decoded(s.r, s.c, s.v) && (s.r, s.c) !in soln
  {
    if ColSum(m, col) > 0 {
      SumPositive(Column(m, col));
      var i :| 0 <= i < 64 && Column(m, col)[i] > 0;
      assert i in NonzeroPositions(Column(m, col));
    }
    var rows := NonzeroPositions(Column(m, col));
    if rows != [] {
      assert rows[draw % |rows|] in rows;
    }
  }

  /**
   * One call of solve: it reports Covered exactly on an all-zero matrix, an
   * AssertionError when the matrix sum is not a multiple of 4, never fails a
   * choice, and a chosen (row, col) has the smallest positive column sum, a 1
   * at (row, col), and decodes to a cell not yet in soln.
   */
  lemma SolveStepMeaning(m: Matrix, soln: map<(nat, nat), nat>, colDraw: nat, rowDraw: nat)
    ensures SolveStep(m, soln, colDraw, rowDraw).Covered? <==> MatrixSum(m) == 0
    ensures MatrixSum(m) % 4 != 0 ==> SolveStep(m, soln, colDraw, rowDraw).AssertionError?
    ensures !SolveStep(m, soln, colDraw, rowDraw).ChoiceError?
    ensures var s := SolveStep(m, soln, colDraw, rowDraw);
      s.Chosen? ==>
        s.row < 64 && s.col < 64 && m[s.row][s.col] == 1 &&
        ColSum(m, s.col) > 0 &&
        (forall j :: 0 <= j < 64 && ColSum(m, j) > 0 ==> ColSum(m, s.col) <= ColSum(m, j)) &&
        RowToRcv(m[s.row]) == Decoded(s.r, s.c, s.v) && (s.r, s.c) !in soln
  {
    SelectColumnMeaning(m, colDraw);
    if MatrixSum(m) > 0 && MatrixSum(m) % 4 == 0 {
      var col := SelectColumn(m, colDraw).value;
      SelectRowMeaning(m, soln, col, rowDraw);
    }
  }

  /**
   * solve on the matrix build_constraints returns: the step either records a
   * placement or fails the assert that its cell is new; a recorded row is the
   * row of the recorded placement and covers the chosen column; and when soln
   * holds no cell of the grid (as on the first call) a placement is recorded.
   */
  lemma BuiltStep(soln: map<(nat, nat), nat>, colDraw: nat, rowDraw: nat)
    ensures var s := SolveStep(Constraints(), soln, colDraw, rowDraw);
      (s.Chosen? || s.AssertionError?) &&
      (s.Chosen? ==> s.r < 4 && s.c < 4 && s.v < 4 && s.row == Encode(s.r, s.c, s.v) && Covers(s.row, s.col)) &&
      ((forall r, c :: 0 <= r < 4 && 0 <= c < 4 ==> (r, c) !in soln) ==> s.Chosen?)
  {
    var m := Constraints();
    BuiltMatrixSum();
    SelectColumnMeaning(m, colDraw);
    var col := SelectColumn(m, colDraw).value;
    assert SolveStep(m, soln, colDraw, rowDraw) == SelectRow(m, soln, col, rowDraw);
    BuiltRowChoice(soln, col, rowDraw);
  }

  /** The row part of solve on the built matrix, for any column. */
  lemma BuiltRowChoice(soln: map<(nat, nat), nat>, col: nat, rowDraw: nat)
    requires col < 64
    ensures var s := SelectRow(Constraints(), soln, col, rowDraw);
      (s.Chosen? || s.AssertionError?) &&
      (s.Chosen? ==> s.r < 4 && s.c < 4 && s.v < 4 && s.row == Encode(s.r, s.c, s.v) && Covers(s.row, s.col)) &&
      ((forall r, c :: 0 <= r < 4 && 0 <= c < 4 ==> (r, c) !in soln) ==> s.Chosen?)
  {
    var m := Constraints();
    ColumnSum(col);
    SelectRowMeaning(m, soln, col, rowDraw);
    var rows := NonzeroPositions(Column(m, col));
    SumPositive(Column(m, col));
    var i :| 0 <= i < 64 && Column(m, col)[i] > 0;
    assert i in rows;
    var row := rows[rowDraw % |rows|];
    assert row in rows;
    assert m[row][col] == 1;
    EncodeDecode(row);
    var (r0, c0, v0) := Decode(row);
    RowToRcvRoundTrip(r0, c0, v0);
    assert RowToRcv(m[row]) == Decoded(r0, c0, v0);
  }


  // ---------------------------------------------------------------------------
  // The column choice as written
  // ---------------------------------------------------------------------------

  /**
   * The column choice of solve as written: the candidates come from
   * np.argwhere(...).squeeze(), which for a single candidate column is a
   * zero-dimensional array, and rng.choice treats a zero-dimensional array
   * as the integer n and draws from range(n) (raising ValueError for 0).
   */
  function ColumnChoiceAsWritten(cols: seq<nat>, draw: nat): Option<nat>
  {
    if cols == [] then None
    else if |cols| == 1 then (if cols[0] == 0 then None else Some(draw % cols[0]))
    else Some(cols[draw % |cols|])
  }

  function SelectColumnAsWritten(m: Matrix, draw: nat): Option<nat>
  {
    var sums := ColSums(m);
    var minVal := MinPositive(sums);
    if minVal == 0 then None else ColumnChoiceAsWritten(Positions(sums, minVal), draw)
  }

  /** With a single candidate column the choice as written never picks that column. */
  lemma AsWrittenMissesSingleColumn(cols: seq<nat>, draw: nat)
    requires |cols| == 1
    ensures ColumnChoiceAsWritten(cols, draw) != Some(cols[0])
    ensures ColumnChoiceAsWritten(cols, draw).Some? ==> ColumnChoiceAsWritten(cols, draw).value !in cols
    ensures ColumnChoice(cols, draw) == Some(cols[0])
  {
  }

  /** solve as written, with the squeezed column choice. */
  function SolveStepAsWritten(m: Matrix, soln: map<(nat, nat), nat>, colDraw: nat, rowDraw: nat): Step
  {
    StepWithColumn(m, soln, SelectColumnAsWritten(m, colDraw), rowDraw)
  }

  /**
   * When two columns i < j share the smallest positive column sum, the
   * squeezed candidates are still a list, and solve as written takes the
   * same step as the corrected solve.
   */
  lemma AsWrittenOnTies(m: Matrix, soln: map<(nat, nat), nat>, colDraw: nat, rowDraw: nat, i: nat, j: nat)
    requires i < j < 64 && ColSum(m, i) > 0 && ColSum(m, j) == ColSum(m, i)
    requires forall k :: 0 <= k < 64 && ColSum(m, k) > 0 ==> ColSum(m, i) <= ColSum(m, k)
    ensures SolveStepAsWritten(m, soln, colDraw, rowDraw) == SolveStep(m, soln, colDraw, rowDraw)
  {
    var sums := ColSums(m);
    var r := MinPositive(sums);
    assert sums[i] > 0;
    var k :| 0 <= k < 64 && sums[k] == r;
    assert r == ColSum(m, i);
    var p := Positions(sums, r);
    assert i in p && j in p;
    var a :| 0 <= a < |p| && p[a] == i;
    var b :| 0 <= b < |p| && p[b] == j;
    assert a != b;
    assert SelectColumnAsWritten(m, colDraw) == SelectColumn(m, colDraw);
  }

  /**
   * When column n alone has the smallest positive column sum, the corrected
   * solve takes column n, while solve as written fails its choice for n = 0
   * and otherwise goes on with column colDraw % n, which is not n.
   */
  lemma AsWrittenOnSingle(m: Matrix, soln: map<(nat, nat), nat>, colDraw: nat, rowDraw: nat, n: nat)
    requires n < 64 && ColSum(m, n) > 0 && MatrixSum(m) > 0 && MatrixSum(m) % 4 == 0
    requires forall k :: 0 <= k < 64 && k != n && ColSum(m, k) > 0 ==> ColSum(m, n) < ColSum(m, k)
    ensures SolveStep(m, soln, colDraw, rowDraw) == SelectRow(m, soln, n, rowDraw)
    ensures n == 0 ==> SolveStepAsWritten(m, soln, colDraw, rowDraw) == ChoiceError
    ensures n > 0 ==>
      colDraw % n != n &&
      SolveStepAsWritten(m, soln, colDraw, rowDraw) == SelectRow(m, soln, colDraw % n, rowDraw)
  {
    SingleMinimumChoices(m, colDraw, n);
  }

  /** The two column choices when column n alone has the smallest positive sum. */
  lemma SingleMinimumChoices(m: Matrix, draw: nat, n: nat)
    requires n < 64 && ColSum(m, n) > 0
    requires forall k :: 0 <= k < 64 && k != n && ColSum(m, k) > 0 ==> ColSum(m, n) < ColSum(m, k)
    ensures SelectColumn(m, draw) == Some(n)
    ensures SelectColumnAsWritten(m, draw) == if n == 0 then None else Some(draw % n)
  {
    var sums := ColSums(m);
    var r := MinPositive(sums);
    assert sums[n] > 0;
    var k :| 0 <= k < 64 && sums[k] == r;
    assert r == ColSum(m, n);
    PositionsUnique(sums, r, n);
  }

  /**
   * On the matrix build_constraints returns, every column sums to 4, so solve
   * as written takes the same step as the corrected solve: the script's own
   * call never meets the single-column case.
   */
  lemma BuiltAsWritten(soln: map<(nat, nat), nat>, colDraw: nat, rowDraw: nat)
    ensures SolveStepAsWritten(Constraints(), soln, colDraw, rowDraw) == SolveStep(Constraints(), soln, colDraw, rowDraw)
  {
    var m := Constraints();
    forall k | 0 <= k < 64 ensures ColSum(m, k) == 4 {
      ColumnSum(k);
    }
    AsWrittenOnTies(m, soln, colDraw, rowDraw, 0, 1);
  }

  /** A matrix whose only non-zero column is column 5, holding four ones (rows 0 to 3). */
  function SingleColumnMatrix(): (m: Matrix)
    ensures forall i, j :: 0 <= i < 64 && 0 <= j < 64 ==> m[i][j] == if j == 5 && i < 4 then 1 else 0
  {
    seq(64, i requires 0 <= i < 64 => seq(64, j requires 0 <= j < 64 => if j == 5 && i < 4 then 1 else 0))
  }

  /**
   * On SingleColumnMatrix the smallest positive column sum, 4, is met by
   * column 5 alone: the corrected choice takes column 5, the choice as
   * written takes a column in 0..4, whose sum is 0.
   */
  lemma SingleColumnCounterexample(draw: nat)
    ensures SelectColumn(SingleColumnMatrix(), draw) == Some(5)
    ensures SelectColumnAsWritten(SingleColumnMatrix(), draw) == Some(draw % 5)
    ensures ColSum(SingleColumnMatrix(), draw % 5) == 0
  {
    var sums := ColSums(SingleColumnMatrix());
    forall j | 0 <= j < 64
      ensures sums[j] == if j == 5 then 4 else 0
    {
      SingleColumnSum(j);
    }
    var r := MinPositive(sums);
    assert sums[5] == 4;
    assert r in sums && r <= 4;
    assert r == 4;
    PositionsUnique(sums, 4, 5);
  }

  lemma SingleColumnSum(j: nat)
    requires j < 64
    ensures ColSum(SingleColumnMatrix(), j) == if j == 5 then 4 else 0
  {
    var u := Column(SingleColumnMatrix(), j);
    if j == 5 {
      assert Ones(u) == {0, 1, 2, 3} by {
        forall k: nat ensures k in Ones(u) <==> k < 4 {
          if k < 64 {
            assert u[k] == SingleColumnMatrix()[k][j];
          }
        }
      }
      SumCountsOnes(u);
    } else {
      assert forall k :: 0 <= k < 64 ==> u[k] == 0;
      SumConstant(u, 0);
    }
  }


  // ---------------------------------------------------------------------------
  // The solution dictionary and solve
  // ---------------------------------------------------------------------------

  /** The soln dictionary solve fills, from (row, col) to the value placed there. */
  class Solution {
    var entries: map<(nat, nat), nat>

    /** An empty dictionary, as the caller of solve starts with. */
    constructor ()
      ensures entries == map[]
    {
      entries := map[];
    }
  }

  /**
   * solve(mat, soln, rng): the step on the current matrix, with mat left as
   * it is and soln gaining the placement exactly when one is recorded.
   * The step itself is the pure function SolveStep (solve has no loop and
   * does not recurse); only the dictionary write changes state.
   */
  method Solve(mat: array2<nat>, soln: Solution, colDraw: nat, rowDraw: nat) returns (step: Step)
    requires mat.Length0 == 64 && mat.Length1 == 64
    modifies soln
    ensures step == SolveStep(Contents(mat), old(soln.entries), colDraw, rowDraw)
    ensures step.Chosen? ==> soln.entries == old(soln.entries)[(step.r, step.c) := step.v]
    ensures !step.Chosen? ==> soln.entries == old(soln.entries)
  {
    step := SolveStep(Contents(mat), soln.entries, colDraw, rowDraw);
    if step.Chosen? {
      soln.entries := soln.entries[(step.r, step.c) := step.v];
    }
  }
}
