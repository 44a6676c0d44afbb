/**
 * The integer building blocks of the simulated-annealing solver: the fixed
 * cells, the Markov chain length, the random box fill, the cost function and
 * the neighbour move. Randomness is supplied by the caller as draws.
 */
module Annealing {
  import opened Grid

  // ---------------------------------------------------------------------------
  // Box geometry
  // ---------------------------------------------------------------------------

  /** Cell number p, counted row-major inside the box, of the box of (r, c). */
  function BoxCell(r: nat, c: nat, p: nat): (k: nat)
    requires r < 9 && c < 9 && p < 9
    ensures k < 81
  {
    Idx(3 * (r / 3) + p / 3, 3 * (c / 3) + p % 3)
  }

  /** The position inside its box of a cell k of the box of (r, c). */
  function BoxPos(k: nat, r: nat, c: nat): (p: nat)
    requires k < 81 && r < 9 && c < 9 && SameBox(k, Idx(r, c))
    ensures p < 9 && BoxCell(r, c, p) == k
  {
    SameBoxCorner(k, r, c);
    DivThree(k / 9 - 3 * (r / 3), k % 9 - 3 * (c / 3));
    3 * (k / 9 - 3 * (r / 3)) + (k % 9 - 3 * (c / 3))
  }

  lemma BoxCellPos(r: nat, c: nat, p: nat)
    requires r < 9 && c < 9 && p < 9
    ensures SameBox(BoxCell(r, c, p), Idx(r, c)) && BoxPos(BoxCell(r, c, p), r, c) == p
  {
    SameBoxCorner(BoxCell(r, c, p), r, c);
    DivThree(p / 3, p % 3);
  }

  /** Element p of Box(g, r, c) is the value of BoxCell(r, c, p). */
  lemma BoxValue(g: Grid, r: nat, c: nat, p: nat)
    requires r < 9 && c < 9 && p < 9
    ensures Box(g, r, c)[p] == g[BoxCell(r, c, p)]
  {
    BoxAt(g, r, c, p);
  }

  /** Cell k lies in the box of (r, c) exactly when the box rows and box columns agree. */
  lemma SameBoxOf(k: nat, r: nat, c: nat)
    requires k < 81 && r < 9 && c < 9
    ensures SameBox(k, Idx(r, c)) <==> k / 9 / 3 == r / 3 && k % 9 / 3 == c / 3
  {
    SameBoxCorner(k, r, c);
    DivThree(k / 9 / 3, k / 9 % 3);
    DivThree(k % 9 / 3, k % 9 % 3);
    if 3 * (r / 3) <= k / 9 < 3 * (r / 3) + 3 {
      DivThree(r / 3, k / 9 - 3 * (r / 3));
    }
    if 3 * (c / 3) <= k % 9 < 3 * (c / 3) + 3 {
      DivThree(c / 3, k % 9 - 3 * (c / 3));
    }
  }

  // ---------------------------------------------------------------------------
  // get_fixed and get_ml
  // ---------------------------------------------------------------------------

  /** get_fixed: the coordinates of the non-zero cells. */
  function FixedCells(g: Grid): (f: set<(nat, nat)>)
  {
    set r: nat, c: nat | r < 9 && c < 9 && g[Idx(r, c)] != 0 :: (r, c)
  }

  /** The coordinates of the non-zero cells before cell n. */
  function FixedBefore(g: Grid, n: nat): set<(nat, nat)>
  {
    set r: nat, c: nat | r < 9 && c < 9 && Idx(r, c) < n && g[Idx(r, c)] != 0 :: (r, c)
  }

  lemma {:induction false} ZerosSnoc(s: seq<int>, x: int)
    ensures Zeros(s + [x]) == Zeros(s) + (if x == 0 then 1 else 0)
  {
    if s != [] {
      assert (s + [x])[1..] == s[1..] + [x];
      ZerosSnoc(s[1..], x);
    }
  }

  lemma {:induction false} FixedBeforeCount(g: Grid, n: nat)
    requires n <= 81
    ensures |FixedBefore(g, n)| == n - Zeros(g[..n])
  {
    if n == 0 {
      assert FixedBefore(g, 0) == {};
    } else {
      var m := n - 1;
      FixedBeforeCount(g, m);
      FixedBeforeSnoc(g, m);
      ZerosPrefix(g, m);
    }
  }

  /** Cell m joins the fixed cells before m + 1 exactly when it is non-zero; it is not among those before m. */
  lemma FixedBeforeSnoc(g: Grid, m: nat)
    requires m < 81
    ensures (m / 9, m % 9) !in FixedBefore(g, m)
    ensures FixedBefore(g, m + 1) == FixedBefore(g, m) + (if g[m] != 0 then {(m / 9, m % 9)} else {})
  {
    var p := (m / 9, m % 9);
    assert Idx(m / 9, m % 9) == m;
    forall rc | rc in FixedBefore(g, m + 1) ensures rc in FixedBefore(g, m) || (g[m] != 0 && rc == p) {
      var (r, c) := rc;
      if Idx(r, c) == m {
        assert r == m / 9 && c == m % 9;
      }
    }
  }

  lemma ZerosPrefix(g: Grid, m: nat)
    requires m < 81
    ensures Zeros(g[..m + 1]) == Zeros(g[..m]) + (if g[m] == 0 then 1 else 0)
  {
    assert g[..m + 1] == g[..m] + [g[m]];
    ZerosSnoc(g[..m], g[m]);
  }

  /** There are as many fixed cells as non-zero cells. */
  lemma FixedCellsCount(g: Grid)
    ensures |FixedCells(g)| == 81 - Zeros(g)
  {
    FixedBeforeCount(g, 81);
    assert FixedBefore(g, 81) == FixedCells(g);
    assert g[..81] == g;
  }

  /** get_ml: the square of the number of cells that are not fixed. */
  function MarkovLength(g: Grid): (ml: nat)
  {
    var nonZero := 81 - Zeros(g);
    (81 - nonZero) * (81 - nonZero)
  }

  /** get_ml agrees with the chain length the main loop computes from get_fixed, and is at most 81². */
  lemma MarkovLengthOfFixed(g: Grid)
    ensures MarkovLength(g) == (81 - |FixedCells(g)|) * (81 - |FixedCells(g)|)
    ensures MarkovLength(g) <= 6561
  {
    var n := Zeros(g);
    var nonZero := 81 - n;
    assert 81 - nonZero == n;
    assert MarkovLength(g) == n * n;
    SquareAtMost(n, 81);
    FixedCellsCount(g);
  }

  lemma SquareAtMost(n: nat, m: nat)
    requires n <= m
    ensures n * n <= m * m
  {
    assert n * n <= n * m <= m * m;
  }

  // ---------------------------------------------------------------------------
  // random_fill
  // ---------------------------------------------------------------------------

  lemma SwapMultiset(s: seq<int>, i: nat, j: nat)
    requires i < |s| && j < |s|
    ensures multiset(s[i := s[j]][j := s[i]]) == multiset(s)
  {
    if i != j {
      var t := s[i := s[j]];
      assert multiset(t) == multiset(s) - multiset{s[i]} + multiset{s[j]};
      assert multiset(t[j := s[i]]) == multiset(t) - multiset{t[j]} + multiset{s[i]};
    }
  }

  /**
   * np.random.shuffle as a Fisher–Yates shuffle: from the last position down,
   * position i is exchanged with position ds[0] % (i + 1), one draw per step.
   * A step with no draw left leaves its element in place.
   */
  function Shuffle(s: seq<int>, ds: seq<nat>): (t: seq<int>)
    ensures multiset(t) == multiset(s)
    decreases |s|
  {
    if |s| <= 1 then s
    else
      var i := |s| - 1;
      var j := if ds == [] then i else ds[0] % (i + 1);
      var u := s[i := s[j]][j := s[i]];
      SwapMultiset(s, i, j);
      assert u == u[..i] + [u[i]];
      Shuffle(u[..i], if ds == [] then [] else ds[1..]) + [u[i]]
  }

  /** The zero entries of box receive vals, in order. */
  function FillZeros(box: seq<int>, vals: seq<int>): (f: seq<int>)
    requires |vals| == Zeros(box)
    ensures |f| == |box|
    ensures forall i :: 0 <= i < |box| && box[i] != 0 ==> f[i] == box[i]
    ensures ValueSet(f) == (ValueSet(box) - {0}) + ValueSet(vals)
    decreases |box|
  {
    if box == [] then []
    else
      assert ValueSet(box) == {box[0]} + ValueSet(box[1..]);
      if box[0] == 0 then
        assert ValueSet(vals) == {vals[0]} + ValueSet(vals[1..]);
        [vals[0]] + FillZeros(box[1..], vals[1..])
      else
        [box[0]] + FillZeros(box[1..], vals)
  }

  /** The result of box[box == 0] = vals. */
  datatype Assigned = Assigned(box: seq<int>) | CannotAssign(values: nat, targets: nat)

  /**
   * numpy's masked assignment: as many values as zeros fill them in order, a
   * single value is broadcast to every zero, any other count is a ValueError.
   */
  function MaskAssign(box: seq<int>, vals: seq<int>): (a: Assigned)
    ensures a.Assigned? <==> |vals| == Zeros(box) || |vals| == 1
    ensures a.Assigned? ==> |a.box| == |box| && forall i :: 0 <= i < |box| && box[i] != 0 ==> a.box[i] == box[i]
    ensures a.CannotAssign? ==> a.values == |vals| && a.targets == Zeros(box)
  {
    if |vals| == Zeros(box) then Assigned(FillZeros(box, vals))
    else if |vals| == 1 then Assigned(FillZeros(box, seq(Zeros(box), _ => vals[0])))
    else CannotAssign(|vals|, Zeros(box))
  }

  /** The box values written back over the box of (r, c), positions 0..n-1. */
  function WriteBox(g: Grid, r: nat, c: nat, nb: seq<int>, n: nat): Grid
    requires r < 9 && c < 9 && |nb| == 9 && n <= 9
  {
    if n == 0 then g else WriteBox(g, r, c, nb, n - 1)[BoxCell(r, c, n - 1) := nb[n - 1]]
  }

  lemma {:induction false} WriteBoxCells(g: Grid, r: nat, c: nat, nb: seq<int>, n: nat)
    requires r < 9 && c < 9 && |nb| == 9 && n <= 9
    ensures forall k :: 0 <= k < 81 ==>
      WriteBox(g, r, c, nb, n)[k] == if SameBox(k, Idx(r, c)) && BoxPos(k, r, c) < n then nb[BoxPos(k, r, c)] else g[k]
  {
    if n > 0 {
      WriteBoxCells(g, r, c, nb, n - 1);
      BoxCellPos(r, c, n - 1);
    }
  }

  /** After the write, the box of (r, c) holds nb and every other box is unchanged. */
  lemma BoxAfterWrite(g: Grid, r: nat, c: nat, nb: seq<int>, r': nat, c': nat)
    requires r < 9 && c < 9 && |nb| == 9 && r' < 9 && c' < 9
    ensures Box(WriteBox(g, r, c, nb, 9), r', c') == if r / 3 == r' / 3 && c / 3 == c' / 3 then nb else Box(g, r', c')
  {
    var w := WriteBox(g, r, c, nb, 9);
    WriteBoxCells(g, r, c, nb, 9);
    forall p | 0 <= p < 9
      ensures Box(w, r', c')[p] == if r / 3 == r' / 3 && c / 3 == c' / 3 then nb[p] else Box(g, r', c')[p]
    {
      var k := BoxCell(r', c', p);
      BoxValue(w, r', c', p);
      BoxValue(g, r', c', p);
      BoxCellPos(r', c', p);
      SameBoxOf(k, r, c);
      SameBoxOf(k, r', c');
    }
  }

  /** The order product((0, 3, 6), repeat=2) visits the boxes in: top-left corner of box b. */
  function Corner(b: nat): (rc: (nat, nat))
    requires b < 9
    ensures rc.0 < 9 && rc.1 < 9 && rc.0 / 3 == b / 3 && rc.1 / 3 == b % 3
  {
    (3 * (b / 3), 3 * (b % 3))
  }

  /** The draws the shuffle of box b consumes. */
  function DrawsFor(draws: seq<seq<nat>>, b: nat): seq<nat>
  {
    if b < |draws| then draws[b] else []
  }

  /** The missing values of a box, listed from the set numerals - set(box) in the given iteration order and shuffled. */
  function MissingShuffled(order: Order, box: seq<int>, ds: seq<nat>): seq<int>
  {
    Shuffle(order(Numerals - ValueSet(box)), ds)
  }

  /** How random_fill ends: every box filled, or numpy's ValueError at the box with corner (row, col). */
  datatype Fill = Filled(grid: Grid) | FillError(row: nat, col: nat, values: nat, targets: nat, grid: Grid)

  /** random_fill from box b on. */
  function RandomFillFrom(g: Grid, order: Order, draws: seq<seq<nat>>, b: nat): Fill
    requires b <= 9
    decreases 9 - b
  {
    if b == 9 then Filled(g)
    else
      var (r, c) := Corner(b);
      var box := Box(g, r, c);
      match MaskAssign(box, MissingShuffled(order, box, DrawsFor(draws, b)))
      case CannotAssign(n, m) => FillError(r, c, n, m, g)
      case Assigned(nb) => RandomFillFrom(WriteBox(g, r, c, nb, 9), order, draws, b + 1)
  }

  /** random_fill writes only zero cells: every non-zero cell keeps its value, whatever the draws and however it ends. */
  lemma {:induction false} RandomFillKeepsClues(g: Grid, order: Order, draws: seq<seq<nat>>, b: nat)
    requires b <= 9
    ensures forall k :: 0 <= k < 81 && g[k] != 0 ==> RandomFillFrom(g, order, draws, b).grid[k] == g[k]
    decreases 9 - b
  {
    if b < 9 {
      var (r, c) := Corner(b);
      var box := Box(g, r, c);
      var a := MaskAssign(box, MissingShuffled(order, box, DrawsFor(draws, b)));
      if a.Assigned? {
        var w := WriteBox(g, r, c, a.box, 9);
        WriteBoxCells(g, r, c, a.box, 9);
        forall k | 0 <= k < 81 && g[k] != 0 ensures w[k] == g[k] {
          if SameBox(k, Idx(r, c)) {
            var p := BoxPos(k, r, c);
            assert box[p] == g[k];
          }
        }
        RandomFillKeepsClues(w, order, draws, b + 1);
      }
    }
  }

  /** The non-zero values of u are distinct values of 1..9. */
  predicate Clean(u: seq<int>)
  {
    (forall i :: 0 <= i < |u| ==> InRangeValue(u[i])) &&
    (forall i, j :: 0 <= i < j < |u| && u[i] != 0 ==> u[i] != u[j])
  }

  /** u holds each of 1..9 exactly once. */
  predicate IsPermutation(u: seq<int>)
  {
    |u| == 9 && ValueSet(u) == Numerals
  }

  lemma CleanTail(u: seq<int>)
    requires u != [] && Clean(u)
    ensures Clean(u[1..])
    ensures u[0] != 0 ==> u[0] in Numerals && u[0] !in u[1..]
  {
    var t := u[1..];
    forall i, j | 0 <= i < j < |t| && t[i] != 0 ensures t[i] != t[j] {
      assert u[i + 1] != u[j + 1];
    }
    forall i | 0 <= i < |t| ensures InRangeValue(t[i]) {
      assert t[i] == u[i + 1];
    }
    if u[0] != 0 {
      InNumerals(u[0]);
      forall j | 0 <= j < |t| ensures t[j] != u[0] {
        assert u[j + 1] == t[j];
      }
    }
  }

  lemma {:induction false} CleanNonZeros(u: seq<int>)
    requires Clean(u)
    ensures ValueSet(u) - {0} <= Numerals
    ensures |ValueSet(u) - {0}| == |u| - Zeros(u)
  {
    if u != [] {
      CleanTail(u);
      CleanNonZeros(u[1..]);
      NonZerosCons(u);
    }
  }

  /** The non-zero values of u are those of its tail plus its head, which is new when it is not zero. */
  lemma NonZerosCons(u: seq<int>)
    requires u != [] && (u[0] != 0 ==> u[0] in Numerals && u[0] !in u[1..])
    requires ValueSet(u[1..]) - {0} <= Numerals
    requires |ValueSet(u[1..]) - {0}| == |u| - 1 - Zeros(u[1..])
    ensures ValueSet(u) - {0} <= Numerals
    ensures |ValueSet(u) - {0}| == |u| - Zeros(u)
  {
    var t := u[1..];
    ValueSetCons(u);
    NonZerosAdd(u[0], ValueSet(t), ValueSet(u));
  }

  lemma ValueSetCons(u: seq<int>)
    requires u != []
    ensures ValueSet(u) == {u[0]} + ValueSet(u[1..])
  {
    forall x ensures x in u <==> x == u[0] || x in u[1..] {
      if x in u {
        var i :| 0 <= i < |u| && u[i] == x;
        if i > 0 {
          assert u[1..][i - 1] == x;
        }
      }
    }
  }

  lemma NonZerosAdd(x: int, a: set<int>, b: set<int>)
    requires b == {x} + a && (x != 0 ==> x !in a)
    ensures b - {0} == if x == 0 then a - {0} else (a - {0}) + {x}
    ensures |b - {0}| == |a - {0}| + (if x == 0 then 0 else 1)
  {
    if x != 0 {
      assert b - {0} == (a - {0}) + {x};
      assert x !in a - {0};
    } else {
      assert b - {0} == a - {0};
    }
  }

  /** A clean box lacks exactly as many values as it has zeros. */
  lemma CleanMissingCount(box: seq<int>)
    requires Clean(box) && |box| == 9
    ensures |Numerals - ValueSet(box)| == Zeros(box)
    ensures (ValueSet(box) - {0}) + (Numerals - ValueSet(box)) == Numerals
  {
    CleanNonZeros(box);
    var present := ValueSet(box) - {0};
    var missing := Numerals - ValueSet(box);
    assert missing == Numerals - present;
    assert Numerals == present + missing && present * missing == {};
    assert |Numerals| == |present| + |missing|;
    CardNumerals();
  }

  /** Shuffling keeps the length and the values. */
  lemma ShuffleKeeps(s: seq<int>, ds: seq<nat>)
    ensures |Shuffle(s, ds)| == |s| && ValueSet(Shuffle(s, ds)) == ValueSet(s)
  {
    var t := Shuffle(s, ds);
    assert |multiset(t)| == |t| && |multiset(s)| == |s|;
    forall x ensures x in t <==> x in s {
      assert x in t <==> x in multiset(t);
      assert x in s <==> x in multiset(s);
    }
  }

  /** A clean box is completed, for any draws, into a permutation of 1..9 with its clues in place. */
  lemma CleanBoxFills(order: Order, box: seq<int>, ds: seq<nat>)
    requires Enumerates(order) && |box| == 9 && Clean(box)
    ensures MaskAssign(box, MissingShuffled(order, box, ds)).Assigned?
    ensures IsPermutation(MaskAssign(box, MissingShuffled(order, box, ds)).box)
  {
    var missing := Numerals - ValueSet(box);
    CleanMissingCount(box);
    assert ListsOnce(order(missing), missing);
    ListsOnceLength(order(missing), missing);
    ShuffleKeeps(order(missing), ds);
    var sh := MissingShuffled(order, box, ds);
    assert |sh| == Zeros(box) && ValueSet(sh) == missing;
    var f := FillZeros(box, sh);
    assert MaskAssign(box, sh) == Assigned(f);
  }

  /**
   * Boxes before b are permutations and boxes from b on are clean: then
   * random_fill from b succeeds and leaves every box a permutation of 1..9.
   */
  /** Boxes before b hold each of 1..9 once; boxes from b on are clean. */
  ghost predicate FilledBefore(g: Grid, b: nat)
  {
    forall r, c :: 0 <= r < 9 && 0 <= c < 9 ==>
      if 3 * (r / 3) + c / 3 < b then IsPermutation(Box(g, r, c)) else Clean(Box(g, r, c))
  }

  lemma {:induction false} RandomFillPermutes(g: Grid, order: Order, draws: seq<seq<nat>>, b: nat)
    requires Enumerates(order) && b <= 9 && FilledBefore(g, b)
    ensures RandomFillFrom(g, order, draws, b).Filled?
    ensures forall r, c :: 0 <= r < 9 && 0 <= c < 9 ==> IsPermutation(Box(RandomFillFrom(g, order, draws, b).grid, r, c))
    decreases 9 - b
  {
    if b == 9 {
      forall r, c | 0 <= r < 9 && 0 <= c < 9 ensures IsPermutation(Box(g, r, c)) {
        assert 3 * (r / 3) + c / 3 < 9;
      }
    } else {
      var w := RandomFillStep(g, order, draws, b);
      RandomFillPermutes(w, order, draws, b + 1);
    }
  }

  /** Filling box b of a grid whose earlier boxes are full moves the boundary one box on. */
  lemma RandomFillStep(g: Grid, order: Order, draws: seq<seq<nat>>, b: nat) returns (w: Grid)
    requires Enumerates(order) && b < 9 && FilledBefore(g, b)
    ensures FilledBefore(w, b + 1)
    ensures RandomFillFrom(g, order, draws, b) == RandomFillFrom(w, order, draws, b + 1)
  {
    var (r0, c0) := Corner(b);
    var box := Box(g, r0, c0);
    assert 3 * (r0 / 3) + c0 / 3 == b;
    CleanBoxFills(order, box, DrawsFor(draws, b));
    var nb := MaskAssign(box, MissingShuffled(order, box, DrawsFor(draws, b))).box;
    w := WriteBox(g, r0, c0, nb, 9);
    forall r, c | 0 <= r < 9 && 0 <= c < 9
      ensures if 3 * (r / 3) + c / 3 < b + 1 then IsPermutation(Box(w, r, c)) else Clean(Box(w, r, c))
    {
      BoxAfterWrite(g, r0, c0, nb, r, c);
      DivThree(r / 3, c / 3);
      DivThree(b / 3, b % 3);
    }
  }

  /**
   * If no box holds a non-zero value twice (and every value is in 0..9), then
   * random_fill succeeds for any draws, keeps the clues, and leaves every box
   * holding each of 1..9 exactly once.
   */
  lemma RandomFillFillsBoxes(g: Grid, order: Order, draws: seq<seq<nat>>)
    requires Enumerates(order)
    requires forall r, c :: 0 <= r < 9 && 0 <= c < 9 ==> Clean(Box(g, r, c))
    ensures RandomFillFrom(g, order, draws, 0).Filled?
    ensures forall r, c :: 0 <= r < 9 && 0 <= c < 9 ==> IsPermutation(Box(RandomFillFrom(g, order, draws, 0).grid, r, c))
    ensures forall k :: 0 <= k < 81 && g[k] != 0 ==> RandomFillFrom(g, order, draws, 0).grid[k] == g[k]
  {
    assert FilledBefore(g, 0);
    RandomFillPermutes(g, order, draws, 0);
    RandomFillKeepsClues(g, order, draws, 0);
  }

  /** Two positions of a box of a valid grid never hold the same non-zero value. */
  lemma ValidBoxPair(g: Grid, r: nat, c: nat, i: nat, j: nat)
    requires r < 9 && c < 9 && i < j < 9 && NoConflict(g)
    ensures Box(g, r, c)[i] != 0 ==> Box(g, r, c)[i] != Box(g, r, c)[j]
  {
    BoxCellPos(r, c, i);
    BoxCellPos(r, c, j);
    var ki, kj := BoxCell(r, c, i), BoxCell(r, c, j);
    BoxValue(g, r, c, i);
    BoxValue(g, r, c, j);
    assert ki != kj;
    assert SameBox(ki, kj);
    assert !Conflict(g, ki, kj);
  }

  /** A valid puzzle has clean boxes, so random_fill completes it. */
  lemma ValidBoxesAreClean(g: Grid, r: nat, c: nat)
    requires r < 9 && c < 9 && Validity(g) == Verdict(true)
    ensures Clean(Box(g, r, c))
  {
    ValidityMeaning(g);
    var box := Box(g, r, c);
    forall i | 0 <= i < 9 ensures InRangeValue(box[i]) {
      BoxValue(g, r, c, i);
    }
    forall i, j | 0 <= i < j < 9 && box[i] != 0 ensures box[i] != box[j] {
      ValidBoxPair(g, r, c, i, j);
    }
  }

  /** How random_fill ends, as the in-place method reports it. */
  datatype FillStatus = Done | MaskError(row: nat, col: nat, values: nat, targets: nat)

  function AsFill(s: FillStatus, g: Grid): Fill
  {
    match s
    case Done => Filled(g)
    case MaskError(r, c, n, m) => FillError(r, c, n, m, g)
  }

  /** d[row:row+3, col:col+3] = box.reshape((3, 3)). */
  method WriteBack(d: array<int>, row: nat, col: nat, nb: seq<int>)
    requires d.Length == 81 && row < 9 && col < 9 && |nb| == 9
    modifies d
    ensures d[..] == WriteBox(old(d[..]), row, col, nb, 9)
  {
    var i := 0;
    while i < 9
      invariant 0 <= i <= 9
      invariant d[..] == WriteBox(old(d[..]), row, col, nb, i)
    {
      d[BoxCell(row, col, i)] := nb[i];
      i := i + 1;
    }
  }

  /** random_fill: fill the zeros of each box, in place, with that box's missing values in shuffled order. */
  method RandomFill(d: array<int>, order: Order, draws: seq<seq<nat>>) returns (status: FillStatus)
    requires d.Length == 81
    modifies d
    ensures AsFill(status, d[..]) == RandomFillFrom(old(d[..]), order, draws, 0)
  {
    var b := 0;
    while b < 9
      invariant 0 <= b <= 9
      invariant RandomFillFrom(old(d[..]), order, draws, 0) == RandomFillFrom(d[..], order, draws, b)
    {
      var (row, col) := Corner(b);
      var box := Box(d[..], row, col);
      var missing := MissingShuffled(order, box, DrawsFor(draws, b));
      var written := MaskAssign(box, missing);
      if written.CannotAssign? {
        return MaskError(row, col, written.values, written.targets);
      }
      WriteBack(d, row, col, written.box);
      b := b + 1;
    }
    status := Done;
  }

  // ---------------------------------------------------------------------------
  // get_cost
  // ---------------------------------------------------------------------------

  /** How many of the values v..9 do not occur in u. */
  function MissingFrom(u: seq<int>, v: int): (n: nat)
    requires 1 <= v <= 10
    ensures n <= 10 - v
    decreases 10 - v
  {
    if v == 10 then 0 else (if v in u then 0 else 1) + MissingFrom(u, v + 1)
  }

  /** len(numerals - set(u)): how many of 1..9 the unit lacks. */
  function Missing(u: seq<int>): (n: nat)
    ensures n <= 9
  {
    MissingFrom(u, 1)
  }

  /** The values v..9. */
  function Above(v: int): set<int>
    decreases 10 - v
  {
    if v > 9 then {} else {v} + Above(v + 1)
  }

  lemma {:induction false} AboveMeaning(v: int)
    ensures forall x :: x in Above(v) <==> v <= x <= 9
    decreases 10 - v
  {
    if v <= 9 {
      AboveMeaning(v + 1);
    }
  }

  lemma {:induction false} MissingFromMeaning(u: seq<int>, v: int)
    requires 1 <= v <= 10
    ensures MissingFrom(u, v) == |Above(v) - ValueSet(u)|
    ensures MissingFrom(u, v) == 0 <==> Above(v) <= ValueSet(u)
    decreases 10 - v
  {
    if v == 10 {
      assert Above(10) == {};
    } else {
      MissingFromMeaning(u, v + 1);
      AboveMeaning(v + 1);
      var rest := Above(v + 1) - ValueSet(u);
      assert Above(v) == Above(v + 1) + {v};
      if v in u {
        assert Above(v) - ValueSet(u) == rest;
      } else {
        assert Above(v) - ValueSet(u) == rest + {v};
        assert v !in rest;
      }
    }
  }

  /** Missing counts the set difference the source measures, and is 0 exactly when the unit shows all of 1..9. */
  lemma MissingMeaning(u: seq<int>)
    ensures Missing(u) == |Numerals - ValueSet(u)|
    ensures Missing(u) == 0 <==> Numerals <= ValueSet(u)
  {
    MissingFromMeaning(u, 1);
    AboveMeaning(1);
    forall x ensures x in Above(1) <==> x in Numerals {
      InNumerals(x);
    }
    assert Above(1) == Numerals;
  }

  /** What each row lacks, top to bottom. */
  function RowMissing(g: Grid): (m: seq<nat>)
    ensures |m| == 9 && forall r :: 0 <= r < 9 ==> m[r] <= 9
  {
    seq(9, r requires 0 <= r < 9 => Missing(Row(g, r)))
  }

  /** What each column lacks, left to right. */
  function ColMissing(g: Grid): (m: seq<nat>)
    ensures |m| == 9 && forall c :: 0 <= c < 9 ==> m[c] <= 9
  {
    seq(9, c requires 0 <= c < 9 => Missing(Col(g, c)))
  }

  /**
   * xs[0] + ... + xs[n - 1]: the running total of get_cost's loops, indexed by
   * the loop counter so that the loop invariant can name it (Dlx sums whole
   * matrix vectors and keeps its own Sum).
   */
  function Sum(xs: seq<nat>, n: nat): nat
    requires n <= |xs|
  {
    if n == 0 then 0 else Sum(xs, n - 1) + xs[n - 1]
  }

  lemma {:induction false} SumMeaning(xs: seq<nat>, n: nat)
    requires n <= |xs| && forall i :: 0 <= i < |xs| ==> xs[i] <= 9
    ensures Sum(xs, n) <= 9 * n
    ensures Sum(xs, n) == 0 <==> forall i :: 0 <= i < n ==> xs[i] == 0
  {
    if n > 0 {
      SumMeaning(xs, n - 1);
    }
  }

  /** The annealing cost: values missing from the rows plus values missing from the columns. */
  function Cost(g: Grid): nat
  {
    Sum(RowMissing(g), 9) + Sum(ColMissing(g), 9)
  }

  /** The cost lies in 0..162 and is 0 exactly when every row and every column shows all of 1..9. */
  lemma CostMeaning(g: Grid)
    ensures Cost(g) <= 162
    ensures Cost(g) == 0 <==>
      (forall r :: 0 <= r < 9 ==> Numerals <= ValueSet(Row(g, r))) &&
      (forall c :: 0 <= c < 9 ==> Numerals <= ValueSet(Col(g, c)))
  {
    SumMeaning(RowMissing(g), 9);
    SumMeaning(ColMissing(g), 9);
    forall r | 0 <= r < 9 ensures RowMissing(g)[r] == 0 <==> Numerals <= ValueSet(Row(g, r)) {
      MissingMeaning(Row(g, r));
    }
    forall c | 0 <= c < 9 ensures ColMissing(g)[c] == 0 <==> Numerals <= ValueSet(Col(g, c)) {
      MissingMeaning(Col(g, c));
    }
  }

  /**
   * The success test of the main loop: with every box a permutation of 1..9,
   * a cost of 0 means the grid is solved.
   */
  lemma ZeroCostSolved(g: Grid)
    requires Cost(g) == 0
    requires forall r, c :: 0 <= r < 9 && 0 <= c < 9 ==> IsPermutation(Box(g, r, c))
    ensures Solved(g) == Verdict(true)
  {
    ZeroCostUnits(g);
    FullRowsFill(g);
    forall i, j | 0 <= i < 81 && 0 <= j < 81 ensures !Conflict(g, i, j) {
      NoPeerRepeats(g, i, j);
    }
    ValidityMeaning(g);
    SolvedMeaning(g);
  }

  /** At cost zero every row and every column holds each of 1..9 once. */
  lemma ZeroCostUnits(g: Grid)
    requires Cost(g) == 0
    ensures forall r :: 0 <= r < 9 ==> Distinct(Row(g, r)) && forall i :: 0 <= i < 9 ==> Row(g, r)[i] in Numerals
    ensures forall c :: 0 <= c < 9 ==> Distinct(Col(g, c))
  {
    CostMeaning(g);
    forall r | 0 <= r < 9 ensures Distinct(Row(g, r)) && forall i :: 0 <= i < 9 ==> Row(g, r)[i] in Numerals {
      CoveringIsPermutation(Row(g, r));
    }
    forall c | 0 <= c < 9 ensures Distinct(Col(g, c)) {
      CoveringIsPermutation(Col(g, c));
    }
  }

  /** A grid whose rows hold only 1..9 is full and in range. */
  lemma FullRowsFill(g: Grid)
    requires forall r :: 0 <= r < 9 ==> forall i :: 0 <= i < 9 ==> Row(g, r)[i] in Numerals
    ensures InRange(g) && 0 !in g
  {
    forall k | 0 <= k < 81 ensures InRangeValue(g[k]) && g[k] != 0 {
      assert g[k] == Row(g, k / 9)[k % 9];
      InNumerals(g[k]);
    }
  }

  /** Two positions of a unit without repeats hold different values. */
  lemma DistinctAt(u: seq<int>, a: nat, b: nat)
    requires Distinct(u) && a < |u| && b < |u| && a != b
    ensures u[a] != u[b]
  {
    if a < b {
      assert u[a] != u[b];
    } else {
      assert u[b] != u[a];
    }
  }

  /** Two distinct cells of a grid whose rows, columns and boxes have no repeat never hold the same value as peers. */
  lemma NoPeerRepeats(g: Grid, i: nat, j: nat)
    requires i < 81 && j < 81
    requires forall r :: 0 <= r < 9 ==> Distinct(Row(g, r))
    requires forall c :: 0 <= c < 9 ==> Distinct(Col(g, c))
    requires forall r, c :: 0 <= r < 9 && 0 <= c < 9 ==> IsPermutation(Box(g, r, c))
    ensures !Conflict(g, i, j)
  {
    if i != j && SameRow(i, j) {
      RowCells(g, i / 9, i % 9);
      assert Idx(i / 9, i % 9) == i;
      DistinctAt(Row(g, i / 9), i % 9, j % 9);
    } else if i != j && SameCol(i, j) {
      ColCells(g, i / 9, i % 9);
      assert Idx(i / 9, i % 9) == i;
      DistinctAt(Col(g, i % 9), i / 9, j / 9);
    } else if i != j && SameBox(i, j) {
      BoxNoRepeat(g, i, j);
    }
  }

  lemma BoxNoRepeat(g: Grid, i: nat, j: nat)
    requires i < 81 && j < 81 && i != j && SameBox(i, j)
    requires IsPermutation(Box(g, i / 9, i % 9))
    ensures g[i] != g[j]
  {
    var r, c := i / 9, i % 9;
    assert Idx(r, c) == i;
    var box := Box(g, r, c);
    CoveringIsPermutation(box);
    var pi, pj := BoxPos(i, r, c), BoxPos(j, r, c);
    BoxValue(g, r, c, pi);
    BoxValue(g, r, c, pj);
    DistinctAt(box, pi, pj);
  }

  /** get_cost: the two accumulating loops, over the rows and then over the columns. */
  method GetCost(d: array<int>) returns (cost: nat)
    requires d.Length == 81
    ensures cost == Cost(d[..])
  {
    cost := 0;
    var row := 0;
    while row < 9
      invariant 0 <= row <= 9 && cost == Sum(RowMissing(d[..]), row)
    {
      cost := cost + Missing(Row(d[..], row));
      row := row + 1;
    }
    var col := 0;
    while col < 9
      invariant 0 <= col <= 9 && cost == Sum(RowMissing(d[..]), 9) + Sum(ColMissing(d[..]), col)
    {
      cost := cost + Missing(Col(d[..], col));
      col := col + 1;
    }
  }

  // ---------------------------------------------------------------------------
  // swap_neighbors
  // ---------------------------------------------------------------------------

  /** One draw of np.random.choice(range(9), size=3): a cell and a position in its box. */
  datatype Draw = Draw(row: nat, col: nat, cell: nat)

  predicate InDomain(x: Draw) { x.row < 9 && x.col < 9 && x.cell < 9 }

  /** The cell at position x.cell of the box of (x.row, x.col). */
  function Neighbor(x: Draw): (rc: (nat, nat))
    requires InDomain(x)
    ensures rc.0 < 9 && rc.1 < 9 && Idx(rc.0, rc.1) == BoxCell(x.row, x.col, x.cell)
  {
    var rowOffset := x.cell / 3;
    var colOffset := x.cell - 3 * rowOffset;
    (3 * (x.row / 3) + rowOffset, 3 * (x.col / 3) + colOffset)
  }

  /** The loop's exit test: two different cells, neither of them fixed. */
  predicate Acceptable(x: Draw, fixed: set<(nat, nat)>)
    requires InDomain(x)
  {
    (x.row, x.col) != Neighbor(x) && (x.row, x.col) !in fixed && Neighbor(x) !in fixed
  }

  /** The swap the neighbour move makes, or none when the draws run out. */
  datatype Swap = Swapped(row: nat, col: nat, row2: nat, col2: nat) | Exhausted

  /** The first acceptable draw from i on. */
  function FirstAcceptable(draws: seq<Draw>, fixed: set<(nat, nat)>, i: nat): (s: Swap)
    requires i <= |draws| && forall j :: 0 <= j < |draws| ==> InDomain(draws[j])
    ensures s.Exhausted? <==> forall j :: i <= j < |draws| ==> !Acceptable(draws[j], fixed)
    ensures s.Swapped? ==>
      s.row < 9 && s.col < 9 && s.row2 < 9 && s.col2 < 9 &&
      SameBox(Idx(s.row, s.col), Idx(s.row2, s.col2)) && Idx(s.row, s.col) != Idx(s.row2, s.col2) &&
      (s.row, s.col) !in fixed && (s.row2, s.col2) !in fixed
    decreases |draws| - i
  {
    if i == |draws| then Exhausted
    else
      var x := draws[i];
      if Acceptable(x, fixed) then
        var (r2, c2) := Neighbor(x);
        BoxCellPos(x.row, x.col, x.cell);
        assert Idx(x.row, x.col) != Idx(r2, c2) by {
          assert Idx(x.row, x.col) / 9 == x.row && Idx(x.row, x.col) % 9 == x.col;
        }
        Swapped(x.row, x.col, r2, c2)
      else FirstAcceptable(draws, fixed, i + 1)
  }

  /** g with cells i and j exchanged. */
  function SwapCells(g: Grid, i: nat, j: nat): Grid
    requires i < 81 && j < 81
  {
    g[i := g[j]][j := g[i]]
  }

  /** Inside the box that holds both cells, the swap exchanges two positions of the box. */
  lemma SwapInsideBox(g: Grid, i: nat, j: nat, r: nat, c: nat)
    requires i < 81 && j < 81 && r < 9 && c < 9 && SameBox(i, Idx(r, c)) && SameBox(j, Idx(r, c))
    ensures multiset(Box(SwapCells(g, i, j), r, c)) == multiset(Box(g, r, c))
  {
    var g' := SwapCells(g, i, j);
    var box, box' := Box(g, r, c), Box(g', r, c);
    var pi, pj := BoxPos(i, r, c), BoxPos(j, r, c);
    var swapped := box[pi := box[pj]][pj := box[pi]];
    BoxValue(g, r, c, pi);
    BoxValue(g, r, c, pj);
    forall p | 0 <= p < 9 ensures box'[p] == swapped[p] {
      BoxValue(g', r, c, p);
      BoxValue(g, r, c, p);
      BoxCellPos(r, c, p);
      var k := BoxCell(r, c, p);
      if p == pj {
        assert k == j && swapped[p] == g[i];
      } else if p == pi {
        assert k == i && swapped[p] == g[j];
      } else {
        assert k != i && k != j;
        assert g'[k] == g[k] && swapped[p] == box[p];
      }
    }
    assert box' == swapped;
    SwapMultiset(box, pi, pj);
  }

  /** A box that holds neither cell is not changed by the swap. */
  lemma SwapOutsideBox(g: Grid, i: nat, j: nat, r: nat, c: nat)
    requires i < 81 && j < 81 && r < 9 && c < 9 && !SameBox(i, Idx(r, c)) && !SameBox(j, Idx(r, c))
    ensures Box(SwapCells(g, i, j), r, c) == Box(g, r, c)
  {
    var g' := SwapCells(g, i, j);
    forall p | 0 <= p < 9 ensures Box(g', r, c)[p] == Box(g, r, c)[p] {
      BoxValue(g', r, c, p);
      BoxValue(g, r, c, p);
      BoxCellPos(r, c, p);
    }
  }

  /**
   * Exchanging two cells of one box keeps the multiset of every box, so a box
   * that held each of 1..9 once still does.
   */
  lemma SwapKeepsBoxes(g: Grid, i: nat, j: nat, r: nat, c: nat)
    requires i < 81 && j < 81 && SameBox(i, j) && r < 9 && c < 9
    ensures multiset(Box(SwapCells(g, i, j), r, c)) == multiset(Box(g, r, c))
    ensures IsPermutation(Box(g, r, c)) ==> IsPermutation(Box(SwapCells(g, i, j), r, c))
  {
    var box, box' := Box(g, r, c), Box(SwapCells(g, i, j), r, c);
    if SameBox(i, Idx(r, c)) {
      SwapInsideBox(g, i, j, r, c);
    } else {
      SwapOutsideBox(g, i, j, r, c);
    }
    forall x ensures x in box' <==> x in box {
      assert x in box' <==> x in multiset(box');
      assert x in box <==> x in multiset(box);
    }
    assert ValueSet(box') == ValueSet(box);
  }

  /**
   * swap_neighbors: copy d into d2, draw until a draw is acceptable, then
   * exchange the two cells in d2. d is not changed, and cells listed in fixed
   * are never touched.
   */
  method SwapNeighbors(d: array<int>, d2: array<int>, fixed: set<(nat, nat)>, draws: seq<Draw>) returns (s: Swap)
    requires d.Length == 81 && d2.Length == 81 && d != d2
    requires forall j :: 0 <= j < |draws| ==> InDomain(draws[j])
    modifies d2
    ensures s == FirstAcceptable(draws, fixed, 0)
    ensures d2[..] == if s.Swapped? then SwapCells(d[..], Idx(s.row, s.col), Idx(s.row2, s.col2)) else d[..]
    ensures forall k :: 0 <= k < 81 && (k / 9, k % 9) in fixed ==> d2[k] == d[k]
  {
    forall i | 0 <= i < 81 {
      d2[i] := d[i];
    }
    assert d2[..] == d[..];
    var i := 0;
    while i < |draws| && !Acceptable(draws[i], fixed)
      invariant 0 <= i <= |draws|
      invariant FirstAcceptable(draws, fixed, 0) == FirstAcceptable(draws, fixed, i)
    {
      i := i + 1;
    }
    s := FirstAcceptable(draws, fixed, i);
    if i == |draws| {
      return;
    }
    var k, k2 := Idx(s.row, s.col), Idx(s.row2, s.col2);
    d2[k], d2[k2] := d2[k2], d2[k];
    assert Idx(k / 9, k % 9) == k && Idx(k2 / 9, k2 % 9) == k2;
  }
}
