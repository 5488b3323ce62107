/** The cross sudoku of `CrossSudokuGA`: five 9x9 grids (a center one and
    one on each side) whose shared edges must agree, and the fitness the
    genetic solver ranks assemblies by. */
module CrossSudoku {
  import opened Util
  import opened Grids
  import G = GeneticSolver

  /** The five grids, in the order the solver's dictionary lists them. */
  datatype Part = Center | Top | Bottom | Left | Right

  /** One value per grid. */
  datatype Five<T> = Five(center: T, top: T, bottom: T, left: T, right: T) {
    function Get(p: Part): T {
      match p
      case Center => center
      case Top => top
      case Bottom => bottom
      case Left => left
      case Right => right
    }
  }

  /** Five grids: an individual of the solver, or the puzzle's givens
      (0 for an open cell; a nonzero given is a fixed cell). */
  type Assembly = Five<Grid>

  predicate Shaped(a: Assembly) {
    IsSquare(a.center, 9) && IsSquare(a.top, 9) && IsSquare(a.bottom, 9) &&
    IsSquare(a.left, 9) && IsSquare(a.right, 9)
  }

  lemma ShapedGet(a: Assembly, p: Part)
    requires Shaped(a)
    ensures IsSquare(a.Get(p), 9)
  {
  }

  // ---------------------------------------------------------------- one grid

  /** The nine boxes of a grid, in the order the fitness visits them. */
  function Boxes(g: Grid): (bs: seq<seq<int>>)
    requires IsSquare(g, 9)
    ensures |bs| == 9
    ensures forall k :: 0 <= k < 9 ==> bs[k] == BoxValues(g, G.BoxStarts()[k].0, G.BoxStarts()[k].1)
  {
    var starts := G.BoxStarts();
    seq(9, k requires 0 <= k < 9 => BoxValues(g, starts[k].0, starts[k].1))
  }

  /** The number of fixed places of `given` where `xs` holds another value. */
  function RowChanges(xs: seq<int>, given: seq<int>): (c: nat)
    requires |xs| == |given|
    ensures c <= |xs|
    ensures c == 0 <==> forall k :: 0 <= k < |given| && given[k] != 0 ==> xs[k] == given[k]
    decreases |xs|
  {
    if xs == [] then 0
    else
      var c := RowChanges(xs[1..], given[1..]);
      assert forall k :: 1 <= k < |xs| ==> xs[k] == xs[1..][k - 1] && given[k] == given[1..][k - 1];
      (if given[0] != 0 && xs[0] != given[0] then 1 else 0) + c
  }

  /** The number of fixed cells of `given` that `g` changed, row by row. */
  function Changes(g: Grid, given: Grid): (c: nat)
    requires |g| == |given| && forall i :: 0 <= i < |g| ==> |g[i]| == |given[i]|
    ensures c == 0 <==>
      forall r, k :: 0 <= r < |g| && 0 <= k < |given[r]| && given[r][k] != 0 ==> g[r][k] == given[r][k]
    decreases |g|
  {
    if g == [] then 0
    else
      var c := Changes(g[1..], given[1..]);
      assert forall r :: 1 <= r < |g| ==> g[r] == g[1..][r - 1] && given[r] == given[1..][r - 1];
      RowChanges(g[0], given[0]) + c
  }

  /** `_fitness_grid`: minus 10 per value missing from the nine distinct ones
      of each row and each column, 5 per value missing from each box, and 100
      per fixed cell changed. */
  function GridScore(g: Grid, given: Grid): int
    requires IsSquare(g, 9) && IsSquare(given, 9)
  {
    -(G.Penalty(g, 9) * 10 + G.Penalty(G.Columns(g), 9) * 10 + G.Penalty(Boxes(g), 9) * 5 +
      Changes(g, given) * 100)
  }

  predicate RowsRepeatFree(g: Grid)
    requires IsSquare(g, 9)
  {
    forall k :: 0 <= k < 9 ==> Distinct(g[k])
  }

  predicate ColumnsRepeatFree(g: Grid)
    requires IsSquare(g, 9)
  {
    forall k :: 0 <= k < 9 ==> Distinct(Column(g, k))
  }

  predicate BoxesRepeatFree(g: Grid)
    requires IsSquare(g, 9)
  {
    forall r0, c0 :: 0 <= r0 < 9 && 0 <= c0 < 9 && G.IsStart(r0) && G.IsStart(c0) ==> Distinct(BoxValues(g, r0, c0))
  }

  /** A solved grid: no row, column or box repeats a value, and every fixed
      cell holds its given. */
  predicate GridSolved(g: Grid, given: Grid)
    requires IsSquare(g, 9) && IsSquare(given, 9)
  {
    RowsRepeatFree(g) && ColumnsRepeatFree(g) && BoxesRepeatFree(g) && G.KeepsGivens(given, g)
  }

  /** A grid scores at most 0, and exactly 0 when it is solved. */
  lemma GridScoreZero(g: Grid, given: Grid)
    requires IsSquare(g, 9) && IsSquare(given, 9)
    ensures GridScore(g, given) <= 0
    ensures GridScore(g, given) == 0 <==> GridSolved(g, given)
  {
    PenaltiesZero(g);
    var changes := Changes(g, given);
    assert changes == 0 <==> G.KeepsGivens(given, g);
  }

  /** Each of the three penalties is never negative, and is 0 exactly when no
      line of its kind repeats a value. */
  lemma PenaltiesZero(g: Grid)
    requires IsSquare(g, 9)
    ensures G.Penalty(g, 9) >= 0 && (G.Penalty(g, 9) == 0 <==> RowsRepeatFree(g))
    ensures G.Penalty(G.Columns(g), 9) >= 0 && (G.Penalty(G.Columns(g), 9) == 0 <==> ColumnsRepeatFree(g))
    ensures G.Penalty(Boxes(g), 9) >= 0 && (G.Penalty(Boxes(g), 9) == 0 <==> BoxesRepeatFree(g))
  {
    var cs, bs := G.Columns(g), Boxes(g);
    assert forall k :: 0 <= k < |cs| ==> |cs[k]| == 9;
    assert forall k :: 0 <= k < |bs| ==> |bs[k]| == 9;
    BoxesDistinct(g);
  }

  /** Every box of the list is repeat-free exactly when every box of the grid is. */
  lemma BoxesDistinct(g: Grid)
    requires IsSquare(g, 9)
    ensures (forall k :: 0 <= k < 9 ==> Distinct(Boxes(g)[k])) <==> BoxesRepeatFree(g)
  {
    var bs := Boxes(g);
    if forall k :: 0 <= k < 9 ==> Distinct(bs[k]) {
      forall r0, c0 | 0 <= r0 < 9 && 0 <= c0 < 9 && G.IsStart(r0) && G.IsStart(c0)
        ensures Distinct(BoxValues(g, r0, c0))
      {
        var k := G.StartIndex((r0, c0));
        assert bs[k] == BoxValues(g, r0, c0);
      }
    }
  }

  // ---------------------------------------------------------------- the links

  /** The number of places where two equally long lines differ. */
  function Mismatches(xs: seq<int>, ys: seq<int>): (m: nat)
    requires |xs| == |ys|
    ensures m <= |xs|
    ensures m == 0 <==> xs == ys
    decreases |xs|
  {
    if xs == [] then 0
    else
      var m := Mismatches(xs[1..], ys[1..]);
      assert xs == [xs[0]] + xs[1..] && ys == [ys[0]] + ys[1..];
      (if xs[0] != ys[0] then 1 else 0) + m
  }

  /** The center grid's edges agree with the facing edges of the side grids:
      its top row with the top grid's last row, its bottom row with the bottom
      grid's first row, its first column with the left grid's last column and
      its last column with the right grid's first column. */
  predicate LinksHold(a: Assembly)
    requires Shaped(a)
  {
    forall k :: 0 <= k < 9 ==>
      a.center[0][k] == a.top[8][k] && a.center[8][k] == a.bottom[0][k] &&
      a.center[k][0] == a.left[k][8] && a.center[k][8] == a.right[k][0]
  }

  /** `_fitness_conexiones`: minus 5 for every disagreeing pair of facing cells. */
  function LinkScore(a: Assembly): int
    requires Shaped(a)
  {
    -5 * (Mismatches(a.center[0], a.top[8]) + Mismatches(a.center[8], a.bottom[0]) +
      Mismatches(Column(a.center, 0), Column(a.left, 8)) + Mismatches(Column(a.center, 8), Column(a.right, 0)))
  }

  /** The link score lies between -180 (all 36 pairs disagree) and 0, and is
      0 exactly when the links hold. */
  lemma LinkScoreRange(a: Assembly)
    requires Shaped(a)
    ensures -180 <= LinkScore(a) <= 0
    ensures LinkScore(a) == 0 <==> LinksHold(a)
  {
    var c := a.center;
    var l0, l1 := Column(c, 0), Column(a.left, 8);
    var r0, r1 := Column(c, 8), Column(a.right, 0);
    assert l0 == l1 <==> forall k :: 0 <= k < 9 ==> c[k][0] == a.left[k][8] by {
      if forall k :: 0 <= k < 9 ==> c[k][0] == a.left[k][8] {
        assert forall k :: 0 <= k < 9 ==> l0[k] == l1[k];
      }
    }
    assert r0 == r1 <==> forall k :: 0 <= k < 9 ==> c[k][8] == a.right[k][0] by {
      if forall k :: 0 <= k < 9 ==> c[k][8] == a.right[k][0] {
        assert forall k :: 0 <= k < 9 ==> r0[k] == r1[k];
      }
    }
    assert c[0] == a.top[8] <==> forall k :: 0 <= k < 9 ==> c[0][k] == a.top[8][k];
    assert c[8] == a.bottom[0] <==> forall k :: 0 <= k < 9 ==> c[8][k] == a.bottom[0][k];
  }

  // ---------------------------------------------------------------- the whole

  /** `calcular_fitness`: the five grid scores plus the link score. */
  function Fitness(a: Assembly, givens: Assembly): int
    requires Shaped(a) && Shaped(givens)
  {
    GridScore(a.center, givens.center) + GridScore(a.top, givens.top) + GridScore(a.bottom, givens.bottom) +
    GridScore(a.left, givens.left) + GridScore(a.right, givens.right) + LinkScore(a)
  }

  /** Every grid solved and every link holding. */
  predicate Solved(a: Assembly, givens: Assembly)
    requires Shaped(a) && Shaped(givens)
  {
    GridSolved(a.center, givens.center) && GridSolved(a.top, givens.top) &&
    GridSolved(a.bottom, givens.bottom) && GridSolved(a.left, givens.left) &&
    GridSolved(a.right, givens.right) && LinksHold(a)
  }

  /** The fitness is never positive, and it is 0 exactly for a solution; so
      the solver's stopping test, a best fitness of 0, means solved. */
  lemma FitnessZero(a: Assembly, givens: Assembly)
    requires Shaped(a) && Shaped(givens)
    ensures Fitness(a, givens) <= 0
    ensures Fitness(a, givens) == 0 <==> Solved(a, givens)
  {
    GridScoreZero(a.center, givens.center);
    GridScoreZero(a.top, givens.top);
    GridScoreZero(a.bottom, givens.bottom);
    GridScoreZero(a.left, givens.left);
    GridScoreZero(a.right, givens.right);
    LinkScoreRange(a);
  }

  /** The center grid the solver starts from, every cell fixed. */
  const ImageCenter: Grid := [
    [8, 5, 9, 3, 8, 6, 5, 3, 4],
    [9, 1, 2, 8, 5, 3, 7, 5, 9],
    [3, 7, 6, 4, 9, 1, 8, 5, 2],
    [6, 2, 8, 1, 5, 4, 7, 6, 3],
    [1, 9, 8, 4, 7, 3, 2, 4, 9],
    [5, 3, 4, 6, 2, 7, 8, 1, 6],
    [4, 1, 2, 9, 6, 5, 7, 3, 2],
    [6, 5, 3, 1, 9, 4, 8, 6, 1],
    [8, 9, 5, 4, 1, 7, 3, 2, 4]]

  /** The fixed center repeats 8 in its first row, so no grid that keeps it
      is solved. */
  lemma ImageCenterRepeats(g: Grid)
    requires IsSquare(g, 9)
    ensures !GridSolved(g, ImageCenter)
  {
    if G.KeepsGivens(ImageCenter, g) {
      assert g[0][0] == ImageCenter[0][0] == 8;
      assert g[0][4] == ImageCenter[0][4] == 8;
      assert !Distinct(g[0]);
    }
  }

  /** So no assembly over that center is a solution: every fitness is
      negative and the stopping test never passes. */
  lemma ImageCenterUnsolvable(a: Assembly, givens: Assembly)
    requires Shaped(a) && Shaped(givens) && givens.center == ImageCenter
    ensures Fitness(a, givens) < 0
  {
    FitnessZero(a, givens);
    ImageCenterRepeats(a.center);
  }
}
