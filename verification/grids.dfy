/** Integer grids as the JavaScript files and the cross-sudoku solver hold them:
    a square matrix of ints where 0 marks an empty cell, with 3x3 boxes read in
    row-major order. */
module Grids {
  import opened Util
  import Arith

  type Grid = seq<seq<int>>

  /** A cell position (row, column). */
  type Pos = (int, int)

  predicate IsSquare(g: Grid, n: int) {
    |g| == n && forall i :: 0 <= i < |g| ==> |g[i]| == n
  }

  predicate Square(g: Grid) {
    IsSquare(g, |g|)
  }

  predicate InGrid(g: Grid, i: int, j: int) {
    0 <= i < |g| && 0 <= j < |g[i]|
  }

  /** Column j read top to bottom. */
  function Column(g: Grid, j: int): (c: seq<int>)
    requires Square(g) && 0 <= j < |g|
    ensures |c| == |g|
    ensures forall i :: 0 <= i < |g| ==> c[i] == g[i][j]
  {
    seq(|g|, i requires 0 <= i < |g| => g[i][j])
  }

  /** g with the single cell (i, j) replaced by v. */
  function Set(g: Grid, i: int, j: int, v: int): (h: Grid)
    requires InGrid(g, i, j)
    ensures |h| == |g|
    ensures forall r :: 0 <= r < |g| ==> |h[r]| == |g[r]|
    ensures h[i][j] == v
    ensures forall r, c {:trigger h[r][c]} :: InGrid(g, r, c) && (r, c) != (i, j) ==> h[r][c] == g[r][c]
  {
    g[i := g[i][j := v]]
  }

  /** The 3x3 box whose top-left cell is (r0, c0) lies inside an n x n grid. */
  predicate IsBoxStart(n: int, r0: int, c0: int) {
    0 <= r0 && r0 + 3 <= n && 0 <= c0 && c0 + 3 <= n
  }

  predicate InBox(r0: int, c0: int, i: int, j: int) {
    r0 <= i < r0 + 3 && c0 <= j < c0 + 3
  }

  /** The nine values of a box in row-major order. */
  function BoxValues(g: Grid, r0: int, c0: int): (v: seq<int>)
    requires Square(g) && IsBoxStart(|g|, r0, c0)
    ensures |v| == 9
    ensures forall k :: 0 <= k < 9 ==> v[k] == g[r0 + k / 3][c0 + k % 3]
  {
    seq(9, k requires 0 <= k < 9 => g[r0 + k / 3][c0 + k % 3])
  }

  /** Cell (i, j) of the box at (r0, c0) sits at place (i - r0) * 3 + (j - c0)
      of the box's list. */
  lemma BoxValuesAt(g: Grid, r0: int, c0: int, i: int, j: int)
    requires Square(g) && IsBoxStart(|g|, r0, c0) && InBox(r0, c0, i, j)
    ensures 0 <= (i - r0) * 3 + (j - c0) < 9
    ensures BoxValues(g, r0, c0)[(i - r0) * 3 + (j - c0)] == g[i][j]
  {
    var t := (i - r0) * 3 + (j - c0);
    Arith.Flatten(3, i - r0, j - c0);
  }

  /** g with its box at (r0, c0) overwritten by nine values in row-major order. */
  function WriteBox(g: Grid, r0: int, c0: int, vals: seq<int>): (h: Grid)
    requires Square(g) && IsBoxStart(|g|, r0, c0) && |vals| == 9
    ensures Square(h) && |h| == |g|
    ensures forall i, j :: InGrid(g, i, j) && !InBox(r0, c0, i, j) ==> h[i][j] == g[i][j]
    ensures BoxValues(h, r0, c0) == vals
  {
    var h := seq(|g|, i requires 0 <= i < |g| =>
      seq(|g[i]|, j requires 0 <= j < |g[i]| =>
        if InBox(r0, c0, i, j) then vals[(i - r0) * 3 + (j - c0)] else g[i][j]));
    Arith.BoxOffsets();
    h
  }

  /** Writing values that agree with the box on its nonzero cells keeps every
      nonzero cell of the grid. */
  lemma WriteBoxKeepsNonZeros(g: Grid, r0: int, c0: int, vals: seq<int>)
    requires Square(g) && IsBoxStart(|g|, r0, c0) && |vals| == 9
    requires forall k :: 0 <= k < 9 && BoxValues(g, r0, c0)[k] != 0 ==> vals[k] == BoxValues(g, r0, c0)[k]
    ensures forall i, j :: InGrid(g, i, j) && g[i][j] != 0 ==> WriteBox(g, r0, c0, vals)[i][j] == g[i][j]
  {
    var h := WriteBox(g, r0, c0, vals);
    forall i, j | InGrid(g, i, j) && g[i][j] != 0 && InBox(r0, c0, i, j) ensures h[i][j] == g[i][j] {
      BoxValuesAt(g, r0, c0, i, j);
      BoxValuesAt(h, r0, c0, i, j);
    }
  }

  /** No nonzero value occurs twice. */
  predicate NoRepeatNonZero(s: seq<int>) {
    forall i, j :: 0 <= i < j < |s| && s[i] != 0 ==> s[i] != s[j]
  }

  /** The number of zero entries. */
  function CountZeros(s: seq<int>): (z: nat)
    ensures z <= |s|
  {
    if s == [] then 0 else (if s[0] == 0 then 1 else 0) + CountZeros(s[1..])
  }

  /** The nonzero entries, in order. */
  function NonZeros(s: seq<int>): (r: seq<int>)
    ensures |r| + CountZeros(s) == |s|
    ensures forall x :: x in r <==> x in s && x != 0
  {
    if s == [] then [] else (if s[0] == 0 then [] else [s[0]]) + NonZeros(s[1..])
  }

  /** Positions of an n x n grid in row-major order; the cell list
      `removeCells` builds before shuffling. */
  function AllPositions(n: nat): (ps: seq<Pos>)
    ensures |ps| == n * n && Distinct(ps)
    ensures forall k :: 0 <= k < |ps| ==> 0 <= ps[k].0 < n && 0 <= ps[k].1 < n
  {
    if n == 0 then []
    else
      var ps := seq(n * n, k requires 0 <= k < n * n => (k / n, k % n));
      forall k | 0 <= k < n * n ensures 0 <= k / n < n {
        Arith.DivBelow(n, n, k);
      }
      assert Distinct(ps) by {
        forall a, b | 0 <= a < b < |ps| ensures ps[a] != ps[b] {
          var qa, ra, qb, rb := a / n, a % n, b / n, b % n;
          assert a == n * qa + ra && b == n * qb + rb;
          if qa == qb && ra == rb {
            assert false;
          }
        }
      }
      ps
  }

  /** Start of the block of size b holding index x, `Math.floor(x / b) * b`,
      found by stepping back one block at a time; `BlockStartIs` gives the
      closed form. */
  function BlockStart(b: int, x: int): (s: int)
    requires b > 0 && 0 <= x
    ensures 0 <= s <= x < s + b
    decreases x
  {
    if x < b then 0 else BlockStart(b, x - b) + b
  }

  lemma {:induction false} BlockStartIs(b: int, x: int)
    requires b > 0 && 0 <= x
    ensures BlockStart(b, x) == (x / b) * b
    decreases x
  {
    if x >= b {
      BlockStartIs(b, x - b);
      Arith.DivStep(b, x);
    }
  }

  /** In an n x n grid with blocks of side b, the block of x ends inside the
      grid. */
  lemma BlockStartFits(b: int, n: int, x: int)
    requires b > 0 && Arith.Sq(b) == n && 0 <= x < n
    ensures BlockStart(b, x) + b <= n
  {
    BlockStartIs(b, x);
    Arith.SqIsProduct(b);
    Arith.DivBelow(b, b, x);
    Arith.BlockBound(b, b, x / b, b - 1);
  }


  /** y lies in the block of x exactly when both have the same block start. */
  lemma {:induction false} SameBlockIff(b: int, x: int, y: int)
    requires b > 0 && 0 <= x && 0 <= y
    ensures BlockStart(b, x) <= y < BlockStart(b, x) + b <==> BlockStart(b, y) == BlockStart(b, x)
    decreases y
  {
    var s := BlockStart(b, x);
    if s <= y < s + b && y >= b {
      assert s != 0;
      SameBlockIff(b, x - b, y - b);
    }
  }

  /** Two cells lie in the same b x b block. */
  predicate SameBox(b: int, r1: int, c1: int, r2: int, c2: int)
    requires b > 0
  {
    0 <= r1 && 0 <= c1 && 0 <= r2 && 0 <= c2 &&
    BlockStart(b, r1) == BlockStart(b, r2) && BlockStart(b, c1) == BlockStart(b, c2)
  }

  /** The same block start means the same quotient by b, as the source
      computes it. */
  lemma SameBlockDiv(b: int, x: int, y: int)
    requires b > 0 && 0 <= x && 0 <= y
    ensures BlockStart(b, x) == BlockStart(b, y) <==> x / b == y / b
  {
    var q := x / b;
    BlockStartIs(b, x);
    assert BlockStart(b, x) == b * q;
    SameBlockIff(b, x, y);
    Arith.InBlock(b, q, y);
  }

  lemma SameBoxDiv(b: int, r1: int, c1: int, r2: int, c2: int)
    requires b > 0 && 0 <= r1 && 0 <= c1 && 0 <= r2 && 0 <= c2
    ensures SameBox(b, r1, c1, r2, c2) <==> r1 / b == r2 / b && c1 / b == c2 / b
  {
    SameBlockDiv(b, r1, r2);
    SameBlockDiv(b, c1, c2);
  }

  /** Two different cells share a row, a column or a block. */
  predicate SameUnit(b: int, r1: int, c1: int, r2: int, c2: int)
    requires b > 0
  {
    (r1, c1) != (r2, c2) && (r1 == r2 || c1 == c2 || SameBox(b, r1, c1, r2, c2))
  }

  /** No nonzero value occurs twice in a row, a column or a b x b block. */
  predicate NoUnitRepeat(g: Grid, b: int)
    requires Square(g) && b > 0
  {
    forall r1, c1, r2, c2 {:trigger SameUnit(b, r1, c1, r2, c2)} ::
      (0 <= r1 < |g| && 0 <= c1 < |g| && 0 <= r2 < |g| && 0 <= c2 < |g| &&
      SameUnit(b, r1, c1, r2, c2) && g[r1][c1] != 0) ==> g[r1][c1] != g[r2][c2]
  }

  /** No cell is 0. */
  predicate NoZero(g: Grid) {
    forall i, j :: 0 <= i < |g| && 0 <= j < |g[i]| ==> g[i][j] != 0
  }

  /** Every cell holds 0 or a value in 1..n. */
  predicate CellsUpTo(g: Grid, n: int) {
    forall i, j :: 0 <= i < |g| && 0 <= j < |g[i]| ==> 0 <= g[i][j] <= n
  }

  /** Number of zero cells of the grid. */
  function ZeroCells(g: Grid): nat {
    if g == [] then 0 else CountZeros(g[0]) + ZeroCells(g[1..])
  }

  function ZeroMark(v: int): nat {
    if v == 0 then 1 else 0
  }

  lemma {:induction false} CountZerosUpdate(row: seq<int>, j: nat, v: int)
    requires j < |row|
    ensures CountZeros(row[j := v]) == CountZeros(row) - ZeroMark(row[j]) + ZeroMark(v)
  {
    if j > 0 {
      CountZerosUpdate(row[1..], j - 1, v);
      assert row[j := v][1..] == row[1..][j - 1 := v];
    }
  }

  /** Writing one cell changes the zero count by the change of that cell alone. */
  lemma {:induction false} ZeroCellsSet(g: Grid, i: int, j: int, v: int)
    requires InGrid(g, i, j)
    ensures ZeroCells(Set(g, i, j, v)) == ZeroCells(g) - ZeroMark(g[i][j]) + ZeroMark(v)
  {
    if i == 0 {
      CountZerosUpdate(g[0], j, v);
      assert Set(g, i, j, v)[1..] == g[1..];
    } else {
      ZeroCellsSet(g[1..], i - 1, j, v);
      assert Set(g, i, j, v)[1..] == Set(g[1..], i - 1, j, v);
    }
  }

  /** Writing a cell and then writing back its old value restores the grid. */
  lemma SetRestore(g: Grid, i: int, j: int, v: int)
    requires InGrid(g, i, j)
    ensures Set(Set(g, i, j, v), i, j, g[i][j]) == g
  {
    assert g[i][j := v][j := g[i][j]] == g[i];
  }

  /** Writing a value within 0..n keeps every cell within 0..n. */
  lemma SetKeepsCellsUpTo(g: Grid, i: int, j: int, v: int, n: int)
    requires InGrid(g, i, j) && 0 <= v <= n
    ensures CellsUpTo(g, n) ==> CellsUpTo(Set(g, i, j, v), n)
  {
  }

  /** h is g with some cells set to 0. */
  predicate Clears(g: Grid, h: Grid) {
    forall i, j :: 0 <= i < |g| && 0 <= j < |g[i]| && InGrid(h, i, j) ==> h[i][j] == g[i][j] || h[i][j] == 0
  }

  /** Blanking cells creates no repeat and no value out of range. */
  lemma ClearsKeeps(g: Grid, h: Grid, b: int, n: int)
    requires Square(g) && IsSquare(h, |g|) && b > 0 && Clears(g, h)
    ensures NoUnitRepeat(g, b) ==> NoUnitRepeat(h, b)
    ensures CellsUpTo(g, n) ==> CellsUpTo(h, n)
  {
  }

  lemma {:induction false} CountZerosNone(row: seq<int>)
    requires forall j :: 0 <= j < |row| ==> row[j] != 0
    ensures CountZeros(row) == 0
  {
    if row != [] {
      CountZerosNone(row[1..]);
    }
  }

  /** A grid without zeros has zero count 0. */
  lemma {:induction false} ZeroCellsNone(g: Grid)
    requires NoZero(g)
    ensures ZeroCells(g) == 0
  {
    if g != [] {
      CountZerosNone(g[0]);
      ZeroCellsNone(g[1..]);
    }
  }
}
