/** The two stand-alone checks of the web engine (sudoku-engine.js) on a 9x9
    grid with 0 for an empty cell: `isValidPuzzle`, which accepts a puzzle
    whose entries are in 0..9 and whose givens do not clash, and
    `isPerfectSolution`, which accepts a full grid with no repeat in any row,
    column or 3x3 box. */
module EngineChecks {
  import opened Util
  import opened Grids
  import Arith

  /** The three loops `isValidPuzzle` runs for the cell (i, j) when it holds a
      nonzero value: the rest of the row, the rest of the column, and the
      cells of the 3x3 box that share neither the row nor the column. */
  predicate NoConflictAt(g: Grid, i: int, j: int)
    requires IsSquare(g, 9) && 0 <= i < 9 && 0 <= j < 9
  {
    var num := g[i][j];
    var r0 := BlockStart(3, i);
    var c0 := BlockStart(3, j);
    BlockStartFits(3, 9, i);
    BlockStartFits(3, 9, j);
    num != 0 ==>
      (forall k :: 0 <= k < 9 && k != j ==> g[i][k] != num) &&
      (forall k :: 0 <= k < 9 && k != i ==> g[k][j] != num) &&
      (forall x, y :: r0 <= x < r0 + 3 && c0 <= y < c0 + 3 && x != i && y != j ==> g[x][y] != num)
  }

  /** `isValidPuzzle`: every entry in 0..9, and no conflict at any cell. */
  predicate IsValidPuzzle(g: Grid)
    requires IsSquare(g, 9)
  {
    CellsUpTo(g, 9) && forall i, j :: 0 <= i < 9 && 0 <= j < 9 ==> NoConflictAt(g, i, j)
  }

  /** The box loop skips the cells in line with the tested cell, but the row
      and column loops have covered those, so the check accepts exactly the
      grids over 0..9 with no repeated given in any row, column or box. */
  lemma IsValidPuzzleIff(g: Grid)
    requires IsSquare(g, 9)
    ensures IsValidPuzzle(g) <==> CellsUpTo(g, 9) && NoUnitRepeat(g, 3)
  {
    if IsValidPuzzle(g) {
      forall r1, c1, r2, c2 | 0 <= r1 < 9 && 0 <= c1 < 9 && 0 <= r2 < 9 && 0 <= c2 < 9 &&
        SameUnit(3, r1, c1, r2, c2) && g[r1][c1] != 0
        ensures g[r1][c1] != g[r2][c2]
      {
        assert NoConflictAt(g, r1, c1);
      }
    }
    if CellsUpTo(g, 9) && NoUnitRepeat(g, 3) {
      forall i, j | 0 <= i < 9 && 0 <= j < 9 ensures NoConflictAt(g, i, j) {
        var r0 := BlockStart(3, i);
        var c0 := BlockStart(3, j);
        BlockStartFits(3, 9, i);
        BlockStartFits(3, 9, j);
        forall x, y | r0 <= x < r0 + 3 && c0 <= y < c0 + 3 && x != i && y != j && g[i][j] != 0
          ensures g[x][y] != g[i][j]
        {
          SameBlockIff(3, i, x);
          SameBlockIff(3, j, y);
          assert SameUnit(3, i, j, x, y);
        }
        assert g[i][j] != 0 ==> forall k :: 0 <= k < 9 && k != j ==> g[i][k] != g[i][j] by {
          if g[i][j] != 0 {
            forall k | 0 <= k < 9 && k != j ensures g[i][k] != g[i][j] {
              assert SameUnit(3, i, j, i, k);
            }
          }
        }
        assert g[i][j] != 0 ==> forall k :: 0 <= k < 9 && k != i ==> g[k][j] != g[i][j] by {
          if g[i][j] != 0 {
            forall k | 0 <= k < 9 && k != i ensures g[k][j] != g[i][j] {
              assert SameUnit(3, i, j, k, j);
            }
          }
        }
      }
    }
  }

  /** The `Set`-based scan of one unit: false at the first 0 or at the first
      value already seen. */
  function ScanUnit(s: seq<int>, seen: set<int>): bool
    decreases |s|
  {
    if s == [] then true
    else if s[0] == 0 || s[0] in seen then false
    else ScanUnit(s[1..], seen + {s[0]})
  }

  /** A scan passes exactly when the unit has no 0, no value seen before it,
      and no repeat. */
  lemma {:induction false} ScanUnitIff(s: seq<int>, seen: set<int>)
    ensures ScanUnit(s, seen) <==> (forall k :: 0 <= k < |s| ==> s[k] != 0 && s[k] !in seen) && Distinct(s)
    decreases |s|
  {
    if s != [] {
      ScanUnitIff(s[1..], seen + {s[0]});
      DistinctCons(s[0], s[1..]);
      assert s == [s[0]] + s[1..];
      if (forall k :: 0 <= k < |s| ==> s[k] != 0 && s[k] !in seen) && Distinct(s) {
        forall k | 0 <= k < |s| - 1 ensures s[1..][k] != 0 && s[1..][k] !in seen + {s[0]} {
          assert s[1..][k] == s[k + 1];
        }
      }
      if ScanUnit(s, seen) {
        forall k | 0 <= k < |s| ensures s[k] != 0 && s[k] !in seen {
          if k > 0 {
            assert s[k] == s[1..][k - 1];
          }
        }
      }
    }
  }

  /** `isPerfectSolution`: the row and column scans, then the scan of each of
      the nine boxes, whose cells are read row by row. */
  predicate IsPerfectSolution(g: Grid)
    requires IsSquare(g, 9)
  {
    (forall i :: 0 <= i < 9 ==> ScanUnit(g[i], {}) && ScanUnit(Column(g, i), {})) &&
    (forall bi, bj :: 0 <= bi < 3 && 0 <= bj < 3 ==> ScanUnit(BoxValues(g, 3 * bi, 3 * bj), {}))
  }

  /** Two cells of the same box sit at different places of the box's list. */
  lemma BoxCells(g: Grid, r1: int, c1: int, r2: int, c2: int)
    requires IsSquare(g, 9) && 0 <= r1 < 9 && 0 <= c1 < 9 && 0 <= r2 < 9 && 0 <= c2 < 9
    requires SameBox(3, r1, c1, r2, c2) && (r1, c1) != (r2, c2)
    ensures var r0, c0 := 3 * (r1 / 3), 3 * (c1 / 3);
      IsBoxStart(9, r0, c0) && InBox(r0, c0, r1, c1) && InBox(r0, c0, r2, c2) &&
      (r1 - r0) * 3 + (c1 - c0) != (r2 - r0) * 3 + (c2 - c0)
  {
    var r0, c0 := 3 * (r1 / 3), 3 * (c1 / 3);
    SameBoxDiv(3, r1, c1, r2, c2);
    Arith.InBlock(3, r1 / 3, r1);
    Arith.InBlock(3, c1 / 3, c1);
    Arith.InBlock(3, r1 / 3, r2);
    Arith.InBlock(3, c1 / 3, c2);
    Arith.Flatten(3, r1 - r0, c1 - c0);
    Arith.Flatten(3, r2 - r0, c2 - c0);
  }

  /** `isPerfectSolution` accepts exactly the grids without a 0 and without a
      repeat in any row, column or box. */
  lemma IsPerfectSolutionIff(g: Grid)
    requires IsSquare(g, 9)
    ensures IsPerfectSolution(g) <==> NoZero(g) && NoUnitRepeat(g, 3)
  {
    if IsPerfectSolution(g) {
      PerfectIsSolved(g);
    }
    if NoZero(g) && NoUnitRepeat(g, 3) {
      SolvedIsPerfect(g);
    }
  }

  lemma PerfectIsSolved(g: Grid)
    requires IsSquare(g, 9) && IsPerfectSolution(g)
    ensures NoZero(g) && NoUnitRepeat(g, 3)
  {
    forall i, k | 0 <= i < 9 && 0 <= k < 9 ensures g[i][k] != 0 {
      ScanUnitIff(g[i], {});
    }
    forall r1, c1, r2, c2 | 0 <= r1 < 9 && 0 <= c1 < 9 && 0 <= r2 < 9 && 0 <= c2 < 9 &&
      SameUnit(3, r1, c1, r2, c2) && g[r1][c1] != 0
      ensures g[r1][c1] != g[r2][c2]
    {
      if r1 == r2 {
        PerfectRow(g, r1, c1, c2);
      } else if c1 == c2 {
        PerfectColumn(g, c1, r1, r2);
      } else {
        PerfectBox(g, r1, c1, r2, c2);
      }
    }
  }

  lemma PerfectRow(g: Grid, i: int, a: int, b: int)
    requires IsSquare(g, 9) && IsPerfectSolution(g) && 0 <= i < 9 && 0 <= a < 9 && 0 <= b < 9 && a != b
    ensures g[i][a] != g[i][b]
  {
    ScanUnitIff(g[i], {});
    if a > b {
      assert g[i][b] != g[i][a];
    }
  }

  lemma PerfectColumn(g: Grid, j: int, a: int, b: int)
    requires IsSquare(g, 9) && IsPerfectSolution(g) && 0 <= j < 9 && 0 <= a < 9 && 0 <= b < 9 && a != b
    ensures g[a][j] != g[b][j]
  {
    var col := Column(g, j);
    ScanUnitIff(col, {});
    assert col[a] == g[a][j] && col[b] == g[b][j];
    if a > b {
      assert col[b] != col[a];
    }
  }

  lemma PerfectBox(g: Grid, r1: int, c1: int, r2: int, c2: int)
    requires IsSquare(g, 9) && IsPerfectSolution(g)
    requires 0 <= r1 < 9 && 0 <= c1 < 9 && 0 <= r2 < 9 && 0 <= c2 < 9
    requires SameBox(3, r1, c1, r2, c2) && (r1, c1) != (r2, c2)
    ensures g[r1][c1] != g[r2][c2]
  {
    BoxCells(g, r1, c1, r2, c2);
    var bi, bj := r1 / 3, c1 / 3;
    Arith.DivBelow(3, 3, r1);
    Arith.DivBelow(3, 3, c1);
    var v := BoxValues(g, 3 * bi, 3 * bj);
    ScanUnitIff(v, {});
    var k1, k2 := (r1 - 3 * bi) * 3 + (c1 - 3 * bj), (r2 - 3 * bi) * 3 + (c2 - 3 * bj);
    BoxValuesAt(g, 3 * bi, 3 * bj, r1, c1);
    BoxValuesAt(g, 3 * bi, 3 * bj, r2, c2);
    if k1 > k2 {
      assert v[k2] != v[k1];
    }
  }

  lemma SolvedIsPerfect(g: Grid)
    requires IsSquare(g, 9) && NoZero(g) && NoUnitRepeat(g, 3)
    ensures IsPerfectSolution(g)
  {
    forall i | 0 <= i < 9 ensures ScanUnit(g[i], {}) && ScanUnit(Column(g, i), {}) {
      SolvedLinesScan(g, i);
    }
    forall bi, bj | 0 <= bi < 3 && 0 <= bj < 3 ensures ScanUnit(BoxValues(g, 3 * bi, 3 * bj), {}) {
      SolvedBoxScans(g, bi, bj);
    }
  }

  /** Row i and column i of a solved grid pass their scans. */
  lemma SolvedLinesScan(g: Grid, i: int)
    requires IsSquare(g, 9) && NoZero(g) && NoUnitRepeat(g, 3) && 0 <= i < 9
    ensures ScanUnit(g[i], {}) && ScanUnit(Column(g, i), {})
  {
    ScanUnitIff(g[i], {});
    ScanUnitIff(Column(g, i), {});
    forall a, b | 0 <= a < b < 9 ensures g[i][a] != g[i][b] {
      assert SameUnit(3, i, a, i, b);
    }
    var col := Column(g, i);
    forall a, b | 0 <= a < b < 9 ensures col[a] != col[b] {
      assert SameUnit(3, a, i, b, i);
    }
  }

  /** Box (bi, bj) of a solved grid passes its scan. */
  lemma SolvedBoxScans(g: Grid, bi: int, bj: int)
    requires IsSquare(g, 9) && NoZero(g) && NoUnitRepeat(g, 3) && 0 <= bi < 3 && 0 <= bj < 3
    ensures ScanUnit(BoxValues(g, 3 * bi, 3 * bj), {})
  {
    var v := BoxValues(g, 3 * bi, 3 * bj);
    ScanUnitIff(v, {});
    forall a, b | 0 <= a < b < 9 ensures v[a] != v[b] {
      BoxSlotsDiffer(g, bi, bj, a, b);
    }
  }

  /** Two slots of a box of a solved grid hold different values. */
  lemma BoxSlotsDiffer(g: Grid, bi: int, bj: int, a: int, b: int)
    requires IsSquare(g, 9) && NoZero(g) && NoUnitRepeat(g, 3) && 0 <= bi < 3 && 0 <= bj < 3
    requires 0 <= a < b < 9
    ensures BoxValues(g, 3 * bi, 3 * bj)[a] != BoxValues(g, 3 * bi, 3 * bj)[b]
  {
    BoxSlot(bi, bj, a);
    BoxSlot(bi, bj, b);
    var r1, c1 := 3 * bi + a / 3, 3 * bj + a % 3;
    var r2, c2 := 3 * bi + b / 3, 3 * bj + b % 3;
    SameBoxDiv(3, r1, c1, r2, c2);
    assert SameUnit(3, r1, c1, r2, c2);
    assert g[r1][c1] != g[r2][c2];
  }

  /** Slot k of box (bi, bj) is a cell of that box, and different slots are
      different cells. */
  lemma BoxSlot(bi: int, bj: int, k: int)
    requires 0 <= bi < 3 && 0 <= bj < 3 && 0 <= k < 9
    ensures 0 <= k / 3 < 3 && 0 <= k % 3 < 3
    ensures (3 * bi + k / 3) / 3 == bi && (3 * bj + k % 3) / 3 == bj
    ensures k == (k / 3) * 3 + k % 3
  {
    Arith.DivBelow(3, 3, k);
    Arith.DivMod(3, bi, k / 3);
    Arith.DivMod(3, bj, k % 3);
  }
}
