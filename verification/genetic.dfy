/** The single-grid genetic solver of the web front end (genetic-solver.js).

    An individual is the puzzle with every empty cell filled so that each
    3x3 box holds the digits missing from it; fitness counts repeated values
    in rows and columns; crossover mixes two parents along the list of the
    puzzle's empty cells; mutation exchanges two puzzle-empty cells of one
    box.  Every random draw is read from a roll stream (see `Util.Pick`); the
    float draws (`Math.random() < mutationRate`, the roulette wheel) are
    passed in as their outcomes. */
module GeneticSolver {
  import opened Util
  import opened Grids
  import opened BoxOps
  import opened Arith

  // ---------------------------------------------------------------- empty cells

  /** Zero positions of row i from column j on, left to right. */
  function EmptyInRow(g: Grid, i: int, j: nat): (r: seq<Pos>)
    requires Square(g) && 0 <= i < |g| && j <= |g|
    ensures forall p :: p in r <==> p.0 == i && j <= p.1 < |g| && g[i][p.1] == 0
    ensures forall a, b :: 0 <= a < b < |r| ==> r[a].1 < r[b].1
    decreases |g| - j
  {
    if j == |g| then []
    else
      var rest := EmptyInRow(g, i, j + 1);
      assert forall a :: 0 <= a < |rest| ==> rest[a] in rest;
      (if g[i][j] == 0 then [(i, j)] else []) + rest
  }

  /** Zero positions of rows i.. in row-major order. */
  function EmptyRows(g: Grid, i: nat): (r: seq<Pos>)
    requires Square(g) && i <= |g|
    ensures forall p :: p in r <==> i <= p.0 < |g| && 0 <= p.1 < |g| && g[p.0][p.1] == 0
    ensures forall a, b :: 0 <= a < b < |r| ==> Earlier(r[a], r[b])
    decreases |g| - i
  {
    if i == |g| then []
    else
      var row := EmptyInRow(g, i, 0);
      var rest := EmptyRows(g, i + 1);
      assert forall a :: 0 <= a < |row| ==> row[a] in row;
      assert forall a :: 0 <= a < |rest| ==> rest[a] in rest;
      row + rest
  }

  /** `findEmptyCells`: exactly the positions holding 0, in row-major order,
      each once. */
  function FindEmptyCells(g: Grid): (r: seq<Pos>)
    requires Square(g)
    ensures forall p :: p in r <==> 0 <= p.0 < |g| && 0 <= p.1 < |g| && g[p.0][p.1] == 0
    ensures forall a, b :: 0 <= a < b < |r| ==> Earlier(r[a], r[b])
    ensures Distinct(r)
  {
    EmptyRows(g, 0)
  }

  // ---------------------------------------------------------------- individuals

  /** A box coordinate of a 9x9 grid. */
  predicate IsStart(x: int) {
    x == 0 || x == 3 || x == 6
  }

  /** A list of distinct box corners. */
  predicate StartsOk(starts: seq<Pos>) {
    Distinct(starts) && forall k :: 0 <= k < |starts| ==> IsStart(starts[k].0) && IsStart(starts[k].1)
  }

  /** The box corners in the order `createValidIndividual` visits them. */
  function BoxStarts(): (s: seq<Pos>)
    ensures |s| == 9 && StartsOk(s)
  {
    [(0, 0), (0, 3), (0, 6), (3, 0), (3, 3), (3, 6), (6, 0), (6, 3), (6, 6)]
  }

  /** The corner of the box holding cell (i, j). */
  function CellBox(i: int, j: int): (s: Pos)
    requires 0 <= i < 9 && 0 <= j < 9
    ensures IsStart(s.0) && IsStart(s.1) && InBox(s.0, s.1, i, j)
  {
    (if i < 3 then 0 else if i < 6 then 3 else 6, if j < 3 then 0 else if j < 6 then 3 else 6)
  }

  /** The place of a box corner in the visiting order. */
  function StartIndex(s: Pos): (k: nat)
    requires IsStart(s.0) && IsStart(s.1)
    ensures k < 9 && BoxStarts()[k] == s
  {
    (if s.0 == 0 then 0 else if s.0 == 3 then 3 else 6) + (if s.1 == 0 then 0 else if s.1 == 3 then 1 else 2)
  }

  /** Two boxes of the 9x9 tiling that share a cell are the same box. */
  lemma BoxesApart(a: Pos, b: Pos, i: int, j: int)
    requires IsStart(a.0) && IsStart(a.1) && IsStart(b.0) && IsStart(b.1)
    requires a != b && InBox(a.0, a.1, i, j)
    ensures !InBox(b.0, b.1, i, j)
  {
  }

  /** Fill the boxes of the list in turn, each with the draws left over by the
      shuffles of the boxes before it. */
  function FillAll(g: Grid, starts: seq<Pos>, rolls: seq<nat>): (h: Grid)
    requires IsSquare(g, 9) && forall k :: 0 <= k < |starts| ==> IsStart(starts[k].0) && IsStart(starts[k].1)
    ensures IsSquare(h, 9)
    decreases |starts|
  {
    if starts == [] then g
    else
      var r0 := starts[0].0;
      var c0 := starts[0].1;
      assert IsStart(r0) && IsStart(c0);
      FillAll(FillBox(g, r0, c0, rolls), starts[1..], FillRolls(g, r0, c0, rolls))
  }

  /** Filling the boxes keeps every given, and every cell outside the listed
      boxes. */
  lemma FillAllFrame(g: Grid, starts: seq<Pos>, rolls: seq<nat>)
    requires IsSquare(g, 9) && forall k :: 0 <= k < |starts| ==> IsStart(starts[k].0) && IsStart(starts[k].1)
    ensures forall i, j :: 0 <= i < 9 && 0 <= j < 9 && g[i][j] != 0 ==> FillAll(g, starts, rolls)[i][j] == g[i][j]
    ensures forall i, j :: (0 <= i < 9 && 0 <= j < 9 &&
      forall k :: 0 <= k < |starts| ==> !InBox(starts[k].0, starts[k].1, i, j)) ==> FillAll(g, starts, rolls)[i][j] == g[i][j]
  {
    FillAllGivens(g, starts, rolls);
    FillAllOutside(g, starts, rolls);
  }

  lemma {:induction false} FillAllGivens(g: Grid, starts: seq<Pos>, rolls: seq<nat>)
    requires IsSquare(g, 9) && forall k :: 0 <= k < |starts| ==> IsStart(starts[k].0) && IsStart(starts[k].1)
    ensures forall i, j :: 0 <= i < 9 && 0 <= j < 9 && g[i][j] != 0 ==> FillAll(g, starts, rolls)[i][j] == g[i][j]
    decreases |starts|
  {
    if starts != [] {
      var r0, c0 := starts[0].0, starts[0].1;
      var g1 := FillBox(g, r0, c0, rolls);
      FillBoxFrame(g, r0, c0, rolls);
      FillAllGivens(g1, starts[1..], FillRolls(g, r0, c0, rolls));
      assert FillAll(g, starts, rolls) == FillAll(g1, starts[1..], FillRolls(g, r0, c0, rolls));
    }
  }

  lemma {:induction false} FillAllOutside(g: Grid, starts: seq<Pos>, rolls: seq<nat>)
    requires IsSquare(g, 9) && forall k :: 0 <= k < |starts| ==> IsStart(starts[k].0) && IsStart(starts[k].1)
    ensures forall i, j :: (0 <= i < 9 && 0 <= j < 9 &&
      forall k :: 0 <= k < |starts| ==> !InBox(starts[k].0, starts[k].1, i, j)) ==> FillAll(g, starts, rolls)[i][j] == g[i][j]
    decreases |starts|
  {
    if starts != [] {
      var r0, c0 := starts[0].0, starts[0].1;
      var g1 := FillBox(g, r0, c0, rolls);
      FillBoxFrame(g, r0, c0, rolls);
      var rest := starts[1..];
      FillAllOutside(g1, rest, FillRolls(g, r0, c0, rolls));
      var h := FillAll(g, starts, rolls);
      assert h == FillAll(g1, rest, FillRolls(g, r0, c0, rolls));
      forall i, j | 0 <= i < 9 && 0 <= j < 9 &&
        forall k :: 0 <= k < |starts| ==> !InBox(starts[k].0, starts[k].1, i, j)
        ensures h[i][j] == g[i][j]
      {
        assert !InBox(r0, c0, i, j);
        forall k | 0 <= k < |rest| ensures !InBox(rest[k].0, rest[k].1, i, j) {
          assert rest[k] == starts[k + 1];
        }
      }
    }
  }

  /** The draws left after filling the box at (r0, c0): its shuffle reads one
      draw per missing digit but the first. */
  function FillRolls(g: Grid, r0: int, c0: int, rolls: seq<nat>): (r: seq<nat>)
    requires IsSquare(g, 9) && IsStart(r0) && IsStart(c0)
    ensures |r| <= |rolls|
  {
    Drop(rolls, ShuffleCost(|Missing(BoxValues(g, r0, c0))|))
  }

  /** Filling one box leaves every other box as it was. */
  lemma FillBoxOther(g: Grid, s0: Pos, s: Pos, rolls: seq<nat>)
    requires IsSquare(g, 9) && IsStart(s0.0) && IsStart(s0.1) && IsStart(s.0) && IsStart(s.1) && s != s0
    ensures BoxValues(FillBox(g, s0.0, s0.1, rolls), s.0, s.1) == BoxValues(g, s.0, s.1)
  {
    FillBoxFrame(g, s0.0, s0.1, rolls);
    BoxUntouchedBy(g, FillBox(g, s0.0, s0.1, rolls), s, s0);
  }

  /** Filling a box depends only on the box's own values. */
  lemma FillBoxLocal(g: Grid, g': Grid, r0: int, c0: int, rolls: seq<nat>)
    requires IsSquare(g, 9) && IsSquare(g', 9) && IsStart(r0) && IsStart(c0)
    requires BoxValues(g, r0, c0) == BoxValues(g', r0, c0)
    ensures BoxValues(FillBox(g, r0, c0, rolls), r0, c0) == BoxValues(FillBox(g', r0, c0, rolls), r0, c0)
  {
  }

  /** A box outside every box of the list keeps its values. */
  lemma BoxUntouched(g: Grid, h: Grid, s: Pos, others: seq<Pos>)
    requires IsSquare(g, 9) && IsSquare(h, 9) && IsStart(s.0) && IsStart(s.1)
    requires forall k :: 0 <= k < |others| ==> IsStart(others[k].0) && IsStart(others[k].1) && others[k] != s
    requires forall i, j :: (0 <= i < 9 && 0 <= j < 9 &&
      forall k :: 0 <= k < |others| ==> !InBox(others[k].0, others[k].1, i, j)) ==> h[i][j] == g[i][j]
    ensures BoxValues(h, s.0, s.1) == BoxValues(g, s.0, s.1)
  {
    forall t | 0 <= t < 9 ensures BoxValues(h, s.0, s.1)[t] == BoxValues(g, s.0, s.1)[t] {
      var i, j := s.0 + t / 3, s.1 + t % 3;
      forall k | 0 <= k < |others| ensures !InBox(others[k].0, others[k].1, i, j) {
        BoxesApart(s, others[k], i, j);
      }
    }
  }

  /** A box other than the one box that changed keeps its values. */
  lemma BoxUntouchedBy(g: Grid, h: Grid, s: Pos, other: Pos)
    requires IsSquare(g, 9) && IsSquare(h, 9) && IsStart(s.0) && IsStart(s.1)
    requires IsStart(other.0) && IsStart(other.1) && other != s
    requires forall i, j :: 0 <= i < 9 && 0 <= j < 9 && !InBox(other.0, other.1, i, j) ==> h[i][j] == g[i][j]
    ensures BoxValues(h, s.0, s.1) == BoxValues(g, s.0, s.1)
  {
    forall t | 0 <= t < 9 ensures BoxValues(h, s.0, s.1)[t] == BoxValues(g, s.0, s.1)[t] {
      BoxesApart(s, other, s.0 + t / 3, s.1 + t % 3);
    }
  }

  /** Each listed box of the result is what filling that box of the input
      alone, with some roll stream rs, would give. */
  lemma {:induction false} FillAllBox(g: Grid, starts: seq<Pos>, rolls: seq<nat>, k: nat) returns (rs: seq<nat>)
    requires IsSquare(g, 9) && StartsOk(starts) && k < |starts|
    ensures BoxValues(FillAll(g, starts, rolls), starts[k].0, starts[k].1) ==
      BoxValues(FillBox(g, starts[k].0, starts[k].1, rs), starts[k].0, starts[k].1)
    decreases |starts|, 1
  {
    if k == 0 {
      rs := rolls;
      FillAllFirst(g, starts, rolls);
    } else {
      rs := FillAllBoxLater(g, starts, rolls, k);
    }
  }

  /** The step of FillAllBox for a box after the first. */
  lemma {:induction false} FillAllBoxLater(g: Grid, starts: seq<Pos>, rolls: seq<nat>, k: nat) returns (rs: seq<nat>)
    requires IsSquare(g, 9) && StartsOk(starts) && 0 < k < |starts|
    ensures BoxValues(FillAll(g, starts, rolls), starts[k].0, starts[k].1) ==
      BoxValues(FillBox(g, starts[k].0, starts[k].1, rs), starts[k].0, starts[k].1)
    decreases |starts|, 0
  {
    StartsOkRest(starts);
    FillAllUnfold(g, starts, rolls);
    var g1 := FillBox(g, starts[0].0, starts[0].1, rolls);
    FillBoxFrame(g, starts[0].0, starts[0].1, rolls);
    rs := FillAllBox(g1, starts[1..], FillRolls(g, starts[0].0, starts[0].1, rolls), k - 1);
    assert starts[1..][k - 1] == starts[k];
    FillAllLater(g, g1, starts, k, rs);
  }

  /** The tail of a list of distinct box corners is one too, without its head. */
  lemma StartsOkRest(starts: seq<Pos>)
    requires StartsOk(starts) && |starts| > 0
    ensures StartsOk(starts[1..])
    ensures forall m :: 0 <= m < |starts| - 1 ==> starts[1..][m] != starts[0]
  {
    var rest := starts[1..];
    assert starts == [starts[0]] + rest;
    DistinctCons(starts[0], rest);
    assert forall m :: 0 <= m < |rest| ==> rest[m] in rest;
  }

  /** The first box of the list ends as its own fill leaves it. */
  lemma FillAllFirst(g: Grid, starts: seq<Pos>, rolls: seq<nat>)
    requires IsSquare(g, 9) && StartsOk(starts) && |starts| > 0
    ensures BoxValues(FillAll(g, starts, rolls), starts[0].0, starts[0].1) ==
      BoxValues(FillBox(g, starts[0].0, starts[0].1, rolls), starts[0].0, starts[0].1)
  {
    var g1 := FillBox(g, starts[0].0, starts[0].1, rolls);
    StartsOkRest(starts);
    FillAllUnfold(g, starts, rolls);
    FillAllFrame(g1, starts[1..], FillRolls(g, starts[0].0, starts[0].1, rolls));
    BoxUntouched(g1, FillAll(g1, starts[1..], FillRolls(g, starts[0].0, starts[0].1, rolls)), starts[0], starts[1..]);
  }

  /** One step of `FillAll`. */
  lemma FillAllUnfold(g: Grid, starts: seq<Pos>, rolls: seq<nat>)
    requires IsSquare(g, 9) && StartsOk(starts) && |starts| > 0
    ensures FillAll(g, starts, rolls) ==
      FillAll(FillBox(g, starts[0].0, starts[0].1, rolls), starts[1..], FillRolls(g, starts[0].0, starts[0].1, rolls))
  {
  }

  /** A later box, once the first box is filled, is filled from the same
      values as in the input. */
  lemma FillAllLater(g: Grid, g1: Grid, starts: seq<Pos>, k: nat, rs: seq<nat>)
    requires IsSquare(g, 9) && IsSquare(g1, 9) && StartsOk(starts) && 0 < k < |starts|
    requires forall i, j :: 0 <= i < 9 && 0 <= j < 9 && !InBox(starts[0].0, starts[0].1, i, j) ==> g1[i][j] == g[i][j]
    ensures BoxValues(FillBox(g1, starts[k].0, starts[k].1, rs), starts[k].0, starts[k].1) ==
      BoxValues(FillBox(g, starts[k].0, starts[k].1, rs), starts[k].0, starts[k].1)
  {
    var s := starts[k];
    assert starts[0] != s;
    BoxUntouchedBy(g, g1, s, starts[0]);
    FillBoxLocal(g1, g, s.0, s.1, rs);
  }

  /** A box whose givens are distinct digits. */
  predicate GivensOk(vals: seq<int>) {
    Distinct(NonZeros(vals)) && forall x :: x in vals && x != 0 ==> 1 <= x <= 9
  }

  /** `createValidIndividual` (with `fillSubgridWithValidNumbers` per box): a
      copy of the puzzle whose givens stay, whose empty cells all receive
      digits, and whose boxes with distinct digit givens become permutations
      of 1..9. */
  function CreateValidIndividual(g: Grid, rolls: seq<nat>): (h: Grid)
    requires IsSquare(g, 9)
    ensures IsSquare(h, 9)
    ensures forall i, j :: 0 <= i < 9 && 0 <= j < 9 && g[i][j] != 0 ==> h[i][j] == g[i][j]
    ensures forall i, j :: 0 <= i < 9 && 0 <= j < 9 && g[i][j] == 0 ==> 1 <= h[i][j] <= 9
    ensures forall k :: 0 <= k < 9 && GivensOk(BoxValues(g, BoxStarts()[k].0, BoxStarts()[k].1)) ==>
      multiset(BoxValues(h, BoxStarts()[k].0, BoxStarts()[k].1)) == multiset(Digits())
  {
    FillAllFrame(g, BoxStarts(), rolls);
    IndividualCells(g, rolls);
    IndividualBoxes(g, rolls);
    FillAll(g, BoxStarts(), rolls)
  }

  lemma IndividualCells(g: Grid, rolls: seq<nat>)
    requires IsSquare(g, 9)
    ensures forall i, j :: 0 <= i < 9 && 0 <= j < 9 && g[i][j] == 0 ==> 1 <= FillAll(g, BoxStarts(), rolls)[i][j] <= 9
  {
    forall i, j | 0 <= i < 9 && 0 <= j < 9 && g[i][j] == 0 ensures 1 <= FillAll(g, BoxStarts(), rolls)[i][j] <= 9 {
      FilledCell(g, BoxStarts(), rolls, StartIndex(CellBox(i, j)), i, j);
    }
  }

  lemma IndividualBoxes(g: Grid, rolls: seq<nat>)
    requires IsSquare(g, 9)
    ensures forall k :: 0 <= k < 9 && GivensOk(BoxValues(g, BoxStarts()[k].0, BoxStarts()[k].1)) ==>
      multiset(BoxValues(FillAll(g, BoxStarts(), rolls), BoxStarts()[k].0, BoxStarts()[k].1)) == multiset(Digits())
  {
    var starts := BoxStarts();
    forall k | 0 <= k < 9 && GivensOk(BoxValues(g, starts[k].0, starts[k].1))
      ensures multiset(BoxValues(FillAll(g, starts, rolls), starts[k].0, starts[k].1)) == multiset(Digits())
    {
      FilledBox(g, starts, rolls, k);
    }
  }

  lemma FilledBox(g: Grid, starts: seq<Pos>, rolls: seq<nat>, k: nat)
    requires IsSquare(g, 9) && StartsOk(starts) && k < |starts|
    requires GivensOk(BoxValues(g, starts[k].0, starts[k].1))
    ensures multiset(BoxValues(FillAll(g, starts, rolls), starts[k].0, starts[k].1)) == multiset(Digits())
  {
    var rs := FillAllBox(g, starts, rolls, k);
    FillBoxPermutation(g, starts[k].0, starts[k].1, rs);
  }

  lemma FilledCell(g: Grid, starts: seq<Pos>, rolls: seq<nat>, k: nat, i: int, j: int)
    requires IsSquare(g, 9) && StartsOk(starts) && k < |starts|
    requires InBox(starts[k].0, starts[k].1, i, j) && g[i][j] == 0
    ensures 1 <= FillAll(g, starts, rolls)[i][j] <= 9
  {
    var r0, c0 := starts[k].0, starts[k].1;
    var h := FillAll(g, starts, rolls);
    var rs := FillAllBox(g, starts, rolls, k);
    FillBoxFillsMissing(g, r0, c0, rs);
    Flatten(3, i - r0, j - c0);
    var t := 3 * (i - r0) + (j - c0);
    BoxValuesAt(g, r0, c0, i, j);
    BoxValuesAt(h, r0, c0, i, j);
  }

  /** h keeps the puzzle's givens and has a digit in every empty cell. */
  predicate IsIndividual(g: Grid, h: Grid)
    requires IsSquare(g, 9)
  {
    IsSquare(h, 9) &&
    forall i, j :: 0 <= i < 9 && 0 <= j < 9 ==>
      (g[i][j] != 0 ==> h[i][j] == g[i][j]) && (g[i][j] == 0 ==> 1 <= h[i][j] <= 9)
  }

  /** `initializePopulation`: `size` fresh individuals, the k-th drawing from
      the k-th roll stream. */
  function InitializePopulation(g: Grid, streams: seq<seq<nat>>): (pop: seq<Grid>)
    requires IsSquare(g, 9)
    ensures |pop| == |streams|
    ensures forall k :: 0 <= k < |pop| ==> IsIndividual(g, pop[k])
  {
    seq(|streams|, k requires 0 <= k < |streams| => CreateValidIndividual(g, streams[k]))
  }

  // ---------------------------------------------------------------- fitness

  /** Σ over the lines of (n − the number of distinct values in the line). */
  function Penalty(lines: seq<seq<int>>, n: int): (p: int)
    ensures (forall k :: 0 <= k < |lines| ==> |lines[k]| == n) ==>
      p >= 0 && (p == 0 <==> forall k :: 0 <= k < |lines| ==> Distinct(lines[k]))
  {
    if lines == [] then 0
    else
      CardSetOf(lines[0]);
      assert forall k :: 0 <= k < |lines| - 1 ==> lines[1..][k] == lines[k + 1];
      (n - |SetOf(lines[0])|) + Penalty(lines[1..], n)
  }

  /** The columns of a square grid. */
  function Columns(g: Grid): (cs: seq<seq<int>>)
    requires Square(g)
    ensures |cs| == |g| && forall j :: 0 <= j < |g| ==> cs[j] == Column(g, j)
  {
    seq(|g|, j requires 0 <= j < |g| => Column(g, j))
  }

  /** `calculateFitness`: 1000, minus 10 per missing distinct value in each row
      and in each column, plus the flat box bonus of 50.  It peaks at 1050,
      reached exactly when no row and no column repeats a value (`FitnessPeak`). */
  function Fitness(ind: Grid): (f: int)
    requires Square(ind)
    ensures f <= 1050
  {
    1000 - Penalty(ind, |ind|) * 10 - Penalty(Columns(ind), |ind|) * 10 + 50
  }

  /** The fitness peaks, at 1050, exactly when no row and no column repeats a
      value. */
  lemma FitnessPeak(ind: Grid)
    requires Square(ind)
    ensures Fitness(ind) == 1050 <==> forall i :: 0 <= i < |ind| ==> Distinct(ind[i]) && Distinct(Column(ind, i))
  {
  }

  /** The early-exit loop over lines of `isPerfectSolution`. */
  function AllLinesFull(lines: seq<seq<int>>, n: int): (ok: bool)
    ensures ok <==> forall k :: 0 <= k < |lines| ==> |SetOf(lines[k])| == n
  {
    if lines == [] then true
    else if |SetOf(lines[0])| != n then false
    else
      assert forall k :: 0 <= k < |lines| - 1 ==> lines[1..][k] == lines[k + 1];
      AllLinesFull(lines[1..], n)
  }

  /** `isPerfectSolution`: every row and every column holds `size` distinct
      values.  Boxes are not looked at. */
  function IsPerfectSolution(ind: Grid): bool
    requires Square(ind)
  {
    AllLinesFull(ind, |ind|) && AllLinesFull(Columns(ind), |ind|)
  }

  /** Perfect means no repeat in any row or column, which is the same as
      reaching the top fitness of 1050. */
  lemma PerfectIff(ind: Grid)
    requires Square(ind)
    ensures IsPerfectSolution(ind) <==> forall i :: 0 <= i < |ind| ==> Distinct(ind[i]) && Distinct(Column(ind, i))
    ensures IsPerfectSolution(ind) <==> Fitness(ind) == 1050
  {
    forall i | 0 <= i < |ind| ensures |SetOf(ind[i])| == |ind| <==> Distinct(ind[i]) {
      CardSetOf(ind[i]);
    }
    forall i | 0 <= i < |ind| ensures |SetOf(Columns(ind)[i])| == |ind| <==> Distinct(Column(ind, i)) {
      CardSetOf(Column(ind, i));
    }
    FitnessPeak(ind);
  }

  // ---------------------------------------------------------------- crossover

  /** `Math.floor(Math.random() * n)`: 0 when the list is empty. */
  function CrossoverPoint(n: nat, rolls: seq<nat>): (pt: nat)
    ensures pt <= n && (n > 0 ==> pt < n)
  {
    if n == 0 then 0 else Pick(rolls, n)
  }

  /** Write, for each listed cell from position k on, parent1's value when the
      position is below the point and parent2's otherwise. */
  function CopyCells(child: Grid, cells: seq<Pos>, k: nat, point: int, p1: Grid, p2: Grid): (h: Grid)
    requires Square(child) && IsSquare(p1, |child|) && IsSquare(p2, |child|) && k <= |cells|
    requires forall m :: 0 <= m < |cells| ==> 0 <= cells[m].0 < |child| && 0 <= cells[m].1 < |child|
    ensures IsSquare(h, |child|)
    ensures forall i, j :: 0 <= i < |child| && 0 <= j < |child| && (i, j) !in cells[k..] ==> h[i][j] == child[i][j]
    ensures Distinct(cells) ==> forall m :: k <= m < |cells| ==>
      h[cells[m].0][cells[m].1] == (if m < point then p1 else p2)[cells[m].0][cells[m].1]
    decreases |cells| - k
  {
    if k == |cells| then child
    else
      var (r, c) := cells[k];
      var v := if k < point then p1[r][c] else p2[r][c];
      var h := CopyCells(Set(child, r, c, v), cells, k + 1, point, p1, p2);
      assert cells[k..] == [cells[k]] + cells[k + 1..];
      assert Distinct(cells) ==> cells[k] !in cells[k + 1..] by {
        if Distinct(cells) {
          forall m | k + 1 <= m < |cells| ensures cells[m] != cells[k] { }
        }
      }
      h
  }

  /** `crossover(parent1, parent2)`: a copy of the puzzle whose k-th empty
      cell (row-major) comes from parent1 below the crossover point and from
      parent2 from it on; the givens come from the puzzle. */
  function Crossover(g: Grid, p1: Grid, p2: Grid, rolls: seq<nat>): (child: Grid)
    requires Square(g) && IsSquare(p1, |g|) && IsSquare(p2, |g|)
    ensures IsSquare(child, |g|)
  {
    var cells := FindEmptyCells(g);
    assert forall m :: 0 <= m < |cells| ==> cells[m] in cells;
    CopyCells(g, cells, 0, CrossoverPoint(|cells|, rolls), p1, p2)
  }

  /** The child keeps the puzzle's givens. */
  lemma CrossoverKeepsGivens(g: Grid, p1: Grid, p2: Grid, rolls: seq<nat>)
    requires Square(g) && IsSquare(p1, |g|) && IsSquare(p2, |g|)
    ensures forall i, j :: 0 <= i < |g| && 0 <= j < |g| && g[i][j] != 0 ==> Crossover(g, p1, p2, rolls)[i][j] == g[i][j]
  {
    var cells := FindEmptyCells(g);
    assert cells[0..] == cells;
  }

  /** The k-th empty cell of the child comes from parent1 below the point and
      from parent2 from it on. */
  lemma CrossoverTakes(g: Grid, p1: Grid, p2: Grid, rolls: seq<nat>)
    requires Square(g) && IsSquare(p1, |g|) && IsSquare(p2, |g|)
    ensures forall m :: 0 <= m < |FindEmptyCells(g)| ==>
      var (r, c) := FindEmptyCells(g)[m];
      Crossover(g, p1, p2, rolls)[r][c] == if m < CrossoverPoint(|FindEmptyCells(g)|, rolls) then p1[r][c] else p2[r][c]
  {
  }

  /** When both parents carry the puzzle's givens, every cell of the child is
      the same cell of one of the parents. */
  lemma CrossoverFromParents(g: Grid, p1: Grid, p2: Grid, rolls: seq<nat>)
    requires Square(g) && IsSquare(p1, |g|) && IsSquare(p2, |g|)
    requires forall i, j :: 0 <= i < |g| && 0 <= j < |g| && g[i][j] != 0 ==> p1[i][j] == g[i][j]
    ensures forall i, j :: 0 <= i < |g| && 0 <= j < |g| ==>
      Crossover(g, p1, p2, rolls)[i][j] == p1[i][j] || Crossover(g, p1, p2, rolls)[i][j] == p2[i][j]
  {
    var cells := FindEmptyCells(g);
    var child := Crossover(g, p1, p2, rolls);
    CrossoverKeepsGivens(g, p1, p2, rolls);
    CrossoverTakes(g, p1, p2, rolls);
    forall i, j | 0 <= i < |g| && 0 <= j < |g| ensures child[i][j] == p1[i][j] || child[i][j] == p2[i][j] {
      if g[i][j] == 0 {
        assert (i, j) in cells;
        var m :| 0 <= m < |cells| && cells[m] == (i, j);
      }
    }
  }

  // ---------------------------------------------------------------- mutation

  /** The box `mutate` picks: `Math.floor(Math.random() * 3) * 3` for its
      row, then the same for its column. */
  function MutationBox(rolls: seq<nat>): (s: Pos)
    ensures IsStart(s.0) && IsStart(s.1)
  {
    (Pick(rolls, 3) * 3, Pick(Rest(rolls), 3) * 3)
  }

  /** `mutate(individual)`: when the mutation draw fires, exchange two cells of
      the picked box that are empty in the puzzle (if it has two). */
  function Mutate(g: Grid, ind: Grid, fires: bool, rolls: seq<nat>): (h: Grid)
    requires IsSquare(g, 9) && IsSquare(ind, 9)
    ensures IsSquare(h, 9)
    ensures !fires ==> h == ind
    ensures forall i, j :: 0 <= i < 9 && 0 <= j < 9 && g[i][j] != 0 ==> h[i][j] == ind[i][j]
    ensures forall i, j :: 0 <= i < 9 && 0 <= j < 9 && !InBox(MutationBox(rolls).0, MutationBox(rolls).1, i, j) ==>
      h[i][j] == ind[i][j]
  {
    if !fires then ind
    else
      var (r0, c0) := MutationBox(rolls);
      SwapInBox(ind, g, r0, c0, Rest(Rest(rolls)))
  }

  /** A mutation keeps the values of every box. */
  lemma MutateKeepsBoxes(g: Grid, ind: Grid, fires: bool, rolls: seq<nat>)
    requires IsSquare(g, 9) && IsSquare(ind, 9)
    ensures forall r0, c0 :: IsStart(r0) && IsStart(c0) ==>
      multiset(BoxValues(Mutate(g, ind, fires, rolls), r0, c0)) == multiset(BoxValues(ind, r0, c0))
  {
    forall r0, c0 | IsStart(r0) && IsStart(c0)
      ensures multiset(BoxValues(Mutate(g, ind, fires, rolls), r0, c0)) == multiset(BoxValues(ind, r0, c0))
    {
      MutateKeepsBox(g, ind, fires, rolls, (r0, c0));
    }
  }

  lemma MutateKeepsBox(g: Grid, ind: Grid, fires: bool, rolls: seq<nat>, s: Pos)
    requires IsSquare(g, 9) && IsSquare(ind, 9) && IsStart(s.0) && IsStart(s.1)
    ensures multiset(BoxValues(Mutate(g, ind, fires, rolls), s.0, s.1)) == multiset(BoxValues(ind, s.0, s.1))
  {
    var box := MutationBox(rolls);
    var h := Mutate(g, ind, fires, rolls);
    if s == box {
      if fires {
        SwapInBoxSwaps(ind, g, box.0, box.1, Rest(Rest(rolls)));
      }
    } else {
      BoxUntouchedBy(ind, h, s, box);
    }
  }

  /** A mutation changes the individual only by exchanging two cells of the
      picked box that are empty in the puzzle, and leaves it alone when the
      draw does not fire or the box has fewer than two such cells. */
  lemma MutateSwaps(g: Grid, ind: Grid, fires: bool, rolls: seq<nat>)
    requires IsSquare(g, 9) && IsSquare(ind, 9)
    ensures fires && CountZeros(BoxValues(g, MutationBox(rolls).0, MutationBox(rolls).1)) >= 2 ==>
      exists a: nat, b: nat :: a < 9 && b < 9 && a != b &&
        BoxValues(g, MutationBox(rolls).0, MutationBox(rolls).1)[a] == 0 &&
        BoxValues(g, MutationBox(rolls).0, MutationBox(rolls).1)[b] == 0 &&
        BoxValues(Mutate(g, ind, fires, rolls), MutationBox(rolls).0, MutationBox(rolls).1) ==
        Swap(BoxValues(ind, MutationBox(rolls).0, MutationBox(rolls).1), a, b)
    ensures !fires || CountZeros(BoxValues(g, MutationBox(rolls).0, MutationBox(rolls).1)) < 2 ==>
      Mutate(g, ind, fires, rolls) == ind
  {
    var box := MutationBox(rolls);
    if fires {
      SwapInBoxSwaps(ind, g, box.0, box.1, Rest(Rest(rolls)));
    }
  }

  // ---------------------------------------------------------------- evolution

  /** h is a 9x9 grid that carries the puzzle's givens. */
  predicate KeepsGivens(g: Grid, h: Grid)
    requires IsSquare(g, 9)
  {
    IsSquare(h, 9) && forall i, j :: 0 <= i < 9 && 0 <= j < 9 && g[i][j] != 0 ==> h[i][j] == g[i][j]
  }

  /** The random choices behind one new child: the two parents the roulette
      wheel drew, the crossover draws, whether the mutation draw fired, and the
      mutation draws. */
  datatype Breeding = Breeding(parent1: Grid, parent2: Grid, crossRolls: seq<nat>, mutates: bool, mutateRolls: seq<nat>)

  predicate BreedingOk(b: Breeding) {
    IsSquare(b.parent1, 9) && IsSquare(b.parent2, 9)
  }

  /** `mutate(crossover(parent1, parent2))`: whatever the parents, the child
      carries the puzzle's givens. */
  function Child(g: Grid, b: Breeding): (h: Grid)
    requires IsSquare(g, 9) && BreedingOk(b)
    ensures KeepsGivens(g, h)
  {
    CrossoverKeepsGivens(g, b.parent1, b.parent2, b.crossRolls);
    Mutate(g, Crossover(g, b.parent1, b.parent2, b.crossRolls), b.mutates, b.mutateRolls)
  }

  /** The `while (newPopulation.length < populationSize)` loop: append the
      next child until the target size is reached. */
  function Breed(pop: seq<Grid>, size: nat, children: seq<Grid>, used: nat): (r: seq<Grid>)
    requires used <= |children| && (|pop| >= size || used + (size - |pop|) <= |children|)
    ensures |r| == if |pop| >= size then |pop| else size
    ensures forall k :: 0 <= k < |pop| ==> r[k] == pop[k]
    ensures forall k :: |pop| <= k < |r| ==> r[k] == children[used + k - |pop|]
    decreases size - |pop|
  {
    if |pop| >= size then pop
    else Breed(pop + [children[used]], size, children, used + 1)
  }

  /** The child of every breeding, in order. */
  function Children(g: Grid, breedings: seq<Breeding>): (cs: seq<Grid>)
    requires IsSquare(g, 9) && forall k :: 0 <= k < |breedings| ==> BreedingOk(breedings[k])
    ensures |cs| == |breedings|
    ensures forall k :: 0 <= k < |cs| ==> KeepsGivens(g, cs[k])
    decreases |breedings|
  {
    if breedings == [] then [] else [Child(g, breedings[0])] + Children(g, breedings[1..])
  }

  /** The k-th child is bred from the k-th breeding. */
  lemma {:induction false} ChildrenAre(g: Grid, breedings: seq<Breeding>)
    requires IsSquare(g, 9) && forall k :: 0 <= k < |breedings| ==> BreedingOk(breedings[k])
    ensures forall k :: 0 <= k < |breedings| ==> Children(g, breedings)[k] == Child(g, breedings[k])
    decreases |breedings|
  {
    if breedings != [] {
      var cs, rest := Children(g, breedings), Children(g, breedings[1..]);
      ChildrenAre(g, breedings[1..]);
      assert cs == [Child(g, breedings[0])] + rest;
      forall k | 0 < k < |breedings| ensures cs[k] == Child(g, breedings[k]) {
        assert cs[k] == rest[k - 1] && breedings[1..][k - 1] == breedings[k];
      }
    }
  }

  /** The members carried over unchanged: the elite, when there is one. */
  function Elite(elite: Option<Grid>): (s: seq<Grid>)
    ensures |s| <= 1 && (|s| == 1 <==> elite.Some?)
    ensures elite.Some? ==> s[0] == elite.value
  {
    if elite.Some? then [elite.value] else []
  }

  /** `evolve()`: a copy of the best individual so far first (when there is
      one), then the children of the breedings in turn up to the population
      size.  With an elite and a population size of 0 the new population has
      one member. */
  function Evolve(g: Grid, elite: Option<Grid>, populationSize: nat, breedings: seq<Breeding>): (pop: seq<Grid>)
    requires IsSquare(g, 9) && forall k :: 0 <= k < |breedings| ==> BreedingOk(breedings[k])
    requires |breedings| >= populationSize
    ensures |pop| == if elite.Some? && populationSize == 0 then 1 else populationSize
    ensures elite.Some? ==> pop[0] == elite.value
    ensures forall k :: |Elite(elite)| <= k < |pop| ==> pop[k] == Children(g, breedings)[k - |Elite(elite)|]
  {
    Breed(Elite(elite), populationSize, Children(g, breedings), 0)
  }

  /** Every member after the elite carries the puzzle's givens. */
  lemma EvolveKeepsGivens(g: Grid, elite: Option<Grid>, populationSize: nat, breedings: seq<Breeding>)
    requires IsSquare(g, 9) && forall k :: 0 <= k < |breedings| ==> BreedingOk(breedings[k])
    requires |breedings| >= populationSize
    ensures forall k :: |Elite(elite)| <= k < |Evolve(g, elite, populationSize, breedings)| ==>
      KeepsGivens(g, Evolve(g, elite, populationSize, breedings)[k])
  {
    EvolveGivens(g, Evolve(g, elite, populationSize, breedings), |Elite(elite)|, Children(g, breedings));
  }

  /** Members taken from a list of givens-keeping children keep the givens. */
  lemma EvolveGivens(g: Grid, pop: seq<Grid>, e: nat, children: seq<Grid>)
    requires IsSquare(g, 9) && e <= |pop| && |pop| <= e + |children|
    requires forall k :: 0 <= k < |children| ==> KeepsGivens(g, children[k])
    requires forall k :: e <= k < |pop| ==> pop[k] == children[k - e]
    ensures forall k :: e <= k < |pop| ==> KeepsGivens(g, pop[k])
  {
    forall k | e <= k < |pop| ensures KeepsGivens(g, pop[k]) {
      assert pop[k] == children[k - e];
    }
  }

  // ---------------------------------------------------------------- best tracking

  /** `a > b` where None stands for -Infinity. */
  predicate Beats(a: Option<int>, b: Option<int>) {
    a.Some? && (b.None? || a.value > b.value)
  }

  /** A best-so-far record: a fitness (None for the initial -Infinity) and
      the individual that had it (None for the initial null). */
  datatype Best = Best(fitness: Option<int>, solution: Option<Grid>)

  /** The best of one generation, and whether it was found perfect. */
  datatype GenBest = GenBest(fitness: Option<int>, solution: Option<Grid>, perfect: bool)

  /** The fitness of each individual. */
  function Scores(pop: seq<Grid>): (fs: seq<int>)
    requires forall m :: 0 <= m < |pop| ==> Square(pop[m])
    ensures |fs| == |pop| && forall m :: 0 <= m < |pop| ==> fs[m] == Fitness(pop[m])
  {
    seq(|pop|, m requires 0 <= m < |pop| => Fitness(pop[m]))
  }

  /** Whether each individual is perfect. */
  function Perfects(pop: seq<Grid>): (ps: seq<bool>)
    requires forall m :: 0 <= m < |pop| ==> Square(pop[m])
    ensures |ps| == |pop| && forall m :: 0 <= m < |pop| ==> ps[m] == IsPerfectSolution(pop[m])
  {
    seq(|pop|, m requires 0 <= m < |pop| => IsPerfectSolution(pop[m]))
  }

  /** The evaluation loop of `solve` from individual k on, given each
      individual's fitness and perfection: keep the first individual of
      strictly highest fitness; at the first perfect individual stop and
      report it with `perfectScore`. */
  function ScanFrom(pop: seq<Grid>, fits: seq<int>, perfect: seq<bool>, k: nat, cur: Best, perfectScore: int): (r: GenBest)
    requires |fits| == |pop| && |perfect| == |pop| && k <= |pop|
    ensures r.perfect ==> r.fitness == Some(perfectScore)
    decreases |pop| - k
  {
    if k == |pop| then GenBest(cur.fitness, cur.solution, false)
    else
      var cur' := if Beats(Some(fits[k]), cur.fitness) then Best(Some(fits[k]), Some(pop[k])) else cur;
      if perfect[k] then GenBest(Some(perfectScore), Some(pop[k]), true)
      else ScanFrom(pop, fits, perfect, k + 1, cur', perfectScore)
  }

  /** One generation's evaluation, a perfect individual reported with
      `perfectScore`. */
  function Scan(pop: seq<Grid>, perfectScore: int): GenBest
    requires forall m :: 0 <= m < |pop| ==> Square(pop[m])
  {
    ScanFrom(pop, Scores(pop), Perfects(pop), 0, Best(None, None), perfectScore)
  }

  /** b is the first of fits[..k] with the highest value among them. */
  predicate IsFirstBest(fits: seq<int>, k: nat, b: int)
    requires k <= |fits|
  {
    0 <= b < k && (forall m :: 0 <= m < k ==> fits[m] <= fits[b]) && (forall m :: 0 <= m < b ==> fits[m] < fits[b])
  }

  /** m is the first true entry. */
  predicate IsFirstTrue(perfect: seq<bool>, m: int) {
    0 <= m < |perfect| && perfect[m] && forall m' :: 0 <= m' < m ==> !perfect[m']
  }

  /** What the loop has established after the first k individuals: none was
      perfect, and the record is the first best of them, at index b
      (-Infinity for none). */
  predicate Recorded(pop: seq<Grid>, fits: seq<int>, perfect: seq<bool>, k: nat, cur: Best, b: int)
    requires |fits| == |pop| && |perfect| == |pop| && k <= |pop|
  {
    (forall m :: 0 <= m < k ==> !perfect[m]) &&
    (k == 0 ==> cur.fitness.None?) &&
    (k > 0 ==> IsFirstBest(fits, k, b) && cur == Best(Some(fits[b]), Some(pop[b])))
  }

  /** The record after individual k, and where it comes from. */
  function NextRecord(pop: seq<Grid>, fits: seq<int>, k: nat, cur: Best, b: int): (Best, int)
    requires |fits| == |pop| && k < |pop|
  {
    if Beats(Some(fits[k]), cur.fitness) then (Best(Some(fits[k]), Some(pop[k])), k) else (cur, b)
  }

  /** One step of the loop keeps `Recorded`. */
  lemma ScanStep(pop: seq<Grid>, fits: seq<int>, perfect: seq<bool>, k: nat, cur: Best, b: int)
    requires |fits| == |pop| && |perfect| == |pop| && k < |pop|
    requires Recorded(pop, fits, perfect, k, cur, b) && !perfect[k]
    ensures Recorded(pop, fits, perfect, k + 1, NextRecord(pop, fits, k, cur, b).0, NextRecord(pop, fits, k, cur, b).1)
  {
    if k == 0 {
      assert IsFirstBest(fits, 1, 0);
    } else if Beats(Some(fits[k]), cur.fitness) {
      assert IsFirstBest(fits, k + 1, k);
    } else {
      assert IsFirstBest(fits, k + 1, b);
    }
  }

  lemma {:induction false} ScanFromMeaning(pop: seq<Grid>, fits: seq<int>, perfect: seq<bool>, k: nat, cur: Best, b: int, perfectScore: int)
    requires |fits| == |pop| && |perfect| == |pop| && k <= |pop|
    requires Recorded(pop, fits, perfect, k, cur, b)
    ensures var r := ScanFrom(pop, fits, perfect, k, cur, perfectScore);
      r.perfect <==> exists m :: k <= m < |pop| && perfect[m]
    ensures var r := ScanFrom(pop, fits, perfect, k, cur, perfectScore);
      r.perfect ==> exists m :: IsFirstTrue(perfect, m) && r.solution == Some(pop[m])
    ensures var r := ScanFrom(pop, fits, perfect, k, cur, perfectScore);
      !r.perfect ==> exists b' :: Recorded(pop, fits, perfect, |pop|, Best(r.fitness, r.solution), b')
    decreases |pop| - k
  {
    if k < |pop| {
      if perfect[k] {
        assert IsFirstTrue(perfect, k);
      } else {
        var (cur', b') := NextRecord(pop, fits, k, cur, b);
        ScanStep(pop, fits, perfect, k, cur, b);
        ScanFromMeaning(pop, fits, perfect, k + 1, cur', b', perfectScore);
      }
    } else {
      assert Recorded(pop, fits, perfect, |pop|, Best(cur.fitness, cur.solution), b);
    }
  }

  /** A generation with a perfect individual reports the first one, with
      `perfectScore`; a generation without one reports no perfect. */
  lemma ScanPerfect(pop: seq<Grid>, perfectScore: int)
    requires forall m :: 0 <= m < |pop| ==> Square(pop[m])
    ensures Scan(pop, perfectScore).perfect <==> exists m :: 0 <= m < |pop| && IsPerfectSolution(pop[m])
    ensures Scan(pop, perfectScore).perfect ==> Scan(pop, perfectScore).fitness == Some(perfectScore)
    ensures Scan(pop, perfectScore).perfect ==>
      exists m :: 0 <= m < |pop| && IsPerfectSolution(pop[m]) &&
        (forall m' :: 0 <= m' < m ==> !IsPerfectSolution(pop[m'])) && Scan(pop, perfectScore).solution == Some(pop[m])
  {
    var ps := Perfects(pop);
    ScanFromMeaning(pop, Scores(pop), ps, 0, Best(None, None), -1, perfectScore);
    if Scan(pop, perfectScore).perfect {
      var m :| IsFirstTrue(ps, m) && Scan(pop, perfectScore).solution == Some(pop[m]);
      assert IsPerfectSolution(pop[m]);
    }
  }

  /** A generation without a perfect individual reports the first individual
      of highest fitness, or -Infinity when the population is empty. */
  lemma ScanBest(pop: seq<Grid>, perfectScore: int)
    requires forall m :: 0 <= m < |pop| ==> Square(pop[m])
    requires forall m :: 0 <= m < |pop| ==> !IsPerfectSolution(pop[m])
    ensures !Scan(pop, perfectScore).perfect
    ensures |pop| == 0 ==> Scan(pop, perfectScore).fitness.None?
    ensures |pop| > 0 ==>
      exists b :: 0 <= b < |pop| &&
        (forall m :: 0 <= m < |pop| ==> Fitness(pop[m]) <= Fitness(pop[b])) &&
        (forall m :: 0 <= m < b ==> Fitness(pop[m]) < Fitness(pop[b])) &&
        Scan(pop, perfectScore).fitness == Some(Fitness(pop[b])) && Scan(pop, perfectScore).solution == Some(pop[b])
  {
    var fits := Scores(pop);
    var ps := Perfects(pop);
    ScanFromMeaning(pop, fits, ps, 0, Best(None, None), -1, perfectScore);
    var r := Scan(pop, perfectScore);
    var b :| Recorded(pop, fits, ps, |pop|, Best(r.fitness, r.solution), b);
    if |pop| > 0 {
      assert IsFirstBest(fits, |pop|, b);
    }
  }

  /** The update after each generation: replace the record when the
      generation's best fitness is strictly higher. */
  function UpdateBest(best: Best, gen: GenBest): (b: Best)
    ensures b.fitness == best.fitness || Beats(b.fitness, best.fitness)
    ensures b == best || b == Best(gen.fitness, gen.solution)
  {
    if Beats(gen.fitness, best.fitness) then Best(gen.fitness, gen.solution) else best
  }

  /** The record after a run of generations. */
  function UpdateAll(best: Best, gens: seq<GenBest>): Best
    decreases |gens|
  {
    if gens == [] then best else UpdateAll(UpdateBest(best, gens[0]), gens[1..])
  }

  /** The recorded fitness never decreases, over any run of generations. */
  lemma {:induction false} BestNeverDecreases(best: Best, gens: seq<GenBest>)
    ensures UpdateAll(best, gens).fitness == best.fitness || Beats(UpdateAll(best, gens).fitness, best.fitness)
    decreases |gens|
  {
    if gens != [] {
      var next := UpdateBest(best, gens[0]);
      BestNeverDecreases(next, gens[1..]);
    }
  }

  /** The score a perfect individual is reported with, as written. */
  const ReportedPerfect: int := 1000

  /** A perfect individual is reported with 1000, below the 1050 its fitness
      actually is; so once an earlier generation recorded 1000 or more, a
      generation holding a perfect individual leaves the record unchanged. */
  lemma PerfectNotRecorded(pop: seq<Grid>, best: Best)
    requires forall m :: 0 <= m < |pop| ==> Square(pop[m])
    requires exists m :: 0 <= m < |pop| && IsPerfectSolution(pop[m])
    requires best.fitness.Some? && best.fitness.value >= ReportedPerfect
    ensures Scan(pop, ReportedPerfect).perfect && Scan(pop, ReportedPerfect).fitness == Some(ReportedPerfect)
    ensures var s := Scan(pop, ReportedPerfect).solution; s.Some? && Square(s.value) && Fitness(s.value) == 1050
    ensures UpdateBest(best, Scan(pop, ReportedPerfect)) == best
  {
    ScanPerfect(pop, ReportedPerfect);
    var m :| 0 <= m < |pop| && IsPerfectSolution(pop[m]) && Scan(pop, ReportedPerfect).solution == Some(pop[m]);
    PerfectIff(pop[m]);
  }

  /** The record is honest when its fitness is the fitness of its individual. */
  predicate Honest(best: Best) {
    best.fitness.Some? ==>
      best.solution.Some? && Square(best.solution.value) && best.fitness.value == Fitness(best.solution.value)
  }

  /** Reporting a perfect individual with its real fitness, 1050, the record
      after a generation holding a perfect individual is a perfect one. */
  lemma PerfectRecorded(pop: seq<Grid>, best: Best)
    requires forall m :: 0 <= m < |pop| ==> Square(pop[m])
    requires exists m :: 0 <= m < |pop| && IsPerfectSolution(pop[m])
    requires Honest(best)
    ensures var b := UpdateBest(best, Scan(pop, 1050));
      b.solution.Some? && Square(b.solution.value) && IsPerfectSolution(b.solution.value) && Honest(b)
  {
    ScanPerfect(pop, 1050);
    var m :| 0 <= m < |pop| && IsPerfectSolution(pop[m]) && Scan(pop, 1050).solution == Some(pop[m]);
    PerfectIff(pop[m]);
    if best.fitness.Some? {
      PerfectIff(best.solution.value);
    }
  }
}
