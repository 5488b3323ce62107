/** `SudokuGenerator` of the web front end (sudoku-generator.js): a randomised
    backtracking search that fills an empty grid, an exhaustive solution
    counter that stops as soon as it has seen two solutions, and the carving
    loop that blanks cells in random order while the puzzle keeps exactly one
    solution.

    Grids are `seq<seq<int>>` with 0 for an empty cell.  `size` is the side of
    the grid and `subgridSize = Math.sqrt(size)` the side of a block; the model
    asks for a perfect square, which every size the front end uses is.
 */
module PuzzleGenerator {
  import opened Util
  import opened Grids
  import Arith

  /** A generator's `size` and `subgridSize`. */
  datatype Dims = Dims(size: nat, sub: nat)

  predicate ValidDims(d: Dims) {
    d.sub > 0 && Arith.Sq(d.sub) == d.size
  }

  predicate OnGrid(d: Dims, row: int, col: int) {
    0 <= row < d.size && 0 <= col < d.size
  }

  /** `isValidPlacementForGrid`: num is not in the row, not in the column, and
      not in the block whose top-left cell is `floor(row / sub) * sub`,
      `floor(col / sub) * sub`. */
  predicate IsValidPlacement(d: Dims, g: Grid, row: int, col: int, num: int)
    requires ValidDims(d) && IsSquare(g, d.size) && OnGrid(d, row, col)
  {
    var r0 := BlockStart(d.sub, row);
    var c0 := BlockStart(d.sub, col);
    BlockStartFits(d.sub, d.size, row);
    BlockStartFits(d.sub, d.size, col);
    (forall i :: 0 <= i < d.size ==> g[row][i] != num) &&
    (forall i :: 0 <= i < d.size ==> g[i][col] != num) &&
    (forall r, c :: r0 <= r < r0 + d.sub && c0 <= c < c0 + d.sub ==> g[r][c] != num)
  }

  /** num occurs in no cell that shares the row, the column or the block of
      (row, col). */
  predicate FreeFor(d: Dims, g: Grid, row: int, col: int, num: int)
    requires ValidDims(d) && IsSquare(g, d.size)
  {
    forall r, c :: (0 <= r < d.size && 0 <= c < d.size &&
      (r == row || c == col || SameBox(d.sub, r, c, row, col))) ==> g[r][c] != num
  }

  /** The block scan of `isValidPlacementForGrid` visits exactly the cells of
      the block of (row, col), so the check says that num is free for the cell. */
  lemma IsValidPlacementIff(d: Dims, g: Grid, row: int, col: int, num: int)
    requires ValidDims(d) && IsSquare(g, d.size) && OnGrid(d, row, col)
    ensures IsValidPlacement(d, g, row, col, num) <==> FreeFor(d, g, row, col, num)
  {
    var b := d.sub;
    var r0 := BlockStart(b, row);
    var c0 := BlockStart(b, col);
    BlockStartFits(b, d.size, row);
    BlockStartFits(b, d.size, col);
    if FreeFor(d, g, row, col, num) {
      forall r, c | r0 <= r < r0 + b && c0 <= c < c0 + b ensures g[r][c] != num {
        SameBlockIff(b, row, r);
        SameBlockIff(b, col, c);
        assert SameBox(b, r, c, row, col);
      }
    }
  }

  /** A placement that passes the check creates no repeat. */
  lemma PlaceKeepsUnits(d: Dims, g: Grid, row: int, col: int, num: int)
    requires ValidDims(d) && IsSquare(g, d.size) && OnGrid(d, row, col)
    requires IsValidPlacement(d, g, row, col, num)
    ensures NoUnitRepeat(g, d.sub) ==> NoUnitRepeat(Set(g, row, col, num), d.sub)
  {
    IsValidPlacementIff(d, g, row, col, num);
    var h := Set(g, row, col, num);
    forall r1, c1, r2, c2 | NoUnitRepeat(g, d.sub) &&
      0 <= r1 < d.size && 0 <= c1 < d.size && 0 <= r2 < d.size && 0 <= c2 < d.size &&
      SameUnit(d.sub, r1, c1, r2, c2) && h[r1][c1] != 0
      ensures h[r1][c1] != h[r2][c2]
    {
      if (r1, c1) == (row, col) {
        assert h[r2][c2] == g[r2][c2];
        assert r2 == row || c2 == col || SameBox(d.sub, r2, c2, row, col);
      } else if (r2, c2) == (row, col) {
        assert h[r1][c1] == g[r1][c1];
      }
    }
  }

  /** The first empty cell in row-major order: the nested scan shared by
      `solveComplete` and `countSolutions`. */
  function FirstZero(d: Dims, g: Grid): (p: Option<(nat, nat)>)
    requires IsSquare(g, d.size)
    ensures p.Some? ==> OnGrid(d, p.value.0, p.value.1) && g[p.value.0][p.value.1] == 0
    ensures p.None? ==> NoZero(g)
  {
    var p := FirstCell(d.size, d.size, (i: nat, j: nat) => i < |g| && j < |g[i]| && g[i][j] == 0);
    assert p.None? ==> NoZero(g) by {
      if p.None? {
        forall i, j | 0 <= i < |g| && 0 <= j < |g[i]| ensures g[i][j] != 0 {
          assert !((i: nat, j: nat) => i < |g| && j < |g[i]| && g[i][j] == 0)(i, j);
        }
      }
    }
    p
  }

  /** `shuffleArray` applied to 1..size: each of the numbers exactly once. */
  function ShuffledNumbers(n: nat, rolls: seq<nat>): (r: seq<int>)
    ensures |r| == n && Distinct(r)
    ensures forall t :: 0 <= t < |r| ==> 1 <= r[t] <= n
    ensures forall x :: x in r <==> 1 <= x <= n
  {
    var numbers := Range(1, n + 1);
    RangeMembers(1, n + 1);
    assert Distinct(numbers);
    ShuffleMembers(numbers, rolls);
    var r := Shuffle(numbers, rolls);
    assert forall t :: 0 <= t < |r| ==> 1 <= r[t] <= n by {
      forall t | 0 <= t < |r| ensures 1 <= r[t] <= n {
        assert r[t] in r;
      }
    }
    r
  }

  /** The outcome of a search: whether it filled the grid, the grid it leaves,
      and the unread draws. */
  datatype Search = Search(solved: bool, grid: Grid, rolls: seq<nat>)

  /** `solveComplete`: at the first empty cell try 1..size in shuffled order;
      place a number that passes the check and recurse; on failure clear the
      cell and try the next number; with every number tried, report failure.
      A grid without empty cells is solved. */
  function SolveComplete(d: Dims, g: Grid, rolls: seq<nat>): (r: Search)
    requires ValidDims(d) && IsSquare(g, d.size)
    ensures IsSquare(r.grid, d.size)
    ensures r.solved ==> NoZero(r.grid)
    ensures !r.solved ==> r.grid == g
    decreases ZeroCells(g), 1
  {
    match FirstZero(d, g)
    case None => Search(true, g, rolls)
    case Some((row, col)) =>
      TryNumbers(d, g, row, col, ShuffledNumbers(d.size, rolls), Drop(rolls, ShuffleCost(d.size)))
  }

  /** The `for (const num of numbers)` loop of `solveComplete` for the empty
      cell (row, col). */
  function TryNumbers(d: Dims, g: Grid, row: nat, col: nat, numbers: seq<int>, rolls: seq<nat>): (r: Search)
    requires ValidDims(d) && IsSquare(g, d.size) && OnGrid(d, row, col) && g[row][col] == 0
    requires forall t :: 0 <= t < |numbers| ==> 1 <= numbers[t] <= d.size
    ensures IsSquare(r.grid, d.size)
    ensures r.solved ==> NoZero(r.grid)
    ensures !r.solved ==> r.grid == g
    decreases ZeroCells(g), 0, |numbers|, 1
  {
    if numbers == [] then Search(false, g, rolls)
    else if IsValidPlacement(d, g, row, col, numbers[0]) then TryPlaced(d, g, row, col, numbers, rolls)
    else TryNumbers(d, g, row, col, numbers[1..], rolls)
  }

  /** A turn of the loop whose number passes the check: place it and search
      on; when that search fails, clear the cell and go on to the next number. */
  function TryPlaced(d: Dims, g: Grid, row: nat, col: nat, numbers: seq<int>, rolls: seq<nat>): (r: Search)
    requires ValidDims(d) && IsSquare(g, d.size) && OnGrid(d, row, col) && g[row][col] == 0
    requires forall t :: 0 <= t < |numbers| ==> 1 <= numbers[t] <= d.size
    requires numbers != []
    ensures IsSquare(r.grid, d.size)
    ensures r.solved ==> NoZero(r.grid)
    ensures !r.solved ==> r.grid == g
    decreases ZeroCells(g), 0, |numbers|, 0
  {
    var placed := Set(g, row, col, numbers[0]);
    ZeroCellsSet(g, row, col, numbers[0]);
    var sub := SolveComplete(d, placed, rolls);
    if sub.solved then
      sub
    else
      var undone := Set(sub.grid, row, col, 0);
      SetRestore(g, row, col, numbers[0]);
      assert undone == g;
      TryNumbers(d, undone, row, col, numbers[1..], sub.rolls)
  }

  /** The search creates no repeat: every number it writes passed the check. */
  lemma {:induction false} SolveCompleteNoRepeat(d: Dims, g: Grid, rolls: seq<nat>)
    requires ValidDims(d) && IsSquare(g, d.size) && NoUnitRepeat(g, d.sub)
    ensures NoUnitRepeat(SolveComplete(d, g, rolls).grid, d.sub)
    decreases ZeroCells(g), 1
  {
    match FirstZero(d, g)
    case None =>
    case Some((row, col)) =>
      TryNumbersNoRepeat(d, g, row, col, ShuffledNumbers(d.size, rolls), Drop(rolls, ShuffleCost(d.size)));
  }

  lemma {:induction false} TryNumbersNoRepeat(d: Dims, g: Grid, row: nat, col: nat, numbers: seq<int>, rolls: seq<nat>)
    requires ValidDims(d) && IsSquare(g, d.size) && OnGrid(d, row, col) && g[row][col] == 0
    requires forall t :: 0 <= t < |numbers| ==> 1 <= numbers[t] <= d.size
    requires NoUnitRepeat(g, d.sub)
    ensures NoUnitRepeat(TryNumbers(d, g, row, col, numbers, rolls).grid, d.sub)
    decreases ZeroCells(g), 0, |numbers|, 1
  {
    if numbers != [] {
      if IsValidPlacement(d, g, row, col, numbers[0]) {
        PlacedNoRepeat(d, g, row, col, numbers, rolls);
      } else {
        assert TryNumbers(d, g, row, col, numbers, rolls) == TryNumbers(d, g, row, col, numbers[1..], rolls);
        TryNumbersNoRepeat(d, g, row, col, numbers[1..], rolls);
      }
    }
  }

  /** One turn of the loop of `solveComplete` whose number passes the check:
      the placed grid has one empty cell fewer, and the loop returns the
      recursive search when it succeeds and goes on to the next number with
      the cell cleared again otherwise. */
  lemma PlacedUnfold(d: Dims, g: Grid, row: nat, col: nat, numbers: seq<int>, rolls: seq<nat>)
    requires ValidDims(d) && IsSquare(g, d.size) && OnGrid(d, row, col) && g[row][col] == 0
    requires forall t :: 0 <= t < |numbers| ==> 1 <= numbers[t] <= d.size
    requires numbers != []
    ensures ZeroCells(Set(g, row, col, numbers[0])) < ZeroCells(g)
    ensures var sub := SolveComplete(d, Set(g, row, col, numbers[0]), rolls);
      TryPlaced(d, g, row, col, numbers, rolls) ==
        if sub.solved then sub else TryNumbers(d, g, row, col, numbers[1..], sub.rolls)
  {
    ZeroCellsSet(g, row, col, numbers[0]);
    SetRestore(g, row, col, numbers[0]);
  }

  /** The step of TryNumbersNoRepeat when the first number passes the check. */
  lemma {:induction false} PlacedNoRepeat(d: Dims, g: Grid, row: nat, col: nat, numbers: seq<int>, rolls: seq<nat>)
    requires ValidDims(d) && IsSquare(g, d.size) && OnGrid(d, row, col) && g[row][col] == 0
    requires forall t :: 0 <= t < |numbers| ==> 1 <= numbers[t] <= d.size
    requires NoUnitRepeat(g, d.sub)
    requires numbers != [] && IsValidPlacement(d, g, row, col, numbers[0])
    ensures NoUnitRepeat(TryPlaced(d, g, row, col, numbers, rolls).grid, d.sub)
    decreases ZeroCells(g), 0, |numbers|, 0
  {
    var placed := Set(g, row, col, numbers[0]);
    PlacedUnfold(d, g, row, col, numbers, rolls);
    PlaceKeepsUnits(d, g, row, col, numbers[0]);
    SolveCompleteNoRepeat(d, placed, rolls);
    var sub := SolveComplete(d, placed, rolls);
    if !sub.solved {
      TryNumbersNoRepeat(d, g, row, col, numbers[1..], sub.rolls);
    }
  }


  /** The search keeps every nonzero cell of the grid it starts from. */
  lemma {:induction false} SolveCompleteKeeps(d: Dims, g: Grid, rolls: seq<nat>)
    requires ValidDims(d) && IsSquare(g, d.size)
    ensures forall i, j {:trigger SolveComplete(d, g, rolls).grid[i][j]} :: OnGrid(d, i, j) && g[i][j] != 0 ==>
      SolveComplete(d, g, rolls).grid[i][j] == g[i][j]
    decreases ZeroCells(g), 1
  {
    match FirstZero(d, g)
    case None =>
    case Some((row, col)) =>
      TryNumbersKeeps(d, g, row, col, ShuffledNumbers(d.size, rolls), Drop(rolls, ShuffleCost(d.size)));
  }

  lemma {:induction false} TryNumbersKeeps(d: Dims, g: Grid, row: nat, col: nat, numbers: seq<int>, rolls: seq<nat>)
    requires ValidDims(d) && IsSquare(g, d.size) && OnGrid(d, row, col) && g[row][col] == 0
    requires forall t :: 0 <= t < |numbers| ==> 1 <= numbers[t] <= d.size
    ensures forall i, j {:trigger TryNumbers(d, g, row, col, numbers, rolls).grid[i][j]} :: OnGrid(d, i, j) && g[i][j] != 0 ==>
      TryNumbers(d, g, row, col, numbers, rolls).grid[i][j] == g[i][j]
    decreases ZeroCells(g), 0, |numbers|, 1
  {
    if numbers != [] {
      if IsValidPlacement(d, g, row, col, numbers[0]) {
        PlacedKeeps(d, g, row, col, numbers, rolls);
      } else {
        assert TryNumbers(d, g, row, col, numbers, rolls) == TryNumbers(d, g, row, col, numbers[1..], rolls);
        TryNumbersKeeps(d, g, row, col, numbers[1..], rolls);
      }
    }
  }

  /** The step of TryNumbersKeeps when the first number passes the check. */
  lemma {:induction false} PlacedKeeps(d: Dims, g: Grid, row: nat, col: nat, numbers: seq<int>, rolls: seq<nat>)
    requires ValidDims(d) && IsSquare(g, d.size) && OnGrid(d, row, col) && g[row][col] == 0
    requires forall t :: 0 <= t < |numbers| ==> 1 <= numbers[t] <= d.size
    requires numbers != []
    ensures forall i, j {:trigger TryPlaced(d, g, row, col, numbers, rolls).grid[i][j]} :: OnGrid(d, i, j) && g[i][j] != 0 ==>
      TryPlaced(d, g, row, col, numbers, rolls).grid[i][j] == g[i][j]
    decreases ZeroCells(g), 0, |numbers|, 0
  {
    var placed := Set(g, row, col, numbers[0]);
    PlacedUnfold(d, g, row, col, numbers, rolls);
    SolveCompleteKeeps(d, placed, rolls);
    var sub := SolveComplete(d, placed, rolls);
    if !sub.solved {
      TryNumbersKeeps(d, g, row, col, numbers[1..], sub.rolls);
    } else {
      forall i, j | OnGrid(d, i, j) && g[i][j] != 0 ensures sub.grid[i][j] == g[i][j] {
        assert placed[i][j] == g[i][j];
      }
    }
  }

  /** The search writes only numbers in 1..size. */
  lemma {:induction false} SolveCompleteInRange(d: Dims, g: Grid, rolls: seq<nat>)
    requires ValidDims(d) && IsSquare(g, d.size) && CellsUpTo(g, d.size)
    ensures CellsUpTo(SolveComplete(d, g, rolls).grid, d.size)
    decreases ZeroCells(g), 1
  {
    match FirstZero(d, g)
    case None =>
    case Some((row, col)) =>
      TryNumbersInRange(d, g, row, col, ShuffledNumbers(d.size, rolls), Drop(rolls, ShuffleCost(d.size)));
  }

  lemma {:induction false} TryNumbersInRange(d: Dims, g: Grid, row: nat, col: nat, numbers: seq<int>, rolls: seq<nat>)
    requires ValidDims(d) && IsSquare(g, d.size) && OnGrid(d, row, col) && g[row][col] == 0
    requires forall t :: 0 <= t < |numbers| ==> 1 <= numbers[t] <= d.size
    requires CellsUpTo(g, d.size)
    ensures CellsUpTo(TryNumbers(d, g, row, col, numbers, rolls).grid, d.size)
    decreases ZeroCells(g), 0, |numbers|, 1
  {
    if numbers != [] {
      if IsValidPlacement(d, g, row, col, numbers[0]) {
        PlacedInRange(d, g, row, col, numbers, rolls);
      } else {
        assert TryNumbers(d, g, row, col, numbers, rolls) == TryNumbers(d, g, row, col, numbers[1..], rolls);
        TryNumbersInRange(d, g, row, col, numbers[1..], rolls);
      }
    }
  }

  /** The step of TryNumbersInRange when the first number passes the check. */
  lemma {:induction false} PlacedInRange(d: Dims, g: Grid, row: nat, col: nat, numbers: seq<int>, rolls: seq<nat>)
    requires ValidDims(d) && IsSquare(g, d.size) && OnGrid(d, row, col) && g[row][col] == 0
    requires forall t :: 0 <= t < |numbers| ==> 1 <= numbers[t] <= d.size
    requires CellsUpTo(g, d.size)
    requires numbers != []
    ensures CellsUpTo(TryPlaced(d, g, row, col, numbers, rolls).grid, d.size)
    decreases ZeroCells(g), 0, |numbers|, 0
  {
    var placed := Set(g, row, col, numbers[0]);
    PlacedUnfold(d, g, row, col, numbers, rolls);
    SetKeepsCellsUpTo(g, row, col, numbers[0], d.size);
    SolveCompleteInRange(d, placed, rolls);
    var sub := SolveComplete(d, placed, rolls);
    if !sub.solved {
      TryNumbersInRange(d, g, row, col, numbers[1..], sub.rolls);
    }
  }


  /** A size x size grid of zeros. */
  function ZeroGrid(n: nat): (g: Grid)
    ensures IsSquare(g, n)
    ensures forall i, j :: 0 <= i < n && 0 <= j < n ==> g[i][j] == 0
  {
    seq(n, i => seq(n, j => 0))
  }

  /** `generateComplete`: reset the grid to zeros and run the search.  The
      grid returned is either a full grid over 1..size with no repeat in any
      row, column or block, or, if the search failed, still all zeros. */
  function GenerateComplete(d: Dims, rolls: seq<nat>): (r: Search)
    requires ValidDims(d)
    ensures IsSquare(r.grid, d.size)
    ensures r.solved ==> NoZero(r.grid) && CellsUpTo(r.grid, d.size) && NoUnitRepeat(r.grid, d.sub)
    ensures !r.solved ==> r.grid == ZeroGrid(d.size)
  {
    var start := ZeroGrid(d.size);
    SolveCompleteNoRepeat(d, start, rolls);
    SolveCompleteInRange(d, start, rolls);
    SolveComplete(d, start, rolls)
  }

  /** What `countSolutions` returns: the running count and the grid as the
      search leaves it (the JavaScript mutates its argument in place). */
  datatype Tally = Tally(count: int, grid: Grid)

  /** `countSolutions(grid, count)`: stop at once when count exceeds one; a
      grid without zeros adds one solution; otherwise try 1..size in order at
      the first zero, recurse after every placement that passes the check,
      return as soon as the count exceeds one, and clear the cell before the
      next number.  The grid is only left written to when the count exceeds
      one. */
  function CountSolutions(d: Dims, g: Grid, count: int): (r: Tally)
    requires ValidDims(d) && IsSquare(g, d.size)
    ensures IsSquare(r.grid, d.size)
    ensures r.count >= count
    ensures r.count <= 1 ==> r.grid == g
    decreases ZeroCells(g), 1
  {
    if count > 1 then Tally(count, g)
    else
      match FirstZero(d, g)
      case None => Tally(count + 1, g)
      case Some((row, col)) => CountFrom(d, g, row, col, 1, count)
  }

  /** The `for (let num = num0; num <= size; num++)` loop of `countSolutions`
      at the empty cell (row, col). */
  function CountFrom(d: Dims, g: Grid, row: nat, col: nat, num: int, count: int): (r: Tally)
    requires ValidDims(d) && IsSquare(g, d.size) && OnGrid(d, row, col) && g[row][col] == 0 && num >= 1
    ensures IsSquare(r.grid, d.size)
    ensures r.count >= count
    ensures r.count <= 1 ==> r.grid == g
    decreases ZeroCells(g), 0, d.size + 1 - num, 1
  {
    if num > d.size then Tally(count, g)
    else if IsValidPlacement(d, g, row, col, num) then CountPlaced(d, g, row, col, num, count)
    else CountFrom(d, g, row, col, num + 1, count)
  }

  /** A turn of the count loop whose number passes the check: place it and
      count on; unless that count went past one, clear the cell and go on to
      the next number with the new count. */
  function CountPlaced(d: Dims, g: Grid, row: nat, col: nat, num: int, count: int): (r: Tally)
    requires ValidDims(d) && IsSquare(g, d.size) && OnGrid(d, row, col) && g[row][col] == 0 && 1 <= num <= d.size
    ensures IsSquare(r.grid, d.size)
    ensures r.count >= count
    ensures r.count <= 1 ==> r.grid == g
    decreases ZeroCells(g), 0, d.size + 1 - num, 0
  {
    var placed := Set(g, row, col, num);
    ZeroCellsSet(g, row, col, num);
    var sub := CountSolutions(d, placed, count);
    if sub.count > 1 then
      sub
    else
      var undone := Set(sub.grid, row, col, 0);
      SetRestore(g, row, col, num);
      assert undone == g;
      CountFrom(d, undone, row, col, num + 1, sub.count)
  }

  /** Every grid the same search reaches with no zero left, in the order it
      reaches them, when it is never cut short: the reference the bounded
      counter is measured against. */
  function Solutions(d: Dims, g: Grid): seq<Grid>
    requires ValidDims(d) && IsSquare(g, d.size)
    decreases ZeroCells(g), 1
  {
    match FirstZero(d, g)
    case None => [g]
    case Some((row, col)) => SolutionsFrom(d, g, row, col, 1)
  }

  function SolutionsFrom(d: Dims, g: Grid, row: nat, col: nat, num: int): seq<Grid>
    requires ValidDims(d) && IsSquare(g, d.size) && OnGrid(d, row, col) && g[row][col] == 0 && num >= 1
    decreases ZeroCells(g), 0, d.size + 1 - num
  {
    if num > d.size then []
    else if IsValidPlacement(d, g, row, col, num) then
      ZeroCellsSet(g, row, col, num);
      Solutions(d, Set(g, row, col, num)) + SolutionsFrom(d, g, row, col, num + 1)
    else
      SolutionsFrom(d, g, row, col, num + 1)
  }

  /** r is what a counter that gives up past one reports for a true total:
      the total itself while it is at most one, and some number above one
      otherwise. */
  predicate Saturates(r: int, total: int) {
    (total <= 1 ==> r == total) && (total > 1 ==> r > 1)
  }

  /** `countSolutions(g, count)` adds the number of solutions of g to count,
      exactly while the sum stays at most one. */
  lemma {:induction false} CountSaturates(d: Dims, g: Grid, count: int)
    requires ValidDims(d) && IsSquare(g, d.size) && count <= 1
    ensures Saturates(CountSolutions(d, g, count).count, count + |Solutions(d, g)|)
    decreases ZeroCells(g), 1
  {
    match FirstZero(d, g)
    case None =>
    case Some((row, col)) =>
      CountFromSaturates(d, g, row, col, 1, count);
  }

  lemma {:induction false} CountFromSaturates(d: Dims, g: Grid, row: nat, col: nat, num: int, count: int)
    requires ValidDims(d) && IsSquare(g, d.size) && OnGrid(d, row, col) && g[row][col] == 0 && num >= 1
    requires count <= 1
    ensures Saturates(CountFrom(d, g, row, col, num, count).count, count + |SolutionsFrom(d, g, row, col, num)|)
    decreases ZeroCells(g), 0, d.size + 1 - num, 1
  {
    if num <= d.size {
      if IsValidPlacement(d, g, row, col, num) {
        ZeroCellsSet(g, row, col, num);
        assert SolutionsFrom(d, g, row, col, num) ==
          Solutions(d, Set(g, row, col, num)) + SolutionsFrom(d, g, row, col, num + 1);
        PlacedSaturates(d, g, row, col, num, count);
      } else {
        assert CountFrom(d, g, row, col, num, count) == CountFrom(d, g, row, col, num + 1, count);
        assert SolutionsFrom(d, g, row, col, num) == SolutionsFrom(d, g, row, col, num + 1);
        CountFromSaturates(d, g, row, col, num + 1, count);
      }
    }
  }

  /** The step of the count when num passes the check at (row, col): the
      solutions below the placed number come first, then those of the later
      numbers. */
  lemma {:induction false} PlacedSaturates(d: Dims, g: Grid, row: nat, col: nat, num: int, count: int)
    requires ValidDims(d) && IsSquare(g, d.size) && OnGrid(d, row, col) && g[row][col] == 0 && 1 <= num <= d.size
    requires count <= 1
    ensures Saturates(CountPlaced(d, g, row, col, num, count).count,
      count + |Solutions(d, Set(g, row, col, num))| + |SolutionsFrom(d, g, row, col, num + 1)|)
    decreases ZeroCells(g), 0, d.size + 1 - num, 0
  {
    var placed := Set(g, row, col, num);
    ZeroCellsSet(g, row, col, num);
    CountSaturates(d, placed, count);
    var sub := CountSolutions(d, placed, count);
    if sub.count <= 1 {
      SetRestore(g, row, col, num);
      CountFromSaturates(d, g, row, col, num + 1, sub.count);
    }
  }

  /** h solves g: a full grid over 1..size with no repeat in any row, column
      or block, keeping every nonzero cell of g. */
  ghost predicate Completes(d: Dims, g: Grid, h: Grid)
    requires ValidDims(d) && IsSquare(g, d.size)
  {
    IsSquare(h, d.size) && NoZero(h) && CellsUpTo(h, d.size) && NoUnitRepeat(h, d.sub) &&
    forall i, j :: OnGrid(d, i, j) && g[i][j] != 0 ==> h[i][j] == g[i][j]
  }

  /** The value a solution puts in an empty cell is free for that cell. */
  lemma CompletionValueFree(d: Dims, g: Grid, h: Grid, row: int, col: int)
    requires ValidDims(d) && IsSquare(g, d.size) && OnGrid(d, row, col) && g[row][col] == 0
    requires Completes(d, g, h)
    ensures FreeFor(d, g, row, col, h[row][col])
  {
    var v := h[row][col];
    forall r, c | 0 <= r < d.size && 0 <= c < d.size && (r == row || c == col || SameBox(d.sub, r, c, row, col))
      ensures g[r][c] != v
    {
      if g[r][c] == v {
        assert h[r][c] == v;
        assert SameUnit(d.sub, r, c, row, col);
      }
    }
  }

  /** A solution of g that puts num at the empty cell (row, col) is a solution
      of g with num written there, and conversely. */
  lemma CompletesPlaced(d: Dims, g: Grid, row: int, col: int, num: int, h: Grid)
    requires ValidDims(d) && IsSquare(g, d.size) && OnGrid(d, row, col) && g[row][col] == 0 && num != 0
    ensures Completes(d, Set(g, row, col, num), h) <==> Completes(d, g, h) && h[row][col] == num
  {
    var placed := Set(g, row, col, num);
    if Completes(d, g, h) && h[row][col] == num {
      forall i, j | OnGrid(d, i, j) && placed[i][j] != 0 ensures h[i][j] == placed[i][j] {
        if (i, j) != (row, col) {
          assert placed[i][j] == g[i][j];
        }
      }
      assert Completes(d, placed, h);
    }
    if Completes(d, placed, h) {
      assert h[row][col] == num by {
        assert placed[row][col] == num;
      }
      forall i, j | OnGrid(d, i, j) && g[i][j] != 0 ensures h[i][j] == g[i][j] {
        assert placed[i][j] == g[i][j];
      }
    }
  }

  /** A full grid without repeats over 1..size is its own and only solution. */
  lemma FullSolvesItself(d: Dims, g: Grid, h: Grid)
    requires ValidDims(d) && IsSquare(g, d.size) && NoZero(g) && NoUnitRepeat(g, d.sub) && CellsUpTo(g, d.size)
    ensures Completes(d, g, h) <==> h == g
  {
    if Completes(d, g, h) {
      forall i | 0 <= i < d.size ensures h[i] == g[i] {
        forall j | 0 <= j < d.size ensures h[i][j] == g[i][j] {
          assert g[i][j] != 0;
        }
      }
      assert h == g;
    }
  }

  /** The search reaches exactly the solutions of a grid without repeats over
      1..size. */
  lemma {:induction false} SolutionsExact(d: Dims, g: Grid, h: Grid)
    requires ValidDims(d) && IsSquare(g, d.size) && NoUnitRepeat(g, d.sub) && CellsUpTo(g, d.size)
    ensures h in Solutions(d, g) <==> Completes(d, g, h)
    decreases ZeroCells(g), 1
  {
    match FirstZero(d, g)
    case None =>
      FullSolvesItself(d, g, h);
    case Some((row, col)) =>
      SolutionsFromExact(d, g, row, col, 1, h);
  }

  lemma {:induction false} SolutionsFromExact(d: Dims, g: Grid, row: nat, col: nat, num: int, h: Grid)
    requires ValidDims(d) && IsSquare(g, d.size) && OnGrid(d, row, col) && g[row][col] == 0 && num >= 1
    requires NoUnitRepeat(g, d.sub) && CellsUpTo(g, d.size)
    ensures h in SolutionsFrom(d, g, row, col, num) <==> Completes(d, g, h) && num <= h[row][col]
    decreases ZeroCells(g), 0, d.size + 1 - num, 1
  {
    if num <= d.size {
      SolutionsFromExact(d, g, row, col, num + 1, h);
      FromStep(d, g, row, col, num, h);
      var solves := Completes(d, g, h);
      var v := if solves then h[row][col] else 0;
      var below := h in SolutionsFrom(d, g, row, col, num + 1);
      if IsValidPlacement(d, g, row, col, num) {
        PlacedExact(d, g, row, col, num, h);
        MergeCandidates(solves, v, num, h in Solutions(d, Set(g, row, col, num)), below,
          h in SolutionsFrom(d, g, row, col, num));
      } else {
        RejectedValue(d, g, row, col, num, h);
        MergeCandidates(solves, v, num, false, below, h in SolutionsFrom(d, g, row, col, num));
      }
    }
  }

  /** The loop over candidates as a fact about truth values: found from num on
      is found at num or found from num + 1 on. */
  lemma MergeCandidates(solves: bool, v: int, num: int, at: bool, later: bool, found: bool)
    requires at <==> solves && v == num
    requires later <==> solves && num + 1 <= v
    requires found <==> at || later
    ensures found <==> solves && num <= v
  {
  }

  /** One candidate of the loop: h is found from num on exactly when it is
      found below num (if num passes the check) or from num + 1 on. */
  lemma FromStep(d: Dims, g: Grid, row: nat, col: nat, num: int, h: Grid)
    requires ValidDims(d) && IsSquare(g, d.size) && OnGrid(d, row, col) && g[row][col] == 0 && 1 <= num <= d.size
    ensures IsValidPlacement(d, g, row, col, num) ==>
      ZeroCells(Set(g, row, col, num)) < ZeroCells(g) &&
      (h in SolutionsFrom(d, g, row, col, num) <==>
        h in Solutions(d, Set(g, row, col, num)) || h in SolutionsFrom(d, g, row, col, num + 1))
    ensures !IsValidPlacement(d, g, row, col, num) ==>
      (h in SolutionsFrom(d, g, row, col, num) <==> h in SolutionsFrom(d, g, row, col, num + 1))
  {
    ZeroCellsSet(g, row, col, num);
  }

  /** No completion puts a value the placement check rejects. */
  lemma RejectedValue(d: Dims, g: Grid, row: nat, col: nat, num: int, h: Grid)
    requires ValidDims(d) && IsSquare(g, d.size) && OnGrid(d, row, col) && g[row][col] == 0
    requires !IsValidPlacement(d, g, row, col, num)
    ensures !(Completes(d, g, h) && h[row][col] == num)
  {
    if Completes(d, g, h) && h[row][col] == num {
      CompletionValueFree(d, g, h, row, col);
      IsValidPlacementIff(d, g, row, col, num);
    }
  }

  /** The solutions found below a placement are the solutions of g holding
      that number at the cell. */
  lemma {:induction false} PlacedExact(d: Dims, g: Grid, row: nat, col: nat, num: int, h: Grid)
    requires ValidDims(d) && IsSquare(g, d.size) && OnGrid(d, row, col) && g[row][col] == 0 && 1 <= num <= d.size
    requires NoUnitRepeat(g, d.sub) && CellsUpTo(g, d.size) && IsValidPlacement(d, g, row, col, num)
    ensures ZeroCells(Set(g, row, col, num)) < ZeroCells(g)
    ensures h in Solutions(d, Set(g, row, col, num)) <==> Completes(d, g, h) && h[row][col] == num
    decreases ZeroCells(g), 0, d.size + 1 - num, 0
  {
    var placed := Set(g, row, col, num);
    ZeroCellsSet(g, row, col, num);
    PlaceKeepsUnits(d, g, row, col, num);
    SetKeepsCellsUpTo(g, row, col, num, d.size);
    SolutionsExact(d, placed, h);
    CompletesPlaced(d, g, row, col, num, h);
  }

  /** The search never reaches the same grid twice. */
  lemma {:induction false} SolutionsDistinct(d: Dims, g: Grid)
    requires ValidDims(d) && IsSquare(g, d.size) && NoUnitRepeat(g, d.sub) && CellsUpTo(g, d.size)
    ensures Distinct(Solutions(d, g))
    decreases ZeroCells(g), 1
  {
    match FirstZero(d, g)
    case None =>
    case Some((row, col)) =>
      SolutionsFromDistinct(d, g, row, col, 1);
  }

  lemma {:induction false} SolutionsFromDistinct(d: Dims, g: Grid, row: nat, col: nat, num: int)
    requires ValidDims(d) && IsSquare(g, d.size) && OnGrid(d, row, col) && g[row][col] == 0 && num >= 1
    requires NoUnitRepeat(g, d.sub) && CellsUpTo(g, d.size)
    ensures Distinct(SolutionsFrom(d, g, row, col, num))
    decreases ZeroCells(g), 0, d.size + 1 - num, 1
  {
    if num <= d.size {
      if IsValidPlacement(d, g, row, col, num) {
        PlacedDistinct(d, g, row, col, num);
      } else {
        SolutionsFromDistinct(d, g, row, col, num + 1);
        assert SolutionsFrom(d, g, row, col, num) == SolutionsFrom(d, g, row, col, num + 1);
      }
    }
  }

  /** The solutions below a placement of num all hold num at the cell, and
      those of the later numbers hold more, so the two lists share nothing. */
  lemma {:induction false} PlacedDistinct(d: Dims, g: Grid, row: nat, col: nat, num: int)
    requires ValidDims(d) && IsSquare(g, d.size) && OnGrid(d, row, col) && g[row][col] == 0 && 1 <= num <= d.size
    requires NoUnitRepeat(g, d.sub) && CellsUpTo(g, d.size) && IsValidPlacement(d, g, row, col, num)
    ensures Distinct(SolutionsFrom(d, g, row, col, num))
    decreases ZeroCells(g), 0, d.size + 1 - num, 0
  {
    var placed := Set(g, row, col, num);
    ZeroCellsSet(g, row, col, num);
    PlaceKeepsUnits(d, g, row, col, num);
    SetKeepsCellsUpTo(g, row, col, num, d.size);
    SolutionsDistinct(d, placed);
    SolutionsFromDistinct(d, g, row, col, num + 1);
    PlacedDisjoint(d, g, row, col, num);
    DistinctConcat(Solutions(d, placed), SolutionsFrom(d, g, row, col, num + 1));
    assert SolutionsFrom(d, g, row, col, num) == Solutions(d, placed) + SolutionsFrom(d, g, row, col, num + 1);
  }

  lemma PlacedDisjoint(d: Dims, g: Grid, row: nat, col: nat, num: int)
    requires ValidDims(d) && IsSquare(g, d.size) && OnGrid(d, row, col) && g[row][col] == 0 && 1 <= num <= d.size
    requires NoUnitRepeat(g, d.sub) && CellsUpTo(g, d.size) && IsValidPlacement(d, g, row, col, num)
    ensures forall h :: h in Solutions(d, Set(g, row, col, num)) ==> h !in SolutionsFrom(d, g, row, col, num + 1)
  {
    PlacedHold(d, g, row, col, num);
    LaterHold(d, g, row, col, num + 1);
  }

  /** Every solution below the placement holds num at the cell. */
  lemma PlacedHold(d: Dims, g: Grid, row: nat, col: nat, num: int)
    requires ValidDims(d) && IsSquare(g, d.size) && OnGrid(d, row, col) && g[row][col] == 0 && 1 <= num <= d.size
    requires NoUnitRepeat(g, d.sub) && CellsUpTo(g, d.size) && IsValidPlacement(d, g, row, col, num)
    ensures forall h :: h in Solutions(d, Set(g, row, col, num)) ==> IsSquare(h, d.size) && h[row][col] == num
  {
    forall h | h in Solutions(d, Set(g, row, col, num)) ensures IsSquare(h, d.size) && h[row][col] == num {
      PlacedExact(d, g, row, col, num, h);
    }
  }

  /** Every solution found from num on holds at least num at the cell. */
  lemma LaterHold(d: Dims, g: Grid, row: nat, col: nat, num: int)
    requires ValidDims(d) && IsSquare(g, d.size) && OnGrid(d, row, col) && g[row][col] == 0 && num >= 1
    requires NoUnitRepeat(g, d.sub) && CellsUpTo(g, d.size)
    ensures forall h :: h in SolutionsFrom(d, g, row, col, num) ==> IsSquare(h, d.size) && num <= h[row][col]
  {
    forall h | h in SolutionsFrom(d, g, row, col, num) ensures IsSquare(h, d.size) && num <= h[row][col] {
      SolutionsFromExact(d, g, row, col, num, h);
    }
  }

  /** `hasUniqueSolution`: count the solutions of a copy, starting from 0. */
  function HasUniqueSolution(d: Dims, g: Grid): bool
    requires ValidDims(d) && IsSquare(g, d.size)
  {
    CountSolutions(d, g, 0).count == 1
  }

  /** g has exactly one solution. */
  ghost predicate UniquelySolvable(d: Dims, g: Grid)
    requires ValidDims(d) && IsSquare(g, d.size)
  {
    exists h :: Completes(d, g, h) && forall h' :: Completes(d, g, h') ==> h' == h
  }

  /** On a grid without repeats over 1..size, `hasUniqueSolution` answers
      exactly whether the grid has one and only one solution. */
  lemma HasUniqueSolutionIff(d: Dims, g: Grid)
    requires ValidDims(d) && IsSquare(g, d.size) && NoUnitRepeat(g, d.sub) && CellsUpTo(g, d.size)
    ensures HasUniqueSolution(d, g) <==> UniquelySolvable(d, g)
  {
    var sols := Solutions(d, g);
    CountSaturates(d, g, 0);
    SolutionsDistinct(d, g);
    forall h ensures h in sols <==> Completes(d, g, h) {
      SolutionsExact(d, g, h);
    }
    if HasUniqueSolution(d, g) {
      assert |sols| == 1;
      assert Completes(d, g, sols[0]);
      forall h' | Completes(d, g, h') ensures h' == sols[0] {
        assert h' in sols;
      }
    }
    if UniquelySolvable(d, g) {
      var h :| Completes(d, g, h) && forall h' :: Completes(d, g, h') ==> h' == h;
      assert h in sols;
      DistinctAllEqual(sols, h);
    }
  }

  /** What `removeCells` leaves: the grid, blanked in place, and the number of
      removals it counted. */
  datatype Removal = Removal(grid: Grid, removed: nat)

  /** The `for (const cell of cells)` loop of `removeCells`: stop once
      `removed` reaches `count`; otherwise blank the cell, keep it blank and
      count it when the puzzle still has a unique solution, and otherwise
      write the backed-up value back. */
  function RemoveFrom(d: Dims, g: Grid, cells: seq<Pos>, removed: nat, count: int): (r: Removal)
    requires ValidDims(d) && IsSquare(g, d.size) && CellsOnGrid(d, cells)
    ensures IsSquare(r.grid, d.size) && Clears(g, r.grid)
    ensures removed <= r.removed <= removed + |cells|
    ensures r.removed > removed ==> r.removed <= count && HasUniqueSolution(d, r.grid)
    ensures r.removed == removed ==> r.grid == g
    ensures forall i, j {:trigger r.grid[i][j]} :: OnGrid(d, i, j) && (i, j) !in cells ==> r.grid[i][j] == g[i][j]
    decreases |cells|
  {
    if cells == [] || removed >= count then Removal(g, removed)
    else
      var (row, col) := cells[0];
      var backup := g[row][col];
      var cleared := Set(g, row, col, 0);
      if HasUniqueSolution(d, cleared) then
        RemoveFrom(d, cleared, cells[1..], removed + 1, count)
      else
        SetRestore(g, row, col, 0);
        RemoveFrom(d, Set(cleared, row, col, backup), cells[1..], removed, count)
  }

  predicate CellsOnGrid(d: Dims, cells: seq<Pos>) {
    forall k :: 0 <= k < |cells| ==> 0 <= cells[k].0 < d.size && 0 <= cells[k].1 < d.size
  }

  /** Every cell of the list holds a nonzero value. */
  predicate Filled(d: Dims, g: Grid, cells: seq<Pos>)
    requires IsSquare(g, d.size) && CellsOnGrid(d, cells)
  {
    forall k :: 0 <= k < |cells| ==> g[cells[k].0][cells[k].1] != 0
  }

  /** Each counted removal blanks at most one cell. */
  lemma {:induction false} RemoveFromBlanksAtMost(d: Dims, g: Grid, cells: seq<Pos>, removed: nat, count: int)
    requires ValidDims(d) && IsSquare(g, d.size) && CellsOnGrid(d, cells)
    ensures var r := RemoveFrom(d, g, cells, removed, count);
      ZeroCells(r.grid) <= ZeroCells(g) + (r.removed - removed)
    decreases |cells|
  {
    if cells != [] && removed < count {
      var (row, col) := cells[0];
      var cleared := Set(g, row, col, 0);
      ZeroCellsSet(g, row, col, 0);
      if HasUniqueSolution(d, cleared) {
        assert RemoveFrom(d, g, cells, removed, count) == RemoveFrom(d, cleared, cells[1..], removed + 1, count);
        RemoveFromBlanksAtMost(d, cleared, cells[1..], removed + 1, count);
      } else {
        SetRestore(g, row, col, 0);
        assert RemoveFrom(d, g, cells, removed, count) == RemoveFrom(d, g, cells[1..], removed, count);
        RemoveFromBlanksAtMost(d, g, cells[1..], removed, count);
      }
    }
  }

  /** Over distinct filled cells, each counted removal blanks exactly one cell. */
  lemma {:induction false} RemoveFromBlanksExactly(d: Dims, g: Grid, cells: seq<Pos>, removed: nat, count: int)
    requires ValidDims(d) && IsSquare(g, d.size) && CellsOnGrid(d, cells)
    requires Distinct(cells) && Filled(d, g, cells)
    ensures var r := RemoveFrom(d, g, cells, removed, count);
      ZeroCells(r.grid) == ZeroCells(g) + (r.removed - removed)
    decreases |cells|
  {
    if cells != [] && removed < count {
      var (row, col) := cells[0];
      var cleared := Set(g, row, col, 0);
      ZeroCellsSet(g, row, col, 0);
      RestFilled(d, g, cells);
      if HasUniqueSolution(d, cleared) {
        assert RemoveFrom(d, g, cells, removed, count) == RemoveFrom(d, cleared, cells[1..], removed + 1, count);
        RemoveFromBlanksExactly(d, cleared, cells[1..], removed + 1, count);
      } else {
        SetRestore(g, row, col, 0);
        assert RemoveFrom(d, g, cells, removed, count) == RemoveFrom(d, g, cells[1..], removed, count);
        RemoveFromBlanksExactly(d, g, cells[1..], removed, count);
      }
    }
  }

  /** The rest of a list of distinct filled cells is one too, before and after
      its first cell is cleared. */
  lemma RestFilled(d: Dims, g: Grid, cells: seq<Pos>)
    requires ValidDims(d) && IsSquare(g, d.size) && CellsOnGrid(d, cells)
    requires cells != [] && Distinct(cells) && Filled(d, g, cells)
    ensures Distinct(cells[1..]) && CellsOnGrid(d, cells[1..])
    ensures Filled(d, g, cells[1..])
    ensures Filled(d, Set(g, cells[0].0, cells[0].1, 0), cells[1..])
  {
    var rest := cells[1..];
    var cleared := Set(g, cells[0].0, cells[0].1, 0);
    DistinctCons(cells[0], rest);
    assert cells == [cells[0]] + rest;
    forall k | 0 <= k < |rest| ensures g[rest[k].0][rest[k].1] != 0 && cleared[rest[k].0][rest[k].1] != 0 {
      assert rest[k] == cells[k + 1] != cells[0];
    }
  }

  /** `shuffleArray` applied to the row-major list of all positions. */
  function ShuffledCells(n: nat, rolls: seq<nat>): (cells: seq<Pos>)
    ensures |cells| == n * n && Distinct(cells)
    ensures forall k :: 0 <= k < |cells| ==> 0 <= cells[k].0 < n && 0 <= cells[k].1 < n
  {
    var all := AllPositions(n);
    ShuffleMembers(all, rolls);
    var cells := Shuffle(all, rolls);
    assert forall k :: 0 <= k < |cells| ==> 0 <= cells[k].0 < n && 0 <= cells[k].1 < n by {
      forall k | 0 <= k < |cells| ensures 0 <= cells[k].0 < n && 0 <= cells[k].1 < n {
        assert cells[k] in cells;
      }
    }
    cells
  }

  /** `removeCells(grid, count)`: visit every cell once, in shuffled order. */
  function RemoveCells(d: Dims, g: Grid, count: int, rolls: seq<nat>): (r: Removal)
    requires ValidDims(d) && IsSquare(g, d.size)
    ensures IsSquare(r.grid, d.size) && Clears(g, r.grid)
    ensures r.removed > 0 ==> r.removed <= count && HasUniqueSolution(d, r.grid)
    ensures r.removed == 0 ==> r.grid == g
    ensures NoZero(g) ==> ZeroCells(r.grid) == r.removed
  {
    var cells := ShuffledCells(d.size, rolls);
    assert NoZero(g) ==> ZeroCells(RemoveFrom(d, g, cells, 0, count).grid) == RemoveFrom(d, g, cells, 0, count).removed by {
      if NoZero(g) {
        ZeroCellsNone(g);
        RemoveFromBlanksExactly(d, g, cells, 0, count);
      }
    }
    RemoveFrom(d, g, cells, 0, count)
  }

  /** The names an object literal inherits from `Object.prototype`.  Indexing
      the difficulty table with one of them yields a function or an object,
      not a number. */
  predicate InheritedKey(name: string) {
    name in {"constructor", "hasOwnProperty", "isPrototypeOf", "propertyIsEnumerable",
      "toLocaleString", "toString", "valueOf", "__proto__", "__defineGetter__",
      "__defineSetter__", "__lookupGetter__", "__lookupSetter__"}
  }

  /** The lookup `{easy: 35, ...}[difficulty] || 45` of `createPuzzle`.  The
      four keys give their counts and an unknown name falls back to 45; an
      inherited name gives a truthy non-number, which `|| 45` keeps, and is
      `None` here. */
  function CellsToRemove(difficulty: string): (k: Option<nat>)
    ensures k.None? <==> InheritedKey(difficulty)
    ensures k.Some? ==> 35 <= k.value <= 58
    ensures difficulty !in {"easy", "medium", "hard", "expert"} && k.Some? ==> k.value == 45
  {
    if difficulty == "easy" then Some(35)
    else if difficulty == "medium" then Some(45)
    else if difficulty == "hard" then Some(52)
    else if difficulty == "expert" then Some(58)
    else if InheritedKey(difficulty) then None
    else Some(45)
  }

  /** The `count` that `removeCells` effectively runs with.  A non-number
      count makes `removed >= count` compare against NaN, which is always
      false, so the loop never breaks; any count of at least size * size does
      the same, since the loop visits size * size cells. */
  function RemovalCap(d: Dims, k: Option<nat>): nat {
    match k
    case Some(n) => n
    case None => d.size * d.size
  }

  /** A count the loop cannot reach acts as no cap at all: every larger count,
      the NaN of a non-number count included, gives the same run. */
  lemma {:induction false} RemoveFromBeyondCap(d: Dims, g: Grid, cells: seq<Pos>, removed: nat, count: int, larger: int)
    requires ValidDims(d) && IsSquare(g, d.size) && CellsOnGrid(d, cells)
    requires removed + |cells| <= count <= larger
    ensures RemoveFrom(d, g, cells, removed, count) == RemoveFrom(d, g, cells, removed, larger)
    decreases |cells|
  {
    if cells != [] {
      var (row, col) := cells[0];
      var cleared := Set(g, row, col, 0);
      if HasUniqueSolution(d, cleared) {
        RemoveFromBeyondCap(d, cleared, cells[1..], removed + 1, count, larger);
      } else {
        RemoveFromBeyondCap(d, Set(cleared, row, col, g[row][col]), cells[1..], removed, count, larger);
      }
    }
  }

  /** `removeCells` with a count of size * size runs as with any larger
      count: the loop never breaks, as with the NaN of a non-number count. */
  lemma RemoveCellsUncapped(d: Dims, g: Grid, larger: int, rolls: seq<nat>)
    requires ValidDims(d) && IsSquare(g, d.size) && d.size * d.size <= larger
    ensures RemoveCells(d, g, RemovalCap(d, None), rolls) == RemoveCells(d, g, larger, rolls)
  {
    RemoveFromBeyondCap(d, g, ShuffledCells(d.size, rolls), 0, d.size * d.size, larger);
  }

  /** `createPuzzle(difficulty)`: generate a complete grid, then blank cells of
      a copy while its solution stays unique.  When generation succeeds, the
      puzzle has exactly one solution, the generated grid; a difficulty from
      the table caps the blanks at its count, and an inherited name leaves
      them uncapped. */
  function CreatePuzzle(d: Dims, difficulty: string, rolls: seq<nat>): (p: Grid)
    requires ValidDims(d)
    ensures IsSquare(p, d.size)
    ensures Clears(GenerateComplete(d, rolls).grid, p)
    ensures GenerateComplete(d, rolls).solved ==>
      (CellsToRemove(difficulty).Some? ==> ZeroCells(p) <= CellsToRemove(difficulty).value) &&
      forall h :: Completes(d, p, h) <==> h == GenerateComplete(d, rolls).grid
  {
    var complete := GenerateComplete(d, rolls);
    var r := RemoveCells(d, complete.grid, RemovalCap(d, CellsToRemove(difficulty)), complete.rolls);
    assert complete.solved ==> forall h :: Completes(d, r.grid, h) <==> h == complete.grid by {
      if complete.solved {
        PuzzleSolution(d, complete.grid, r.grid);
      }
    }
    r.grid
  }

  /** A grid blanked from a full solution, either not at all or so that it
      keeps a unique solution, has that full grid as its only solution. */
  lemma PuzzleSolution(d: Dims, c: Grid, p: Grid)
    requires ValidDims(d) && IsSquare(c, d.size) && IsSquare(p, d.size)
    requires NoZero(c) && CellsUpTo(c, d.size) && NoUnitRepeat(c, d.sub) && Clears(c, p)
    requires p == c || HasUniqueSolution(d, p)
    ensures forall h :: Completes(d, p, h) <==> h == c
  {
    ClearsKeeps(c, p, d.sub, d.size);
    assert Completes(d, p, c);
    if p == c {
      forall h ensures Completes(d, p, h) <==> h == c {
        FullSolvesItself(d, c, h);
      }
    } else {
      HasUniqueSolutionIff(d, p);
    }
  }
}
