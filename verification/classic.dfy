/** `ClassicSudokuGenerator` of the Python engine: the placement check
    `_is_valid` and the randomized backtracking fill `_solve_grid`. */
module ClassicGenerator {
  import opened Util
  import opened Board

  /** The first region, from index `from` on, that lists (r, c): the region
      loop of `_is_valid`, which stops at the first region holding the cell. */
  function FirstContaining(rs: seq<seq<Pos>>, r: int, c: int, from: nat): (k: Option<nat>)
    ensures k.Some? ==> from <= k.value < |rs| && (r, c) in rs[k.value]
    ensures k.Some? ==> forall q :: from <= q < k.value ==> (r, c) !in rs[q]
    ensures k.None? ==> forall q :: from <= q < |rs| ==> (r, c) !in rs[q]
    decreases |rs| - from
  {
    if from >= |rs| then None
    else if (r, c) in rs[from] then Some(from)
    else FirstContaining(rs, r, c, from + 1)
  }

  /** The first region found for a board cell is its own block. */
  lemma FirstContainingIsBlock(sp: Spec, r: int, c: int)
    requires WellFormed(sp) && OnBoard(sp, (r, c))
    ensures FirstContaining(Regions(sp), r, c, 0) == Some(RegionIndex(sp, r, c))
  {
    RegionsPartition(sp, r, c);
    var rs, k := Regions(sp), RegionIndex(sp, r, c);
    assert (r, c) in rs[k];
    assert forall q :: 0 <= q < k ==> (r, c) !in rs[q];
    FirstContainingFinds(rs, r, c, 0, k);
  }

  /** The scan stops at the first region listing the cell. */
  lemma {:induction false} FirstContainingFinds(rs: seq<seq<Pos>>, r: int, c: int, from: nat, k: nat)
    requires from <= k < |rs| && (r, c) in rs[k]
    requires forall q :: from <= q < k ==> (r, c) !in rs[q]
    ensures FirstContaining(rs, r, c, from) == Some(k)
    decreases k - from
  {
    if from < k {
      FirstContainingFinds(rs, r, c, from + 1, k);
    }
  }

  /** No cell of the listed cells holds s. */
  predicate CellsFree(sp: Spec, g: Board, cells: seq<Pos>, s: char)
    requires Shaped(sp, g)
    requires forall t :: 0 <= t < |cells| ==> 0 <= cells[t].0 < sp.n && 0 <= cells[t].1 < sp.n
  {
    forall t :: 0 <= t < |cells| ==> g[cells[t].0][cells[t].1] != Some(s)
  }

  /** `_is_valid`: s is not in the row, not in the column, and not in the
      first region that lists (row, col). */
  predicate IsValid(sp: Spec, g: Board, row: int, col: int, s: char)
    requires WellFormed(sp) && Shaped(sp, g) && OnBoard(sp, (row, col))
  {
    Some(s) !in g[row] &&
    Some(s) !in seq(sp.n, i requires 0 <= i < sp.n => g[i][col]) &&
    match FirstContaining(Regions(sp), row, col, 0)
    case None => true
    case Some(k) => CellsFree(sp, g, Regions(sp)[k], s)
  }

  /** The placement check accepts s exactly when s is absent from the row, the
      column and the block of the cell. */
  lemma IsValidIff(sp: Spec, g: Board, row: int, col: int, s: char)
    requires WellFormed(sp) && Shaped(sp, g) && OnBoard(sp, (row, col))
    ensures IsValid(sp, g, row, col, s) <==> Absent(sp, g, row, col, s)
  {
    FirstContainingIsBlock(sp, row, col);
    ColumnFree(sp, g, col, s);
    RegionFree(sp, g, row, col, s);
  }

  lemma ColumnFree(sp: Spec, g: Board, col: int, s: char)
    requires Shaped(sp, g) && 0 <= col < sp.n
    ensures Some(s) !in seq(sp.n, i requires 0 <= i < sp.n => g[i][col]) <==>
      forall r :: 0 <= r < sp.n ==> g[r][col] != Some(s)
  {
    var column := seq(sp.n, i requires 0 <= i < sp.n => g[i][col]);
    if Some(s) in column {
      var r :| 0 <= r < sp.n && column[r] == Some(s);
      assert g[r][col] == Some(s);
    }
    if exists r :: 0 <= r < sp.n && g[r][col] == Some(s) {
      var r :| 0 <= r < sp.n && g[r][col] == Some(s);
      assert column[r] == Some(s);
    }
  }

  /** The region of (row, col) lists exactly the cells of its block. */
  lemma InOwnRegion(sp: Spec, row: int, col: int, r: int, c: int)
    requires WellFormed(sp) && OnBoard(sp, (row, col)) && OnBoard(sp, (r, c))
    ensures 0 <= RegionIndex(sp, row, col) < |Regions(sp)|
    ensures (r, c) in Regions(sp)[RegionIndex(sp, row, col)] <==> SameBlock(sp, r, c, row, col)
  {
    RegionsPartition(sp, row, col);
    RegionsPartition(sp, r, c);
    SameRegionIndex(sp, r, c, row, col);
  }

  /** The region of a board cell is free of s exactly when its block is. */
  lemma RegionFree(sp: Spec, g: Board, row: int, col: int, s: char)
    requires WellFormed(sp) && Shaped(sp, g) && OnBoard(sp, (row, col))
    ensures 0 <= RegionIndex(sp, row, col) < |Regions(sp)|
    ensures CellsFree(sp, g, Regions(sp)[RegionIndex(sp, row, col)], s) <==>
      forall r, c :: 0 <= r < sp.n && 0 <= c < sp.n && SameBlock(sp, r, c, row, col) ==> g[r][c] != Some(s)
  {
    RegionsPartition(sp, row, col);
    var cells := Regions(sp)[RegionIndex(sp, row, col)];
    forall r, c | 0 <= r < sp.n && 0 <= c < sp.n
      ensures (r, c) in cells <==> SameBlock(sp, r, c, row, col)
    {
      InOwnRegion(sp, row, col, r, c);
    }
    ListedFree(sp, g, cells, (r, c) => SameBlock(sp, r, c, row, col), s);
  }

  /** A list of board cells that holds exactly the cells satisfying `inside`
      is free of s exactly when those cells are. */
  lemma ListedFree(sp: Spec, g: Board, cells: seq<Pos>, inside: (int, int) -> bool, s: char)
    requires Shaped(sp, g)
    requires forall t :: 0 <= t < |cells| ==> 0 <= cells[t].0 < sp.n && 0 <= cells[t].1 < sp.n
    requires forall r, c :: 0 <= r < sp.n && 0 <= c < sp.n ==> ((r, c) in cells <==> inside(r, c))
    ensures CellsFree(sp, g, cells, s) <==>
      forall r, c :: 0 <= r < sp.n && 0 <= c < sp.n && inside(r, c) ==> g[r][c] != Some(s)
  {
    if CellsFree(sp, g, cells, s) {
      forall r, c | 0 <= r < sp.n && 0 <= c < sp.n && inside(r, c)
        ensures g[r][c] != Some(s)
      {
        var t :| 0 <= t < |cells| && cells[t] == (r, c);
      }
    }
    if forall r, c :: 0 <= r < sp.n && 0 <= c < sp.n && inside(r, c) ==> g[r][c] != Some(s) {
      forall t | 0 <= t < |cells| ensures g[cells[t].0][cells[t].1] != Some(s) {
        var (r, c) := cells[t];
        assert (r, c) in cells;
      }
    }
  }

  /** Placing a symbol that passes the check keeps the board consistent. */
  lemma PlaceKeepsConsistent(sp: Spec, g: Board, i: int, j: int, s: char)
    requires WellFormed(sp) && Shaped(sp, g) && OnBoard(sp, (i, j))
    requires IsValid(sp, g, i, j, s)
    ensures Consistent(sp, g) ==> Consistent(sp, Put(g, i, j, Some(s)))
  {
    IsValidIff(sp, g, i, j, s);
    var h: Board := Put(g, i, j, Some(s));
    forall r1, c1, r2, c2 | Consistent(sp, g) && 0 <= r1 < sp.n && 0 <= c1 < sp.n && 0 <= r2 < sp.n && 0 <= c2 < sp.n &&
      SameUnit(sp, r1, c1, r2, c2) && h[r1][c1].Some?
      ensures h[r1][c1] != h[r2][c2]
    {
      if (r1, c1) == (i, j) {
        assert h[r2][c2] == g[r2][c2];
      } else if (r2, c2) == (i, j) {
        assert h[r1][c1] == g[r1][c1];
      }
    }
  }

  /** Every symbol on the board belongs to the alphabet. */
  predicate InAlphabet(sp: Spec, g: Board) {
    forall i, j :: 0 <= i < |g| && 0 <= j < |g[i]| && g[i][j].Some? ==> g[i][j].value in sp.alphabet
  }

  /** The first empty cell in row-major order, as `_solve_grid`'s loops find it. */
  function FirstEmpty(sp: Spec, g: Board): (p: Option<(nat, nat)>)
    requires Shaped(sp, g)
    ensures p.Some? ==> OnBoard(sp, p.value) && g[p.value.0][p.value.1].None?
    ensures p.None? ==> Full(g)
  {
    var p := FirstCell(sp.n, sp.n, (i: nat, j: nat) => i < |g| && j < |g[i]| && g[i][j].None?);
    assert p.None? ==> Full(g) by {
      if p.None? {
        forall i, j | 0 <= i < |g| && 0 <= j < |g[i]| ensures g[i][j].Some? {
          assert !((i: nat, j: nat) => i < |g| && j < |g[i]| && g[i][j].None?)(i, j);
        }
      }
    }
    p
  }

  /** The result of a search: whether it succeeded, the board it leaves, and
      the unread part of the random stream. */
  datatype Outcome = Outcome(solved: bool, grid: Board, rolls: seq<nat>)

  /** `_solve_grid`: fill the first empty cell with each symbol of a shuffled
      copy of the alphabet that passes the check, recurse, and undo the
      placement when the recursion fails. */
  function Solve(sp: Spec, g: Board, rolls: seq<nat>): (r: Outcome)
    requires WellFormed(sp) && Shaped(sp, g)
    ensures Shaped(sp, r.grid)
    ensures r.solved ==> Full(r.grid)
    ensures !r.solved ==> r.grid == g
    decreases CountEmpty(g), 1
  {
    match FirstEmpty(sp, g)
    case None => Outcome(true, g, rolls)
    case Some((i, j)) =>
      ShuffleMembers(sp.alphabet, rolls);
      TryFrom(sp, g, i, j, Shuffle(sp.alphabet, rolls), Drop(rolls, ShuffleCost(|sp.alphabet|)))
  }

  /** The loop over the shuffled candidates for the empty cell (i, j). */
  function TryFrom(sp: Spec, g: Board, i: nat, j: nat, cands: seq<char>, rolls: seq<nat>): (r: Outcome)
    requires WellFormed(sp) && Shaped(sp, g) && OnBoard(sp, (i, j)) && g[i][j].None?
    requires forall t :: 0 <= t < |cands| ==> cands[t] in sp.alphabet
    ensures Shaped(sp, r.grid)
    ensures r.solved ==> Full(r.grid)
    ensures !r.solved ==> r.grid == g
    decreases CountEmpty(g), 0, |cands|, 1
  {
    if cands == [] then Outcome(false, g, rolls)
    else if IsValid(sp, g, i, j, cands[0]) then TryPlaced(sp, g, i, j, cands, rolls)
    else TryFrom(sp, g, i, j, cands[1..], rolls)
  }

  /** A turn of the loop whose candidate passes the check: place it and
      search on; when that search fails, empty the cell again and go on to the
      next candidate. */
  function TryPlaced(sp: Spec, g: Board, i: nat, j: nat, cands: seq<char>, rolls: seq<nat>): (r: Outcome)
    requires WellFormed(sp) && Shaped(sp, g) && OnBoard(sp, (i, j)) && g[i][j].None?
    requires forall t :: 0 <= t < |cands| ==> cands[t] in sp.alphabet
    requires cands != []
    ensures Shaped(sp, r.grid)
    ensures r.solved ==> Full(r.grid)
    ensures !r.solved ==> r.grid == g
    decreases CountEmpty(g), 0, |cands|, 0
  {
    var placed := Put(g, i, j, Some(cands[0]));
    CountEmptyPut(g, i, j, Some(cands[0]));
    var sub := Solve(sp, placed, rolls);
    if sub.solved then
      sub
    else
      var undone := Put(sub.grid, i, j, None);
      PutRestore(g, i, j, Some(cands[0]));
      assert undone == g;
      TryFrom(sp, undone, i, j, cands[1..], sub.rolls)
  }

  /** One turn of the candidate loop whose candidate passes the check: the
      board with it placed has one empty cell fewer, and the loop returns the
      recursive search when it succeeds and goes on to the next candidate with
      the cell emptied again otherwise. */
  lemma PlacedUnfold(sp: Spec, g: Board, i: nat, j: nat, cands: seq<char>, rolls: seq<nat>)
    requires WellFormed(sp) && Shaped(sp, g) && OnBoard(sp, (i, j)) && g[i][j].None?
    requires forall t :: 0 <= t < |cands| ==> cands[t] in sp.alphabet
    requires cands != []
    ensures CountEmpty(Put(g, i, j, Some(cands[0]))) < CountEmpty(g)
    ensures var sub := Solve(sp, Put(g, i, j, Some(cands[0])), rolls);
      TryPlaced(sp, g, i, j, cands, rolls) ==
        if sub.solved then sub else TryFrom(sp, g, i, j, cands[1..], sub.rolls)
  {
    CountEmptyPut(g, i, j, Some(cands[0]));
    PutRestore(g, i, j, Some(cands[0]));
  }

  /** The search keeps every filled cell of the board it starts from. */
  lemma {:induction false} SolveKeeps(sp: Spec, g: Board, rolls: seq<nat>)
    requires WellFormed(sp) && Shaped(sp, g)
    ensures forall a, b {:trigger Solve(sp, g, rolls).grid[a][b]} :: 0 <= a < sp.n && 0 <= b < sp.n && g[a][b].Some? ==>
      Solve(sp, g, rolls).grid[a][b] == g[a][b]
    decreases CountEmpty(g), 1
  {
    match FirstEmpty(sp, g)
    case None =>
    case Some((i, j)) =>
      ShuffleMembers(sp.alphabet, rolls);
      TryKeeps(sp, g, i, j, Shuffle(sp.alphabet, rolls), Drop(rolls, ShuffleCost(|sp.alphabet|)));
  }

  lemma {:induction false} TryKeeps(sp: Spec, g: Board, i: nat, j: nat, cands: seq<char>, rolls: seq<nat>)
    requires WellFormed(sp) && Shaped(sp, g) && OnBoard(sp, (i, j)) && g[i][j].None?
    requires forall t :: 0 <= t < |cands| ==> cands[t] in sp.alphabet
    ensures forall a, b {:trigger TryFrom(sp, g, i, j, cands, rolls).grid[a][b]} :: 0 <= a < sp.n && 0 <= b < sp.n && g[a][b].Some? ==>
      TryFrom(sp, g, i, j, cands, rolls).grid[a][b] == g[a][b]
    decreases CountEmpty(g), 0, |cands|, 1
  {
    if cands != [] {
      if IsValid(sp, g, i, j, cands[0]) {
        PlacedKeeps(sp, g, i, j, cands, rolls);
      } else {
        assert TryFrom(sp, g, i, j, cands, rolls) == TryFrom(sp, g, i, j, cands[1..], rolls);
        TryKeeps(sp, g, i, j, cands[1..], rolls);
      }
    }
  }

  /** The step of TryKeeps when the first candidate passes the check. */
  lemma {:induction false} PlacedKeeps(sp: Spec, g: Board, i: nat, j: nat, cands: seq<char>, rolls: seq<nat>)
    requires WellFormed(sp) && Shaped(sp, g) && OnBoard(sp, (i, j)) && g[i][j].None?
    requires forall t :: 0 <= t < |cands| ==> cands[t] in sp.alphabet
    requires cands != []
    ensures forall a, b {:trigger TryPlaced(sp, g, i, j, cands, rolls).grid[a][b]} :: 0 <= a < sp.n && 0 <= b < sp.n && g[a][b].Some? ==>
      TryPlaced(sp, g, i, j, cands, rolls).grid[a][b] == g[a][b]
    decreases CountEmpty(g), 0, |cands|, 0
  {
    var placed := Put(g, i, j, Some(cands[0]));
    PlacedUnfold(sp, g, i, j, cands, rolls);
    SolveKeeps(sp, placed, rolls);
    var sub := Solve(sp, placed, rolls);
    if !sub.solved {
      TryKeeps(sp, g, i, j, cands[1..], sub.rolls);
    }
  }

  /** A search started from a consistent board leaves a consistent board:
      every placement passed the check. */
  lemma {:induction false} SolveConsistent(sp: Spec, g: Board, rolls: seq<nat>)
    requires WellFormed(sp) && Shaped(sp, g)
    ensures Consistent(sp, g) ==> Consistent(sp, Solve(sp, g, rolls).grid)
    decreases CountEmpty(g), 1
  {
    match FirstEmpty(sp, g)
    case None =>
    case Some((i, j)) =>
      ShuffleMembers(sp.alphabet, rolls);
      TryConsistent(sp, g, i, j, Shuffle(sp.alphabet, rolls), Drop(rolls, ShuffleCost(|sp.alphabet|)));
  }

  lemma {:induction false} TryConsistent(sp: Spec, g: Board, i: nat, j: nat, cands: seq<char>, rolls: seq<nat>)
    requires WellFormed(sp) && Shaped(sp, g) && OnBoard(sp, (i, j)) && g[i][j].None?
    requires forall t :: 0 <= t < |cands| ==> cands[t] in sp.alphabet
    ensures Consistent(sp, g) ==> Consistent(sp, TryFrom(sp, g, i, j, cands, rolls).grid)
    decreases CountEmpty(g), 0, |cands|, 1
  {
    if cands != [] {
      if IsValid(sp, g, i, j, cands[0]) {
        PlacedConsistent(sp, g, i, j, cands, rolls);
      } else {
        assert TryFrom(sp, g, i, j, cands, rolls) == TryFrom(sp, g, i, j, cands[1..], rolls);
        TryConsistent(sp, g, i, j, cands[1..], rolls);
      }
    }
  }

  /** The step of TryConsistent when the first candidate passes the check. */
  lemma {:induction false} PlacedConsistent(sp: Spec, g: Board, i: nat, j: nat, cands: seq<char>, rolls: seq<nat>)
    requires WellFormed(sp) && Shaped(sp, g) && OnBoard(sp, (i, j)) && g[i][j].None?
    requires forall t :: 0 <= t < |cands| ==> cands[t] in sp.alphabet
    requires cands != [] && IsValid(sp, g, i, j, cands[0])
    ensures Consistent(sp, g) ==> Consistent(sp, TryPlaced(sp, g, i, j, cands, rolls).grid)
    decreases CountEmpty(g), 0, |cands|, 0
  {
    var placed := Put(g, i, j, Some(cands[0]));
    PlacedUnfold(sp, g, i, j, cands, rolls);
    PlaceKeepsConsistent(sp, g, i, j, cands[0]);
    SolveConsistent(sp, placed, rolls);
    var sub := Solve(sp, placed, rolls);
    if !sub.solved {
      TryConsistent(sp, g, i, j, cands[1..], sub.rolls);
    }
  }

  /** A search started from a board over the alphabet leaves a board over
      the alphabet: every candidate is a symbol of the alphabet. */
  lemma {:induction false} SolveInAlphabet(sp: Spec, g: Board, rolls: seq<nat>)
    requires WellFormed(sp) && Shaped(sp, g)
    ensures InAlphabet(sp, g) ==> InAlphabet(sp, Solve(sp, g, rolls).grid)
    decreases CountEmpty(g), 1
  {
    match FirstEmpty(sp, g)
    case None =>
    case Some((i, j)) =>
      ShuffleMembers(sp.alphabet, rolls);
      TryInAlphabet(sp, g, i, j, Shuffle(sp.alphabet, rolls), Drop(rolls, ShuffleCost(|sp.alphabet|)));
  }

  lemma {:induction false} TryInAlphabet(sp: Spec, g: Board, i: nat, j: nat, cands: seq<char>, rolls: seq<nat>)
    requires WellFormed(sp) && Shaped(sp, g) && OnBoard(sp, (i, j)) && g[i][j].None?
    requires forall t :: 0 <= t < |cands| ==> cands[t] in sp.alphabet
    ensures InAlphabet(sp, g) ==> InAlphabet(sp, TryFrom(sp, g, i, j, cands, rolls).grid)
    decreases CountEmpty(g), 0, |cands|, 1
  {
    if cands != [] {
      if IsValid(sp, g, i, j, cands[0]) {
        PlacedInAlphabet(sp, g, i, j, cands, rolls);
      } else {
        assert TryFrom(sp, g, i, j, cands, rolls) == TryFrom(sp, g, i, j, cands[1..], rolls);
        TryInAlphabet(sp, g, i, j, cands[1..], rolls);
      }
    }
  }

  /** The step of TryInAlphabet when the first candidate passes the check. */
  lemma {:induction false} PlacedInAlphabet(sp: Spec, g: Board, i: nat, j: nat, cands: seq<char>, rolls: seq<nat>)
    requires WellFormed(sp) && Shaped(sp, g) && OnBoard(sp, (i, j)) && g[i][j].None?
    requires forall t :: 0 <= t < |cands| ==> cands[t] in sp.alphabet
    requires cands != []
    ensures InAlphabet(sp, g) ==> InAlphabet(sp, TryPlaced(sp, g, i, j, cands, rolls).grid)
    decreases CountEmpty(g), 0, |cands|, 0
  {
    var placed := Put(g, i, j, Some(cands[0]));
    PlacedUnfold(sp, g, i, j, cands, rolls);
    assert InAlphabet(sp, g) ==> InAlphabet(sp, placed);
    SolveInAlphabet(sp, placed, rolls);
    var sub := Solve(sp, placed, rolls);
    if !sub.solved {
      TryInAlphabet(sp, g, i, j, cands[1..], sub.rolls);
    }
  }

  /** An n x n board of empty cells. */
  function EmptyBoard(n: nat): (g: Board)
    ensures |g| == n && forall i :: 0 <= i < n ==> |g[i]| == n
    ensures forall i, j :: 0 <= i < n && 0 <= j < n ==> g[i][j].None?
  {
    seq(n, i => seq(n, j => None))
  }

  /** `generate`: run the search on an empty board and return the board,
      complete or, if the search failed, still empty. */
  function Generate(sp: Spec, rolls: seq<nat>): (g: Board)
    requires WellFormed(sp)
    ensures Shaped(sp, g)
    ensures (Full(g) && Consistent(sp, g) && InAlphabet(sp, g)) || g == EmptyBoard(sp.n)
  {
    var start := EmptyBoard(sp.n);
    SolveConsistent(sp, start, rolls);
    SolveInAlphabet(sp, start, rolls);
    Solve(sp, start, rolls).grid
  }

  /** A search from a consistent board cannot succeed when the alphabet has
      fewer symbols than a row has cells: a full consistent row would need n
      distinct symbols.  With the nine-symbol sets this is every `super` and
      `zilla` game. */
  lemma SmallAlphabetFails(sp: Spec, g: Board, rolls: seq<nat>)
    requires WellFormed(sp) && Shaped(sp, g) && sp.n > 0
    requires Consistent(sp, g) && InAlphabet(sp, g) && |sp.alphabet| < sp.n
    ensures !Solve(sp, g, rolls).solved
  {
    var r := Solve(sp, g, rolls);
    SolveConsistent(sp, g, rolls);
    SolveInAlphabet(sp, g, rolls);
    if r.solved {
      FullRowNeedsSymbols(sp, r.grid);
    }
  }

  /** A full consistent board over the alphabet has at least n symbols. */
  lemma FullRowNeedsSymbols(sp: Spec, g: Board)
    requires WellFormed(sp) && Shaped(sp, g) && sp.n > 0
    requires Full(g) && Consistent(sp, g) && InAlphabet(sp, g)
    ensures |sp.alphabet| >= sp.n
  {
    var row := seq(sp.n, c requires 0 <= c < sp.n => g[0][c].value);
    assert Distinct(row) by {
      forall a, b | 0 <= a < b < sp.n ensures row[a] != row[b] {
        assert SameUnit(sp, 0, a, 0, b);
      }
    }
    CardSetOf(row);
    CardSetOf(sp.alphabet);
    assert SetOf(row) <= SetOf(sp.alphabet);
    SubsetCard(SetOf(row), SetOf(sp.alphabet));
  }
}
