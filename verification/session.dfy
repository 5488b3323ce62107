/** The game state of `SudokuEngine`: carving the playable grid out of the
    solution (`_create_playable_grid`), moves over the base grid plus the
    user-input overlay (`make_move`), and the completion check
    (`check_solution`). */
module Session {
  import opened Util
  import opened Board
  import ClassicGenerator

  /** The difficulty levels and the number of cells each asks to clear. */
  datatype Difficulty = Beginner | Easy | Medium | Hard | Expert

  function CellsToRemove(d: Difficulty): (k: nat)
    ensures 30 <= k <= 60
  {
    match d
    case Beginner => 30
    case Easy => 40
    case Medium => 50
    case Hard => 55
    case Expert => 60
  }

  /** The two alphabets of single characters. */
  datatype SymbolSet = Numbers | Letters

  function Alphabet(s: SymbolSet): (a: seq<char>)
    ensures |a| == 9 && Distinct(a)
  {
    match s
    case Numbers => "123456789"
    case Letters => "ABCDEFGHI"
  }

  /** State of the carving loop: the grid, the positions recorded as fixed,
      the number of cells cleared, the unread draws, and whether the loop
      reached its target before the draws ran out. */
  datatype Carving = Carving(grid: Board, fixed: set<Pos>, removed: nat, rolls: seq<nat>, finished: bool)

  /** Every position of the set is an empty board cell. */
  predicate FixedAreEmpty(sp: Spec, g: Board, fixed: set<Pos>)
    requires Shaped(sp, g)
  {
    forall p :: p in fixed ==> OnBoard(sp, p) && g[p.0][p.1].None?
  }

  /** The carving loop: draw a row and a column; clear the cell and count it
      if it holds a symbol, otherwise record the position as fixed; stop once
      `target` cells were cleared.  The loop has no other exit, so a finite
      stream of draws can end it unfinished. */
  function CarveFrom(sp: Spec, g: Board, fixed: set<Pos>, removed: nat, target: nat, rolls: seq<nat>): (c: Carving)
    requires Shaped(sp, g) && sp.n > 0 && removed <= target
    ensures Shaped(sp, c.grid)
    ensures removed <= c.removed <= target
    ensures c.finished <==> c.removed == target
    ensures CountEmpty(c.grid) == CountEmpty(g) + (c.removed - removed)
    ensures forall i, j :: 0 <= i < sp.n && 0 <= j < sp.n ==> c.grid[i][j] == g[i][j] || c.grid[i][j].None?
    ensures fixed <= c.fixed
    ensures FixedAreEmpty(sp, g, fixed) ==> FixedAreEmpty(sp, c.grid, c.fixed)
    decreases |rolls|
  {
    if removed == target then Carving(g, fixed, removed, rolls, true)
    else if |rolls| < 2 then Carving(g, fixed, removed, rolls, false)
    else
      var i, j := Pick(rolls, sp.n), Pick(rolls[1..], sp.n);
      if g[i][j].Some? then
        CountEmptyPut(g, i, j, None);
        CarveFrom(sp, Put(g, i, j, None), fixed, removed + 1, target, rolls[2..])
      else
        CarveFrom(sp, g, fixed + {(i, j)}, removed, target, rolls[2..])
  }

  /** `_create_playable_grid`: carve from a copy of the solution with no fixed
      cells. */
  function CreatePlayable(sp: Spec, solution: Board, target: nat, rolls: seq<nat>): (c: Carving)
    requires Shaped(sp, solution) && sp.n > 0
    ensures Shaped(sp, c.grid)
    ensures c.removed <= target && (c.finished <==> c.removed == target)
    ensures forall i, j :: 0 <= i < sp.n && 0 <= j < sp.n ==> c.grid[i][j] == solution[i][j] || c.grid[i][j].None?
    ensures FixedAreEmpty(sp, c.grid, c.fixed)
  {
    CarveFrom(sp, solution, {}, 0, target, rolls)
  }

  /** From a complete solution, a finished carving leaves exactly `target`
      empty cells, and it can only finish when target <= n*n: asked to clear
      more cells than the board has, the loop runs forever whatever it draws. */
  lemma CarveCount(sp: Spec, solution: Board, target: nat, rolls: seq<nat>)
    requires Shaped(sp, solution) && sp.n > 0 && Full(solution)
    ensures CreatePlayable(sp, solution, target, rolls).finished ==>
      CountEmpty(CreatePlayable(sp, solution, target, rolls).grid) == target
    ensures target > sp.n * sp.n ==> !CreatePlayable(sp, solution, target, rolls).finished
  {
    var c := CreatePlayable(sp, solution, target, rolls);
    CountEmptyBound(solution, sp.n);
    CountEmptyBound(c.grid, sp.n);
  }

  /** Carving an all-empty board never clears anything, so it never finishes
      a positive target. */
  lemma CarveEmptyStalls(sp: Spec, target: nat, rolls: seq<nat>)
    requires sp.n > 0 && target > 0
    ensures !CreatePlayable(sp, ClassicGenerator.EmptyBoard(sp.n), target, rolls).finished
  {
    var e := ClassicGenerator.EmptyBoard(sp.n);
    var c := CreatePlayable(sp, e, target, rolls);
    EmptyBoardCount(e, sp.n);
    CountEmptyBound(c.grid, sp.n);
  }

  lemma {:induction false} EmptyBoardCount(g: Board, n: nat)
    requires forall i :: 0 <= i < |g| ==> |g[i]| == n
    requires forall i, j :: 0 <= i < |g| && 0 <= j < n ==> g[i][j].None?
    ensures CountEmpty(g) == |g| * n
  {
    if g != [] {
      EmptyBoardCount(g[1..], n);
      EmptyRowCount(g[0]);
      assert |g| * n == (|g| - 1) * n + n;
    }
  }

  lemma {:induction false} EmptyRowCount(row: seq<Cell>)
    requires forall j :: 0 <= j < |row| ==> row[j].None?
    ensures RowEmpty(row) == |row|
  {
    if row != [] {
      EmptyRowCount(row[1..]);
    }
  }

  /** Starting a game: generate a solution, then carve the playable grid,
      both reading the same stream of draws.  Every cell of the grid is the
      solution's or empty, the fixed positions are empty, and a carving that
      finishes was cut from a full, consistent solution over the alphabet and
      has exactly the difficulty's number of empty cells. */
  function NewGame(sp: Spec, d: Difficulty, rolls: seq<nat>): (c: Carving)
    requires WellFormed(sp) && sp.n > 0
    ensures Shaped(sp, c.grid)
    ensures forall i, j :: 0 <= i < sp.n && 0 <= j < sp.n ==>
      c.grid[i][j] == ClassicGenerator.Generate(sp, rolls)[i][j] || c.grid[i][j].None?
    ensures FixedAreEmpty(sp, c.grid, c.fixed)
    ensures c.finished ==> SolvedBoard(sp, ClassicGenerator.Generate(sp, rolls))
    ensures c.finished ==> CountEmpty(c.grid) == CellsToRemove(d)
  {
    var o := ClassicGenerator.Solve(sp, ClassicGenerator.EmptyBoard(sp.n), rolls);
    GenerateIsSolve(sp, rolls);
    var c := CreatePlayable(sp, o.grid, CellsToRemove(d), o.rolls);
    FinishedFromSolved(sp, o.grid, CellsToRemove(d), o.rolls);
    c
  }

  /** `generate` returns the board the search leaves. */
  lemma GenerateIsSolve(sp: Spec, rolls: seq<nat>)
    requires WellFormed(sp)
    ensures ClassicGenerator.Generate(sp, rolls) ==
      ClassicGenerator.Solve(sp, ClassicGenerator.EmptyBoard(sp.n), rolls).grid
    ensures SolvedBoard(sp, ClassicGenerator.Generate(sp, rolls)) ||
      ClassicGenerator.Generate(sp, rolls) == ClassicGenerator.EmptyBoard(sp.n)
  {
  }

  /** Carving a generated board finishes only when generation succeeded, and
      then leaves exactly the target number of empty cells. */
  lemma FinishedFromSolved(sp: Spec, g: Board, target: nat, rolls: seq<nat>)
    requires WellFormed(sp) && sp.n > 0 && Shaped(sp, g) && target > 0
    requires SolvedBoard(sp, g) || g == ClassicGenerator.EmptyBoard(sp.n)
    ensures CreatePlayable(sp, g, target, rolls).finished ==>
      SolvedBoard(sp, g) && CountEmpty(CreatePlayable(sp, g, target, rolls).grid) == target
  {
    if CreatePlayable(sp, g, target, rolls).finished {
      if g == ClassicGenerator.EmptyBoard(sp.n) {
        CarveEmptyStalls(sp, target, rolls);
      } else {
        CarveCount(sp, g, target, rolls);
      }
    }
  }

  /** A full board, consistent and written over the alphabet. */
  predicate SolvedBoard(sp: Spec, g: Board)
    requires WellFormed(sp) && Shaped(sp, g)
  {
    Full(g) && Consistent(sp, g) && ClassicGenerator.InAlphabet(sp, g)
  }

  /** `_initialize_game`: store the generated solution and the carved grid
      with an empty overlay, no errors and no history.  A carving that does
      not finish is the loop that never returns, and gives no game. */
  function StartGame(sp: Spec, d: Difficulty, rolls: seq<nat>): (game: Option<Game>)
    requires WellFormed(sp) && sp.n > 0
    ensures game.Some? <==> NewGame(sp, d, rolls).finished
    ensures game.Some? ==>
      ValidGame(game.value) && game.value.sp == sp &&
      game.value.solution == ClassicGenerator.Generate(sp, rolls) &&
      SolvedBoard(sp, game.value.solution) &&
      CountEmpty(game.value.grid) == CellsToRemove(d) &&
      FixedAreEmpty(sp, game.value.grid, game.value.fixed) &&
      game.value.input == map[] && game.value.errors == 0 && game.value.history == []
    ensures game.Some? ==> forall i, j :: 0 <= i < sp.n && 0 <= j < sp.n ==>
      game.value.grid[i][j] == game.value.solution[i][j] || game.value.grid[i][j].None?
  {
    var c := NewGame(sp, d, rolls);
    if c.finished then
      Some(Game(sp, c.grid, ClassicGenerator.Generate(sp, rolls), c.fixed, map[], 0, []))
    else None
  }

  /** With the nine-symbol alphabets only the classic type can start a game:
      a subdoku has 16 cells but every difficulty clears at least 30, and a
      super or zilla board cannot be filled with nine symbols, so its
      solution stays empty and the carving loop never clears a cell. */
  lemma OnlyClassicStarts(t: SudokuType, s: SymbolSet, d: Difficulty, rolls: seq<nat>)
    requires t != Classic
    ensures !NewGame(Spec(TypeSpec(t).0, TypeSpec(t).1, Alphabet(s)), d, rolls).finished
  {
    var sp := Spec(TypeSpec(t).0, TypeSpec(t).1, Alphabet(s));
    TypeSpecWellFormed(t, Alphabet(s));
    if t == Subdoku {
      SmallBoardStalls(sp, d, rolls);
    } else {
      SmallAlphabetStalls(sp, d, rolls);
    }
  }

  /** A board with fewer cells than the difficulty clears never starts. */
  lemma SmallBoardStalls(sp: Spec, d: Difficulty, rolls: seq<nat>)
    requires WellFormed(sp) && sp.n > 0 && sp.n * sp.n < 30
    ensures !NewGame(sp, d, rolls).finished
  {
    var o := ClassicGenerator.Solve(sp, ClassicGenerator.EmptyBoard(sp.n), rolls);
    CarveFrom0(sp, o.grid, CellsToRemove(d), o.rolls);
  }

  /** A board wider than the alphabet never starts. */
  lemma SmallAlphabetStalls(sp: Spec, d: Difficulty, rolls: seq<nat>)
    requires WellFormed(sp) && sp.n > 0 && |sp.alphabet| < sp.n
    ensures !NewGame(sp, d, rolls).finished
  {
    var e := ClassicGenerator.EmptyBoard(sp.n);
    assert Consistent(sp, e);
    ClassicGenerator.SmallAlphabetFails(sp, e, rolls);
    CarveEmptyStalls(sp, CellsToRemove(d), ClassicGenerator.Solve(sp, e, rolls).rolls);
  }

  /** A carving cannot clear more cells than the board has non-empty ones. */
  lemma CarveFrom0(sp: Spec, g: Board, target: nat, rolls: seq<nat>)
    requires Shaped(sp, g) && sp.n > 0
    requires target > sp.n * sp.n
    ensures !CreatePlayable(sp, g, target, rolls).finished
  {
    var c := CreatePlayable(sp, g, target, rolls);
    CountEmptyBound(c.grid, sp.n);
  }

  /** A game: the playable grid, the solution, the fixed positions, the
      user-input overlay, the error counter and the move history. */
  datatype Game = Game(sp: Spec, grid: Board, solution: Board, fixed: set<Pos>,
                       input: map<Pos, char>, errors: nat, history: seq<(int, int, char)>)

  predicate ValidGame(game: Game) {
    WellFormed(game.sp) && Shaped(game.sp, game.grid) && Shaped(game.sp, game.solution)
  }

  /** The value a player sees at (i, j): the overlay entry if there is one,
      otherwise the base grid. */
  function View(game: Game, i: int, j: int): (v: Cell)
    requires ValidGame(game) && OnBoard(game.sp, (i, j))
    ensures (i, j) in game.input ==> v == Some(game.input[(i, j)])
    ensures (i, j) !in game.input ==> v == game.grid[i][j]
  {
    if (i, j) in game.input then Some(game.input[(i, j)]) else game.grid[i][j]
  }

  /** The whole board as a player sees it. */
  function ViewBoard(game: Game): (v: Board)
    requires ValidGame(game)
    ensures Shaped(game.sp, v)
    ensures forall i, j :: 0 <= i < game.sp.n && 0 <= j < game.sp.n ==> v[i][j] == View(game, i, j)
  {
    seq(game.sp.n, i requires 0 <= i < game.sp.n =>
      seq(game.sp.n, j requires 0 <= j < game.sp.n => View(game, i, j)))
  }

  datatype Status = FixedCell | InvalidValue | Incorrect | Accepted

  /** `make_move`: refuse a fixed cell, then a symbol outside the alphabet;
      otherwise record the value in the overlay and the history, and count an
      error when it differs from the solution. */
  function MakeMove(game: Game, row: int, col: int, value: char): (r: (Status, Game))
    requires ValidGame(game) && OnBoard(game.sp, (row, col))
    ensures r.0 == FixedCell <==> (row, col) in game.fixed
    ensures r.0 == InvalidValue <==> (row, col) !in game.fixed && value !in game.sp.alphabet
    ensures r.0 == Accepted <==>
      (row, col) !in game.fixed && value in game.sp.alphabet && game.solution[row][col] == Some(value)
    ensures r.0 == FixedCell || r.0 == InvalidValue ==> r.1 == game
    ensures r.0 == Incorrect || r.0 == Accepted ==>
      r.1.input == game.input[(row, col) := value] &&
      r.1.history == game.history + [(row, col, value)] &&
      r.1.errors == game.errors + (if r.0 == Incorrect then 1 else 0) &&
      r.1.(input := game.input, history := game.history, errors := game.errors) == game
  {
    if (row, col) in game.fixed then (FixedCell, game)
    else if value !in game.sp.alphabet then (InvalidValue, game)
    else
      var next := game.(input := game.input[(row, col) := value],
                        history := game.history + [(row, col, value)]);
      if game.solution[row][col] != Some(value) then (Incorrect, next.(errors := game.errors + 1))
      else (Accepted, next)
  }

  /** A recorded move shows its value at its cell and leaves every other
      cell's view as it was. */
  lemma MoveView(game: Game, row: int, col: int, value: char, i: int, j: int)
    requires ValidGame(game) && OnBoard(game.sp, (row, col)) && OnBoard(game.sp, (i, j))
    ensures var (st, next) := MakeMove(game, row, col, value);
      ValidGame(next) &&
      (st == Incorrect || st == Accepted ==>
        View(next, i, j) == if (i, j) == (row, col) then Some(value) else View(game, i, j))
  {
  }

  /** `check_solution`: scan the board for a cell whose view differs from the
      solution. */
  function CheckSolution(game: Game): (ok: bool)
    requires ValidGame(game)
    ensures ok <==> forall i, j :: 0 <= i < game.sp.n && 0 <= j < game.sp.n ==> View(game, i, j) == game.solution[i][j]
  {
    var mismatch := (i: nat, j: nat) => i < game.sp.n && j < game.sp.n && View(game, i, j) != game.solution[i][j];
    var p := FirstCell(game.sp.n, game.sp.n, mismatch);
    assert p.None? ==> forall i, j :: 0 <= i < game.sp.n && 0 <= j < game.sp.n ==> View(game, i, j) == game.solution[i][j] by {
      if p.None? {
        forall i, j | 0 <= i < game.sp.n && 0 <= j < game.sp.n ensures View(game, i, j) == game.solution[i][j] {
          assert !mismatch(i, j);
        }
      }
    }
    p.None?
  }

  /** On a grid carved from the solution, the game is solved exactly when the
      overlay agrees with the solution wherever it has an entry and covers
      every carved cell. */
  lemma SolvedIff(game: Game)
    requires ValidGame(game) && Full(game.solution)
    requires forall i, j :: 0 <= i < game.sp.n && 0 <= j < game.sp.n ==>
      game.grid[i][j] == game.solution[i][j] || game.grid[i][j].None?
    ensures CheckSolution(game) <==>
      (forall p :: p in game.input && OnBoard(game.sp, p) ==> game.solution[p.0][p.1] == Some(game.input[p])) &&
      (forall i, j :: 0 <= i < game.sp.n && 0 <= j < game.sp.n && game.grid[i][j].None? ==> (i, j) in game.input)
  {
    if CheckSolution(game) {
      forall i, j | 0 <= i < game.sp.n && 0 <= j < game.sp.n && game.grid[i][j].None?
        ensures (i, j) in game.input
      {
        assert View(game, i, j) == game.solution[i][j];
      }
      forall p | p in game.input && OnBoard(game.sp, p)
        ensures game.solution[p.0][p.1] == Some(game.input[p])
      {
        assert View(game, p.0, p.1) == game.solution[p.0][p.1];
      }
    }
  }

  /** The value test of `make_move` as written: the alphabet is a string, so
      `value in symbols` asks whether the value occurs as a substring. */
  predicate AdmittedAsWritten(value: seq<char>, alphabet: seq<char>) {
    exists k: nat | k <= |alphabet| :: OccursAt(value, alphabet, k)
  }

  predicate OccursAt(value: seq<char>, text: seq<char>, k: nat) {
    k + |value| <= |text| && text[k..k + |value|] == value
  }

  /** The test evidently intended: the value is one symbol of the alphabet,
      which is what `MakeMove` checks of its single-character value. */
  predicate Admitted(value: seq<char>, alphabet: seq<char>) {
    |value| == 1 && value[0] in alphabet
  }

  /** The substring test lets through the empty string and runs of symbols
      such as "12", neither of which is a symbol; each is then written to the
      overlay and counted as an incorrect move. */
  lemma AdmitsNonSymbols()
    ensures AdmittedAsWritten("", Alphabet(Numbers)) && !Admitted("", Alphabet(Numbers))
    ensures AdmittedAsWritten("12", Alphabet(Numbers)) && !Admitted("12", Alphabet(Numbers))
  {
    assert OccursAt("", Alphabet(Numbers), 0);
    assert OccursAt("12", Alphabet(Numbers), 0);
  }

  /** On one-character values the two tests agree, so the corrected test only
      removes the unintended cases. */
  lemma AdmittedAgrees(c: char, alphabet: seq<char>)
    ensures Admitted([c], alphabet) <==> AdmittedAsWritten([c], alphabet)
  {
    if c in alphabet {
      var k :| 0 <= k < |alphabet| && alphabet[k] == c;
      assert alphabet[k..k + 1] == [c];
      assert OccursAt([c], alphabet, k);
    }
    if AdmittedAsWritten([c], alphabet) {
      var k: nat :| k <= |alphabet| && OccursAt([c], alphabet, k);
      assert alphabet[k..k + 1][0] == c;
    }
  }
}
