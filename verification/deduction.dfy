/** `DeductiveReasoning`: the candidate list of a cell and the naked-single and
    hidden-single searches, all over the board as the player sees it. */
module Deduction {
  import opened Util
  import opened Board
  import opened Session
  import ClassicGenerator

  /** The symbols held by a list of cells. */
  function Seen(cells: seq<Cell>): (r: set<char>)
    ensures forall s :: s in r <==> Some(s) in cells
  {
    var r := set t | 0 <= t < |cells| && cells[t].Some? :: cells[t].value;
    assert forall s :: Some(s) in cells ==> s in r by {
      forall s | Some(s) in cells ensures s in r {
        var t :| 0 <= t < |cells| && cells[t] == Some(s);
      }
    }
    r
  }

  /** The symbols `_get_possible_values` rules out at (row, col): those seen in
      the row, in the column, and in the first region listing the cell. */
  function Impossible(game: Game, row: int, col: int): set<char>
    requires ValidGame(game) && OnBoard(game.sp, (row, col))
  {
    var sp, v := game.sp, ViewBoard(game);
    Seen(v[row]) + Seen(seq(sp.n, i requires 0 <= i < sp.n => v[i][col])) +
    match ClassicGenerator.FirstContaining(Regions(sp), row, col, 0)
    case None => {}
    case Some(k) =>
      var cells := Regions(sp)[k];
      Seen(seq(|cells|, t requires 0 <= t < |cells| => v[cells[t].0][cells[t].1]))
  }

  /** A symbol is ruled out exactly when the placement check of the generator
      would refuse it on the player's board. */
  lemma ImpossibleIff(game: Game, row: int, col: int, s: char)
    requires ValidGame(game) && OnBoard(game.sp, (row, col))
    ensures s !in Impossible(game, row, col) <==> ClassicGenerator.IsValid(game.sp, ViewBoard(game), row, col, s)
  {
    var sp, v := game.sp, ViewBoard(game);
    match ClassicGenerator.FirstContaining(Regions(sp), row, col, 0)
    case None =>
    case Some(k) =>
      var cells := Regions(sp)[k];
      var vals := seq(|cells|, t requires 0 <= t < |cells| => v[cells[t].0][cells[t].1]);
      ListedSeen(sp, v, cells, s);
  }

  lemma ListedSeen(sp: Spec, v: Board, cells: seq<Pos>, s: char)
    requires Shaped(sp, v)
    requires forall t :: 0 <= t < |cells| ==> 0 <= cells[t].0 < sp.n && 0 <= cells[t].1 < sp.n
    ensures Some(s) in seq(|cells|, t requires 0 <= t < |cells| => v[cells[t].0][cells[t].1]) <==>
      !ClassicGenerator.CellsFree(sp, v, cells, s)
  {
    var vals := seq(|cells|, t requires 0 <= t < |cells| => v[cells[t].0][cells[t].1]);
    if Some(s) in vals {
      var t :| 0 <= t < |vals| && vals[t] == Some(s);
      assert v[cells[t].0][cells[t].1] == Some(s);
    }
    if !ClassicGenerator.CellsFree(sp, v, cells, s) {
      var t :| 0 <= t < |cells| && v[cells[t].0][cells[t].1] == Some(s);
      assert vals[t] == Some(s);
    }
  }

  /** The alphabet in order, without the ruled-out symbols. */
  function Candidates(game: Game, row: int, col: int): (r: seq<char>)
    requires ValidGame(game) && OnBoard(game.sp, (row, col))
    ensures forall s :: s in r <==> s in game.sp.alphabet && s !in Impossible(game, row, col)
  {
    Keep(game.sp.alphabet, Impossible(game, row, col))
  }

  function Keep(syms: seq<char>, out: set<char>): (r: seq<char>)
    ensures forall s :: s in r <==> s in syms && s !in out
    ensures Distinct(syms) ==> Distinct(r)
  {
    if syms == [] then []
    else
      var rest := Keep(syms[1..], out);
      DistinctCons(syms[0], syms[1..]);
      assert syms == [syms[0]] + syms[1..];
      if syms[0] in out then rest
      else
        DistinctCons(syms[0], rest);
        [syms[0]] + rest
  }

  /** The candidates of a cell are exactly the alphabet symbols absent from its
      row, column and block on the player's board. */
  lemma CandidatesIff(game: Game, row: int, col: int, s: char)
    requires ValidGame(game) && OnBoard(game.sp, (row, col))
    ensures s in Candidates(game, row, col) <==> s in game.sp.alphabet && Absent(game.sp, ViewBoard(game), row, col, s)
  {
    ImpossibleIff(game, row, col, s);
    ClassicGenerator.IsValidIff(game.sp, ViewBoard(game), row, col, s);
  }

  /** A naked single: a cell empty in the grid and the overlay with exactly one
      candidate. */
  predicate NakedAt(game: Game, i: int, j: int)
    requires ValidGame(game) && OnBoard(game.sp, (i, j))
  {
    game.grid[i][j].None? && (i, j) !in game.input && |Candidates(game, i, j)| == 1
  }

  /** `find_naked_singles`: the first naked single in row-major order and its
      candidate. */
  function NakedSingle(game: Game): (r: Option<(int, int, char)>)
    requires ValidGame(game)
    ensures r.Some? ==> (OnBoard(game.sp, (r.value.0, r.value.1)) && NakedAt(game, r.value.0, r.value.1) &&
      Candidates(game, r.value.0, r.value.1) == [r.value.2])
    ensures r.Some? ==> forall i, j :: (0 <= i < game.sp.n && 0 <= j < game.sp.n &&
      Earlier((i, j), (r.value.0, r.value.1))) ==> !NakedAt(game, i, j)
    ensures r.None? ==> forall i, j :: 0 <= i < game.sp.n && 0 <= j < game.sp.n ==> !NakedAt(game, i, j)
  {
    var n := game.sp.n;
    var p := (i: nat, j: nat) => i < n && j < n && NakedAt(game, i, j);
    match FirstCell(n, n, p)
    case None =>
      assert forall i, j :: 0 <= i < n && 0 <= j < n ==> !NakedAt(game, i, j) by {
        forall i, j | 0 <= i < n && 0 <= j < n ensures !NakedAt(game, i, j) { assert !p(i, j); }
      }
      None
    case Some((i, j)) =>
      var cs := Candidates(game, i, j);
      assert cs == [cs[0]];
      assert forall a, b :: 0 <= a < n && 0 <= b < n && Earlier((a, b), (i, j)) ==> !NakedAt(game, a, b) by {
        forall a, b | 0 <= a < n && 0 <= b < n && Earlier((a, b), (i, j)) ensures !NakedAt(game, a, b) {
          assert !p(a, b);
        }
      }
      Some((i, j, cs[0]))
  }

  /** The naked single's symbol is the one alphabet symbol absent from the
      cell's row, column and block. */
  lemma NakedSingleForced(game: Game)
    requires ValidGame(game) && NakedSingle(game).Some?
    ensures var (i, j, s) := NakedSingle(game).value;
      s in game.sp.alphabet && Absent(game.sp, ViewBoard(game), i, j, s) &&
      forall x :: x in game.sp.alphabet && Absent(game.sp, ViewBoard(game), i, j, x) ==> x == s
  {
    var (i, j, s) := NakedSingle(game).value;
    CandidatesIff(game, i, j, s);
    forall x | x in game.sp.alphabet && Absent(game.sp, ViewBoard(game), i, j, x) ensures x == s {
      CandidatesIff(game, i, j, x);
    }
  }

  /** The units `find_hidden_singles` walks: rows 0..n-1, then columns, then
      regions. */
  function Unit(sp: Spec, u: nat): (cells: seq<Pos>)
    requires WellFormed(sp) && sp.b * sp.b == sp.n && u < 3 * sp.n
    ensures forall t :: 0 <= t < |cells| ==> OnBoard(sp, cells[t])
  {
    if u < sp.n then seq(sp.n, j => (u, j))
    else if u < 2 * sp.n then seq(sp.n, i => (i, u - sp.n))
    else
      SquareRegions(sp);
      Regions(sp)[u - 2 * sp.n]
  }

  /** s could go at p: the cell is empty and s is among its candidates. */
  predicate HostsAt(game: Game, p: Pos, s: char)
    requires ValidGame(game) && OnBoard(game.sp, p)
  {
    View(game, p.0, p.1).None? && s in Candidates(game, p.0, p.1)
  }

  /** The cells of a list that could take s, in list order. */
  function Hosts(game: Game, cells: seq<Pos>, s: char): (r: seq<Pos>)
    requires ValidGame(game) && forall t :: 0 <= t < |cells| ==> OnBoard(game.sp, cells[t])
    ensures forall p :: p in r <==> p in cells && OnBoard(game.sp, p) && HostsAt(game, p, s)
  {
    if cells == [] then []
    else
      var rest := Hosts(game, cells[1..], s);
      assert forall p :: p in cells <==> p == cells[0] || p in cells[1..];
      if HostsAt(game, cells[0], s) then [cells[0]] + rest else rest
  }

  /** Symbol k has exactly one possible cell in unit u. */
  predicate HiddenAt(game: Game, u: nat, k: nat)
    requires ValidGame(game) && game.sp.b * game.sp.b == game.sp.n && u < 3 * game.sp.n
  {
    k < |game.sp.alphabet| && |Hosts(game, Unit(game.sp, u), game.sp.alphabet[k])| == 1
  }

  /** `find_hidden_singles`: the first unit and symbol, in the order of the
      loops, with exactly one possible cell, and that cell. */
  function HiddenSingle(game: Game): (r: Option<(int, int, char)>)
    requires ValidGame(game) && game.sp.b * game.sp.b == game.sp.n
    ensures r.Some? ==> OnBoard(game.sp, (r.value.0, r.value.1)) && HostsAt(game, (r.value.0, r.value.1), r.value.2)
    ensures r.Some? ==> exists u: nat :: (u < 3 * game.sp.n && (r.value.0, r.value.1) in Unit(game.sp, u) &&
      forall q :: q in Unit(game.sp, u) && q != (r.value.0, r.value.1) ==> !HostsAt(game, q, r.value.2))
    ensures r.None? ==> forall u: nat, k: nat :: u < 3 * game.sp.n && k < |game.sp.alphabet| ==> !HiddenAt(game, u, k)
  {
    var n, a := game.sp.n, game.sp.alphabet;
    var p := (u: nat, k: nat) => u < 3 * n && HiddenAt(game, u, k);
    match FirstCell(3 * n, |a|, p)
    case None =>
      assert forall u: nat, k: nat :: u < 3 * n && k < |a| ==> !HiddenAt(game, u, k) by {
        forall u: nat, k: nat | u < 3 * n && k < |a| ensures !HiddenAt(game, u, k) { assert !p(u, k); }
      }
      None
    case Some((u, k)) =>
      assert p(u, k);
      var hosts := Hosts(game, Unit(game.sp, u), a[k]);
      var cell := hosts[0];
      assert hosts == [cell];
      assert forall q :: q in Unit(game.sp, u) && q != cell ==> !HostsAt(game, q, a[k]) by {
        forall q | q in Unit(game.sp, u) && q != cell ensures !HostsAt(game, q, a[k]) {
          assert q !in hosts;
        }
      }
      Some((cell.0, cell.1, a[k]))
  }

  /** A hidden single's symbol fits its cell, and in some unit holding the
      cell every other empty cell has the symbol in its row, column or block. */
  lemma HiddenSingleForced(game: Game)
    requires ValidGame(game) && game.sp.b * game.sp.b == game.sp.n && HiddenSingle(game).Some?
    ensures var (i, j, s) := HiddenSingle(game).value;
      s in game.sp.alphabet && View(game, i, j).None? && Absent(game.sp, ViewBoard(game), i, j, s) &&
      exists u: nat :: u < 3 * game.sp.n && (i, j) in Unit(game.sp, u) &&
        forall q :: q in Unit(game.sp, u) && q != (i, j) && View(game, q.0, q.1).None? && s in game.sp.alphabet ==>
          !Absent(game.sp, ViewBoard(game), q.0, q.1, s)
  {
    var (i, j, s) := HiddenSingle(game).value;
    CandidatesIff(game, i, j, s);
    var u: nat :| u < 3 * game.sp.n && (i, j) in Unit(game.sp, u) &&
      forall q :: q in Unit(game.sp, u) && q != (i, j) ==> !HostsAt(game, q, s);
    forall q | q in Unit(game.sp, u) && q != (i, j) && View(game, q.0, q.1).None?
      ensures !Absent(game.sp, ViewBoard(game), q.0, q.1, s)
    {
      CandidatesIff(game, q.0, q.1, s);
    }
  }
}
