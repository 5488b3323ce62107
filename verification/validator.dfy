/** `SudokuValidator`: the duplicate check over rows, columns and regions of
    the board as the player sees it. */
module Validator {
  import opened Util
  import opened Board
  import opened Session

  predicate ListOnBoard(sp: Spec, cells: seq<Pos>) {
    forall t :: 0 <= t < |cells| ==> OnBoard(sp, cells[t])
  }

  /** No two entries of the list show the same symbol. */
  predicate NoRepeat(game: Game, cells: seq<Pos>)
    requires ValidGame(game) && ListOnBoard(game.sp, cells)
  {
    forall a, b :: 0 <= a < b < |cells| && View(game, cells[a].0, cells[a].1).Some? ==>
      View(game, cells[a].0, cells[a].1) != View(game, cells[b].0, cells[b].1)
  }

  /** The loop of `_validate_region` with the symbols met so far. */
  function ValidateFrom(game: Game, cells: seq<Pos>, seen: seq<char>): (ok: bool)
    requires ValidGame(game) && ListOnBoard(game.sp, cells)
    ensures ok <==> (NoRepeat(game, cells) &&
      forall a :: 0 <= a < |cells| && View(game, cells[a].0, cells[a].1).Some? ==>
        View(game, cells[a].0, cells[a].1).value !in seen)
  {
    if cells == [] then true
    else
      var v := View(game, cells[0].0, cells[0].1);
      var tail := cells[1..];
      assert forall a :: 0 < a < |cells| ==> cells[a] == tail[a - 1];
      if v.None? then ValidateFrom(game, tail, seen)
      else if v.value in seen then false
      else ValidateFrom(game, tail, seen + [v.value])
  }

  /** `_validate_region`: true exactly when no symbol repeats among the cells. */
  function ValidateRegion(game: Game, cells: seq<Pos>): (ok: bool)
    requires ValidGame(game) && ListOnBoard(game.sp, cells)
    ensures ok <==> NoRepeat(game, cells)
  {
    ValidateFrom(game, cells, [])
  }

  /** The unit a reported error names. */
  datatype Flag = RowFlag(i: nat) | ColumnFlag(j: nat) | RegionFlag(k: nat)

  predicate FlagInRange(sp: Spec, f: Flag)
    requires WellFormed(sp)
  {
    match f
    case RowFlag(i) => i < sp.n
    case ColumnFlag(j) => j < sp.n
    case RegionFlag(k) => k < |Regions(sp)|
  }

  function FlagCells(sp: Spec, f: Flag): (cells: seq<Pos>)
    requires WellFormed(sp) && FlagInRange(sp, f)
    ensures ListOnBoard(sp, cells)
  {
    match f
    case RowFlag(i) => seq(sp.n, j => (i, j))
    case ColumnFlag(j) => seq(sp.n, i => (i, j))
    case RegionFlag(k) => Regions(sp)[k]
  }

  /** Every unit in the order `validate_grid` checks them. */
  function AllFlags(sp: Spec): (fs: seq<Flag>)
    requires WellFormed(sp)
    ensures forall f :: f in fs <==> FlagInRange(sp, f)
    ensures |fs| == 2 * sp.n + |Regions(sp)|
    ensures forall i :: 0 <= i < sp.n ==> fs[i] == RowFlag(i) && fs[sp.n + i] == ColumnFlag(i)
    ensures forall k :: 0 <= k < |Regions(sp)| ==> fs[2 * sp.n + k] == RegionFlag(k)
  {
    var fs := seq(sp.n, (i: nat) => RowFlag(i)) + seq(sp.n, (j: nat) => ColumnFlag(j)) +
      seq(|Regions(sp)|, (k: nat) => RegionFlag(k));
    assert forall f :: FlagInRange(sp, f) ==> f in fs by {
      forall f | FlagInRange(sp, f) ensures f in fs {
        if f.RowFlag? {
          assert fs[f.i] == f;
        } else if f.ColumnFlag? {
          assert fs[sp.n + f.j] == f;
        } else {
          assert fs[2 * sp.n + f.k] == f;
        }
      }
    }
    fs
  }

  /** The units of the list that contain a repeat, in list order. */
  function Flagged(game: Game, fs: seq<Flag>): (errors: seq<Flag>)
    requires ValidGame(game) && forall t :: 0 <= t < |fs| ==> FlagInRange(game.sp, fs[t])
    ensures forall f :: f in errors <==> f in fs && !ValidateRegion(game, FlagCells(game.sp, f))
    ensures errors == [] <==> forall t :: 0 <= t < |fs| ==> ValidateRegion(game, FlagCells(game.sp, fs[t]))
    ensures |errors| <= |fs|
  {
    if fs == [] then []
    else
      var rest := Flagged(game, fs[1..]);
      assert forall f :: f in fs <==> f == fs[0] || f in fs[1..];
      assert forall t :: 1 <= t < |fs| ==> fs[t] == fs[1..][t - 1];
      if ValidateRegion(game, FlagCells(game.sp, fs[0])) then rest else [fs[0]] + rest
  }

  /** Which units of the list contain a repeat. */
  function Failing(game: Game, fs: seq<Flag>): (marks: seq<bool>)
    requires ValidGame(game) && forall t :: 0 <= t < |fs| ==> FlagInRange(game.sp, fs[t])
    ensures |marks| == |fs|
  {
    seq(|fs|, t requires 0 <= t < |fs| => !ValidateRegion(game, FlagCells(game.sp, fs[t])))
  }

  lemma {:induction false} FlaggedMarked(game: Game, fs: seq<Flag>)
    requires ValidGame(game) && forall t :: 0 <= t < |fs| ==> FlagInRange(game.sp, fs[t])
    ensures Flagged(game, fs) == Marked(fs, Failing(game, fs))
  {
    if fs != [] {
      assert Failing(game, fs)[1..] == Failing(game, fs[1..]);
      FlaggedMarked(game, fs[1..]);
    }
  }

  /** The reported units keep the list's order: they are the entries of `fs`
      at strictly increasing positions, those entries fail, and every entry
      left out passes. */
  lemma FlaggedOrder(game: Game, fs: seq<Flag>) returns (idx: seq<nat>)
    requires ValidGame(game) && forall t :: 0 <= t < |fs| ==> FlagInRange(game.sp, fs[t])
    ensures |idx| == |Flagged(game, fs)|
    ensures forall k :: 0 <= k < |idx| ==> idx[k] < |fs| && Flagged(game, fs)[k] == fs[idx[k]]
    ensures forall a, b :: 0 <= a < b < |idx| ==> idx[a] < idx[b]
    ensures forall k :: 0 <= k < |idx| ==> !ValidateRegion(game, FlagCells(game.sp, fs[idx[k]]))
    ensures forall t :: 0 <= t < |fs| && t !in idx ==> ValidateRegion(game, FlagCells(game.sp, fs[t]))
  {
    FlaggedMarked(game, fs);
    idx := MarkedPositions(fs, Failing(game, fs));
  }

  /** `validate_grid`: the rows, then columns, then regions that contain a
      repeated symbol. */
  function ValidateGrid(game: Game): (errors: seq<Flag>)
    requires ValidGame(game)
    ensures forall f :: f in errors <==> FlagInRange(game.sp, f) && !NoRepeat(game, FlagCells(game.sp, f))
    ensures errors == [] <==> forall f :: FlagInRange(game.sp, f) ==> NoRepeat(game, FlagCells(game.sp, f))
  {
    var fs := AllFlags(game.sp);
    assert forall f :: FlagInRange(game.sp, f) ==> exists t :: 0 <= t < |fs| && fs[t] == f;
    Flagged(game, fs)
  }

  /** The validator reports nothing exactly when the player's board has no
      symbol twice in a row, a column or a block. */
  lemma ValidateGridClean(game: Game)
    requires ValidGame(game)
    ensures ValidateGrid(game) == [] <==> Consistent(game.sp, ViewBoard(game))
  {
    if Consistent(game.sp, ViewBoard(game)) {
      ConsistentPassesUnits(game);
    }
    if ValidateGrid(game) == [] {
      UnitsGiveConsistent(game);
    }
  }

  lemma ConsistentPassesUnits(game: Game)
    requires ValidGame(game) && Consistent(game.sp, ViewBoard(game))
    ensures forall f :: FlagInRange(game.sp, f) ==> NoRepeat(game, FlagCells(game.sp, f))
  {
    var sp := game.sp;
    forall f | FlagInRange(sp, f) ensures NoRepeat(game, FlagCells(sp, f)) {
      var cells := FlagCells(sp, f);
      forall a, b | 0 <= a < b < |cells| && View(game, cells[a].0, cells[a].1).Some?
        ensures View(game, cells[a].0, cells[a].1) != View(game, cells[b].0, cells[b].1)
      {
        UnitCellsShareUnit(sp, f, a, b);
      }
    }
  }

  lemma UnitsGiveConsistent(game: Game)
    requires ValidGame(game) && forall f :: FlagInRange(game.sp, f) ==> NoRepeat(game, FlagCells(game.sp, f))
    ensures Consistent(game.sp, ViewBoard(game))
  {
    var sp: Spec, v: Board := game.sp, ViewBoard(game);
    forall r1, c1, r2, c2 | 0 <= r1 < sp.n && 0 <= c1 < sp.n && 0 <= r2 < sp.n && 0 <= c2 < sp.n &&
      SameUnit(sp, r1, c1, r2, c2) && v[r1][c1].Some?
      ensures v[r1][c1] != v[r2][c2]
    {
      var f, a, b := SharedUnit(sp, r1, c1, r2, c2);
      assert NoRepeat(game, FlagCells(sp, f));
      var cells := FlagCells(sp, f);
      if a < b {
        assert View(game, cells[a].0, cells[a].1).Some? ==> View(game, cells[a].0, cells[a].1) != View(game, cells[b].0, cells[b].1);
      } else {
        assert View(game, cells[b].0, cells[b].1).Some? ==> View(game, cells[b].0, cells[b].1) != View(game, cells[a].0, cells[a].1);
      }
    }
  }

  /** A game that passes the completion check against a consistent solution
      has nothing for the validator to report. */
  lemma SolvedGameValidates(game: Game)
    requires ValidGame(game) && CheckSolution(game) && Consistent(game.sp, game.solution)
    ensures ValidateGrid(game) == []
  {
    var v := ViewBoard(game);
    forall i | 0 <= i < game.sp.n ensures v[i] == game.solution[i] {
      assert forall j :: 0 <= j < game.sp.n ==> v[i][j] == game.solution[i][j];
    }
    assert v == game.solution;
    ValidateGridClean(game);
  }

  /** Two entries of one unit are two different cells sharing that unit. */
  lemma UnitCellsShareUnit(sp: Spec, f: Flag, a: int, b: int)
    requires WellFormed(sp) && FlagInRange(sp, f) && 0 <= a < b < |FlagCells(sp, f)|
    ensures SameUnit(sp, FlagCells(sp, f)[a].0, FlagCells(sp, f)[a].1, FlagCells(sp, f)[b].0, FlagCells(sp, f)[b].1)
  {
    if f.RegionFlag? {
      var cells := FlagCells(sp, f);
      var r1, c1, r2, c2 := cells[a].0, cells[a].1, cells[b].0, cells[b].1;
      RegionsAt(sp, f.k);
      assert cells[a] != cells[b];
      RegionsPartition(sp, r1, c1);
      RegionsPartition(sp, r2, c2);
      assert cells[a] in Regions(sp)[f.k] && cells[b] in Regions(sp)[f.k];
      SameRegionIndex(sp, r1, c1, r2, c2);
    }
  }

  /** Two different cells sharing a row, a column or a block are two entries
      of one unit. */
  lemma SharedUnit(sp: Spec, r1: int, c1: int, r2: int, c2: int) returns (f: Flag, a: nat, b: nat)
    requires WellFormed(sp) && OnBoard(sp, (r1, c1)) && OnBoard(sp, (r2, c2)) && SameUnit(sp, r1, c1, r2, c2)
    ensures FlagInRange(sp, f) && a < |FlagCells(sp, f)| && b < |FlagCells(sp, f)| && a != b
    ensures FlagCells(sp, f)[a] == (r1, c1) && FlagCells(sp, f)[b] == (r2, c2)
  {
    if r1 == r2 {
      f, a, b := RowFlag(r1), c1, c2;
    } else if c1 == c2 {
      f, a, b := ColumnFlag(c1), r1, r2;
    } else {
      RegionsPartition(sp, r1, c1);
      RegionsPartition(sp, r2, c2);
      SameRegionIndex(sp, r1, c1, r2, c2);
      f := RegionFlag(RegionIndex(sp, r1, c1));
      var cells := Regions(sp)[f.k];
      assert (r1, c1) in cells && (r2, c2) in cells;
      var t1 :| 0 <= t1 < |cells| && cells[t1] == (r1, c1);
      var t2 :| 0 <= t2 < |cells| && cells[t2] == (r2, c2);
      a, b := t1, t2;
    }
  }
}
