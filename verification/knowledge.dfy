/** The variant rules of the web front end (knowledge-base.js): the cage rule
    of killer sudoku, the diagonal rule of X-sudoku, the always-true rules of
    the other variants, and the table that dispatches on the game type. */
module KnowledgeBase {
  import opened Util
  import opened Grids

  /** A killer cage: its cells and its target sum. */
  datatype Cage = Cage(cells: seq<Pos>, sum: int)

  predicate CageOnGrid(g: Grid, cage: Cage) {
    CellsIn(g, cage.cells)
  }

  predicate CellsIn(g: Grid, cells: seq<Pos>) {
    forall k :: 0 <= k < |cells| ==> 0 <= cells[k].0 < |g| && 0 <= cells[k].1 < |g[cells[k].0]|
  }

  /** The values of a cage's cells, in the cage's order. */
  function CageValues(g: Grid, cells: seq<Pos>): (vs: seq<int>)
    requires CellsIn(g, cells)
    ensures |vs| == |cells|
    ensures forall k :: 0 <= k < |cells| ==> vs[k] == g[cells[k].0][cells[k].1]
  {
    seq(|cells|, k requires 0 <= k < |cells| => g[cells[k].0][cells[k].1])
  }

  /** Sum of a sequence. */
  function Sum(s: seq<int>): int {
    if s == [] then 0 else s[0] + Sum(s[1..])
  }

  /** The inner loop of `killerRules` over the cells of one cage: skip zeros,
      add each other value to the running sum, and give up (None) at a value
      already in the set; at the end, the sum. */
  function CageLoop(vs: seq<int>, sum: int, numbers: set<int>): (r: Option<int>)
    decreases |vs|
  {
    if vs == [] then Some(sum)
    else if vs[0] == 0 then CageLoop(vs[1..], sum, numbers)
    else if vs[0] in numbers then None
    else CageLoop(vs[1..], sum + vs[0], numbers + {vs[0]})
  }

  /** The loop gives up exactly when a nonzero value repeats or was already
      in the set; otherwise it adds up the nonzero values. */
  lemma {:induction false} CageLoopIff(vs: seq<int>, sum: int, numbers: set<int>)
    ensures CageLoop(vs, sum, numbers).Some? <==>
      NoRepeatNonZero(vs) && forall k :: 0 <= k < |vs| && vs[k] != 0 ==> vs[k] !in numbers
    ensures CageLoop(vs, sum, numbers).Some? ==> CageLoop(vs, sum, numbers).value == sum + Sum(NonZeros(vs))
    decreases |vs|
  {
    if vs != [] {
      var t := vs[1..];
      assert forall k :: 0 <= k < |t| ==> t[k] == vs[k + 1];
      assert vs == [vs[0]] + t;
      if vs[0] == 0 {
        assert NonZeros(vs) == NonZeros(t);
        CageLoopIff(t, sum, numbers);
        assert NoRepeatNonZero(vs) <==> NoRepeatNonZero(t);
        assert (forall k :: 0 <= k < |vs| && vs[k] != 0 ==> vs[k] !in numbers) <==>
          (forall k :: 0 <= k < |t| && t[k] != 0 ==> t[k] !in numbers);
      } else if vs[0] in numbers {
      } else {
        var numbers' := numbers + {vs[0]};
        assert NonZeros(vs) == [vs[0]] + NonZeros(t);
        assert Sum(NonZeros(vs)) == vs[0] + Sum(NonZeros(t));
        CageLoopIff(t, sum + vs[0], numbers');
        if NoRepeatNonZero(vs) && forall k :: 0 <= k < |vs| && vs[k] != 0 ==> vs[k] !in numbers {
          forall k | 0 <= k < |t| && t[k] != 0 ensures t[k] !in numbers' {
            assert vs[0] != vs[k + 1];
          }
        }
        if CageLoop(t, sum + vs[0], numbers').Some? {
          forall i, j | 0 <= i < j < |vs| && vs[i] != 0 ensures vs[i] != vs[j] {
            if i > 0 {
              assert vs[i] == t[i - 1] && vs[j] == t[j - 1];
            } else {
              assert vs[j] == t[j - 1];
            }
          }
          forall k | 0 <= k < |vs| && vs[k] != 0 ensures vs[k] !in numbers {
            if k > 0 {
              assert vs[k] == t[k - 1];
            }
          }
        }
      }
    }
  }

  /** `killerRules(grid, cages)`: every cage in turn must pass its loop with a
      sum not above the target. */
  function KillerRules(g: Grid, cages: seq<Cage>): bool
    requires forall c :: 0 <= c < |cages| ==> CageOnGrid(g, cages[c])
  {
    if cages == [] then true
    else
      assert CageOnGrid(g, cages[0]);
      match CageLoop(CageValues(g, cages[0].cells), 0, {})
      case None => false
      case Some(sum) => if sum > cages[0].sum then false else KillerRules(g, cages[1..])
  }

  /** A cage holds: no nonzero value twice, and the nonzero values add up to
      at most the target. */
  predicate CageHolds(g: Grid, cage: Cage)
    requires CageOnGrid(g, cage)
  {
    var vs := CageValues(g, cage.cells);
    NoRepeatNonZero(vs) && Sum(NonZeros(vs)) <= cage.sum
  }

  /** `killerRules` is true exactly when every cage holds. */
  lemma {:induction false} KillerRulesIff(g: Grid, cages: seq<Cage>)
    requires forall c :: 0 <= c < |cages| ==> CageOnGrid(g, cages[c])
    ensures KillerRules(g, cages) <==> forall c :: 0 <= c < |cages| ==> CageHolds(g, cages[c])
  {
    if cages != [] {
      CageLoopIff(CageValues(g, cages[0].cells), 0, {});
      KillerRulesIff(g, cages[1..]);
      assert forall c :: 0 <= c < |cages| - 1 ==> cages[1..][c] == cages[c + 1];
      if forall c :: 0 <= c < |cages| - 1 ==> CageHolds(g, cages[1..][c]) {
        assert forall c :: 1 <= c < |cages| ==> CageHolds(g, cages[c]) by {
          forall c | 1 <= c < |cages| ensures CageHolds(g, cages[c]) {
            assert cages[c] == cages[1..][c - 1];
          }
        }
      }
    }
  }

  /** The cells (i, i), read top to bottom. */
  function MainDiagonal(g: Grid): (d: seq<int>)
    requires Square(g)
    ensures |d| == |g| && forall i :: 0 <= i < |g| ==> d[i] == g[i][i]
  {
    seq(|g|, i requires 0 <= i < |g| => g[i][i])
  }

  /** The cells (i, size - 1 - i), read top to bottom. */
  function AntiDiagonal(g: Grid): (d: seq<int>)
    requires Square(g)
    ensures |d| == |g| && forall i :: 0 <= i < |g| ==> d[i] == g[i][|g| - 1 - i]
  {
    seq(|g|, i requires 0 <= i < |g| => g[i][|g| - 1 - i])
  }

  /** The loop of `xSudokuRules` from row i on: at each row test the main
      diagonal cell, then the anti-diagonal cell, against the values seen so
      far on its diagonal, skipping zeros. */
  function DiagonalLoop(g: Grid, i: nat, mainSeen: set<int>, antiSeen: set<int>): bool
    requires Square(g) && i <= |g|
    decreases |g| - i
  {
    if i == |g| then true
    else
      var m := g[i][i];
      var a := g[i][|g| - 1 - i];
      if m != 0 && m in mainSeen then false
      else
        var mainSeen' := if m != 0 then mainSeen + {m} else mainSeen;
        if a != 0 && a in antiSeen then false
        else
          var antiSeen' := if a != 0 then antiSeen + {a} else antiSeen;
          DiagonalLoop(g, i + 1, mainSeen', antiSeen')
  }

  /** `xSudokuRules`. */
  function XSudokuRules(g: Grid): bool
    requires Square(g)
  {
    DiagonalLoop(g, 0, {}, {})
  }

  /** No nonzero value of s[from..] is in seen or repeats. */
  predicate FreshFrom(s: seq<int>, from: nat, seen: set<int>)
    requires from <= |s|
  {
    (forall k :: from <= k < |s| && s[k] != 0 ==> s[k] !in seen) &&
    (forall k, m :: from <= k < m < |s| && s[k] != 0 ==> s[k] != s[m])
  }

  /** Adding s[from] to the seen set moves the freshness test one place on. */
  lemma FreshStep(s: seq<int>, from: nat, seen: set<int>)
    requires from < |s|
    ensures FreshFrom(s, from, seen) <==>
      (s[from] == 0 || s[from] !in seen) &&
      FreshFrom(s, from + 1, if s[from] != 0 then seen + {s[from]} else seen)
  {
  }

  lemma {:induction false} DiagonalLoopIff(g: Grid, i: nat, mainSeen: set<int>, antiSeen: set<int>)
    requires Square(g) && i <= |g|
    ensures DiagonalLoop(g, i, mainSeen, antiSeen) <==>
      FreshFrom(MainDiagonal(g), i, mainSeen) && FreshFrom(AntiDiagonal(g), i, antiSeen)
    decreases |g| - i
  {
    if i < |g| {
      var m := g[i][i];
      var a := g[i][|g| - 1 - i];
      FreshStep(MainDiagonal(g), i, mainSeen);
      FreshStep(AntiDiagonal(g), i, antiSeen);
      DiagonalLoopIff(g, i + 1, if m != 0 then mainSeen + {m} else mainSeen, if a != 0 then antiSeen + {a} else antiSeen);
    }
  }

  /** `xSudokuRules` is true exactly when neither diagonal repeats a nonzero
      value. */
  lemma XSudokuRulesIff(g: Grid)
    requires Square(g)
    ensures XSudokuRules(g) <==> NoRepeatNonZero(MainDiagonal(g)) && NoRepeatNonZero(AntiDiagonal(g))
  {
    DiagonalLoopIff(g, 0, {}, {});
  }

  /** The game types registered in the rule table. */
  datatype GameType = ClassicType | KillerType | XSudokuType | SamuraiType | JigsawType

  /** The rule table's keys. */
  function ParseGameType(name: string): (t: Option<GameType>)
    ensures t.Some? <==> name in {"classic", "killer", "x-sudoku", "samurai", "jigsaw"}
  {
    if name == "classic" then Some(ClassicType)
    else if name == "killer" then Some(KillerType)
    else if name == "x-sudoku" then Some(XSudokuType)
    else if name == "samurai" then Some(SamuraiType)
    else if name == "jigsaw" then Some(JigsawType)
    else None
  }

  /** `validateSolution(grid, gameType, extraData)`: false for a type with no
      rule; otherwise the rule's answer.  The killer rule reads the cages
      passed as extra data; every other rule ignores it, and the classic,
      samurai and jigsaw rules accept every grid. */
  function ValidateSolution(g: Grid, gameType: string, cages: seq<Cage>): (ok: bool)
    requires Square(g)
    requires forall c :: 0 <= c < |cages| ==> CageOnGrid(g, cages[c])
    ensures ParseGameType(gameType).None? ==> !ok
    ensures ParseGameType(gameType) in {Some(ClassicType), Some(SamuraiType), Some(JigsawType)} ==> ok
  {
    match ParseGameType(gameType)
    case None => false
    case Some(ClassicType) => true
    case Some(KillerType) => KillerRules(g, cages)
    case Some(XSudokuType) => XSudokuRules(g)
    case Some(SamuraiType) => true
    case Some(JigsawType) => true
  }

  /** For the two real rules, the dispatch gives the rule's own meaning. */
  lemma ValidateSolutionMeaning(g: Grid, cages: seq<Cage>)
    requires Square(g)
    requires forall c :: 0 <= c < |cages| ==> CageOnGrid(g, cages[c])
    ensures ValidateSolution(g, "killer", cages) <==> forall c :: 0 <= c < |cages| ==> CageHolds(g, cages[c])
    ensures ValidateSolution(g, "x-sudoku", cages) <==>
      NoRepeatNonZero(MainDiagonal(g)) && NoRepeatNonZero(AntiDiagonal(g))
  {
    KillerRulesIff(g, cages);
    XSudokuRulesIff(g);
  }
}
