/** The board of the Python engine: cells hold an optional symbol (None is an
    empty cell), the grid is n x n, and the regions are the b x b blocks that
    `_generate_regions` lists, left to right and top to bottom. */
module Board {
  import opened Util
  import Arith

  type Cell = Option<char>
  type Board = seq<seq<Cell>>
  type Pos = (int, int)

  /** Grid size n, block size b and the symbol alphabet. */
  datatype Spec = Spec(n: nat, b: nat, alphabet: seq<char>)

  /** The block size divides the grid size, as in every entry of the table of
      sudoku types. */
  predicate WellFormed(sp: Spec) {
    sp.b > 0 && sp.n % sp.b == 0
  }

  /** The four sudoku types the engine knows. */
  datatype SudokuType = Subdoku | Classic | Super | Zilla

  /** Size and block size of each type. */
  function TypeSpec(t: SudokuType): (nb: (nat, nat))
    ensures nb.1 * nb.1 == nb.0 && nb.1 >= 2
  {
    match t
    case Subdoku => (4, 2)
    case Classic => (9, 3)
    case Super => (16, 4)
    case Zilla => (25, 5)
  }

  /** Every registered type yields a well-formed spec whose region count equals its size. */
  lemma TypeSpecWellFormed(t: SudokuType, alphabet: seq<char>)
    ensures WellFormed(Spec(TypeSpec(t).0, TypeSpec(t).1, alphabet))
    ensures (TypeSpec(t).0 / TypeSpec(t).1) * (TypeSpec(t).0 / TypeSpec(t).1) == TypeSpec(t).0
  {
  }

  predicate OnBoard(sp: Spec, p: Pos) {
    0 <= p.0 < sp.n && 0 <= p.1 < sp.n
  }

  predicate Shaped(sp: Spec, g: Board) {
    |g| == sp.n && forall i :: 0 <= i < |g| ==> |g[i]| == sp.n
  }

  /** Number of blocks along one side. */
  function Side(sp: Spec): nat
    requires WellFormed(sp)
  {
    sp.n / sp.b
  }

  /** The b x b cells whose top-left corner is (i, j), row by row. */
  function Region(i: int, j: int, b: nat): (cells: seq<Pos>)
    requires b > 0
    ensures |cells| == b * b
    ensures forall t :: 0 <= t < b * b ==> cells[t] == (i + t / b, j + t % b)
  {
    seq(b * b, t requires 0 <= t < b * b => (i + t / b, j + t % b))
  }

  /** A cell belongs to a region exactly when it lies in the region's square. */
  lemma RegionMember(i: int, j: int, b: nat, r: int, c: int)
    requires b > 0
    ensures (r, c) in Region(i, j, b) <==> i <= r < i + b && j <= c < j + b
  {
    var cells := Region(i, j, b);
    if (r, c) in cells {
      var t :| 0 <= t < b * b && cells[t] == (r, c);
      Arith.DivBelow(b, b, t);
    }
    if i <= r < i + b && j <= c < j + b {
      Arith.Flatten(b, r - i, c - j);
      assert cells[b * (r - i) + (c - j)] == (r, c);
    }
  }

  /** The regions in the order `_generate_regions` appends them. */
  function Regions(sp: Spec): (rs: seq<seq<Pos>>)
    requires WellFormed(sp)
    ensures |rs| == Side(sp) * Side(sp)
    ensures forall k, t :: 0 <= k < |rs| && 0 <= t < |rs[k]| ==> OnBoard(sp, rs[k][t])
  {
    var m := Side(sp);
    var rs := seq(m * m, k requires 0 <= k < m * m => Region(sp.b * (k / m), sp.b * (k % m), sp.b));
    forall k, t | 0 <= k < |rs| && 0 <= t < |rs[k]| ensures OnBoard(sp, rs[k][t]) {
      RegionOnBoard(sp, k, t);
    }
    rs
  }

  /** Region k is the b x b square at block row k / (n/b) and block column k % (n/b). */
  lemma RegionsAt(sp: Spec, k: int)
    requires WellFormed(sp) && 0 <= k < |Regions(sp)|
    ensures Regions(sp)[k] == Region(sp.b * (k / Side(sp)), sp.b * (k % Side(sp)), sp.b)
  {
  }

  /** With b*b == n, as for every registered type, there are n regions. */
  lemma SquareRegions(sp: Spec)
    requires WellFormed(sp) && sp.b * sp.b == sp.n
    ensures |Regions(sp)| == sp.n
  {
    Arith.DivMod(sp.b, sp.b, 0);
  }

  /** The index of the region holding (r, c). */
  function RegionIndex(sp: Spec, r: int, c: int): int
    requires WellFormed(sp)
  {
    Side(sp) * (r / sp.b) + c / sp.b
  }

  /** The region count is (n/b)^2, each region has b^2 cells, all on the board,
      and each board cell lies in exactly one region: the one at RegionIndex. */
  lemma RegionsPartition(sp: Spec, r: int, c: int)
    requires WellFormed(sp) && 0 <= r < sp.n && 0 <= c < sp.n
    ensures 0 <= RegionIndex(sp, r, c) < |Regions(sp)|
    ensures forall k :: 0 <= k < |Regions(sp)| ==>
      ((r, c) in Regions(sp)[k] <==> k == RegionIndex(sp, r, c))
  {
    var m, b := Side(sp), sp.b;
    assert sp.n == b * m;
    Arith.DivBelow(b, m, r);
    Arith.DivBelow(b, m, c);
    Arith.BlockBound(m, m, r / b, c / b);
    forall k | 0 <= k < m * m
      ensures (r, c) in Regions(sp)[k] <==> k == RegionIndex(sp, r, c)
    {
      RegionInBlock(sp, k, r, c);
    }
  }

  /** A cell is in region k exactly when its block row and column are those of k. */
  lemma RegionInBlock(sp: Spec, k: int, r: int, c: int)
    requires WellFormed(sp) && 0 <= k < |Regions(sp)| && 0 <= r < sp.n && 0 <= c < sp.n
    ensures (r, c) in Regions(sp)[k] <==> k == RegionIndex(sp, r, c)
  {
    var m, b := Side(sp), sp.b;
    var q, s, x, y := k / m, k % m, r / b, c / b;
    assert sp.n == b * m;
    Arith.DivBelow(b, m, c);
    RegionsAt(sp, k);
    RegionMember(b * q, b * s, b, r, c);
    Arith.InBlock(b, q, r);
    Arith.InBlock(b, s, c);
    Arith.IndexSplit(m, k, x, y);
  }

  /** Every cell of every region lies on the board. */
  lemma RegionOnBoard(sp: Spec, k: int, t: int)
    requires WellFormed(sp) && 0 <= k < Side(sp) * Side(sp) && 0 <= t < sp.b * sp.b
    ensures OnBoard(sp, Region(sp.b * (k / Side(sp)), sp.b * (k % Side(sp)), sp.b)[t])
  {
    var m, b := Side(sp), sp.b;
    assert sp.n == b * m;
    Arith.DivBelow(m, m, k);
    Arith.DivBelow(b, b, t);
    Arith.BlockBound(b, m, k / m, t / b);
    Arith.BlockBound(b, m, k % m, t % b);
  }

  /** Two board cells lie in the same b x b block. */
  predicate SameBlock(sp: Spec, r1: int, c1: int, r2: int, c2: int)
    requires WellFormed(sp)
  {
    r1 / sp.b == r2 / sp.b && c1 / sp.b == c2 / sp.b
  }

  /** Two cells share a region index exactly when they share a block. */
  lemma SameRegionIndex(sp: Spec, r1: int, c1: int, r2: int, c2: int)
    requires WellFormed(sp)
    requires OnBoard(sp, (r1, c1)) && OnBoard(sp, (r2, c2))
    ensures RegionIndex(sp, r1, c1) == RegionIndex(sp, r2, c2) <==> SameBlock(sp, r1, c1, r2, c2)
  {
    var m, b := Side(sp), sp.b;
    assert sp.n == b * m;
    Arith.DivBelow(b, m, c1);
    Arith.DivBelow(b, m, c2);
    Arith.DivMod(m, r1 / b, c1 / b);
    Arith.DivMod(m, r2 / b, c2 / b);
  }

  /** Two distinct cells share a row, a column or a block. */
  predicate SameUnit(sp: Spec, r1: int, c1: int, r2: int, c2: int)
    requires WellFormed(sp)
  {
    (r1, c1) != (r2, c2) && (r1 == r2 || c1 == c2 || SameBlock(sp, r1, c1, r2, c2))
  }

  /** No symbol occurs twice in a row, a column or a block. */
  predicate Consistent(sp: Spec, g: Board)
    requires WellFormed(sp) && Shaped(sp, g)
  {
    forall r1, c1, r2, c2 {:trigger SameUnit(sp, r1, c1, r2, c2)} ::
      (0 <= r1 < sp.n && 0 <= c1 < sp.n && 0 <= r2 < sp.n && 0 <= c2 < sp.n &&
      SameUnit(sp, r1, c1, r2, c2) && g[r1][c1].Some?) ==> g[r1][c1] != g[r2][c2]
  }

  /** No cell is empty. */
  predicate Full(g: Board) {
    forall i, j :: 0 <= i < |g| && 0 <= j < |g[i]| ==> g[i][j].Some?
  }

  /** s occurs nowhere in row `row`, column `col` or the block of (row, col). */
  predicate Absent(sp: Spec, g: Board, row: int, col: int, s: char)
    requires WellFormed(sp) && Shaped(sp, g) && OnBoard(sp, (row, col))
  {
    (forall c :: 0 <= c < sp.n ==> g[row][c] != Some(s)) &&
    (forall r :: 0 <= r < sp.n ==> g[r][col] != Some(s)) &&
    (forall r, c :: 0 <= r < sp.n && 0 <= c < sp.n && SameBlock(sp, r, c, row, col) ==> g[r][c] != Some(s))
  }

  /** g with cell (i, j) replaced by v. */
  function Put(g: Board, i: int, j: int, v: Cell): (h: Board)
    requires 0 <= i < |g| && 0 <= j < |g[i]|
    ensures |h| == |g| && forall r :: 0 <= r < |g| ==> |h[r]| == |g[r]|
    ensures h[i][j] == v
    ensures forall r, c {:trigger h[r][c]} :: 0 <= r < |g| && 0 <= c < |g[r]| && (r, c) != (i, j) ==> h[r][c] == g[r][c]
  {
    g[i := g[i][j := v]]
  }

  /** Writing a cell and then writing back its old value restores the board. */
  lemma PutRestore(g: Board, i: int, j: int, v: Cell)
    requires 0 <= i < |g| && 0 <= j < |g[i]|
    ensures Put(Put(g, i, j, v), i, j, g[i][j]) == g
  {
    assert g[i][j := v][j := g[i][j]] == g[i];
  }

  function EmptyMark(v: Cell): nat {
    if v.None? then 1 else 0
  }

  /** Number of empty cells in a row. */
  function RowEmpty(row: seq<Cell>): (k: nat)
    ensures k <= |row|
  {
    if row == [] then 0 else EmptyMark(row[0]) + RowEmpty(row[1..])
  }

  /** Number of empty cells on the board. */
  function CountEmpty(g: Board): nat {
    if g == [] then 0 else RowEmpty(g[0]) + CountEmpty(g[1..])
  }

  lemma {:induction false} RowEmptyUpdate(row: seq<Cell>, j: nat, v: Cell)
    requires j < |row|
    ensures RowEmpty(row[j := v]) == RowEmpty(row) - EmptyMark(row[j]) + EmptyMark(v)
  {
    if j > 0 {
      RowEmptyUpdate(row[1..], j - 1, v);
      assert row[j := v][1..] == row[1..][j - 1 := v];
    }
  }

  /** Writing one cell changes the empty count by the change of that cell alone. */
  lemma {:induction false} CountEmptyPut(g: Board, i: int, j: int, v: Cell)
    requires 0 <= i < |g| && 0 <= j < |g[i]|
    ensures CountEmpty(Put(g, i, j, v)) == CountEmpty(g) - EmptyMark(g[i][j]) + EmptyMark(v)
  {
    if i == 0 {
      RowEmptyUpdate(g[0], j, v);
      assert Put(g, i, j, v)[1..] == g[1..];
    } else {
      CountEmptyPut(g[1..], i - 1, j, v);
      assert Put(g, i, j, v)[1..] == Put(g[1..], i - 1, j, v);
    }
  }

  /** An n x n board has at most n*n empty cells, and none when it is full. */
  lemma {:induction false} CountEmptyBound(g: Board, n: nat)
    requires forall i :: 0 <= i < |g| ==> |g[i]| == n
    ensures CountEmpty(g) <= |g| * n
    ensures Full(g) ==> CountEmpty(g) == 0
  {
    if g != [] {
      CountEmptyBound(g[1..], n);
      assert |g| * n == (|g| - 1) * n + n;
      if Full(g) {
        assert Full(g[1..]) by {
          forall i, j | 0 <= i < |g[1..]| && 0 <= j < |g[1..][i]| ensures g[1..][i][j].Some? {
            assert g[1..][i] == g[i + 1];
          }
        }
        RowFullEmpty(g[0]);
      }
    }
  }

  lemma {:induction false} RowFullEmpty(row: seq<Cell>)
    requires forall j :: 0 <= j < |row| ==> row[j].Some?
    ensures RowEmpty(row) == 0
  {
    if row != [] {
      RowFullEmpty(row[1..]);
    }
  }
}
