/** The two box-level operators both genetic solvers share.

    - Filling a box: the box's empty cells receive a shuffled list of the
      digits 1..9 missing from the box, the idx-th empty cell (row-major)
      getting the idx-th number (`fillSubgridWithValidNumbers` in
      genetic-solver.js; the per-box loop of `inicializar_poblacion` with
      `_obtener_numeros_faltantes` in the cross-sudoku solver).
    - Mutating a box: two distinct cells of one box that were empty in the
      puzzle exchange their values (`mutate` in genetic-solver.js, `mutar`
      in the cross-sudoku solver).
 */
module BoxOps {
  import opened Util
  import opened Grids

  /** The digits 1..9 in ascending order. */
  function Digits(): (d: seq<int>)
    ensures |d| == 9 && Distinct(d)
    ensures forall x :: x in d <==> 1 <= x <= 9
  {
    RangeMembers(1, 10);
    Range(1, 10)
  }

  /** The elements of ds that do not occur in vals, in order. */
  function FilterOut(ds: seq<int>, vals: seq<int>): (r: seq<int>)
    ensures forall x :: x in r <==> x in ds && x !in vals
  {
    if ds == [] then [] else (if ds[0] in vals then [] else [ds[0]]) + FilterOut(ds[1..], vals)
  }

  /** The elements of ds that occur in vals, in order. */
  function FilterIn(ds: seq<int>, vals: seq<int>): (r: seq<int>)
    ensures forall x :: x in r <==> x in ds && x in vals
  {
    if ds == [] then [] else (if ds[0] in vals then [ds[0]] else []) + FilterIn(ds[1..], vals)
  }

  lemma {:induction false} FilterSplit(ds: seq<int>, vals: seq<int>)
    ensures |FilterOut(ds, vals)| + |FilterIn(ds, vals)| == |ds|
    ensures multiset(FilterOut(ds, vals)) + multiset(FilterIn(ds, vals)) == multiset(ds)
  {
    if ds != [] {
      FilterSplit(ds[1..], vals);
      assert multiset(ds) == multiset{ds[0]} + multiset(ds[1..]) by { assert ds == [ds[0]] + ds[1..]; }
    }
  }

  lemma {:induction false} FilterDistinct(ds: seq<int>, vals: seq<int>)
    requires Distinct(ds)
    ensures Distinct(FilterOut(ds, vals)) && Distinct(FilterIn(ds, vals))
  {
    if ds != [] {
      assert ds == [ds[0]] + ds[1..];
      DistinctCons(ds[0], ds[1..]);
      FilterDistinct(ds[1..], vals);
      DistinctCons(ds[0], FilterOut(ds[1..], vals));
      DistinctCons(ds[0], FilterIn(ds[1..], vals));
    }
  }

  /** The digits 1..9 absent from a box's values (`_obtener_numeros_faltantes`;
      `missingNumbers` before shuffling).  Zero is never a digit, so "absent
      from the nonzero values" and "absent from the values" coincide. */
  function Missing(vals: seq<int>): (r: seq<int>)
    ensures forall x :: x in r <==> 1 <= x <= 9 && x !in vals
    ensures Distinct(r)
  {
    FilterDistinct(Digits(), vals);
    FilterOut(Digits(), vals)
  }

  /** A box never has fewer missing digits than empty cells, so neither source
      program reads past the end of its missing-number list. */
  lemma MissingCoversZeros(vals: seq<int>)
    requires |vals| == 9
    ensures CountZeros(vals) <= |Missing(vals)|
  {
    var present := FilterIn(Digits(), vals);
    FilterSplit(Digits(), vals);
    FilterDistinct(Digits(), vals);
    CardSetOf(present);
    CardSetOf(NonZeros(vals));
    assert SetOf(present) <= SetOf(NonZeros(vals));
    SubsetCard(SetOf(present), SetOf(NonZeros(vals)));
  }

  /** When a box's givens are distinct digits, the missing digits number exactly
      the empty cells and together with the givens make up 1..9 once each. */
  lemma MissingComplements(vals: seq<int>)
    requires |vals| == 9
    requires Distinct(NonZeros(vals))
    requires forall x :: x in vals && x != 0 ==> 1 <= x <= 9
    ensures |Missing(vals)| == CountZeros(vals)
    ensures multiset(NonZeros(vals)) + multiset(Missing(vals)) == multiset(Digits())
  {
    MissingCount(vals);
    MissingMultiset(vals);
  }

  lemma MissingCount(vals: seq<int>)
    requires |vals| == 9
    requires Distinct(NonZeros(vals))
    requires forall x :: x in vals && x != 0 ==> 1 <= x <= 9
    ensures |Missing(vals)| == CountZeros(vals)
  {
    var ds := Digits();
    FilterSplit(ds, vals);
    PresentDigits(vals);
    assert Missing(vals) == FilterOut(ds, vals);
  }

  lemma MissingMultiset(vals: seq<int>)
    requires Distinct(NonZeros(vals))
    requires forall x :: x in vals && x != 0 ==> 1 <= x <= 9
    ensures multiset(NonZeros(vals)) + multiset(Missing(vals)) == multiset(Digits())
  {
    var ds := Digits();
    FilterSplit(ds, vals);
    PresentDigits(vals);
    assert Missing(vals) == FilterOut(ds, vals);
  }

  /** The digits present in a box whose nonzero values are distinct digits are
      exactly those values. */
  lemma PresentDigits(vals: seq<int>)
    requires Distinct(NonZeros(vals))
    requires forall x :: x in vals && x != 0 ==> 1 <= x <= 9
    ensures multiset(FilterIn(Digits(), vals)) == multiset(NonZeros(vals))
    ensures |FilterIn(Digits(), vals)| == |NonZeros(vals)|
  {
    var present := FilterIn(Digits(), vals);
    FilterDistinct(Digits(), vals);
    SameElements(present, NonZeros(vals));
    SameSetSameMultiset(present, NonZeros(vals));
    CardSetOf(present);
    CardSetOf(NonZeros(vals));
  }


  /** Write fill[0], fill[1], ... into the zero entries of vals, left to right. */
  function FillZeros(vals: seq<int>, fill: seq<int>): (r: seq<int>)
    requires CountZeros(vals) <= |fill|
    ensures |r| == |vals|
    ensures forall k :: 0 <= k < |vals| && vals[k] != 0 ==> r[k] == vals[k]
  {
    if vals == [] then []
    else if vals[0] == 0 then [fill[0]] + FillZeros(vals[1..], fill[1..])
    else [vals[0]] + FillZeros(vals[1..], fill)
  }

  /** Every former zero holds an element of the fill list, and no two former
      zeros receive the same element when the list has no repeats. */
  lemma FillZerosPlaced(vals: seq<int>, fill: seq<int>)
    requires CountZeros(vals) <= |fill|
    ensures forall k :: 0 <= k < |vals| && vals[k] == 0 ==> FillZeros(vals, fill)[k] in fill
    ensures Distinct(fill) ==> forall k, m :: 0 <= k < m < |vals| && vals[k] == 0 && vals[m] == 0 ==>
      FillZeros(vals, fill)[k] != FillZeros(vals, fill)[m]
  {
    FillZerosFromFill(vals, fill);
    if Distinct(fill) {
      FillZerosDistinct(vals, fill);
    }
  }

  lemma {:induction false} FillZerosFromFill(vals: seq<int>, fill: seq<int>)
    requires CountZeros(vals) <= |fill|
    ensures forall k :: 0 <= k < |vals| && vals[k] == 0 ==> FillZeros(vals, fill)[k] in fill
  {
    if vals != [] {
      var r := FillZeros(vals, fill);
      if vals[0] == 0 {
        var rest := FillZeros(vals[1..], fill[1..]);
        FillZerosFromFill(vals[1..], fill[1..]);
        assert r == [fill[0]] + rest;
        forall k | 1 <= k < |vals| && vals[k] == 0 ensures r[k] in fill[1..] {
          assert vals[1..][k - 1] == 0 && r[k] == rest[k - 1];
        }
      } else {
        var rest := FillZeros(vals[1..], fill);
        FillZerosFromFill(vals[1..], fill);
        assert r == [vals[0]] + rest;
        forall k | 1 <= k < |vals| && vals[k] == 0 ensures r[k] in fill {
          assert vals[1..][k - 1] == 0 && r[k] == rest[k - 1];
        }
      }
    }
  }

  lemma {:induction false} FillZerosDistinct(vals: seq<int>, fill: seq<int>)
    requires CountZeros(vals) <= |fill| && Distinct(fill)
    ensures forall k, m :: 0 <= k < m < |vals| && vals[k] == 0 && vals[m] == 0 ==>
      FillZeros(vals, fill)[k] != FillZeros(vals, fill)[m]
  {
    if vals != [] {
      var r := FillZeros(vals, fill);
      if vals[0] == 0 {
        var rest := FillZeros(vals[1..], fill[1..]);
        assert fill == [fill[0]] + fill[1..];
        DistinctCons(fill[0], fill[1..]);
        FillZerosDistinct(vals[1..], fill[1..]);
        FillZerosFromFill(vals[1..], fill[1..]);
        assert r == [fill[0]] + rest;
        forall k, m | 0 <= k < m < |vals| && vals[k] == 0 && vals[m] == 0 ensures r[k] != r[m] {
          assert vals[1..][m - 1] == 0 && r[m] == rest[m - 1];
          if k > 0 { assert vals[1..][k - 1] == 0 && r[k] == rest[k - 1]; }
        }
      } else {
        var rest := FillZeros(vals[1..], fill);
        FillZerosDistinct(vals[1..], fill);
        assert r == [vals[0]] + rest;
        forall k, m | 0 <= k < m < |vals| && vals[k] == 0 && vals[m] == 0 ensures r[k] != r[m] {
          assert vals[1..][m - 1] == 0 && r[m] == rest[m - 1];
          assert vals[1..][k - 1] == 0 && r[k] == rest[k - 1];
        }
      }
    }
  }

  /** With exactly as many fill values as zeros, the result holds the nonzero
      entries plus the whole fill list. */
  lemma {:induction false} FillZerosMultiset(vals: seq<int>, fill: seq<int>)
    requires CountZeros(vals) == |fill|
    ensures multiset(FillZeros(vals, fill)) == multiset(NonZeros(vals)) + multiset(fill)
  {
    if vals != [] {
      if vals[0] == 0 {
        FillZerosMultiset(vals[1..], fill[1..]);
        FillZerosZeroStep(vals, fill);
      } else {
        FillZerosMultiset(vals[1..], fill);
        FillZerosValueStep(vals, fill);
      }
    }
  }

  /** The multiset step of `FillZeros` at a leading zero. */
  lemma FillZerosZeroStep(vals: seq<int>, fill: seq<int>)
    requires vals != [] && vals[0] == 0 && CountZeros(vals) == |fill|
    requires multiset(FillZeros(vals[1..], fill[1..])) == multiset(NonZeros(vals[1..])) + multiset(fill[1..])
    ensures multiset(FillZeros(vals, fill)) == multiset(NonZeros(vals)) + multiset(fill)
  {
    assert FillZeros(vals, fill) == [fill[0]] + FillZeros(vals[1..], fill[1..]);
    assert fill == [fill[0]] + fill[1..];
    assert NonZeros(vals) == NonZeros(vals[1..]);
  }

  /** The multiset step of `FillZeros` at a leading given. */
  lemma FillZerosValueStep(vals: seq<int>, fill: seq<int>)
    requires vals != [] && vals[0] != 0 && CountZeros(vals) == |fill|
    requires multiset(FillZeros(vals[1..], fill)) == multiset(NonZeros(vals[1..])) + multiset(fill)
    ensures multiset(FillZeros(vals, fill)) == multiset(NonZeros(vals)) + multiset(fill)
  {
    assert FillZeros(vals, fill) == [vals[0]] + FillZeros(vals[1..], fill);
    assert NonZeros(vals) == [vals[0]] + NonZeros(vals[1..]);
  }


  /** Fill the empty cells of the box at (r0, c0) with a shuffled list of its
      missing digits. */
  function FillBox(g: Grid, r0: int, c0: int, rolls: seq<nat>): (h: Grid)
    requires Square(g) && IsBoxStart(|g|, r0, c0)
    ensures Square(h) && |h| == |g|
  {
    var vals := BoxValues(g, r0, c0);
    MissingCoversZeros(vals);
    var fill := FillZeros(vals, Shuffle(Missing(vals), rolls));
    WriteBox(g, r0, c0, fill)
  }

  /** Filling a box changes nothing outside it and keeps its givens. */
  lemma FillBoxFrame(g: Grid, r0: int, c0: int, rolls: seq<nat>)
    requires Square(g) && IsBoxStart(|g|, r0, c0)
    ensures forall i, j :: InGrid(g, i, j) && !InBox(r0, c0, i, j) ==> FillBox(g, r0, c0, rolls)[i][j] == g[i][j]
    ensures forall i, j :: InGrid(g, i, j) && g[i][j] != 0 ==> FillBox(g, r0, c0, rolls)[i][j] == g[i][j]
  {
    var vals := BoxValues(g, r0, c0);
    MissingCoversZeros(vals);
    var fill := FillZeros(vals, Shuffle(Missing(vals), rolls));
    WriteBoxKeepsNonZeros(g, r0, c0, fill);
  }

  /** The box's empty cells receive pairwise distinct digits missing from the box. */
  lemma FillBoxFillsMissing(g: Grid, r0: int, c0: int, rolls: seq<nat>)
    requires Square(g) && IsBoxStart(|g|, r0, c0)
    ensures forall k :: 0 <= k < 9 && BoxValues(g, r0, c0)[k] == 0 ==>
      1 <= BoxValues(FillBox(g, r0, c0, rolls), r0, c0)[k] <= 9 &&
      BoxValues(FillBox(g, r0, c0, rolls), r0, c0)[k] !in BoxValues(g, r0, c0)
    ensures forall k, m :: 0 <= k < m < 9 && BoxValues(g, r0, c0)[k] == 0 && BoxValues(g, r0, c0)[m] == 0 ==>
      BoxValues(FillBox(g, r0, c0, rolls), r0, c0)[k] != BoxValues(FillBox(g, r0, c0, rolls), r0, c0)[m]
  {
    var vals := BoxValues(g, r0, c0);
    MissingCoversZeros(vals);
    var fill := Shuffle(Missing(vals), rolls);
    ShuffleMembers(Missing(vals), rolls);
    FillZerosPlaced(vals, fill);
    assert BoxValues(FillBox(g, r0, c0, rolls), r0, c0) == FillZeros(vals, fill);
  }

  /** A box whose givens are distinct digits becomes a permutation of 1..9. */
  lemma FillBoxPermutation(g: Grid, r0: int, c0: int, rolls: seq<nat>)
    requires Square(g) && IsBoxStart(|g|, r0, c0)
    requires Distinct(NonZeros(BoxValues(g, r0, c0)))
    requires forall x :: x in BoxValues(g, r0, c0) && x != 0 ==> 1 <= x <= 9
    ensures multiset(BoxValues(FillBox(g, r0, c0, rolls), r0, c0)) == multiset(Digits())
  {
    var vals := BoxValues(g, r0, c0);
    MissingComplements(vals);
    var fill := Shuffle(Missing(vals), rolls);
    FillZerosMultiset(vals, fill);
    assert BoxValues(FillBox(g, r0, c0, rolls), r0, c0) == FillZeros(vals, fill);
  }

  /** Box indices (0..8, row-major) whose cell is empty in the puzzle. */
  function MutableIndices(given: seq<int>, k: nat): (ks: seq<nat>)
    requires k <= |given|
    ensures forall m :: m in ks <==> k <= m < |given| && given[m] == 0
    ensures forall i, j :: 0 <= i < j < |ks| ==> ks[i] < ks[j]
    decreases |given| - k
  {
    if k == |given| then []
    else
      var rest := MutableIndices(given, k + 1);
      assert forall j :: 0 <= j < |rest| ==> rest[j] in rest;
      (if given[k] == 0 then [k] else []) + rest
  }

  /** The two box indices `mutate` exchanges: two distinct positions drawn
      among the box's cells that are empty in the puzzle, or nothing when
      fewer than two of them are empty. */
  function SwapChoice(givenBox: seq<int>, rolls: seq<nat>): (c: Option<(nat, nat)>)
    requires |givenBox| == 9
    ensures c.None? <==> CountZeros(givenBox) < 2
    ensures c.Some? ==> (c.value.0 < 9 && c.value.1 < 9 && c.value.0 != c.value.1 &&
      givenBox[c.value.0] == 0 && givenBox[c.value.1] == 0)
  {
    var mutable := MutableIndices(givenBox, 0);
    MutableCount(givenBox, 0);
    if |mutable| >= 2 then
      assert Distinct(mutable);
      var pick := SelectRandom(mutable, 2, rolls);
      assert pick[0] in mutable && pick[1] in mutable;
      Some((pick[0], pick[1]))
    else
      None
  }

  /** There are as many mutable indices as empty cells from k on. */
  lemma {:induction false} MutableCount(given: seq<int>, k: nat)
    requires k <= |given|
    ensures |MutableIndices(given, k)| == CountZeros(given[k..])
    decreases |given| - k
  {
    if k < |given| {
      MutableCount(given, k + 1);
      assert given[k..][1..] == given[k + 1..];
    }
  }

  /** Exchanging two puzzle-empty box cells leaves every given where it was. */
  lemma SwapKeepsGivens(ind: Grid, given: Grid, r0: int, c0: int, a: nat, b: nat)
    requires Square(ind) && IsSquare(given, |ind|) && IsBoxStart(|ind|, r0, c0)
    requires a < 9 && b < 9 && BoxValues(given, r0, c0)[a] == 0 && BoxValues(given, r0, c0)[b] == 0
    ensures forall i, j :: InGrid(ind, i, j) && given[i][j] != 0 ==>
      WriteBox(ind, r0, c0, Swap(BoxValues(ind, r0, c0), a, b))[i][j] == ind[i][j]
  {
    forall i, j | InGrid(ind, i, j) && given[i][j] != 0
      ensures WriteBox(ind, r0, c0, Swap(BoxValues(ind, r0, c0), a, b))[i][j] == ind[i][j]
    {
      if InBox(r0, c0, i, j) {
        SwapKeepsGivenCell(ind, given, r0, c0, a, b, i, j);
      }
    }
  }

  lemma SwapKeepsGivenCell(ind: Grid, given: Grid, r0: int, c0: int, a: nat, b: nat, i: int, j: int)
    requires Square(ind) && IsSquare(given, |ind|) && IsBoxStart(|ind|, r0, c0)
    requires a < 9 && b < 9 && BoxValues(given, r0, c0)[a] == 0 && BoxValues(given, r0, c0)[b] == 0
    requires InBox(r0, c0, i, j) && given[i][j] != 0
    ensures WriteBox(ind, r0, c0, Swap(BoxValues(ind, r0, c0), a, b))[i][j] == ind[i][j]
  {
    var vals := BoxValues(ind, r0, c0);
    var sw := Swap(vals, a, b);
    var h := WriteBox(ind, r0, c0, sw);
    var k := (i - r0) * 3 + (j - c0);
    BoxValuesAt(given, r0, c0, i, j);
    BoxValuesAt(ind, r0, c0, i, j);
    BoxValuesAt(h, r0, c0, i, j);
    assert k != a && k != b;
    assert sw[k] == vals[k] == ind[i][j];
  }

  /** Exchange two randomly chosen cells of the box at (r0, c0) among those that
      are empty in the puzzle, when there are at least two of them. */
  function SwapInBox(ind: Grid, given: Grid, r0: int, c0: int, rolls: seq<nat>): (h: Grid)
    requires Square(ind) && IsSquare(given, |ind|) && IsBoxStart(|ind|, r0, c0)
    ensures Square(h) && |h| == |ind|
    ensures forall i, j :: InGrid(ind, i, j) && !InBox(r0, c0, i, j) ==> h[i][j] == ind[i][j]
    ensures forall i, j :: InGrid(ind, i, j) && given[i][j] != 0 ==> h[i][j] == ind[i][j]
  {
    match SwapChoice(BoxValues(given, r0, c0), rolls)
    case None => ind
    case Some((a, b)) =>
      SwapKeepsGivens(ind, given, r0, c0, a, b);
      WriteBox(ind, r0, c0, Swap(BoxValues(ind, r0, c0), a, b))
  }

  /** A mutation leaves the grid alone or exchanges exactly two puzzle-empty
      cells of the box, so the box keeps the same values. */
  lemma SwapInBoxSwaps(ind: Grid, given: Grid, r0: int, c0: int, rolls: seq<nat>)
    requires Square(ind) && IsSquare(given, |ind|) && IsBoxStart(|ind|, r0, c0)
    ensures multiset(BoxValues(SwapInBox(ind, given, r0, c0, rolls), r0, c0)) == multiset(BoxValues(ind, r0, c0))
    ensures CountZeros(BoxValues(given, r0, c0)) < 2 ==> SwapInBox(ind, given, r0, c0, rolls) == ind
    ensures CountZeros(BoxValues(given, r0, c0)) >= 2 ==> exists a: nat, b: nat :: (a < 9 && b < 9 && a != b &&
      BoxValues(given, r0, c0)[a] == 0 && BoxValues(given, r0, c0)[b] == 0 &&
      BoxValues(SwapInBox(ind, given, r0, c0, rolls), r0, c0) == Swap(BoxValues(ind, r0, c0), a, b))
  {
    var c := SwapChoice(BoxValues(given, r0, c0), rolls);
    if c.Some? {
      var (a, b) := c.value;
      assert BoxValues(SwapInBox(ind, given, r0, c0, rolls), r0, c0) == Swap(BoxValues(ind, r0, c0), a, b);
    }
  }
}
