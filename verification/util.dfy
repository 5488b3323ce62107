/** Generic sequence facts and the random-draw model shared by every other module.

    Randomness is never modelled as a generator: every random decision of the
    original programs becomes a parameter.  A draw "uniform in [0, n)" is read
    from a stream of naturals (`rolls`) reduced modulo n; an exhausted stream
    reads as 0.
 */
module Util {

  datatype Option<T> = None | Some(value: T)

  /** No element occurs twice. */
  predicate Distinct<T(==)>(s: seq<T>) {
    forall i, j :: 0 <= i < j < |s| ==> s[i] != s[j]
  }

  /** Prepending an element keeps a sequence repeat-free exactly when the
      element is new. */
  lemma DistinctCons<T>(a: T, t: seq<T>)
    ensures Distinct([a] + t) <==> a !in t && Distinct(t)
  {
    var s := [a] + t;
    if Distinct(s) {
      forall k | 0 <= k < |t| ensures t[k] != a { assert s[0] == a && s[k + 1] == t[k]; }
      forall i, j | 0 <= i < j < |t| ensures t[i] != t[j] { assert s[i + 1] == t[i] && s[j + 1] == t[j]; }
    }
    if a !in t && Distinct(t) {
      forall i, j | 0 <= i < j < |s| ensures s[i] != s[j] {
        if i == 0 { assert s[j] == t[j - 1]; } else { assert s[i] == t[i - 1] && s[j] == t[j - 1]; }
      }
    }
  }

  /** The elements of a sequence, as a set. */
  function SetOf<T>(s: seq<T>): set<T> {
    set x | x in s
  }

  /** The naturals lo, lo+1, ..., hi-1. */
  function Range(lo: int, hi: int): (r: seq<int>)
    ensures |r| == if lo <= hi then hi - lo else 0
    ensures forall k :: 0 <= k < |r| ==> r[k] == lo + k
    decreases hi - lo
  {
    if lo >= hi then [] else [lo] + Range(lo + 1, hi)
  }

  lemma RangeMembers(lo: int, hi: int)
    ensures forall x :: x in Range(lo, hi) <==> lo <= x < hi
  {
    var r := Range(lo, hi);
    forall x | lo <= x < hi ensures x in r { assert r[x - lo] == x; }
  }

  /** Two repeat-free sequences with no element in common concatenate to a
      repeat-free sequence. */
  lemma DistinctConcat<T>(a: seq<T>, b: seq<T>)
    requires Distinct(a) && Distinct(b)
    requires forall x :: x in a ==> x !in b
    ensures Distinct(a + b)
  {
    var s := a + b;
    forall i, j | 0 <= i < j < |s| ensures s[i] != s[j] {
      if j < |a| {
        assert s[i] == a[i] && s[j] == a[j];
      } else if i >= |a| {
        assert s[i] == b[i - |a|] && s[j] == b[j - |a|];
      } else {
        assert s[i] == a[i] && s[j] == b[j - |a|];
        assert a[i] in a;
      }
    }
  }

  /** A repeat-free sequence whose elements all equal x has at most one element. */
  lemma DistinctAllEqual<T>(s: seq<T>, x: T)
    requires Distinct(s) && forall y :: y in s ==> y == x
    ensures |s| <= 1
  {
    CardSetOf(s);
    assert SetOf(s) <= {x};
    SubsetCard(SetOf(s), {x});
  }

  /** Two sequences with the same members have the same set. */
  lemma SameElements<T>(a: seq<T>, b: seq<T>)
    requires forall x :: x in a <==> x in b
    ensures SetOf(a) == SetOf(b)
  {
  }

  /** A set of a sequence never has more elements than the sequence, and has
      exactly as many precisely when the sequence has no repeats. */
  lemma {:induction false} CardSetOf<T>(s: seq<T>)
    ensures |SetOf(s)| <= |s|
    ensures |SetOf(s)| == |s| <==> Distinct(s)
  {
    if s != [] {
      var t := s[1..];
      CardSetOf(t);
      assert SetOf(s) == {s[0]} + SetOf(t) by {
        forall x ensures x in SetOf(s) <==> x in {s[0]} + SetOf(t) {
          if x in s && x != s[0] {
            var k :| 0 <= k < |s| && s[k] == x;
            assert t[k - 1] == x;
          }
        }
      }
      if s[0] in t {
        var k :| 0 <= k < |t| && t[k] == s[0];
        assert s[k + 1] == s[0];
        assert SetOf(s) == SetOf(t);
      } else {
        assert SetOf(s) == SetOf(t) + {s[0]};
        assert Distinct(s) <==> Distinct(t) by {
          if Distinct(t) {
            forall i, j | 0 <= i < j < |s| ensures s[i] != s[j] {
              if i == 0 { assert s[j] == t[j - 1]; } else { assert s[i] == t[i - 1] && s[j] == t[j - 1]; }
            }
          }
          if Distinct(s) {
            forall i, j | 0 <= i < j < |t| ensures t[i] != t[j] { assert t[i] == s[i + 1] && t[j] == s[j + 1]; }
          }
        }
      }
    }
  }

  /** A subset is no larger than its superset. */
  lemma SubsetCard<T>(a: set<T>, b: set<T>)
    requires a <= b
    ensures |a| <= |b|
  {
    assert b == a + (b - a);
  }

  /** In a sequence without repeats every element occurs exactly once. */
  lemma {:induction false} DistinctMultiplicity<T>(s: seq<T>)
    requires Distinct(s)
    ensures forall x :: multiset(s)[x] == if x in s then 1 else 0
  {
    if s != [] {
      var t := s[1..];
      assert Distinct(t) by {
        forall i, j | 0 <= i < j < |t| ensures t[i] != t[j] { assert t[i] == s[i + 1] && t[j] == s[j + 1]; }
      }
      DistinctMultiplicity(t);
      assert s == [s[0]] + t;
      assert s[0] !in t by {
        forall k | 0 <= k < |t| ensures t[k] != s[0] { assert t[k] == s[k + 1]; }
      }
      forall x ensures multiset(s)[x] == if x in s then 1 else 0 {
        assert multiset(s) == multiset{s[0]} + multiset(t);
        assert x in s <==> x == s[0] || x in t;
      }
    }
  }

  /** A repeat in a sequence shows up as a multiplicity of at least two. */
  lemma RepeatMultiplicity<T>(s: seq<T>, i: int, j: int)
    requires 0 <= i < j < |s| && s[i] == s[j]
    ensures multiset(s)[s[i]] >= 2
  {
    assert s == s[..j] + s[j..];
    assert s[i] in s[..j];
    assert s[j] == s[j..][0];
    assert multiset(s) == multiset(s[..j]) + multiset(s[j..]);
  }

  /** Rearranging a sequence cannot create or remove repeats. */
  lemma PermutationKeepsDistinct<T>(a: seq<T>, b: seq<T>)
    requires multiset(a) == multiset(b)
    ensures Distinct(a) <==> Distinct(b)
  {
    if Distinct(a) && !Distinct(b) {
      var i, j :| 0 <= i < j < |b| && b[i] == b[j];
      RepeatMultiplicity(b, i, j);
      DistinctMultiplicity(a);
    }
    if Distinct(b) && !Distinct(a) {
      var i, j :| 0 <= i < j < |a| && a[i] == a[j];
      RepeatMultiplicity(a, i, j);
      DistinctMultiplicity(b);
    }
  }

  /** Two repeat-free sequences with the same elements are rearrangements of each other. */
  lemma SameSetSameMultiset<T>(a: seq<T>, b: seq<T>)
    requires Distinct(a) && Distinct(b) && SetOf(a) == SetOf(b)
    ensures multiset(a) == multiset(b)
  {
    DistinctMultiplicity(a);
    DistinctMultiplicity(b);
    forall x ensures multiset(a)[x] == multiset(b)[x] {
      assert x in a <==> x in SetOf(a);
      assert x in b <==> x in SetOf(b);
    }
  }

  /** A uniform draw in [0, n) read from the head of a roll stream. */
  function Pick(rolls: seq<nat>, n: nat): (k: nat)
    requires n > 0
    ensures k < n
  {
    if |rolls| == 0 then 0 else rolls[0] % n
  }

  /** The remainder of a roll stream after one draw. */
  function Rest(rolls: seq<nat>): seq<nat> {
    if |rolls| == 0 then [] else rolls[1..]
  }

  /** Exchange the elements at i and j. */
  function Swap<T>(a: seq<T>, i: nat, j: nat): (r: seq<T>)
    requires i < |a| && j < |a|
    ensures |r| == |a| && r[i] == a[j] && r[j] == a[i]
    ensures forall k :: 0 <= k < |a| && k != i && k != j ==> r[k] == a[k]
    ensures multiset(r) == multiset(a)
  {
    a[i := a[j]][j := a[i]]
  }

  /** The in-place Fisher-Yates shuffle used by `shuffleArray` (both JavaScript
      files) and by Python's `random.shuffle`: for i from the last index down
      to 1, draw j in [0, i] and exchange positions i and j. */
  function Shuffle<T>(a: seq<T>, rolls: seq<nat>): (r: seq<T>)
    ensures |r| == |a|
    ensures multiset(r) == multiset(a)
  {
    ShuffleDown(a, |a| - 1, rolls)
  }

  /** The number of draws a shuffle of n elements reads. */
  function ShuffleCost(n: nat): nat {
    if n == 0 then 0 else n - 1
  }

  function ShuffleDown<T>(a: seq<T>, i: int, rolls: seq<nat>): (r: seq<T>)
    requires i < |a|
    ensures |r| == |a|
    ensures multiset(r) == multiset(a)
    decreases i
  {
    if i <= 0 then a
    else ShuffleDown(Swap(a, i, Pick(rolls, i + 1)), i - 1, Rest(rolls))
  }

  /** Shuffling keeps exactly the same elements. */
  lemma ShuffleMembers<T>(a: seq<T>, rolls: seq<nat>)
    ensures forall x :: x in Shuffle(a, rolls) <==> x in a
    ensures Distinct(a) <==> Distinct(Shuffle(a, rolls))
  {
    var r := Shuffle(a, rolls);
    forall x ensures x in r <==> x in a {
      assert x in r <==> multiset(r)[x] > 0;
      assert x in a <==> multiset(a)[x] > 0;
    }
    PermutationKeepsDistinct(a, r);
  }

  /** The first `count` elements of a shuffled copy: `selectRandomCells` in the
      genetic solver, and the contract of Python's `random.sample` (k elements
      taken from k distinct positions). */
  function SelectRandom<T>(cells: seq<T>, count: nat, rolls: seq<nat>): (r: seq<T>)
    ensures |r| == if count <= |cells| then count else |cells|
    ensures forall x :: x in r ==> x in cells
    ensures Distinct(cells) ==> Distinct(r)
  {
    var shuffled := Shuffle(cells, rolls);
    ShuffleMembers(cells, rolls);
    var r := if count <= |shuffled| then shuffled[..count] else shuffled;
    assert forall x :: x in r ==> x in shuffled;
    assert Distinct(shuffled) ==> Distinct(r);
    r
  }

  /** The stream left after k draws. */
  function Drop(rolls: seq<nat>, k: nat): (r: seq<nat>)
    ensures |r| == if k <= |rolls| then |rolls| - k else 0
  {
    if k <= |rolls| then rolls[k..] else []
  }

  /** Row-major order on cell positions. */
  predicate Earlier(a: (int, int), b: (int, int)) {
    a.0 < b.0 || (a.0 == b.0 && a.1 < b.1)
  }

  /** The first cell of [0, rows) x [0, cols), in row-major order, that
      satisfies p: the nested `for i ... for j ...` scans of both programs that
      stop at the first hit. */
  function FirstCell(rows: nat, cols: nat, p: (nat, nat) -> bool): (r: Option<(nat, nat)>)
    ensures r.Some? ==> r.value.0 < rows && r.value.1 < cols && p(r.value.0, r.value.1)
    ensures r.Some? ==> forall i: nat, j: nat :: i < rows && j < cols && Earlier((i, j), r.value) ==> !p(i, j)
    ensures r.None? ==> forall i: nat, j: nat :: i < rows && j < cols ==> !p(i, j)
  {
    FirstCellFrom(rows, cols, p, 0, 0)
  }

  function FirstCellFrom(rows: nat, cols: nat, p: (nat, nat) -> bool, i: nat, j: nat): (r: Option<(nat, nat)>)
    requires j <= cols
    ensures r.Some? ==> r.value.0 < rows && r.value.1 < cols && p(r.value.0, r.value.1) && !Earlier(r.value, (i, j))
    ensures r.Some? ==> forall a: nat, b: nat ::
      (a < rows && b < cols && !Earlier((a, b), (i, j)) && Earlier((a, b), r.value)) ==> !p(a, b)
    ensures r.None? ==> forall a: nat, b: nat :: a < rows && b < cols && !Earlier((a, b), (i, j)) ==> !p(a, b)
    decreases rows - i, cols - j
  {
    if i >= rows then None
    else if j == cols then FirstCellFrom(rows, cols, p, i + 1, 0)
    else if p(i, j) then Some((i, j))
    else FirstCellFrom(rows, cols, p, i, j + 1)
  }

  /** The entries of xs whose mark is set, in order. */
  function Marked<T>(xs: seq<T>, marks: seq<bool>): (ys: seq<T>)
    requires |marks| == |xs|
    ensures |ys| <= |xs|
  {
    if xs == [] then []
    else (if marks[0] then [xs[0]] else []) + Marked(xs[1..], marks[1..])
  }

  /** `Marked` keeps order: its entries sit at strictly increasing positions
      of xs, each of them marked, and every marked position is among them. */
  lemma MarkedPositions<T>(xs: seq<T>, marks: seq<bool>) returns (idx: seq<nat>)
    requires |marks| == |xs|
    ensures |idx| == |Marked(xs, marks)|
    ensures forall k :: 0 <= k < |idx| ==> idx[k] < |xs| && marks[idx[k]] && Marked(xs, marks)[k] == xs[idx[k]]
    ensures forall a, b :: 0 <= a < b < |idx| ==> idx[a] < idx[b]
    ensures forall t :: 0 <= t < |xs| && marks[t] ==> t in idx
  {
    assert xs[0..] == xs && marks[0..] == marks;
    idx := MarkedFrom(xs, marks, 0);
  }

  /** `MarkedPositions` for the suffix from position lo, in absolute positions. */
  lemma {:induction false} MarkedFrom<T>(xs: seq<T>, marks: seq<bool>, lo: nat) returns (idx: seq<nat>)
    requires |marks| == |xs| && lo <= |xs|
    ensures |idx| == |Marked(xs[lo..], marks[lo..])|
    ensures forall k :: 0 <= k < |idx| ==>
      lo <= idx[k] < |xs| && marks[idx[k]] && Marked(xs[lo..], marks[lo..])[k] == xs[idx[k]]
    ensures forall a, b :: 0 <= a < b < |idx| ==> idx[a] < idx[b]
    ensures forall t :: lo <= t < |xs| && marks[t] ==> t in idx
    decreases |xs| - lo
  {
    if lo == |xs| {
      return [];
    }
    var rest := MarkedFrom(xs, marks, lo + 1);
    assert xs[lo..][1..] == xs[lo + 1..] && marks[lo..][1..] == marks[lo + 1..];
    var later := Marked(xs[lo + 1..], marks[lo + 1..]);
    if marks[lo] {
      assert Marked(xs[lo..], marks[lo..]) == [xs[lo]] + later;
      idx := [lo] + rest;
    } else {
      assert Marked(xs[lo..], marks[lo..]) == later;
      idx := rest;
    }
  }
}
