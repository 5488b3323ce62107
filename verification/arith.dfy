/** Euclidean division facts used to locate a cell's block.  All block
    arithmetic in the programs is `floor(row / b)`, `row // b` or `i + x` for
    offsets below b, on non-negative operands, where Dafny's `/` agrees with
    the source's. */
module Arith {

  lemma MulAtLeast(b: int, d: int)
    requires b > 0 && d >= 1
    ensures b * d >= b
  {
  }

  /** Multiplying by a non-negative factor keeps order. */
  lemma MulMono(b: int, x: int, y: int)
    requires b >= 0 && x <= y
    ensures b * x <= b * y
  {
    assert b * y == b * x + b * (y - x);
  }

  /** Quotient and remainder of b*q + r are q and r when 0 <= r < b. */
  lemma DivMod(b: int, q: int, r: int)
    requires b > 0 && 0 <= r < b
    ensures (b * q + r) / b == q
    ensures (b * q + r) % b == r
  {
    var x := b * q + r;
    var q', r' := x / b, x % b;
    assert x == b * q' + r';
    if q' > q {
      MulAtLeast(b, q' - q);
      assert false;
    } else if q' < q {
      MulAtLeast(b, q - q');
      assert false;
    }
  }

  /** An offset below b inside the q-th block of size b stays below b*m when q < m. */
  lemma BlockBound(b: int, m: int, q: int, x: int)
    requires b > 0 && 0 <= q < m && 0 <= x < b
    ensures 0 <= b * q + x < b * m
  {
    MulMono(b, q, m - 1);
    MulMono(b, 0, q);
    assert b * (m - 1) + b == b * m;
  }

  /** Offset (x, y) inside a b x b square, flattened row by row, is below b*b
      and splits back into x and y. */
  lemma Flatten(b: int, x: int, y: int)
    requires b > 0 && 0 <= x < b && 0 <= y < b
    ensures 0 <= b * x + y < b * b
    ensures (b * x + y) / b == x && (b * x + y) % b == y
  {
    MulMono(b, x, b - 1);
    assert b * (b - 1) + b == b * b;
    assert 0 <= b * x by { MulMono(b, 0, x); }
    DivMod(b, x, y);
  }

  /** Every index of a 3x3 box splits into its row and column offsets. */
  lemma BoxOffsets()
    ensures forall k :: 0 <= k < 9 ==> 0 <= k / 3 < 3 && 0 <= k % 3 < 3 && (k / 3) * 3 + k % 3 == k
  {
  }

  /** k is the flat index m * x + y exactly when x and y are k's quotient and remainder. */
  lemma IndexSplit(m: int, k: int, x: int, y: int)
    requires m > 0 && 0 <= y < m
    ensures k == m * x + y <==> k / m == x && k % m == y
  {
    DivMod(m, x, y);
    assert k == m * (k / m) + k % m;
  }

  /** x lies in the block starting at b*q exactly when x / b == q. */
  lemma InBlock(b: int, q: int, x: int)
    requires b > 0
    ensures b * q <= x < b * q + b <==> x / b == q
  {
    var q', r' := x / b, x % b;
    assert x == b * q' + r';
    if b * q <= x < b * q + b {
      DivMod(b, q, x - b * q);
    }
    if x / b == q {
      assert x == b * q + r';
    }
  }

  /** A non-negative index below b*m has quotient below m. */
  lemma DivBelow(b: int, m: int, t: int)
    requires b > 0 && 0 <= t < b * m
    ensures 0 <= t / b < m
  {
    var q := t / b;
    assert t == b * q + t % b;
    if q >= m {
      MulAtLeast(b, q - m + 1);
      assert false;
    }
    if q < 0 {
      MulAtLeast(b, -q);
      assert false;
    }
  }

  /** b * b, by repeated addition, so that a side and its square can be
      related without a product of two unknowns in every proof. */
  function Sq(b: nat): nat {
    if b == 0 then 0 else Sq(b - 1) + 2 * b - 1
  }

  lemma {:induction false} SqIsProduct(b: nat)
    ensures Sq(b) == b * b
  {
    if b > 0 {
      SqIsProduct(b - 1);
      assert (b - 1) * (b - 1) == b * b - 2 * b + 1;
    }
  }

  /** One block further down: the quotient by b drops by one and the product
      by one b. */
  lemma DivStep(b: int, x: int)
    requires b > 0 && x >= b
    ensures (x - b) / b == x / b - 1
    ensures (x / b - 1) * b + b == (x / b) * b
  {
    var q, r := x / b, x % b;
    assert x - b == b * (q - 1) + r;
    DivMod(b, q - 1, r);
  }
}
