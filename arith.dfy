/** Facts about Euclidean division by a positive divisor, which the solver
    does not find on its own once the divisor is a variable. */
module Arith {

  /** Quotient and remainder are unique. */
  lemma DivModUnique(q: int, r: int, d: int)
    requires d > 0 && 0 <= r < d
    ensures (q * d + r) / d == q && (q * d + r) % d == r
  {
    var n := q * d + r;
    var q', r' := n / d, n % d;
    assert n == q' * d + r' && 0 <= r' < d;
    assert (q - q') * d == r' - r;
    if q' < q {
      assert (q - q') * d >= d by { MulAtLeast(q - q', d); }
    } else if q' > q {
      assert (q' - q) * d >= d by { MulAtLeast(q' - q, d); }
    }
  }

  /** Adding the divisor adds one to the quotient. */
  lemma DivPlusOne(x: int, d: int)
    requires d > 0 && x >= 0
    ensures (x + d) / d == x / d + 1
  {
    var q, r := x / d, x % d;
    assert x + d == (q + 1) * d + r;
    DivModUnique(q + 1, r, d);
  }

  lemma MulAtLeast(k: int, d: int)
    requires k >= 1 && d > 0
    ensures k * d >= d
  {
  }

  /** Quotient and remainder of a position in a matrix stored row by row. */
  lemma PositionParts(row: int, col: int, width: int)
    requires width > 0 && 0 <= col < width
    ensures (row * width + col) / width == row && (row * width + col) % width == col
  {
    DivModUnique(row, col, width);
  }

  /** Every index below `rows * width` is `row * width + col` for one in-range pair. */
  lemma SplitIndex(k: int, rows: int, width: int)
    requires width > 0 && 0 <= k < rows * width
    ensures 0 <= k / width < rows && 0 <= k % width < width
    ensures k == (k / width) * width + k % width
  {
  }

  /** In-range cell positions stay below `rows * width`. */
  lemma CellBound(row: int, col: int, rows: int, width: int)
    requires 0 <= row < rows && 0 <= col < width
    ensures 0 <= row * width + col < rows * width
  {
    MulMonotone(row + 1, rows, width);
  }

  /** Taking `d` away from a positive multiple of `d` leaves a multiple of `d`. */
  lemma MultipleMinus(n: int, d: int)
    requires d > 0 && n >= d && n % d == 0
    ensures (n - d) % d == 0
  {
    var q := n / d;
    assert n == q * d;
    assert n - d == (q - 1) * d;
    DivModUnique(q - 1, 0, d);
  }

  lemma MulSucc(a: int, d: int)
    ensures (a + 1) * d == a * d + d
  {
  }

  lemma MulMonotone(a: int, b: int, d: int)
    requires 0 <= a <= b && d >= 0
    ensures a * d <= b * d
  {
  }

  /** A positive multiple of `b` is at least `b`. */
  lemma MultipleAtLeast(n: nat, b: nat)
    requires 0 < b && 0 < n && n % b == 0
    ensures b <= n
  {
    assert n == (n / b) * b;
    MulAtLeast(n / b, b);
  }

  /** Adding `b - n mod b` to `n` reaches the next multiple of `b`. */
  lemma PaddedLength(n: nat, b: nat)
    requires b > 0
    ensures (n + (b - n % b)) % b == 0
  {
    assert n + (b - n % b) == (n / b + 1) * b;
    DivModUnique(n / b + 1, 0, b);
  }

  /** If `n` is a multiple of `b` and `0 < p <= b <= n`, then `(n - p) mod b == b - p`. */
  lemma ModOfDifference(n: nat, p: nat, b: nat)
    requires 0 < p <= b <= n && n % b == 0
    ensures (n - p) % b == b - p
  {
    var q := n / b;
    assert n == q * b;
    assert n - p == (q - 1) * b + (b - p);
    DivModUnique(q - 1, b - p, b);
  }
}
