/** `calculate_total_pages` (utils/math_utils.py, repeated in part-1/main.py) and the Python arithmetic it relies on. */
module Pagination {

  /** Python's floor division `a // b`: the quotient rounded towards negative infinity.
      Dafny's `/` is Euclidean, which differs from it when `b` is negative. */
  function FloorDiv(a: int, b: int): (q: int)
    requires b != 0
    ensures b > 0 ==> q * b <= a < q * b + b
    ensures b < 0 ==> q * b + b < a <= q * b
  {
    if b > 0 then a / b else (-a) / (-b)
  }

  /** Number of pages of size `d` needed for `n` items: `-(n // -d)`, and 0 when `d` is 0.
      For every non-zero `d` the result is the ceiling of the rational `n / d`. */
  function TotalPages(n: int, d: int): (p: int)
    ensures d == 0 ==> p == 0
    ensures d > 0 ==> (p - 1) * d < n <= p * d
    ensures d < 0 ==> p * d <= n < (p - 1) * d
  {
    if d == 0 then 0 else -FloorDiv(n, -d)
  }

  /** The ceiling is unique: any `p` with `(p - 1) * d < n <= p * d` is the page count. */
  lemma TotalPagesUnique(n: int, d: int, p: int)
    requires d > 0 && (p - 1) * d < n <= p * d
    ensures TotalPages(n, d) == p
  {
    var t := TotalPages(n, d);
    if t < p {
      assert t * d <= (p - 1) * d by { MulMonotone(t, p - 1, d); }
    } else if t > p {
      assert p * d <= (t - 1) * d by { MulMonotone(p, t - 1, d); }
    }
  }

  lemma MulMonotone(a: int, b: int, d: int)
    requires a <= b && d > 0
    ensures a * d <= b * d
  {
    assert b * d - a * d == (b - a) * d;
  }

  /** When `d` divides `n`, the page count is exactly `n / d`. */
  lemma TotalPagesExact(n: int, d: int, k: int)
    requires d > 0 && n == k * d
    ensures TotalPages(n, d) == k
  {
    assert (k - 1) * d == n - d;
    TotalPagesUnique(n, d, k);
  }

  /** No items means no pages, whatever the page size. */
  lemma TotalPagesOfNothing(d: int)
    ensures TotalPages(0, d) == 0
  {
    if d > 0 {
      TotalPagesUnique(0, d, 0);
    } else if d < 0 {
      var p := TotalPages(0, d);
      assert p * d <= 0 < (p - 1) * d;
    }
  }

  /** A positive page size over a non-negative count gives a non-negative page count. */
  lemma TotalPagesNonNegative(n: int, d: int)
    requires 0 <= n && 0 < d
    ensures 0 <= TotalPages(n, d)
  {
    var p := TotalPages(n, d);
    if p < 0 {
      MulMonotone(p, -1, d);
    }
  }

  /** A page size between 1 and the number of items gives between 1 and `n` pages. */
  lemma TotalPagesBounds(n: int, d: int)
    requires 0 < d <= n
    ensures 1 <= TotalPages(n, d) <= n
  {
    var p := TotalPages(n, d);
    if p <= 0 {
      MulMonotone(p, 0, d);
    } else if p > 1 {
      MulMonotone(1, d, p - 1);
    }
  }
}
