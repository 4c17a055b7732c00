/** JavaScript number operations used by the site, over exact reals and integers. */
module JsNum {

  function Abs(x: real): (r: real)
    ensures r >= 0.0
    ensures r == x || r == -x
  {
    if x < 0.0 then -x else x
  }

  function Max(a: real, b: real): (r: real)
    ensures r >= a && r >= b
    ensures r == a || r == b
  {
    if a >= b then a else b
  }

  function Min(a: real, b: real): (r: real)
    ensures r <= a && r <= b
    ensures r == a || r == b
  {
    if a <= b then a else b
  }

  /** `Math.max(lo, Math.min(hi, x))`. */
  function Clamp(lo: real, hi: real, x: real): (r: real)
    ensures r >= lo
    ensures lo <= hi ==> r <= hi
    ensures lo <= x <= hi ==> r == x
    ensures x <= lo ==> r == lo
    ensures lo <= hi && hi <= x ==> r == hi
    ensures hi <= lo ==> r == lo
  {
    Max(lo, Min(hi, x))
  }

  /** Truncation toward zero: the quotient JavaScript's `%` uses. */
  function Trunc(y: real): (r: int)
    ensures y >= 0.0 ==> r as real <= y < r as real + 1.0
    ensures y < 0.0 ==> r as real - 1.0 < y <= r as real
  {
    if y >= 0.0 then y.Floor else -((-y).Floor)
  }

  /** JavaScript's `x % m` on numbers: `x - m * q` with `q` the quotient truncated toward zero. */
  function JsRem(x: real, m: real): (r: real)
    requires m > 0.0
    ensures x >= 0.0 ==> 0.0 <= r < m
    ensures x < 0.0 ==> -m < r <= 0.0
  {
    RemainderBounds(x, m, Trunc(x / m));
    x - m * Trunc(x / m) as real
  }

  /** Taking off the truncated multiple leaves less than one `m`, with the sign of `x`. */
  lemma RemainderBounds(x: real, m: real, t: int)
    requires m > 0.0 && t == Trunc(x / m)
    ensures x >= 0.0 ==> 0.0 <= x - m * t as real < m
    ensures x < 0.0 ==> -m < x - m * t as real <= 0.0
  {
    var y := x / m;
    assert m * y == x;
    if x >= 0.0 {
      QuotientAtLeast(x, m, 0.0);
      AtLeastMultiple(x, m, y, t as real);
      BelowNextMultiple(x, m, y, t as real);
    } else {
      QuotientBelow(x, m, 0.0);
      AtMostMultiple(x, m, y, t as real);
      AbovePreviousMultiple(x, m, y, t as real);
    }
  }

  /** `x == m * y` with `y >= q` lies at or above the multiple `m * q`. */
  lemma AtLeastMultiple(x: real, m: real, y: real, q: real)
    requires m > 0.0 && m * y == x && q <= y
    ensures 0.0 <= x - m * q
  {
    MulMonotone(q, y, m);
  }

  /** `x == m * y` with `y <= q` lies at or below the multiple `m * q`. */
  lemma AtMostMultiple(x: real, m: real, y: real, q: real)
    requires m > 0.0 && m * y == x && y <= q
    ensures x - m * q <= 0.0
  {
    MulMonotone(y, q, m);
  }

  /** `x == m * y` with `y < q + 1` lies below the next multiple `m * (q + 1)`. */
  lemma BelowNextMultiple(x: real, m: real, y: real, q: real)
    requires m > 0.0 && m * y == x && y < q + 1.0
    ensures x - m * q < m
  {
    MulBelow(y, q + 1.0, m);
    assert m * (q + 1.0) == m * q + m;
  }

  /** `x == m * y` with `y > q - 1` lies above the previous multiple `m * (q - 1)`. */
  lemma AbovePreviousMultiple(x: real, m: real, y: real, q: real)
    requires m > 0.0 && m * y == x && q - 1.0 < y
    ensures -m < x - m * q
  {
    MulBelow(q - 1.0, y, m);
    assert m * (q - 1.0) == m * q - m;
  }

  /** Multiplying by a positive real preserves order. */
  lemma MulMonotone(a: real, b: real, m: real)
    requires m > 0.0 && a <= b
    ensures m * a <= m * b
  {
    assert m * b - m * a == m * (b - a);
  }

  /** Multiplying by a positive real preserves strict order. */
  lemma MulBelow(a: real, b: real, m: real)
    requires m > 0.0 && a < b
    ensures m * a < m * b
  {
    assert m * b - m * a == m * (b - a);
  }

  /** A positive multiple of a positive number is at least that number. */
  lemma MulAtLeast(b: int, k: int)
    requires b > 0 && k >= 1
    ensures b * k >= b
  {
    assert b * k == b + b * (k - 1);
  }

  /** Euclidean quotient and remainder are the only pair with `a == b * q + r` and `0 <= r < b`. */
  lemma DivModUnique(a: int, b: int, q: int, r: int)
    requires b > 0
    requires a == b * q + r && 0 <= r < b
    ensures a / b == q && a % b == r
  {
    var q0, r0 := a / b, a % b;
    assert b * q - b * q0 == r0 - r;
    assert b * (q - q0) == r0 - r;
    if q > q0 {
      MulAtLeast(b, q - q0);
    } else if q < q0 {
      MulAtLeast(b, q0 - q);
    }
  }

  /** Dividing by a positive real keeps a lower bound given as a product. */
  lemma QuotientAtLeast(x: real, m: real, k: real)
    requires m > 0.0 && x >= m * k
    ensures x / m >= k
  {
    assert x / m * m == x;
  }

  /** Dividing by a positive real keeps a strict upper bound given as a product. */
  lemma QuotientBelow(x: real, m: real, k: real)
    requires m > 0.0 && x < m * k
    ensures x / m < k
  {
    assert x / m * m == x;
  }

  /** Dividing by a positive real keeps an upper bound given as a product. */
  lemma QuotientAtMost(x: real, m: real, k: real)
    requires m > 0.0 && x <= m * k
    ensures x / m <= k
  {
    assert x / m * m == x;
  }

  /** Dividing by a positive real preserves order. */
  lemma QuotientMonotone(x: real, y: real, m: real)
    requires m > 0.0 && x <= y
    ensures x / m <= y / m
  {
    assert x / m * m == x;
    assert y / m * m == y;
  }

  /** A part `x` of a whole `m`, as a percentage: within [0, 100], and exactly the share
      of the whole that the part is. */
  lemma PercentOfWhole(x: real, m: real)
    requires m > 0.0 && 0.0 <= x <= m
    ensures 0.0 <= x / m * 100.0 <= 100.0
    ensures (x / m * 100.0) * m == x * 100.0
  {
    QuotientAtLeast(x, m, 0.0);
    QuotientAtMost(x, m, 1.0);
    var q := x / m;
    assert q * m == x;
    assert (q * 100.0) * m == (q * m) * 100.0;
  }

  /** `Math.floor(n / d)` on integer operands is integer division. */
  lemma FloorOfQuotient(n: int, d: int)
    requires d > 0
    ensures (n as real / d as real).Floor == n / d
  {
    var q, r := n / d, n % d;
    var x := n as real / d as real;
    assert n as real == d as real * q as real + r as real;
    QuotientAtLeast(n as real, d as real, q as real);
    QuotientBelow(n as real, d as real, q as real + 1.0);
  }

  /** `Math.floor((n / d) % m)` for a non-negative integer `n` is `(n / d) % m` on integers. */
  lemma FloorOfRemainder(n: int, d: int, m: int)
    requires n >= 0 && d > 0 && m > 0
    ensures JsRem(n as real / d as real, m as real).Floor == (n / d) % m
  {
    var x := n as real / d as real;
    var q := n / d;
    var k, j := q / m, q % m;
    FloorOfQuotient(n, d);
    SplitAsReal(q, m, k, j);
    FloorOfRemainderAt(x, q, m, k, j);
  }

  /** The remainder step on its own: `x` lies in `[q, q + 1)` and `q == m * k + j`. */
  lemma FloorOfRemainderAt(x: real, q: int, m: int, k: int, j: int)
    requires m > 0 && k >= 0 && 0 <= j < m
    requires q as real <= x < q as real + 1.0
    requires q as real == m as real * k as real + j as real
    ensures JsRem(x, m as real).Floor == j
  {
    TruncInBracket(x, m as real, k);
  }

  /** The integer identity `q == m * k + j` read over the reals. */
  lemma SplitAsReal(q: int, m: int, k: int, j: int)
    requires m > 0 && k == q / m && j == q % m
    ensures q as real == m as real * k as real + j as real
  {
    assert q == m * k + j;
  }

  /** A number in `[m * k, m * k + m)` has truncated quotient `k` by `m`, for `k >= 0`. */
  lemma TruncInBracket(x: real, m: real, k: int)
    requires m > 0.0 && k >= 0 && m * k as real <= x < m * k as real + m
    ensures Trunc(x / m) == k
  {
    QuotientAtLeast(x, m, k as real);
    assert m * (k as real + 1.0) == m * k as real + m;
    QuotientBelow(x, m, k as real + 1.0);
  }
}
