/** Decimal digits of leaves, and leaves with a point as real magnitudes. */
module Decimal {
  import opened Leaves

  const DIGITS_IN_LEAF := 9

  ghost function Ten(n: nat): (t: int)
    ensures t >= 1
  {
    if n == 0 then 1 else 10 * Ten(n - 1)
  }

  lemma {:induction false} TenAdd(a: nat, b: nat)
    ensures Ten(a + b) == Ten(a) * Ten(b)
  {
    if b > 0 {
      TenAdd(a, b - 1);
      assert Ten(a) * (10 * Ten(b - 1)) == 10 * (Ten(a) * Ten(b - 1));
    }
  }

  /** The powers of ten below LEAF, and LEAF itself. */
  lemma TenValues()
    ensures Ten(0) == 1 && Ten(1) == 10 && Ten(2) == 100 && Ten(3) == 1000 && Ten(4) == 10000
    ensures Ten(5) == 100000 && Ten(6) == 1000000 && Ten(7) == 10000000 && Ten(8) == 100000000 && Ten(9) == LEAF
  {
  }

  lemma {:induction false} PowIsTen(n: nat)
    ensures Pow(n) == Ten(DIGITS_IN_LEAF * n)
  {
    if n > 0 {
      PowIsTen(n - 1);
      TenAdd(DIGITS_IN_LEAF * (n - 1), DIGITS_IN_LEAF);
      TenValues();
    }
  }

  /** The decimal shift by `n` digits, for at most as many digits as a leaf has. */
  function DecimalShift(n: nat): (p: int)
    requires n <= DIGITS_IN_LEAF
    ensures p == Ten(n)
  {
    TenValues();
    [1, 10, 100, 1000, 10000, 100000, 1000000, 10000000, 100000000, 1000000000][n]
  }

  /** The number of zero digits at the end of a leaf, not counting the first digit of a zero leaf. */
  ghost predicate EndsWithZeros(leaf: int, zeros: int) {
    && 0 <= zeros < DIGITS_IN_LEAF && leaf % Ten(zeros) == 0
    && (zeros + 1 < DIGITS_IN_LEAF ==> leaf % Ten(zeros + 1) != 0)
  }

  /** A multiple of a power of ten is one of each smaller power. */
  lemma {:induction false} Divisible(leaf: int, a: nat, b: nat)
    requires a <= b && leaf % Ten(b) == 0
    ensures leaf % Ten(a) == 0
  {
    TenAdd(a, b - a);
    var q := leaf / Ten(b);
    assert leaf == q * Ten(b);
    assert leaf == (q * Ten(b - a)) * Ten(a);
    MultipleOf(q * Ten(b - a), Ten(a));
  }

  lemma DivideUnique(m: int, d: int, q: int, r: int)
    requires m == q * d + r && 0 <= r < d
    ensures m / d == q && m % d == r
  {
    var k := m / d;
    assert (q - k) * d == m % d - r;
    if q - k >= 1 { MulMono(1, q - k, d); }
    if q - k <= -1 { MulMono(q - k, -1, d); }
  }

  lemma MultipleOf(q: int, d: int)
    requires d >= 1
    ensures (q * d) % d == 0 && (q * d) / d == q
  {
    DivideUnique(q * d, d, q, 0);
  }

  ghost function EndZerosFrom(leaf: int, i: int): (zeros: int)
    requires 1 <= i <= DIGITS_IN_LEAF && leaf % Ten(i - 1) == 0
    ensures EndsWithZeros(leaf, zeros)
    decreases DIGITS_IN_LEAF - i
  {
    if i < DIGITS_IN_LEAF && leaf % Ten(i) == 0 then EndZerosFrom(leaf, i + 1) else i - 1
  }

  /** The number of zero digits at the end of a leaf. */
  ghost function EndZeros(leaf: int): (zeros: int)
    ensures EndsWithZeros(leaf, zeros)
  {
    EndZerosFrom(leaf, 1)
  }

  lemma {:induction false} EndsUnique(leaf: int, a: int, b: int)
    requires EndsWithZeros(leaf, a) && EndsWithZeros(leaf, b)
    ensures a == b
  {
    if a < b { Divisible(leaf, a + 1, b); }
    if b < a { Divisible(leaf, b + 1, a); }
  }

  /** Counts the zero digits at the end of a leaf. */
  method TrailingZeros(leaf: int) returns (zeros: nat)
    requires 0 <= leaf < LEAF
    ensures zeros == EndZeros(leaf)
  {
    zeros := 0;
    var i := 1;
    while i < DIGITS_IN_LEAF && leaf % DecimalShift(i) == 0
      invariant 1 <= i <= DIGITS_IN_LEAF && zeros == i - 1 && leaf % Ten(zeros) == 0
    {
      zeros := zeros + 1;
      i := i + 1;
    }
    EndsUnique(leaf, zeros, EndZeros(leaf));
  }

  /** The magnitude of leaves of which the last `f` are fractional. */
  ghost function Magnitude(s: seq<int>, f: nat): real {
    PowPositive(f);
    Val(s) as real / Pow(f) as real
  }

  lemma RealFraction(a: real, b: real, c: real, d: real)
    requires b > 0.0 && d > 0.0
    ensures (a / b) * (c / d) == (a * c) / (b * d)
    ensures (a * d) / (b * d) == a / b
    ensures a / b == c / d <==> a * d == c * b
    ensures a / b < c / d <==> a * d < c * b
  {
  }

  lemma RealProduct(a: int, b: int)
    ensures (a * b) as real == a as real * b as real
  {
  }

  /** A fraction expanded by a common factor. */
  lemma Expand(a: int, b: int, k: int)
    requires b >= 1 && k >= 1
    ensures b * k >= 1
    ensures (a * k) as real / (b * k) as real == a as real / b as real
  {
    MulMono(1, b, k);
    RealProduct(a, k);
    RealProduct(b, k);
    RealFraction(a as real, b as real, 1.0, k as real);
  }

  lemma FractionOrder(a: int, b: int, c: int)
    requires b >= 1
    ensures a as real / b as real < c as real <==> a < c * b
    ensures a >= 0 <==> a as real / b as real >= 0.0
  {
    RealProduct(c, b);
    RealFraction(a as real, b as real, c as real, 1.0);
    RealFraction(a as real, b as real, 0.0, 1.0);
  }

  lemma FloorOfFraction(m: int, d: int)
    requires d >= 1
    ensures (m as real / d as real).Floor == m / d
  {
    var q := m / d;
    FractionOrder(m, d, q);
    FractionOrder(m, d, q + 1);
    assert q * d <= m < (q + 1) * d;
  }

  lemma DivideTwice(m: int, a: int, b: int)
    requires a >= 1 && b >= 1
    ensures a * b >= 1 && m / (a * b) == (m / a) / b
  {
    MulMono(1, a, b);
    var q := m / a;
    var r := q / b;
    assert m == (r * b + q % b) * a + m % a;
    assert (r * b + q % b) * a == r * (a * b) + (q % b) * a;
    MulMono(q % b, b - 1, a);
    MulMono(0, q % b, a);
    DivideUnique(m, a * b, r, (q % b) * a + m % a);
  }

  /** The number of whole `t`-ths in `x`. */
  ghost function Parts(x: real, t: int): int {
    (x * t as real).Floor
  }

  /** The greatest multiple of one `t`-th that is not more than `x`. */
  ghost function TruncatedBy(x: real, t: int): real
    requires t >= 1
  {
    Parts(x, t) as real / t as real
  }

  lemma PartsMonotone(x: real, y: real, t: int)
    requires x <= y && t >= 1
    ensures Parts(x, t) <= Parts(y, t)
  {
    assert x * t as real <= y * t as real;
  }

  /** A magnitude without the digits behind the `p`-th one behind the point. */
  ghost function Truncated(x: real, p: nat): real {
    TruncatedBy(x, Ten(p))
  }

  lemma RealCancel(v: real, u: real, m: real)
    requires u > 0.0 && m > 0.0
    ensures u * m > 0.0 && (v / (u * m)) * m == v / u
  {
    var x := v / u;
    assert v == x * u;
    assert v == (x / m) * (u * m);
  }

  /** A fraction of an expanded denominator, in the smaller units. */
  lemma CancelledUnit(x: real, v: int, u: int, m: int, p: int)
    requires u >= 1 && m >= 1 && p == u * m && p >= 1 && x == v as real / p as real
    ensures x * m as real == v as real / u as real
  {
    RealProduct(u, m);
    RealCancel(v as real, u as real, m as real);
  }

  lemma FloorOfExpanded(v: int, u: int, m: int, p: int)
    requires u >= 1 && m >= 1 && p == u * m
    ensures p >= 1 && Parts(v as real / p as real, m) == v / u
  {
    MulMono(1, u, m);
    CancelledUnit(v as real / p as real, v, u, m, p);
    FloorOfFraction(v, u);
  }

  lemma TruncatedTo(x: real, t: int, v: int)
    requires t >= 1 && Parts(x, t) == v
    ensures TruncatedBy(x, t) == v as real / t as real
  {
  }

  /** Truncating leaves is dividing them by the unit of the last digit that is kept. */
  lemma {:induction false} TruncatedMagnitude(s: seq<int>, f: nat, p: nat)
    requires p <= DIGITS_IN_LEAF * f
    ensures Truncated(Magnitude(s, f), p) == (Val(s) / Ten(DIGITS_IN_LEAF * f - p)) as real / Ten(p) as real
  {
    var u, m := Ten(DIGITS_IN_LEAF * f - p), Ten(p);
    PowIsTen(f);
    TenAdd(DIGITS_IN_LEAF * f - p, p);
    FloorOfExpanded(Val(s), u, m, Pow(f));
    TruncatedTo(Magnitude(s, f), m, Val(s) / u);
  }

  lemma FractionTimes(a: int, b: int, c: int, d: int)
    requires b >= 1 && d >= 1
    ensures b * d >= 1
    ensures (a as real / b as real) * (c as real / d as real) == (a * c) as real / (b * d) as real
  {
    MulMono(1, b, d);
    RealProduct(a, c);
    RealProduct(b, d);
    RealFraction(a as real, b as real, c as real, d as real);
  }

  /** The number of `t`-ths nearest to `x`, the greater one if there are two. */
  ghost function NearestParts(x: real, t: int): int {
    (x * t as real + 0.5).Floor
  }

  /** A magnitude rounded to `p` digits behind the point. */
  ghost function Rounded(x: real, p: nat): real {
    NearestParts(x, Ten(p)) as real / Ten(p) as real
  }

  lemma SumOver(a: real, b: real, d: real)
    requires d > 0.0
    ensures a / d + b / d == (a + b) / d
  {
  }

  lemma HalfUp(v: int, h: int)
    requires h >= 1
    ensures (v as real / (2 * h) as real + 0.5).Floor == (v + h) / (2 * h)
  {
    var d := 2 * h;
    assert h as real / d as real == 0.5 by {
      assert d as real == 2.0 * h as real;
    }
    SumOver(v as real, h as real, d as real);
    FloorOfFraction(v + h, d);
  }

  lemma NearestOfExpanded(v: int, h: int, m: int, p: int)
    requires h >= 1 && m >= 1 && p == (2 * h) * m
    ensures p >= 1 && NearestParts(v as real / p as real, m) == (v + h) / (2 * h)
  {
    var u := 2 * h;
    MulMono(1, u, m);
    CancelledUnit(v as real / p as real, v, u, m, p);
    HalfUp(v, h);
  }

  lemma TenthsOf(v: int, u: int, q: int, d: int, r: int)
    requires u >= 1 && v == (10 * q + d) * u + r && 0 <= d < 10 && 0 <= r < u
    ensures v == q * (10 * u) + (d * u + r) && 0 <= d * u + r < 10 * u
    ensures d >= 5 ==> d * u >= 5 * u
    ensures d < 5 ==> d * u <= 4 * u
  {
    assert (10 * q + d) * u == q * (10 * u) + d * u;
    MulMono(d, 9, u);
    MulMono(0, d, u);
    if d >= 5 { MulMono(5, d, u); } else { MulMono(d, 4, u); }
  }

  /** Rounding by the digit behind the last one that is kept. */
  lemma RoundsUp(v: int, u: int)
    requires u >= 1
    ensures (v + 5 * u) / (10 * u) == v / (10 * u) + if (v / u) % 10 >= 5 then 1 else 0
  {
    var a, r := v / u, v % u;
    var q, d := a / 10, a % 10;
    TenthsOf(v, u, q, d, r);
    DivideUnique(v, 10 * u, q, d * u + r);
    if d >= 5 {
      DivideUnique(v + 5 * u, 10 * u, q + 1, d * u + r - 5 * u);
    } else {
      DivideUnique(v + 5 * u, 10 * u, q, d * u + r + 5 * u);
    }
  }
}
