/** What digits and precisions mean for the values of numbers. */
module Digits {
  import opened Leaves
  import opened Decimal
  import opened Numerals
  import opened Division
  import opened Quotients
  import opened Dividends
  import opened Rounding

  ghost predicate Whole(x: real) {
    x.Floor as real == x
  }

  /** Whether a number consists of whole `t`-ths. */
  ghost predicate InParts(x: real, t: int) {
    Whole(x * t as real)
  }

  ghost function Unit(t: int): real
    requires t >= 1
  {
    1.0 / t as real
  }

  /** Whether a number has no digit other than zero behind the `p`-th one behind the point. */
  ghost predicate HasDigits(x: real, p: nat) {
    InParts(x, Ten(p))
  }

  /** Whether a number has fewer than `p` digits behind the point, or none. */
  ghost predicate Few(x: real, p: int) {
    if p <= 0 then Whole(x) else HasDigits(x, p - 1)
  }

  ghost function Size(x: real): real {
    if x < 0.0 then -x else x
  }

  /** Whether `v` falls short of `x`, on the same side of zero, by less than one unit of the `p`-th digit. */
  ghost predicate Close(v: real, x: real, p: nat) {
    && (x >= 0.0 ==> 0.0 <= v <= x) && (x <= 0.0 ==> x <= v <= 0.0)
    && Size(x - v) < Unit(Ten(p))
  }

  lemma RealOrder(a: real, b: real, d: real)
    requires d > 0.0
    ensures a <= b <==> a * d <= b * d
    ensures a < b <==> a * d < b * d
    ensures a == b <==> a * d == b * d
  {
  }

  lemma Parted(x: real, t: int)
    requires t >= 1
    ensures TruncatedBy(x, t) <= x < TruncatedBy(x, t) + Unit(t)
    ensures x >= 0.0 ==> TruncatedBy(x, t) >= 0.0
  {
    var d, v := t as real, Parts(x, t) as real;
    assert (v / d) * d == v && (v / d + 1.0 / d) * d == v + 1.0;
    RealOrder(v / d, x, d);
    RealOrder(x, v / d + 1.0 / d, d);
    RealOrder(0.0, x, d);
    RealOrder(0.0, v / d, d);
  }

  lemma PartsWhole(v: int, t: int)
    requires t >= 1
    ensures InParts(v as real / t as real, t)
  {
    assert (v as real / t as real) * t as real == v as real;
  }

  /** A magnitude that is cut off falls short by less than one unit of the last digit, and has no more digits. */
  lemma {:induction false} TruncatedFallsShort(x: real, p: nat)
    requires x >= 0.0
    ensures 0.0 <= Truncated(x, p) <= x < Truncated(x, p) + Unit(Ten(p))
    ensures HasDigits(Truncated(x, p), p)
  {
    hide Ten, InParts, Unit;
    Parted(x, Ten(p));
    PartsWhole(Parts(x, Ten(p)), Ten(p));
  }

  lemma WholeNegated(x: real)
    ensures Whole(-x) <==> Whole(x)
  {
    if Whole(x) { assert -x == (-(x.Floor)) as real; }
    if Whole(-x) { assert x == (-((-x).Floor)) as real; }
  }

  lemma InPartsIs(x: real, t: int, y: real)
    requires y == x * t as real
    ensures InParts(x, t) <==> Whole(y)
  {
  }

  lemma NegatedProduct(x: real, d: real)
    ensures (-x) * d == -(x * d)
  {
  }

  lemma {:induction false} NegatedDigits(x: real, p: nat)
    ensures HasDigits(-x, p) <==> HasDigits(x, p)
  {
    hide Ten, Whole, InParts;
    var y := x * Ten(p) as real;
    NegatedProduct(x, Ten(p) as real);
    InPartsIs(x, Ten(p), y);
    InPartsIs(-x, Ten(p), -y);
    WholeNegated(y);
  }

  lemma WholeApart(x: real, y: real)
    requires Whole(x) && Whole(y) && -1.0 < x - y < 1.0
    ensures x == y
  {
    var i, j := x.Floor, y.Floor;
    assert (i - j) as real == x - y;
    assert i - j == 0;
  }

  lemma ScaledApart(v: real, w: real, d: real)
    requires d > 0.0 && -(1.0 / d) < v - w < 1.0 / d
    ensures -1.0 < v * d - w * d < 1.0
  {
    assert (1.0 / d) * d == 1.0 && v * d - w * d == (v - w) * d && (-(1.0 / d)) * d == -1.0;
    RealOrder(v - w, 1.0 / d, d);
    RealOrder(-(1.0 / d), v - w, d);
  }

  lemma CloseTwice(v: real, w: real, t: int)
    requires t >= 1 && InParts(v, t) && InParts(w, t) && -Unit(t) < v - w < Unit(t)
    ensures v == w
  {
    var x, y := v * t as real, w * t as real;
    ScaledApart(v, w, t as real);
    WholeApart(x, y);
    RealOrder(v, w, t as real);
  }

  /** Values that fall short of the same one, and have no more than `p` digits, are the same. */
  lemma {:induction false} CloseIsUnique(v: real, w: real, x: real, p: nat)
    requires Close(v, x, p) && HasDigits(v, p) && Close(w, x, p) && HasDigits(w, p)
    ensures v == w
  {
    hide Ten, InParts, Unit;
    CloseTwice(v, w, Ten(p));
  }

  lemma {:induction false} CutIsClose(x: real, p: nat)
    ensures Close(TowardsZero(x, p), x, p) && HasDigits(TowardsZero(x, p), p)
  {
    hide Ten, HasDigits, Truncated, Unit;
    TruncatedFallsShort(Size(x), p);
    NegatedDigits(Truncated(Size(x), p), p);
  }

  /** Cutting a value off behind the `p`-th digit gives the only value of no more digits that falls short of it by less
      than one unit of that digit. */
  lemma {:induction false} CutOffBehind(v: real, x: real, p: nat)
    ensures v == TowardsZero(x, p) <==> Close(v, x, p) && HasDigits(v, p)
  {
    hide TowardsZero, Close, HasDigits;
    CutIsClose(x, p);
    if Close(v, x, p) && HasDigits(v, p) {
      CloseIsUnique(v, TowardsZero(x, p), x, p);
    }
  }

  /** Whether `v` is one of the values of `p` digits that are nearest to `x`, and the upper one if there are two. */
  ghost predicate Nearest(v: real, x: real, p: nat) {
    -Unit(Ten(p)) < 2.0 * (v - x) <= Unit(Ten(p)) && HasDigits(v, p)
  }

  lemma HalfMore(x: real, t: int)
    requires t >= 1
    ensures Parts(x + Unit(t) / 2.0, t) == NearestParts(x, t)
  {
    var d := t as real;
    assert Unit(t) * d == 1.0;
    assert (x + Unit(t) / 2.0) * d == x * d + 0.5;
  }

  lemma {:induction false} RoundedIsNear(x: real, p: nat)
    ensures Nearest(Rounded(x, p), x, p)
  {
    hide Ten, InParts, Unit, Parts, NearestParts;
    HalfMore(x, Ten(p));
    Parted(x + Unit(Ten(p)) / 2.0, Ten(p));
    PartsWhole(NearestParts(x, Ten(p)), Ten(p));
  }

  /** Rounding gives the nearest value of no more digits. */
  lemma {:induction false} RoundedToNearest(v: real, x: real, p: nat)
    ensures v == Rounded(x, p) <==> Nearest(v, x, p)
  {
    hide Ten, InParts, Rounded, Unit;
    RoundedIsNear(x, p);
    if Nearest(v, x, p) {
      CloseTwice(v, Rounded(x, p), Ten(p));
    }
  }

  lemma KeptParts(x: real, t: int)
    requires t >= 1 && InParts(x, t)
    ensures TruncatedBy(x, t) == x
  {
    var d, y := t as real, x * t as real;
    InPartsIs(x, t, y);
    TruncatedTo(x, t, y.Floor);
    assert x == y / d;
  }

  lemma WholeQuotient(v: int, u: int, m: int, p: int)
    requires u >= 1 && m >= 1 && p == u * m && p >= 1 && (v / u) as real / m as real == v as real / p as real
    ensures v % u == 0
  {
    Expand(v / u, m, u);
    assert m * u == p;
    SameNumerator((v / u) * u, v, p);
  }

  lemma {:induction false} ZerosAtEnd(s: seq<int>, r: nat)
    requires IsLeaves(s) && s != [] && s[|s| - 1] != 0 && Val(s) % Ten(r) == 0
    ensures r <= EndZeros(s[|s| - 1])
  {
    hide Val, Ten;
    var last := s[|s| - 1];
    var z := EndZeros(last);
    TenValues();
    if r >= DIGITS_IN_LEAF {
      Divisible(Val(s), DIGITS_IN_LEAF, r);
      ModuloOfLast(s, DIGITS_IN_LEAF);
    } else {
      ModuloOfLast(s, r);
      if z < r { Divisible(last, z + 1, r); }
    }
  }

  /** The digits of a number whose last fractional leaf is not zero are as few as its value has. */
  lemma {:induction false} DigitsAreLeast(n: Numeral, p: nat)
    requires n.WellFormed() && FractionTrimmed(n)
    ensures n.Digits() <= p <==> HasDigits(n.Abs(), p)
  {
    hide Ten, InParts, Val, Pow, Magnitude;
    var f := n.Fraction();
    if n.Digits() <= p {
      AbsNotNegative(n);
      TruncatedKeeps(n, p);
      TruncatedFallsShort(n.Abs(), p);
    } else if HasDigits(n.Abs(), p) {
      FewerLeavesThanDigits(n);
      var r := DIGITS_IN_LEAF * f - p;
      KeptParts(n.Abs(), Ten(p));
      TruncatedMagnitude(n.leaves, f, p);
      PowIsTen(f);
      TenAdd(r, p);
      MagnitudeIs(n.leaves, f);
      WholeQuotient(Val(n.leaves), Ten(r), Ten(p), Pow(f));
      ZerosAtEnd(n.leaves, r);
    }
  }

  lemma MagnitudeIs(s: seq<int>, f: nat)
    ensures Pow(f) >= 1 && Magnitude(s, f) == Val(s) as real / Pow(f) as real
  {
    PowPositive(f);
  }

  lemma {:induction false} WholeHasNoDigits(x: real)
    ensures HasDigits(x, 0) <==> Whole(x)
  {
    InPartsIs(x, 1, x);
  }

  /** A number is exact if its value has fewer digits than its precision would allow, or none. */
  lemma {:induction false} ExactIsFew(n: Numeral, p: int)
    requires n.WellFormed() && FractionTrimmed(n)
    ensures Exact(n, p) <==> Few(n.Value(), p)
  {
    hide Ten, InParts, Whole, Val, Magnitude;
    var d := if p <= 0 then 0 else p - 1;
    FewerLeavesThanDigits(n);
    DigitsAreLeast(n, d);
    WholeHasNoDigits(n.Abs());
    WholeNegated(n.Abs());
    NegatedDigits(n.Abs(), d);
  }

  lemma WholeMultiple(x: real, k: int, y: real)
    requires Whole(x) && y == k as real * x
    ensures Whole(y)
  {
    RealProduct(k, x.Floor);
    assert y == (k * x.Floor) as real;
  }

  lemma Rearrange(k: real, x: real, d: real)
    ensures (k * x) * d == k * (x * d)
  {
  }

  lemma {:induction false} MultipleDigits(x: real, k: int, y: real, p: nat)
    requires HasDigits(x, p) && y == k as real * x
    ensures HasDigits(y, p)
  {
    hide Ten, Whole, InParts;
    var z := x * Ten(p) as real;
    InPartsIs(x, Ten(p), z);
    WholeMultiple(z, k, k as real * z);
    Rearrange(k as real, x, Ten(p) as real);
    InPartsIs(y, Ten(p), k as real * z);
  }

  lemma MultipleOfFraction(v2: int, p2: int, k: int, v: int, p: int)
    requires p >= 1 && p2 >= 1 && v2 * p == k * (v * p2)
    ensures v2 as real / p2 as real == k as real * (v as real / p as real)
  {
    RealProduct(v2, p);
    RealProduct(k, v * p2);
    RealProduct(v, p2);
    RealProduct(k, v);
    Associate(k, v, p2);
    RealFraction((k * v) as real, p as real, v2 as real, p2 as real);
    assert k as real * (v as real / p as real) == (k as real * v as real) / p as real;
  }

  lemma {:induction false} TimesMagnitude(n: Numeral, m: Numeral, k: int)
    requires Times(n, m, k)
    ensures n.Abs() == k as real * m.Abs()
  {
    hide Val, Pow;
    PowPositive(n.Fraction());
    PowPositive(m.Fraction());
    MultipleOfFraction(Val(n.leaves), Pow(n.Fraction()), k, Val(m.leaves), Pow(m.Fraction()));
  }

  lemma {:induction false} TimesValue(n: Numeral, m: Numeral, k: int)
    requires Times(n, m, k)
    ensures n.Value() == k as real * m.Value()
  {
    hide Magnitude, Val, Pow;
    TimesMagnitude(n, m, k);
    NegatedFactor(k as real, m.Abs());
  }

  lemma NegatedFactor(k: real, x: real)
    ensures k * -x == -(k * x)
  {
  }

  /** A multiple of a number has no more digits than the number. */
  lemma {:induction false} MultipleIsFew(n: Numeral, m: Numeral, k: int, p: int)
    requires Times(n, m, k) && Few(m.Value(), p)
    ensures Few(n.Value(), p)
  {
    hide InParts, Ten, Whole, Val, Magnitude;
    TimesValue(n, m, k);
    if p <= 0 { WholeMultiple(m.Value(), k, n.Value()); } else { MultipleDigits(m.Value(), k, n.Value(), p - 1); }
  }

  /** The precision of a quotient: that of the dividend if the divisor is one leaf or if both operands have fewer digits
      than their precisions allow, and otherwise the lesser one. */
  lemma {:induction false} PrecisionOfQuotient(a: Numeral, pa: int, b: Numeral, pb: int)
    requires a.WellFormed() && b.WellFormed() && FractionTrimmed(a) && FractionTrimmed(b)
    ensures OneLeaf(b.leaves) ==> QuotientPrecision(a, pa, b, pb) == pa
    ensures Few(a.Value(), pa) && Few(b.Value(), pb) ==> QuotientPrecision(a, pa, b, pb) == pa
    ensures !OneLeaf(b.leaves) && !(Few(a.Value(), pa) && Few(b.Value(), pb)) && pa <= pb ==>
      QuotientPrecision(a, pa, b, pb) == pa
    ensures !OneLeaf(b.leaves) && !(Few(a.Value(), pa) && Few(b.Value(), pb)) && pb <= pa ==>
      QuotientPrecision(a, pa, b, pb) == pb
  {
    hide Few;
    ExactIsFew(a, pa);
    ExactIsFew(b, pb);
  }

  /** The digits that a quotient is computed to, a whole number of leaves: enough for the precision of the dividend by
      one leaf, for both precisions together if both operands have few digits, and otherwise for the lesser one. */
  lemma {:induction false} DigitsOfQuotient(a: Numeral, pa: nat, b: Numeral, pb: nat)
    requires a.WellFormed() && b.WellFormed() && FractionTrimmed(a) && FractionTrimmed(b)
    ensures OneLeaf(b.leaves) ==> 0 <= 9 * QuotientPlaces(a, pa, b, pb) - pa < 9
    ensures !OneLeaf(b.leaves) && Few(a.Value(), pa) && Few(b.Value(), pb) ==>
      0 <= 9 * QuotientPlaces(a, pa, b, pb) - (pa + pb) < 9
    ensures !OneLeaf(b.leaves) && !(Few(a.Value(), pa) && Few(b.Value(), pb)) && pa <= pb ==>
      0 <= 9 * QuotientPlaces(a, pa, b, pb) - pa < 9
    ensures !OneLeaf(b.leaves) && !(Few(a.Value(), pa) && Few(b.Value(), pb)) && pb <= pa ==>
      0 <= 9 * QuotientPlaces(a, pa, b, pb) - pb < 9
  {
    hide Few;
    ExactIsFew(a, pa);
    ExactIsFew(b, pb);
  }

  lemma {:induction false} FewerDigitsAreCoarser(v: real, x: real, p: nat, q: nat)
    requires Close(v, x, q) && p <= q
    ensures Close(v, x, p)
  {
    TenAdd(p, q - p);
    MulMono(1, Ten(q - p), Ten(p));
    UnitOrder(Ten(p), Ten(q));
  }

  lemma UnitOrder(t: int, u: int)
    requires 1 <= t <= u
    ensures 0.0 < Unit(u) <= Unit(t)
  {
    var x, y := t as real, u as real;
    assert x <= y;
    FractionsOrder(x, y);
  }

  lemma FractionsOrder(x: real, y: real)
    requires 0.0 < x <= y
    ensures 0.0 < 1.0 / y <= 1.0 / x
  {
    var z := 1.0 / x;
    assert z * x == 1.0;
    RealOrder(x, y, z);
    assert (1.0 / y) * y == 1.0;
    RealOrder(1.0 / y, z, y);
  }

  lemma {:induction false} CloseToItself(x: real, p: nat)
    ensures Close(x, x, p)
  {
    UnitOrder(Ten(p), Ten(p));
  }

  lemma {:induction false} FittedIsClose(v: real, x: real, keep: bool, p: nat, q: int)
    requires v == Fitted(x, keep, q) && p <= q
    ensures Close(v, x, p)
  {
    hide Close, TowardsZero;
    CloseToItself(x, p);
    CutIsClose(x, q);
    if v == TowardsZero(x, q) { FewerDigitsAreCoarser(v, x, p, q); }
  }

  lemma {:induction false} KeptQuotient(a: Numeral, pa: int, b: Numeral, pb: int)
    requires a.WellFormed() && b.WellFormed() && FractionTrimmed(a) && FractionTrimmed(b)
    ensures Keeps(a, pa, b, pb) <==> OneLeaf(b.leaves) || (Few(a.Value(), pa) && Few(b.Value(), pb))
  {
    hide Few;
    ExactIsFew(a, pa);
    ExactIsFew(b, pb);
  }

  /** A quotient falls short of the ratio of the numbers by less than one unit of a digit: the last one that the
      precision of the dividend allows if both numbers have fewer digits than their precisions, and otherwise the last
      one that the lesser precision allows. */
  lemma {:induction false} QuotientIsClose(a: Numeral, b: Numeral, a2: Numeral, pa: nat, b2: Numeral, pb: nat,
                                           store: seq<int>, q: Numeral, exact: bool, v: real)
    requires a.WellFormed() && b.WellFormed() && Val(b.leaves) >= 1 && FractionTrimmed(a) && FractionTrimmed(b)
    requires Operands(a, b, a2, b2) && Divides(a2, pa, b2, pb, store, q, exact, v) && Clear(a2, b2, store)
    ensures b.Value() != 0.0
    ensures Close(v, a.Value() / b.Value(),
      if Few(a.Value(), pa) && Few(b.Value(), pb) then pa else if pa < pb then pa else pb)
    ensures exact && (OneLeaf(b2.leaves) || (Few(a.Value(), pa) && Few(b.Value(), pb))) ==> v == a.Value() / b.Value()
  {
    hide Close, Few, Val, Pow, Quotient, Times, TowardsZero;
    KeptQuotient(a2, pa, b2, pb);
    DivisionIsRight(a, b, a2, pa, b2, pb, store, q, exact, v);
    PrecisionOfQuotient(a2, pa, b2, pb);
    if Few(a.Value(), pa) { MultipleIsFew(a2, a, Factor(b), pa); }
    if Few(b.Value(), pb) { MultipleIsFew(b2, b, Factor(b), pb); }
    FittedIsClose(v, a.Value() / b.Value(), exact && Keeps(a2, pa, b2, pb),
      if Few(a.Value(), pa) && Few(b.Value(), pb) then pa else if pa < pb then pa else pb,
      QuotientPrecision(a2, pa, b2, pb));
  }

  /** The precision of a sum: that of the only operand that is not known to fewer digits than its precision; with none
      such that of the longer fraction, and with two that of the shorter one. */
  ghost predicate OfSum(p: int, a: Numeral, pa: int, b: Numeral, pb: int)
    requires a.WellFormed() && b.WellFormed()
  {
    && (Few(a.Value(), pa) && Few(b.Value(), pb) ==> p == if a.Fraction() < b.Fraction() then pb else pa)
    && (Few(a.Value(), pa) && !Few(b.Value(), pb) ==> p == pb)
    && (!Few(a.Value(), pa) && Few(b.Value(), pb) ==> p == pa)
    && (!Few(a.Value(), pa) && !Few(b.Value(), pb) ==> p == if a.Fraction() < b.Fraction() then pa else pb)
  }

  lemma {:induction false} PrecisionOfSum(p: int, a: Numeral, pa: int, b: Numeral, pb: int)
    requires a.WellFormed() && b.WellFormed() && FractionTrimmed(a) && FractionTrimmed(b)
    ensures p == SumPrecision(a, pa, b, pb) <==> OfSum(p, a, pa, b, pb)
  {
    hide Few;
    ExactIsFew(a, pa);
    ExactIsFew(b, pb);
  }

  /** What a number loses by being cut off behind `k` fractional leaves. */
  lemma {:induction false} ShortFallsShort(n: Numeral, k: nat)
    requires n.WellFormed()
    ensures 0.0 <= n.Abs() - Short(n, k) < Unit(Ten(9 * k)) && HasDigits(Short(n, k), 9 * k)
    ensures n.Fraction() <= k ==> Short(n, k) == n.Abs()
  {
    hide Short, HasDigits, Truncated, Unit;
    AbsNotNegative(n);
    ShortIsTruncated(n, k);
    TruncatedFallsShort(n.Abs(), 9 * k);
    if n.Fraction() <= k { AlignedValue(n, n.integral, k); }
  }

  lemma {:induction false} ShortSumFallsShort(a: Numeral, b: Numeral, k: nat)
    requires a.WellFormed() && b.WellFormed()
    ensures Size(ShortSum(a, b, k) - (a.Value() + b.Value())) < 2.0 * Unit(Ten(9 * k))
    ensures a.Fraction() <= k && b.Fraction() <= k ==> ShortSum(a, b, k) == a.Value() + b.Value()
  {
    hide Short, HasDigits, Unit;
    ShortFallsShort(a, k);
    ShortFallsShort(b, k);
  }

  lemma WholeSum(x: real, y: real)
    requires Whole(x) && Whole(y)
    ensures Whole(x + y)
  {
    assert x + y == (x.Floor + y.Floor) as real;
  }

  /** Numbers cut off at the point have a whole sum. */
  lemma {:induction false} WholeShortSum(a: Numeral, b: Numeral)
    requires a.WellFormed() && b.WellFormed()
    ensures TowardsZero(ShortSum(a, b, 0), 0) == ShortSum(a, b, 0)
  {
    hide Short, HasDigits, Whole, TowardsZero;
    var x, y := Short(a, 0), Short(b, 0);
    ShortFallsShort(a, 0);
    ShortFallsShort(b, 0);
    WholeHasNoDigits(x);
    WholeHasNoDigits(y);
    WholeNegated(x);
    WholeNegated(y);
    var v := ShortSum(a, b, 0);
    WholeSum(Signed(a.negative, x), Signed(b.negative, y));
    WholeHasNoDigits(v);
    CloseToItself(v, 0);
    CutOffBehind(v, v, 0);
  }

  lemma {:induction false} NineTimesTheDigits(p: nat)
    requires p >= 1
    ensures 2.0 * Unit(Ten(9 * p)) <= Unit(Ten(p))
  {
    TenAdd(p, 8 * p);
    TenAdd(8 * p - 1, 1);
    var t, u := Ten(p), Ten(8 * p);
    assert u >= 2;
    MulMono(2, u, t);
    UnitOrder(2 * t, Ten(9 * p));
    HalfUnit(t);
  }

  lemma HalfUnit(t: int)
    requires t >= 1
    ensures 2.0 * Unit(2 * t) == Unit(t)
  {
    var d := t as real;
    assert Unit(2 * t) * (2.0 * d) == 1.0 && Unit(t) * d == 1.0;
    RealOrder(2.0 * Unit(2 * t), Unit(t), d);
  }

  lemma {:induction false} CutSumIsClose(a: Numeral, b: Numeral, k: nat, p: nat)
    requires a.WellFormed() && b.WellFormed() && (k == p || (a.Fraction() <= k && b.Fraction() <= k))
    ensures Size(TowardsZero(ShortSum(a, b, k), p) - (a.Value() + b.Value())) < 2.0 * Unit(Ten(p))
    ensures HasDigits(TowardsZero(ShortSum(a, b, k), p), p)
  {
    hide ShortSum, TowardsZero, HasDigits, Unit, Ten;
    CutIsClose(ShortSum(a, b, k), p);
    ShortSumFallsShort(a, b, k);
    if k == p == 0 {
      WholeShortSum(a, b);
    } else if k == p {
      NineTimesTheDigits(p);
    }
  }

  /** A sum is exact if both numbers have fewer digits than their precisions; otherwise it has no more digits than
      its precision and is off by less than two units of the last one. */
  lemma {:induction false} SumIsClose(p: int, a: Numeral, pa: int, b: Numeral, pb: int)
    requires FractionTrimmed(a) && FractionTrimmed(b) && SumDefined(a, pa, b, pb) && OfSum(p, a, pa, b, pb)
    requires a.Digits() <= pa && b.Digits() <= pb
    ensures Few(a.Value(), pa) && Few(b.Value(), pb) ==> Sum(a, pa, b, pb) == a.Value() + b.Value()
    ensures !(Few(a.Value(), pa) && Few(b.Value(), pb)) ==>
      && p >= 0 && HasDigits(Sum(a, pa, b, pb), p)
      && Size(Sum(a, pa, b, pb) - (a.Value() + b.Value())) < 2.0 * Unit(Ten(p))
  {
    hide Few, OfSum, ShortSum, TowardsZero, HasDigits, Unit, Size;
    ExactIsFew(a, pa);
    ExactIsFew(b, pb);
    PrecisionOfSum(p, a, pa, b, pb);
    CutSumIsClose(a, b, SumPlaces(a, pa, b, pb), p);
  }

  lemma {:induction false} ShortIsCut(n: Numeral, k: nat)
    requires n.WellFormed()
    ensures Signed(n.negative, Short(n, k)) == TowardsZero(n.Value(), 9 * k)
  {
    hide Short, Truncated, Magnitude;
    AbsNotNegative(n);
    ShortIsTruncated(n, k);
    SignedTruncation(n.negative, n.Abs(), 9 * k);
  }

  /** A sum that is not exact: both numbers cut off behind as many leaves as the longer fraction has, but no more leaves
      than the precision of the sum has digits, then added and cut off behind these digits. */
  lemma {:induction false} SumIsCut(p: int, k: int, a: Numeral, pa: int, b: Numeral, pb: int)
    requires FractionTrimmed(a) && FractionTrimmed(b) && SumDefined(a, pa, b, pb) && OfSum(p, a, pa, b, pb)
    requires k == if a.Fraction() > p || b.Fraction() > p then p
                  else if a.Fraction() > b.Fraction() then a.Fraction() else b.Fraction()
    requires !(Few(a.Value(), pa) && Few(b.Value(), pb))
    ensures p >= 0 && k >= 0
    ensures Sum(a, pa, b, pb) == TowardsZero(TowardsZero(a.Value(), 9 * k) + TowardsZero(b.Value(), 9 * k), p)
  {
    hide Few, OfSum, Short, TowardsZero;
    ExactIsFew(a, pa);
    ExactIsFew(b, pb);
    PrecisionOfSum(p, a, pa, b, pb);
    assert k == SumPlaces(a, pa, b, pb);
    ShortIsCut(a, k);
    ShortIsCut(b, k);
  }

  /** The precision of a product: that of the only operand that is not known to fewer digits than its precision, and
      with two such that of the one with the shorter fraction; of fractions of the same length, that of the longer
      number, the second one if they are alike. */
  ghost predicate OfProduct(p: int, a: Numeral, pa: int, b: Numeral, pb: int)
    requires a.WellFormed() && b.WellFormed()
  {
    && (Few(a.Value(), pa) && !Few(b.Value(), pb) ==> p == pb)
    && (!Few(a.Value(), pa) && Few(b.Value(), pb) ==> p == pa)
    && (!Few(a.Value(), pa) && !Few(b.Value(), pb) ==>
      p == if a.Fraction() < b.Fraction() then pa else if b.Fraction() < a.Fraction() then pb
           else if |b.leaves| < |a.leaves| then pa else pb)
  }

  lemma {:induction false} PrecisionOfProduct(p: int, a: Numeral, pa: int, b: Numeral, pb: int)
    requires a.WellFormed() && b.WellFormed() && FractionTrimmed(a) && FractionTrimmed(b)
    requires !(Few(a.Value(), pa) && Few(b.Value(), pb))
    ensures p == ProductPrecision(a, pa, b, pb) <==> OfProduct(p, a, pa, b, pb)
  {
    hide Few;
    ExactIsFew(a, pa);
    ExactIsFew(b, pb);
  }

  lemma {:induction false} ProductCut(v: real, x: real, p: int, a: Numeral, pa: int, b: Numeral, pb: int)
    requires IsProduct(v, a, pa, b, pb) && p == ProductPrecision(a, pa, b, pb) && x == a.Value() * b.Value()
    ensures p >= 0
    ensures !(Exact(a, pa) && Exact(b, pb)) ==> v == TowardsZero(x, p)
  {
    assert !(Exact(a, pa) && Exact(b, pb)) ==> v == TowardsZero(a.Value() * b.Value(), p);
  }

  lemma {:induction false} ProductIfExact(v: real, a: Numeral, pa: int, b: Numeral, pb: int)
    requires IsProduct(v, a, pa, b, pb)
    ensures Exact(a, pa) && Exact(b, pb) ==> v == a.Value() * b.Value()
  {
    hide ProductPrecision, Exact;
  }

  /** A product is exact if both numbers have fewer digits than their precisions; otherwise it has no more digits than
      its precision and falls short by less than one unit of the last one. */
  lemma {:induction false} ProductIsClose(v: real, p: int, a: Numeral, pa: int, b: Numeral, pb: int)
    requires a.WellFormed() && b.WellFormed() && FractionTrimmed(a) && FractionTrimmed(b)
    requires IsProduct(v, a, pa, b, pb) && OfProduct(p, a, pa, b, pb)
    ensures Few(a.Value(), pa) && Few(b.Value(), pb) ==> v == a.Value() * b.Value()
    ensures !(Few(a.Value(), pa) && Few(b.Value(), pb)) ==>
      p >= 0 && HasDigits(v, p) && Close(v, a.Value() * b.Value(), p)
  {
    hide Few, OfProduct, TowardsZero, HasDigits, Close, IsProduct, ProductPrecision, Magnitude;
    ProductIfExact(v, a, pa, b, pb);
    ExactIsFew(a, pa);
    ExactIsFew(b, pb);
    if !(Few(a.Value(), pa) && Few(b.Value(), pb)) {
      PrecisionOfProduct(p, a, pa, b, pb);
      var x := a.Value() * b.Value();
      ProductCut(v, x, p, a, pa, b, pb);
      CutIsClose(x, p);
    }
  }

  lemma WholeFraction(m: int, d: int)
    requires d >= 1 && Whole(m as real / d as real)
    ensures m % d == 0
  {
    var z := (m as real / d as real).Floor;
    assert z as real * d as real == m as real;
    RealProduct(z, d);
    MultipleOf(z, d);
  }

  /** A ratio without digits behind `f` leaves comes out there. */
  lemma {:induction false} ComesOutWhere(a: Numeral, b: Numeral, f: nat)
    requires a.WellFormed() && b.WellFormed() && Val(b.leaves) >= 1 && b.Abs() > 0.0
    requires HasDigits(a.Abs() / b.Abs(), 9 * f)
    ensures Lower(a, b) >= 1 && ComesOut(a, b, f)
  {
    hide Ten, Whole, InParts, Val, Magnitude, Upper, Lower;
    var x, t := a.Abs() / b.Abs(), Ten(9 * f);
    RatioOfAbs(a, b, f);
    PowIsTen(f);
    var y := Upper(a, b, f) as real / Lower(a, b) as real;
    TimesDenominator(x, Upper(a, b, f), Lower(a, b), t);
    InPartsIs(x, t, y);
    WholeFraction(Upper(a, b, f), Lower(a, b));
  }

  lemma TimesDenominator(x: real, m: int, d: int, t: int)
    requires d >= 1 && t >= 1 && d * t >= 1 && x == m as real / (d * t) as real
    ensures m as real / d as real == x * t as real
  {
    RealProduct(d, t);
    RealCancel(m as real, d as real, t as real);
  }

  lemma {:induction false} MoreDigits(x: real, p: nat, q: nat)
    requires HasDigits(x, p) && p <= q
    ensures HasDigits(x, q)
  {
    hide Ten, Whole, InParts;
    var y, k := x * Ten(p) as real, Ten(q - p);
    InPartsIs(x, Ten(p), y);
    WholeMultiple(y, k, k as real * y);
    TenAdd(p, q - p);
    RealProduct(Ten(p), k);
    assert x * Ten(q) as real == k as real * y;
    InPartsIs(x, Ten(q), k as real * y);
  }

  /** A division notices where its quotient comes out, but a long one not in the last leaf. */
  lemma {:induction false} NoticedWhere(a: Numeral, pa: nat, b: Numeral, pb: nat, store: seq<int>, q: Numeral,
                                        exact: bool, v: real)
    requires Divides(a, pa, b, pb, store, q, exact, v) && FractionTrimmed(b) && Val(b.leaves) >= 1
    requires Clear(a, b, store)
    ensures b.Abs() > 0.0
    ensures OneLeaf(b.leaves) && HasDigits(a.Abs() / b.Abs(), 9 * q.Fraction()) ==> exact
    ensures !OneLeaf(b.leaves) && q.Fraction() >= 1 && HasDigits(a.Abs() / b.Abs(), 9 * (q.Fraction() - 1)) ==> exact
  {
    hide HasDigits, Val, Magnitude, Upper, Lower, ClearPlaces;
    var f := q.Fraction();
    AbsPositive(b);
    if OneLeaf(b.leaves) && HasDigits(a.Abs() / b.Abs(), 9 * f) {
      ComesOutWhere(a, b, f);
      ReadComesOut(a, b, store, f);
    }
    if !OneLeaf(b.leaves) && f >= 1 && HasDigits(a.Abs() / b.Abs(), 9 * (f - 1)) {
      ComesOutWhere(a, b, f - 1);
      ZeroBehind(a, b, q);
    }
  }

  lemma {:induction false} ZeroBehind(a: Numeral, b: Numeral, q: Numeral)
    requires Quotient(a, b, q, false) && q.Fraction() >= 1 && ComesOut(a, b, q.Fraction() - 1)
    ensures !StillGoes(a, b, q)
  {
    var f := q.Fraction();
    PowAdd(f - 1 + b.Fraction(), 1);
    assert Pow(1) == LEAF * Pow(0) == LEAF;
    var x, y := Upper(a, b, f - 1), Lower(a, b);
    assert Upper(a, b, f) == x * LEAF by {
      Associate(Val(a.leaves), Pow(f - 1 + b.Fraction()), LEAF);
    }
    Multiplied(x, y, x / y);
  }

  lemma Multiplied(x: int, y: int, z: int)
    requires y >= 1 && x % y == 0 && z == x / y
    ensures (x * LEAF) / y == z * LEAF && (x * LEAF) % y == 0 && (z * LEAF) % LEAF == 0
  {
    assert x * LEAF == (z * LEAF) * y;
    MultipleOf(z * LEAF, y);
    MultipleOf(z, LEAF);
  }

  lemma SameRatio(x: real, y: real, k: real)
    requires y > 0.0 && k > 0.0
    ensures k * y > 0.0 && (k * x) / (k * y) == x / y
  {
    RealFraction(x, y, 1.0, k);
  }

  lemma {:induction false} ScaledRatio(a: Numeral, b: Numeral, a2: Numeral, b2: Numeral)
    requires Operands(a, b, a2, b2) && Val(b.leaves) >= 1
    ensures b.Abs() > 0.0 && b2.Abs() > 0.0 && a2.Abs() / b2.Abs() == a.Abs() / b.Abs()
  {
    hide Val, Magnitude;
    TimesMagnitude(a2, a, Factor(b));
    TimesMagnitude(b2, b, Factor(b));
    AbsPositive(b);
    SameRatio(a.Abs(), b.Abs(), Factor(b) as real);
  }

  lemma {:induction false} RatioDigits(a: Numeral, b: Numeral, p: nat)
    requires a.WellFormed() && b.WellFormed() && b.Abs() > 0.0
    ensures b.Value() != 0.0 && (HasDigits(a.Value() / b.Value(), p) <==> HasDigits(a.Abs() / b.Abs(), p))
  {
    hide HasDigits, Numeral.Abs;
    SignedRatio(a.negative, b.negative, a.Abs(), b.Abs());
    NegatedDigits(a.Abs() / b.Abs(), p);
  }

  /** Whether a ratio has no more digits than are computed: those of the dividend's precision rounded up to whole leaves
      for a divisor of one leaf, and for two numbers of few digits those of both precisions together rounded up to whole
      leaves, but for the last leaf. */
  ghost predicate ComesOutSoon(ratio: real, oneLeaf: bool, few: bool, pa: nat, pb: nat) {
    if oneLeaf then HasDigits(ratio, 9 * ((pa + 8) / 9))
    else few && pa + pb > 0 && HasDigits(ratio, 9 * ((pa + pb + 8) / 9 - 1))
  }

  lemma {:induction false} NoticedByLeaf(a: Numeral, b: Numeral, a2: Numeral, pa: nat, b2: Numeral, pb: nat,
                                         store: seq<int>, q: Numeral, exact: bool, v: real, ratio: real)
    requires a.WellFormed() && b.WellFormed() && Val(b.leaves) >= 1
    requires Operands(a, b, a2, b2) && Divides(a2, pa, b2, pb, store, q, exact, v) && Clear(a2, b2, store)
    requires b.Value() != 0.0 && ratio == a.Value() / b.Value()
    requires OneLeaf(b2.leaves) && HasDigits(ratio, 9 * ((pa + 8) / 9))
    ensures exact
  {
    hide HasDigits, Few, Val, Times, QuotientPlaces, Quotient, StillGoes, Clear, Read, ComesOut, Fitted;
    DigitsOfQuotient(a2, pa, b2, pb);
    ScaledRatio(a, b, a2, b2);
    NoticedWhere(a2, pa, b2, pb, store, q, exact, v);
    RatioDigits(a, b, 9 * ((pa + 8) / 9));
    if !exact { MoreDigits(a.Abs() / b.Abs(), 9 * ((pa + 8) / 9), 9 * q.Fraction()); }
  }

  lemma {:induction false} NoticedByRounds(a: Numeral, b: Numeral, a2: Numeral, pa: nat, b2: Numeral, pb: nat,
                                           store: seq<int>, q: Numeral, exact: bool, v: real, ratio: real)
    requires a.WellFormed() && b.WellFormed() && Val(b.leaves) >= 1
    requires Operands(a, b, a2, b2) && Divides(a2, pa, b2, pb, store, q, exact, v) && Clear(a2, b2, store)
    requires b.Value() != 0.0 && ratio == a.Value() / b.Value() && Few(a.Value(), pa) && Few(b.Value(), pb)
    requires !OneLeaf(b2.leaves) && pa + pb > 0 && HasDigits(ratio, 9 * ((pa + pb + 8) / 9 - 1))
    ensures exact
  {
    hide HasDigits, Few, Val, Pow, Times, QuotientPlaces, Quotient, StillGoes, Clear, Read, ComesOut, Fitted,
      Magnitude, Numeral.Value;
    DigitsOfQuotient(a2, pa, b2, pb);
    ScaledRatio(a, b, a2, b2);
    NoticedWhere(a2, pa, b2, pb, store, q, exact, v);
    MultipleIsFew(a2, a, Factor(b), pa);
    MultipleIsFew(b2, b, Factor(b), pb);
    var d := 9 * ((pa + pb + 8) / 9 - 1);
    RatioDigits(a, b, d);
    if !exact { MoreDigits(a.Abs() / b.Abs(), d, 9 * (q.Fraction() - 1)); }
  }

  /** A quotient is the ratio if that comes out soon. */
  lemma {:induction false} QuotientComesOut(a: Numeral, b: Numeral, a2: Numeral, pa: nat, b2: Numeral, pb: nat,
                                            store: seq<int>, q: Numeral, exact: bool, v: real, ratio: real)
    requires a.WellFormed() && b.WellFormed() && Val(b.leaves) >= 1 && FractionTrimmed(a) && FractionTrimmed(b)
    requires Operands(a, b, a2, b2) && Divides(a2, pa, b2, pb, store, q, exact, v) && Clear(a2, b2, store)
    requires b.Value() != 0.0 && ratio == a.Value() / b.Value()
    ensures ComesOutSoon(ratio, OneLeaf(b2.leaves), Few(a.Value(), pa) && Few(b.Value(), pb), pa, pb) ==> v == ratio
  {
    hide Close, HasDigits, Few, Val, TowardsZero, Divides, Operands, QuotientPlaces;
    QuotientIsClose(a, b, a2, pa, b2, pb, store, q, exact, v);
    if ComesOutSoon(ratio, OneLeaf(b2.leaves), Few(a.Value(), pa) && Few(b.Value(), pb), pa, pb) {
      if OneLeaf(b2.leaves) {
        NoticedByLeaf(a, b, a2, pa, b2, pb, store, q, exact, v, ratio);
      } else {
        NoticedByRounds(a, b, a2, pa, b2, pb, store, q, exact, v, ratio);
      }
    }
  }

  /** The precision of a number after a value was fitted to it: raised above the digits of a value that is kept, and
      lowered to the digits that are left of one that loses digits. */
  ghost predicate PrecisionAfter(now: int, was: nat, keep: bool, v: real, n: Numeral)
    requires n.WellFormed()
  {
    now == if keep then (if n.Digits() < was then was else n.Digits() + 1)
           else if HasDigits(v, was) then was else n.Digits()
  }

  /** Whether digits are lost is told by the number without zero leaves behind. */
  lemma {:induction false} FittedPrecision(n: Numeral, m: Numeral, now: int, was: nat)
    requires n.WellFormed() && m.WellFormed() && FractionTrimmed(n)
    requires now == if n.Digits() > was then m.Digits() else was
    ensures PrecisionAfter(now, was, false, n.Value(), m)
  {
    hide HasDigits, Numeral.Digits, Numeral.Abs;
    DigitsAreLeast(n, was);
    NegatedDigits(n.Abs(), was);
  }

  /** The precision that a quotient leaves. */
  ghost predicate QuotientLeft(a: Numeral, pa: int, b: Numeral, pb: int, q: Numeral, exact: bool, now: int, n: Numeral)
  {
    && a.WellFormed() && b.WellFormed() && q.WellFormed() && n.WellFormed() && QuotientPrecision(a, pa, b, pb) >= 0
    && PrecisionAfter(now, QuotientPrecision(a, pa, b, pb), exact && Keeps(a, pa, b, pb), q.Value(), n)
  }

  /** The precision that a difference leaves, which is computed as a sum with the first operand negated. */
  ghost predicate DifferenceLeft(a: Numeral, pa: int, b: Numeral, pb: int, now: int, n: Numeral)
    requires a.Canonical()
  {
    && n.WellFormed() && SumDefined(Negated(a), pa, b, pb)
    && PrecisionAfter(now, SumPrecision(Negated(a), pa, b, pb), Exact(a, pa) && Exact(b, pb),
         ShortSum(Negated(a), b, SumPlaces(Negated(a), pa, b, pb)), n)
  }

  ghost function Product(x: real, y: real): real {
    x * y
  }

  /** The precision that a product leaves. */
  ghost predicate ProductLeaves(a: Numeral, pa: int, b: Numeral, pb: int, now: int, n: Numeral) {
    && a.WellFormed() && b.WellFormed() && n.WellFormed() && ProductPrecision(a, pa, b, pb) >= 0
    && PrecisionAfter(now, ProductPrecision(a, pa, b, pb), Exact(a, pa) && Exact(b, pb),
         Product(a.Value(), b.Value()), n)
  }

  lemma {:induction false} ProductLeft(c: Numeral, v: real, a: Numeral, pa: int, b: Numeral, pb: int, now: int,
                                       n: Numeral)
    requires (Multiplies(c, a, b) || Multiplies(c, b, a)) && v == c.Value() && n.WellFormed()
    requires ProductPrecision(a, pa, b, pb) >= 0
      && PrecisionAfter(now, ProductPrecision(a, pa, b, pb), Exact(a, pa) && Exact(b, pb), v, n)
    ensures ProductLeaves(a, pa, b, pb, now, n)
  {
    hide PrecisionAfter, ProductPrecision, Exact;
    ProductIs(c, v, a, b);
  }

  lemma {:induction false} ProductIs(c: Numeral, v: real, a: Numeral, b: Numeral)
    requires (Multiplies(c, a, b) || Multiplies(c, b, a)) && v == c.Value()
    ensures a.WellFormed() && b.WellFormed() && v == Product(a.Value(), b.Value())
  {
    if Multiplies(c, a, b) {
      ProductValue(c, a, b);
    } else {
      ProductValue(c, b, a);
    }
  }

  /** What is left of a number that lost digits counts as exact if it is whole, whatever it lost. */
  lemma {:induction false} WholeCountsAsExact(now: int, was: nat, v: real, n: Numeral)
    requires n.WellFormed() && FractionTrimmed(n) && PrecisionAfter(now, was, false, v, n) && !HasDigits(v, was)
    ensures Exact(n, now) <==> Whole(n.Value())
    ensures Exact(n, now) ==> now == 0
  {
    hide HasDigits, Whole, EndZeros;
    FewerLeavesThanDigits(n);
    ExactIsFew(n, 0);
  }

  lemma {:induction false} ZeroIsClose(n: Numeral, y: real, p: nat)
    requires n.WellFormed() && n.leaves == [] && y != 0.0
    ensures Close(n.Value(), n.Value() / y, p)
  {
    NoLeavesIsZero(n);
    assert n.Value() / y == 0.0;
    CloseToItself(0.0, p);
  }
}
