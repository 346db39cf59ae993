/** Signed leaves with a point: what a number object stands for. */
module Numerals {
  import opened Leaves
  import opened Decimal
  import opened Division

  datatype Numeral = Numeral(leaves: seq<int>, integral: nat, negative: bool) {
    /** The number of fractional leaves. */
    ghost function Fraction(): int {
      |leaves| - integral
    }

    ghost predicate WellFormed() {
      integral <= |leaves| && IsLeaves(leaves)
    }

    /** No leading integral zero leaf, no trailing fractional zero leaf, no negative zero. */
    ghost predicate Canonical() {
      && WellFormed()
      && (integral > 0 ==> leaves[0] != 0)
      && (Fraction() > 0 ==> leaves[|leaves| - 1] != 0)
      && (leaves == [] ==> !negative)
    }

    ghost function Abs(): real
      requires WellFormed()
    {
      Magnitude(leaves, Fraction())
    }

    ghost function Value(): real
      requires WellFormed()
    {
      if negative then -Abs() else Abs()
    }

    /** The number of decimal digits behind the point. */
    ghost function Digits(): int
      requires WellFormed()
    {
      if Fraction() > 0 then DIGITS_IN_LEAF * Fraction() - EndZeros(leaves[|leaves| - 1]) else 0
    }
  }

  lemma {:induction false} MagnitudePad(s: seq<int>, f: nat, k: nat)
    ensures Magnitude(s + Zeros(k), f + k) == Magnitude(s, f)
  {
    ValConcat(s, Zeros(k));
    ValZeros(k);
    PowAdd(f, k);
    PowPositive(f);
    PowPositive(k);
    Expand(Val(s), Pow(f), Pow(k));
  }

  lemma {:induction false} MagnitudeOrder(a: seq<int>, b: seq<int>, f: nat)
    ensures Magnitude(a, f) < Magnitude(b, f) <==> Val(a) < Val(b)
    ensures Magnitude(a, f) == Magnitude(b, f) <==> Val(a) == Val(b)
  {
    var p := Pow(f) as real;
    PowPositive(f);
    RealFraction(Val(a) as real, p, Val(b) as real, p);
  }

  /** Leaves with `f` fractional ones are less than the power of LEAF above the integral ones. */
  lemma {:induction false} MagnitudeBelow(s: seq<int>, f: nat, n: nat)
    requires IsLeaves(s) && f <= |s| <= n + f
    ensures 0.0 <= Magnitude(s, f) < Pow(n) as real
  {
    ValBound(s);
    PowMono(|s|, n + f);
    PowAdd(n, f);
    PowPositive(f);
    FractionOrder(Val(s), Pow(f), Pow(n));
  }

  lemma {:induction false} MagnitudeAbove(s: seq<int>, f: nat)
    requires IsLeaves(s) && f < |s| && s[0] != 0
    ensures Magnitude(s, f) >= Pow(|s| - f - 1) as real
  {
    ValLeading(s);
    PowAdd(|s| - f - 1, f);
    PowPositive(f);
    FractionOrder(Val(s), Pow(f), Pow(|s| - f - 1));
  }

  /** More integral leaves make the greater magnitude. */
  lemma {:induction false} LongerIsGreater(a: Numeral, b: Numeral)
    requires a.Canonical() && b.Canonical() && a.integral < b.integral
    ensures a.Abs() < b.Abs()
  {
    MagnitudeBelow(a.leaves, a.Fraction(), b.integral - 1);
    MagnitudeAbove(b.leaves, b.Fraction());
  }

  lemma {:induction false} PrefixDecides(a: seq<int>, b: seq<int>, i: nat)
    requires IsLeaves(a) && IsLeaves(b) && |a| == |b| && i <= |a| && Val(a[..i]) < Val(b[..i])
    ensures Val(a) < Val(b)
  {
    var p := Pow(|a| - i);
    ValSplit(a, i);
    ValSplit(b, i);
    ValBound(a[i..]);
    ValBound(b[i..]);
    MulMono(Val(a[..i]) + 1, Val(b[..i]), p);
    Distribute(Val(a[..i]), 1, p);
  }

  /** With as many integral leaves, the leaves that both have decide if they differ. */
  lemma {:induction false} CommonDecides(a: Numeral, b: Numeral, i: nat)
    requires a.WellFormed() && b.WellFormed() && a.integral == b.integral && i <= |a.leaves| && i <= |b.leaves|
    requires Val(a.leaves[..i]) < Val(b.leaves[..i])
    ensures a.Abs() < b.Abs()
  {
    hide Val, Pow, Magnitude;
    var ka := if |a.leaves| < |b.leaves| then |b.leaves| - |a.leaves| else 0;
    var kb := if |b.leaves| < |a.leaves| then |a.leaves| - |b.leaves| else 0;
    var pa, pb := a.leaves + Zeros(ka), b.leaves + Zeros(kb);
    assert pa[..i] == a.leaves[..i] && pb[..i] == b.leaves[..i];
    PrefixDecides(pa, pb, i);
    MagnitudePad(a.leaves, a.Fraction(), ka);
    MagnitudePad(b.leaves, b.Fraction(), kb);
    MagnitudeOrder(pa, pb, a.Fraction() + ka);
  }

  /** A canonical continuation of the fraction makes the greater magnitude. */
  lemma {:induction false} ContinuedIsGreater(a: Numeral, b: Numeral)
    requires a.Canonical() && b.Canonical() && a.integral == b.integral && |a.leaves| < |b.leaves|
    requires a.leaves == b.leaves[..|a.leaves|]
    ensures a.Abs() < b.Abs()
  {
    var n := |b.leaves| - |a.leaves|;
    var pa, t := a.leaves + Zeros(n), b.leaves[|a.leaves|..];
    MagnitudePad(a.leaves, a.Fraction(), n);
    ValSplit(b.leaves, |a.leaves|);
    ValConcat(a.leaves, Zeros(n));
    ValZeros(n);
    LastPositive(t);
    MagnitudeOrder(pa, b.leaves, b.Fraction());
  }

  lemma {:induction false} LastPositive(s: seq<int>)
    requires IsLeaves(s) && s != [] && s[|s| - 1] != 0
    ensures Val(s) > 0
  {
    ValBound(s[..|s| - 1]);
  }

  lemma {:induction false} ModuloOfLast(t: seq<int>, r: nat)
    requires IsLeaves(t) && t != [] && r <= DIGITS_IN_LEAF
    ensures Val(t) % Ten(r) == t[|t| - 1] % Ten(r)
  {
    var u, last := Ten(r), t[|t| - 1];
    TenValues();
    TenAdd(DIGITS_IN_LEAF - r, r);
    var h := Val(t[..|t| - 1]) * Ten(DIGITS_IN_LEAF - r);
    assert Val(t) == h * u + last;
    DivideUnique(Val(t), u, h + last / u, last % u);
  }

  /** The leaves `t` with the last `r` digits replaced by zeros. */
  ghost function Cleared(t: seq<int>, r: nat): (c: seq<int>)
    requires r > 0 ==> t != []
    ensures |c| == |t|
  {
    if r == 0 then t else t[|t| - 1 := t[|t| - 1] - t[|t| - 1] % Ten(r)]
  }

  lemma QuotientTimes(m: int, d: int)
    requires d >= 1
    ensures (m / d) * d == m - m % d
  {
  }

  lemma ModuloBound(m: int, d: int)
    requires 0 <= m && d >= 1
    ensures 0 <= m % d <= m
  {
  }

  lemma {:induction false} LastLowered(t: seq<int>, x: int)
    requires t != []
    ensures Val(t[|t| - 1 := t[|t| - 1] - x]) == Val(t) - x
  {
    assert t[|t| - 1 := t[|t| - 1] - x][..|t| - 1] == t[..|t| - 1];
  }

  lemma {:induction false} ClearedValue(t: seq<int>, r: nat)
    requires IsLeaves(t) && r <= DIGITS_IN_LEAF && (r > 0 ==> t != [])
    ensures IsLeaves(Cleared(t, r)) && Val(Cleared(t, r)) == (Val(t) / Ten(r)) * Ten(r)
  {
    if r > 0 {
      ModuloOfLast(t, r);
      ModuloBound(t[|t| - 1], Ten(r));
      LastLowered(t, Val(t) % Ten(r));
    }
    QuotientTimes(Val(t), Ten(r));
  }

  /** Cropping: dropping leaves behind the `kept` fractional ones and clearing the digits behind
      the `p`-th one truncates the magnitude. */
  lemma {:induction false} CropValue(s: seq<int>, f: nat, kept: nat, p: nat)
    requires IsLeaves(s) && kept <= f <= |s| && p <= DIGITS_IN_LEAF * kept < p + DIGITS_IN_LEAF
    ensures IsLeaves(Cleared(s[..|s| - (f - kept)], DIGITS_IN_LEAF * kept - p))
    ensures Magnitude(Cleared(s[..|s| - (f - kept)], DIGITS_IN_LEAF * kept - p), kept) == Truncated(Magnitude(s, f), p)
  {
    hide Val, Pow;
    var t, r, drop := s[..|s| - (f - kept)], DIGITS_IN_LEAF * kept - p, f - kept;
    var u := Ten(r);
    ClearedValue(t, r);
    TruncatedMagnitude(s, f, p);
    assert Val(s) / Ten(DIGITS_IN_LEAF * f - p) == Val(t) / u by {
      ValSplit(s, |t|);
      ValBound(s[|t|..]);
      PowPositive(drop);
      DivideUnique(Val(s), Pow(drop), Val(t), Val(s[|t|..]));
      PowIsTen(drop);
      TenAdd(DIGITS_IN_LEAF * drop, r);
      DivideTwice(Val(s), Pow(drop), u);
    }
    PowIsTen(kept);
    TenAdd(p, r);
    Expand(Val(t) / u, Ten(p), u);
  }

  lemma {:induction false} WithoutLeading(n: Numeral, k: nat)
    requires n.WellFormed() && k <= n.integral && forall i :: 0 <= i < k ==> n.leaves[i] == 0
    ensures Numeral(n.leaves[k..], n.integral - k, n.negative).WellFormed()
    ensures Numeral(n.leaves[k..], n.integral - k, n.negative).Abs() == n.Abs()
  {
    ValLeadingZeros(n.leaves, k);
  }

  lemma {:induction false} WithoutTrailing(n: Numeral, k: nat)
    requires n.WellFormed() && k <= n.Fraction() && forall i :: |n.leaves| - k <= i < |n.leaves| ==> n.leaves[i] == 0
    ensures Numeral(n.leaves[..|n.leaves| - k], n.integral, n.negative).WellFormed()
    ensures Numeral(n.leaves[..|n.leaves| - k], n.integral, n.negative).Abs() == n.Abs()
  {
    var t := n.leaves[..|n.leaves| - k];
    assert n.leaves == t + Zeros(k);
    MagnitudePad(t, n.Fraction() - k, k);
  }

  /** The zero digits at the end of the last leaf are zero digits at the end of the value. */
  lemma {:induction false} DigitsDivide(n: Numeral, r: nat)
    requires n.WellFormed() && n.Fraction() > 0 && r <= EndZeros(n.leaves[|n.leaves| - 1])
    ensures Val(n.leaves) % Ten(r) == 0
  {
    var last := n.leaves[|n.leaves| - 1];
    Divisible(last, r, EndZeros(last));
    ModuloOfLast(n.leaves, r);
  }

  /** Truncating keeps a number that has no more digits. */
  lemma {:induction false} TruncatedKeeps(n: Numeral, p: nat)
    requires n.WellFormed() && n.Digits() <= p
    ensures Truncated(n.Abs(), p) == n.Abs()
  {
    var v, f := Val(n.leaves), n.Fraction();
    PowIsTen(f);
    if p <= DIGITS_IN_LEAF * f {
      var u := Ten(DIGITS_IN_LEAF * f - p);
      if f > 0 { DigitsDivide(n, DIGITS_IN_LEAF * f - p); }
      assert v % u == 0 by {
        if f == 0 { assert u == 1; }
      }
      TruncatedMagnitude(n.leaves, f, p);
      TenAdd(p, DIGITS_IN_LEAF * f - p);
      QuotientTimes(v, u);
      Expand(v / u, Ten(p), u);
    } else {
      TenAdd(p - DIGITS_IN_LEAF * f, DIGITS_IN_LEAF * f);
      IntegralKept(v, Pow(f), Ten(p - DIGITS_IN_LEAF * f), Ten(p));
    }
  }

  /** Truncating by a multiple of the denominator changes nothing. */
  lemma IntegralKept(v: int, d: int, k: int, t: int)
    requires d >= 1 && k >= 1 && t >= 1 && t == k * d
    ensures TruncatedBy(v as real / d as real, t) == v as real / d as real
  {
    var x := v as real / d as real;
    RealProduct(k, d);
    RealProduct(v, k);
    assert x * t as real == (v * k) as real by {
      RealTimes(v as real, d as real, k as real);
    }
    TruncatedTo(x, t, v * k);
    Expand(v, d, k);
  }

  lemma RealTimes(v: real, d: real, k: real)
    requires d > 0.0
    ensures (v / d) * (k * d) == v * k
  {
    assert (v / d) * d == v;
    assert (v / d) * (k * d) == ((v / d) * d) * k;
  }

  /** A number cut off behind `p` digits. */
  ghost function CutOff(n: Numeral, kept: nat, r: nat): (c: Numeral)
    requires n.WellFormed() && kept <= n.Fraction() && (r > 0 ==> kept > 0)
  {
    Numeral(Cleared(n.leaves[..n.integral + kept], r), n.integral, n.negative)
  }

  lemma {:induction false} CutOffValue(n: Numeral, kept: nat, r: nat, p: nat)
    requires n.WellFormed() && kept <= n.Fraction() && r < DIGITS_IN_LEAF && p + r == DIGITS_IN_LEAF * kept
    ensures CutOff(n, kept, r).WellFormed() && CutOff(n, kept, r).Abs() == Truncated(n.Abs(), p)
  {
    CropValue(n.leaves, n.Fraction(), kept, p);
  }

  /** Comparing the common leaves, then the numbers of leaves, compares the magnitudes. */
  lemma {:induction false} LeavesDecide(a: Numeral, b: Numeral, i: nat, cmp: int)
    requires a.Canonical() && b.Canonical() && a.integral == b.integral
    requires i == if |a.leaves| < |b.leaves| then |a.leaves| else |b.leaves|
    requires a.leaves[..i] == b.leaves[..i] ==> cmp == |a.leaves| - |b.leaves|
    requires a.leaves[..i] != b.leaves[..i] ==>
      if cmp < 0 then Val(a.leaves[..i]) < Val(b.leaves[..i]) else cmp > 0 && Val(a.leaves[..i]) > Val(b.leaves[..i])
    ensures cmp < 0 <==> a.Abs() < b.Abs()
    ensures cmp == 0 <==> a.Abs() == b.Abs()
  {
    if a.leaves[..i] != b.leaves[..i] {
      if cmp < 0 {
        CommonDecides(a, b, i);
      } else {
        CommonDecides(b, a, i);
      }
    } else if cmp < 0 {
      ContinuedIsGreater(a, b);
    } else if cmp > 0 {
      ContinuedIsGreater(b, a);
    } else {
      assert a.leaves == a.leaves[..i] && b.leaves == b.leaves[..i];
    }
  }

  /** Canonical numbers of the same magnitude have the same leaves. */
  lemma {:induction false} SameMagnitude(a: Numeral, b: Numeral)
    requires a.Canonical() && b.Canonical() && a.Abs() == b.Abs()
    ensures a.leaves == b.leaves && a.integral == b.integral
  {
    if a.integral < b.integral { LongerIsGreater(a, b); }
    if b.integral < a.integral { LongerIsGreater(b, a); }
    var i := if |a.leaves| < |b.leaves| then |a.leaves| else |b.leaves|;
    if Val(a.leaves[..i]) < Val(b.leaves[..i]) { CommonDecides(a, b, i); }
    if Val(b.leaves[..i]) < Val(a.leaves[..i]) { CommonDecides(b, a, i); }
    SameLeaves(a.leaves[..i], b.leaves[..i]);
    if |a.leaves| < |b.leaves| { ContinuedIsGreater(a, b); }
    if |b.leaves| < |a.leaves| { ContinuedIsGreater(b, a); }
  }

  lemma {:induction false} SameLeaves(a: seq<int>, b: seq<int>)
    requires IsLeaves(a) && IsLeaves(b) && |a| == |b| && Val(a) == Val(b)
    ensures a == b
  {
    if a != [] {
      var n := |a| - 1;
      DivideUnique(Val(a), LEAF, Val(a[..n]), a[n]);
      DivideUnique(Val(b), LEAF, Val(b[..n]), b[n]);
      SameLeaves(a[..n], b[..n]);
      assert a == a[..n] + [a[n]] && b == b[..n] + [b[n]];
    }
  }

  /** A canonical number is zero exactly when it has no leaves. */
  lemma {:induction false} ZeroHasNoLeaves(n: Numeral)
    requires n.Canonical()
    ensures n.Abs() >= 0.0 && (n.Abs() == 0.0 <==> n.leaves == [])
  {
    MagnitudeBelow(n.leaves, n.Fraction(), n.integral);
    if n.Abs() == 0.0 {
      SameMagnitude(n, Numeral([], 0, false));
    }
  }

  /** A value determines the canonical number. */
  lemma {:induction false} SameValue(a: Numeral, b: Numeral)
    requires a.Canonical() && b.Canonical()
    ensures a == b <==> a.Value() == b.Value()
  {
    ZeroHasNoLeaves(a);
    ZeroHasNoLeaves(b);
    if a.Value() == b.Value() {
      SameMagnitude(a, b);
    }
  }

  /** The leaves of a number with `ips` integral and `dps` fractional places; a longer fraction is cut off. */
  ghost function Aligned(n: Numeral, ips: nat, dps: nat): (s: seq<int>)
    requires n.WellFormed() && n.integral <= ips
    ensures |s| == ips + dps && IsLeaves(s)
  {
    if n.Fraction() <= dps then Zeros(ips - n.integral) + n.leaves + Zeros(dps - n.Fraction())
    else Zeros(ips - n.integral) + n.leaves[..n.integral + dps]
  }

  /** The magnitude of a number cut off behind `k` fractional leaves. */
  ghost function Short(n: Numeral, k: nat): real
    requires n.WellFormed()
  {
    PowPositive(k);
    TruncatedBy(n.Abs(), Pow(k))
  }

  lemma {:induction false} ShortIsTruncated(n: Numeral, k: nat)
    requires n.WellFormed()
    ensures Short(n, k) == Truncated(n.Abs(), DIGITS_IN_LEAF * k)
  {
    PowIsTen(k);
  }

  lemma {:induction false} AlignedValue(n: Numeral, ips: nat, dps: nat)
    requires n.WellFormed() && n.integral <= ips
    ensures Magnitude(Aligned(n, ips, dps), dps) == Short(n, dps)
    ensures n.Fraction() <= dps ==> Short(n, dps) == n.Abs()
  {
    hide Val, Pow, Short, Truncated;
    var z := ips - n.integral;
    ShortIsTruncated(n, dps);
    if n.Fraction() <= dps {
      var s := n.leaves + Zeros(dps - n.Fraction());
      assert Aligned(n, ips, dps) == Zeros(z) + s;
      ValBehindZeros(z, s);
      MagnitudePad(n.leaves, n.Fraction(), dps - n.Fraction());
      TruncatedKeeps(n, DIGITS_IN_LEAF * dps);
    } else {
      var s := n.leaves[..n.integral + dps];
      ValBehindZeros(z, s);
      CropValue(n.leaves, n.Fraction(), dps, DIGITS_IN_LEAF * dps);
    }
  }

  lemma {:induction false} AlignedOrder(a: Numeral, b: Numeral, ips: nat, dps: nat)
    requires a.WellFormed() && b.WellFormed() && a.integral <= ips && b.integral <= ips && a.Abs() <= b.Abs()
    ensures Val(Aligned(a, ips, dps)) <= Val(Aligned(b, ips, dps))
  {
    AlignedFloor(a, ips, dps);
    AlignedFloor(b, ips, dps);
    PowPositive(dps);
    PartsMonotone(a.Abs(), b.Abs(), Pow(dps));
  }

  lemma {:induction false} AlignedFloor(n: Numeral, ips: nat, dps: nat)
    requires n.WellFormed() && n.integral <= ips
    ensures Val(Aligned(n, ips, dps)) == Parts(n.Abs(), Pow(dps))
  {
    AlignedValue(n, ips, dps);
    PowPositive(dps);
    SameNumerator(Val(Aligned(n, ips, dps)), Parts(n.Abs(), Pow(dps)), Pow(dps));
  }

  lemma SameNumerator(a: int, b: int, d: int)
    requires d >= 1 && a as real / d as real == b as real / d as real
    ensures a == b
  {
    RealFraction(a as real, d as real, b as real, d as real);
  }

  lemma SumOfFractions(a: int, b: int, d: int)
    requires d >= 1
    ensures a as real / d as real + b as real / d as real == (a + b) as real / d as real
    ensures a as real / d as real - b as real / d as real == (a - b) as real / d as real
  {
  }

  /** A sum or difference of aligned leaves as a sum or difference of magnitudes. */
  lemma {:induction false} AlignedSum(a: Numeral, b: Numeral, ips: nat, dps: nat, s: seq<int>, sub: bool)
    requires a.WellFormed() && b.WellFormed() && a.integral <= ips && b.integral <= ips
    requires Val(s) == if sub then Val(Aligned(a, ips, dps)) - Val(Aligned(b, ips, dps))
                       else Val(Aligned(a, ips, dps)) + Val(Aligned(b, ips, dps))
    ensures Magnitude(s, dps) == if sub then Short(a, dps) - Short(b, dps) else Short(a, dps) + Short(b, dps)
  {
    AlignedValue(a, ips, dps);
    AlignedValue(b, ips, dps);
    PowPositive(dps);
    SumOfFractions(Val(Aligned(a, ips, dps)), Val(Aligned(b, ips, dps)), Pow(dps));
  }

  /** Whether a number has fewer digits behind the point than the precision `p` would allow. */
  ghost predicate Exact(n: Numeral, p: int)
    requires n.WellFormed()
  {
    n.Fraction() == 0 || n.Digits() < p
  }

  /** The precision of a sum: that of the longer fraction, or of a number that is not exact. */
  ghost function SumPrecision(a: Numeral, pa: int, b: Numeral, pb: int): int
    requires a.WellFormed() && b.WellFormed()
  {
    if a.Fraction() < b.Fraction() then (if Exact(a, pa) then pb else pa)
    else if Exact(b, pb) then pa else pb
  }

  /** The number of fractional leaves a sum is computed with. */
  ghost function SumPlaces(a: Numeral, pa: int, b: Numeral, pb: int): int
    requires a.WellFormed() && b.WellFormed()
  {
    var f, p := if a.Fraction() > b.Fraction() then a.Fraction() else b.Fraction(), SumPrecision(a, pa, b, pb);
    if f <= p then f else p
  }

  ghost function Signed(negative: bool, x: real): real {
    if negative then -x else x
  }

  /** The sum of numbers cut off behind `k` fractional leaves. */
  ghost function ShortSum(a: Numeral, b: Numeral, k: nat): real
    requires a.WellFormed() && b.WellFormed()
  {
    Signed(a.negative, Short(a, k)) + Signed(b.negative, Short(b, k))
  }

  /** The sign that a sum gets from its operands and from which of their magnitudes is the lesser one. */
  lemma {:induction false} SignedSum(a: Numeral, b: Numeral, k: nat, n: Numeral, sub: bool, swp: bool)
    requires a.WellFormed() && b.WellFormed() && n.WellFormed() && n.Fraction() == k
      && sub == (a.negative != b.negative)
    requires n.negative == if sub then (if a.negative then !swp else swp) else a.negative && b.negative
    requires n.Abs() == if !sub then Short(a, k) + Short(b, k)
                        else if swp then Short(b, k) - Short(a, k) else Short(a, k) - Short(b, k)
    ensures n.Value() == ShortSum(a, b, k)
  {
  }

  /** Cuts off the digits behind the `p`-th one, towards zero. */
  ghost function TowardsZero(x: real, p: nat): real {
    if x < 0.0 then -Truncated(-x, p) else Truncated(x, p)
  }

  /** A number has at least as many digits behind the point as fractional leaves. */
  lemma FewerLeavesThanDigits(n: Numeral)
    requires n.WellFormed()
    ensures n.Fraction() <= n.Digits() <= DIGITS_IN_LEAF * n.Fraction()
  {
  }

  /** Exact numbers are added without loss. */
  lemma {:induction false} ExactSum(a: Numeral, pa: int, b: Numeral, pb: int)
    requires a.WellFormed() && b.WellFormed() && Exact(a, pa) && Exact(b, pb) && 0 <= pa && 0 <= pb
    ensures SumPlaces(a, pa, b, pb) >= 0 && ShortSum(a, b, SumPlaces(a, pa, b, pb)) == a.Value() + b.Value()
  {
    FewerLeavesThanDigits(a);
    FewerLeavesThanDigits(b);
    var k := SumPlaces(a, pa, b, pb);
    var ips := if a.integral > b.integral then a.integral else b.integral;
    AlignedValue(a, ips, k);
    AlignedValue(b, ips, k);
  }

  lemma TruncatedZero(p: nat)
    ensures Truncated(0.0, p) == 0.0
  {
    assert 0.0 * Ten(p) as real == 0.0;
    TruncatedTo(0.0, Ten(p), 0);
  }

  /** Truncating the magnitude is cutting the value off towards zero. */
  lemma SignedTruncation(negative: bool, x: real, p: nat)
    requires x >= 0.0
    ensures Signed(negative, Truncated(x, p)) == TowardsZero(Signed(negative, x), p)
  {
    TruncatedZero(p);
    if x > 0.0 && negative {
      assert -(-x) == x;
    }
  }

  lemma {:induction false} NoLeavesIsZero(n: Numeral)
    requires n.WellFormed() && n.leaves == []
    ensures n.Abs() == 0.0
  {
  }

  lemma {:induction false} AbsNotNegative(n: Numeral)
    requires n.WellFormed()
    ensures n.Abs() >= 0.0
  {
    MagnitudeBelow(n.leaves, n.Fraction(), n.integral);
  }

  lemma {:induction false} ExactPrecondition(a: Numeral, pa: int, b: Numeral, pb: int)
    requires a.WellFormed() && b.WellFormed() && a.Digits() <= pa && b.Digits() <= pb
    ensures SumPlaces(a, pa, b, pb) >= 0 && SumPrecision(a, pa, b, pb) >= 0
    ensures Exact(a, pa) && Exact(b, pb) ==> ShortSum(a, b, SumPlaces(a, pa, b, pb)) == a.Value() + b.Value()
  {
    FewerLeavesThanDigits(a);
    FewerLeavesThanDigits(b);
    if Exact(a, pa) && Exact(b, pb) {
      ExactSum(a, pa, b, pb);
    }
  }

  /** The number with the other sign; zero has no sign. */
  ghost function Negated(n: Numeral): (m: Numeral)
    requires n.Canonical()
    ensures m.Canonical() && m.Digits() == n.Digits() && m.Fraction() == n.Fraction()
    ensures m.Value() == -n.Value()
  {
    if n.leaves == [] then
      NoLeavesIsZero(n);
      n
    else
      Numeral(n.leaves, n.integral, !n.negative)
  }

  ghost predicate SumDefined(a: Numeral, pa: int, b: Numeral, pb: int) {
    a.WellFormed() && b.WellFormed() && SumPlaces(a, pa, b, pb) >= 0 && SumPrecision(a, pa, b, pb) >= 0
  }

  /** The value of a sum: exact for exact numbers, otherwise cut off to the places and the precision. */
  ghost function Sum(a: Numeral, pa: int, b: Numeral, pb: int): real
    requires SumDefined(a, pa, b, pb)
  {
    if Exact(a, pa) && Exact(b, pb) then a.Value() + b.Value()
    else TowardsZero(ShortSum(a, b, SumPlaces(a, pa, b, pb)), SumPrecision(a, pa, b, pb))
  }

  lemma TwiceKept(x: real, t: int)
    requires t >= 1 && TruncatedBy(x, t) == x
    ensures TruncatedBy(2.0 * x, t) == 2.0 * x
  {
    var v := Parts(x, t);
    assert x * t as real == v as real;
    assert (2.0 * x) * t as real == (2 * v) as real;
    TruncatedTo(2.0 * x, t, 2 * v);
  }

  /** The sum of a number and itself is twice the number, exact or not. */
  lemma {:induction false} Doubled(n: Numeral, p: nat)
    requires n.WellFormed() && n.Digits() <= p
    ensures SumDefined(n, p, n, p) && Sum(n, p, n, p) == 2.0 * n.Value()
  {
    var f := n.Fraction();
    FewerLeavesThanDigits(n);
    AlignedValue(n, n.integral, f);
    AbsNotNegative(n);
    TruncatedKeeps(n, p);
    TwiceKept(n.Abs(), Ten(p));
    SignedTruncation(n.negative, 2.0 * n.Abs(), p);
  }

  lemma SumPlacesBound(a: Numeral, pa: int, b: Numeral, pb: int)
    requires a.WellFormed() && b.WellFormed()
    ensures SumPlaces(a, pa, b, pb) <= if a.Fraction() > b.Fraction() then a.Fraction() else b.Fraction()
  {
  }

  /** The leaves of `n` are the product of the leaves of `a` and `b`, with the points and signs to match. */
  ghost predicate Multiplies(n: Numeral, a: Numeral, b: Numeral) {
    && n.WellFormed() && a.WellFormed() && b.WellFormed() && |n.leaves| == |a.leaves| + |b.leaves|
    && Val(n.leaves) == Val(a.leaves) * Val(b.leaves)
    && n.integral == a.integral + b.integral && n.negative == (a.negative != b.negative)
  }

  /** The precision of a product, judged from the number with fewer leaves first. */
  ghost function ProductPrecision(a: Numeral, pa: int, b: Numeral, pb: int): int
    requires a.WellFormed() && b.WellFormed()
  {
    if |b.leaves| < |a.leaves| then SumPrecision(b, pb, a, pa) else SumPrecision(a, pa, b, pb)
  }

  /** The value of a product: exact for exact numbers, otherwise cut off to the precision. */
  ghost predicate IsProduct(v: real, a: Numeral, pa: int, b: Numeral, pb: int) {
    && a.WellFormed() && b.WellFormed() && ProductPrecision(a, pa, b, pb) >= 0
    && (Exact(a, pa) && Exact(b, pb) ==> v == a.Value() * b.Value())
    && (!(Exact(a, pa) && Exact(b, pb)) ==> v == TowardsZero(a.Value() * b.Value(), ProductPrecision(a, pa, b, pb)))
  }

  lemma {:induction false} ZeroProduct(a: Numeral, pa: int, b: Numeral, pb: int)
    requires a.Canonical() && b.Canonical() && a.Digits() <= pa && b.Digits() <= pb
    requires a.leaves == [] || b.leaves == []
    ensures IsProduct(0.0, a, pa, b, pb)
  {
    if a.leaves == [] {
      NoLeavesIsZero(a);
    } else {
      NoLeavesIsZero(b);
    }
    assert a.Value() * b.Value() == 0.0;
    TruncatedZero(ProductPrecision(a, pa, b, pb));
  }

  lemma {:induction false} RoundedProduct(n: Numeral, v: real, a: Numeral, pa: int, b: Numeral, pb: int)
    requires (Multiplies(n, a, b) || Multiplies(n, b, a)) && ProductPrecision(a, pa, b, pb) >= 0
    requires v ==
      if Exact(a, pa) && Exact(b, pb) then n.Value() else TowardsZero(n.Value(), ProductPrecision(a, pa, b, pb))
    ensures IsProduct(v, a, pa, b, pb)
  {
    if Multiplies(n, a, b) {
      ProductValue(n, a, b);
    } else {
      ProductValue(n, b, a);
    }
  }

  lemma {:induction false} ProductValue(n: Numeral, a: Numeral, b: Numeral)
    requires Multiplies(n, a, b)
    ensures n.Value() == a.Value() * b.Value()
  {
    PowPositive(a.Fraction());
    PowPositive(b.Fraction());
    PowAdd(a.Fraction(), b.Fraction());
    FractionTimes(Val(a.leaves), Pow(a.Fraction()), Val(b.leaves), Pow(b.Fraction()));
    Signs(a.negative, b.negative, a.Abs(), b.Abs());
  }

  lemma Signs(n: bool, m: bool, x: real, y: real)
    ensures Signed(n, x) * Signed(m, y) == Signed(n != m, x * y)
  {
  }

  /** A canonical number with leaves has a positive value. */
  lemma {:induction false} LeavesArePositive(n: Numeral)
    requires n.Canonical() && n.leaves != []
    ensures Val(n.leaves) >= 1
  {
    ZeroHasNoLeaves(n);
    ValBound(n.leaves);
    PowPositive(n.Fraction());
  }

  lemma {:induction false} HeadZero(t: seq<int>, z: nat)
    requires IsLeaves(t) && t != [] && t[0] == 0
    ensures Val(t) * Pow(z) < Pow(|t| - 1 + z)
  {
    ValLeadingZeros(t, 1);
    ValBound(t[1..]);
    PowPositive(z);
    PowAdd(|t| - 1, z);
    MulMono(Val(t) + 1, Pow(|t| - 1), Pow(z));
    Distribute(Val(t), 1, Pow(z));
  }

  /** Multiplying without a carry keeps the first leaf from becoming zero. */
  lemma {:induction false} LeadingKept(s: seq<int>, t: seq<int>, z: nat, leaf: int)
    requires IsLeaves(s) && IsLeaves(t) && |s| == |t| + z && Val(t) * Pow(z) == leaf * Val(s) && leaf >= 1
    ensures t != [] && s[0] != 0 ==> t[0] != 0
  {
    if t != [] && s[0] != 0 {
      ValLeading(s);
      ValBound(s);
      MulMono(1, leaf, Val(s));
      if t[0] == 0 { HeadZero(t, z); }
    }
  }

  /** Leaves with a carry in front and trailing zeros cut off. */
  lemma {:induction false} CarriedLeaves(c: int, r: seq<int>, t: seq<int>, z: nat)
    requires |r| == |t| + z && r[..|t|] == t && forall i :: |t| <= i < |r| ==> r[i] == 0
    ensures Val([c] + t) * Pow(z) == Val([c] + r)
    ensures c == 0 ==> Val([c] + t) == Val(t)
  {
    assert [c] + r == ([c] + t) + Zeros(z);
    ValConcat([c] + t, Zeros(z));
    ValZeros(z);
    ValFront(c, t);
  }
}
