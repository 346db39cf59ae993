/** What a division reads as its dividend, and when that is right. */
module Dividends {
  import opened Leaves
  import opened Decimal
  import opened Numerals
  import opened Division
  import opened Quotients

  /** The `k` leaves behind the first `from` ones in storage that grows filled with zeros. */
  ghost function Stale(store: seq<int>, from: nat, k: nat): (s: seq<int>)
    ensures |s| == k
  {
    seq(k, i => if 0 <= i && from + i < |store| then store[from + i] else 0)
  }

  /** The dividend as a division by a leaf `shift` places behind the point reads it: with the leaves
      that are found in storage where an integral part has to be made longer than the leaves. */
  ghost function Widened(n: Numeral, store: seq<int>, shift: int): Numeral {
    var extra := n.integral + shift - |n.leaves|;
    if extra > 0 then Numeral(n.leaves + Stale(store, |n.leaves|, extra), n.integral, n.negative) else n
  }

  lemma {:induction false} StaleZero(store: seq<int>, from: nat, k: nat)
    ensures (forall i :: 0 <= i < k ==> Stale(store, from, k)[i] == 0)
      <==> forall i :: from <= i < from + k && i < |store| ==> store[i] == 0
  {
    var s := Stale(store, from, k);
    assert forall i :: from <= i < from + k && i < |store| ==> store[i] == s[i - from];
  }

  lemma {:induction false} ZeroValue(s: seq<int>)
    requires IsLeaves(s)
    ensures Val(s) == 0 <==> forall i :: 0 <= i < |s| ==> s[i] == 0
  {
    if Val(s) == 0 {
      ValZeros(|s|);
      SameLeaves(s, Zeros(|s|));
    }
    if forall i :: 0 <= i < |s| ==> s[i] == 0 {
      assert s == Zeros(|s|);
      ValZeros(|s|);
    }
  }

  /** The quotient of a number by a single leaf, of an integer that the leaves of the number stand for. */
  lemma {:induction false} QuotientInLeaf(n: Numeral, b: Numeral, leaf: int, zeros: nat, e: nat, f: nat, x: int)
    requires n.WellFormed() && b.WellFormed() && leaf >= 1 && Val(b.leaves) == leaf * Pow(zeros)
    requires n.Fraction() + e + zeros == b.Fraction() && x == Val(n.leaves) * Pow(e)
    ensures Lower(n, b) >= 1 && Upper(n, b, f) / Lower(n, b) == (x * Pow(f)) / leaf
    ensures Upper(n, b, f) % Lower(n, b) == 0 <==> (x * Pow(f)) % leaf == 0
  {
    var u := n.Fraction() + zeros;
    var p := Pow(u);
    PowPositive(u);
    PowAdd(zeros, n.Fraction());
    Associate(leaf, Pow(zeros), Pow(n.Fraction()));
    PowAdd(f, e);
    PowAdd(f + e, u);
    Shuffled(Val(n.leaves), Pow(e), Pow(f), p);
    CancelDivide(x * Pow(f), leaf, p);
    ZeroTimes((x * Pow(f)) % leaf, p);
  }

  lemma Shuffled(v: int, pe: int, pf: int, p: int)
    ensures v * ((pf * pe) * p) == ((v * pe) * pf) * p
  {
  }

  lemma ZeroTimes(r: int, p: int)
    requires p >= 1
    ensures r * p == 0 <==> r == 0
  {
  }

  /** Adding at least a divisor changes an integer quotient, and adding less than one the remainder. */
  lemma MoreDivides(v: int, s: int, p: int, leaf: int)
    requires 0 <= v && 1 <= s && p >= 1 && leaf >= 1
    ensures ((v + s) * p) % leaf == 0 && (v * p) % leaf == 0 ==> ((v + s) * p) / leaf != (v * p) / leaf
    ensures p > leaf ==> ((v + s) * p) / leaf != (v * p) / leaf
  {
    Distribute(v, s, p);
    MulMono(1, s, p);
    var x, y := (v + s) * p, v * p;
    DivideParts(x, leaf);
    DivideParts(y, leaf);
    if x / leaf == y / leaf {
      assert x - y == x % leaf - y % leaf;
    }
  }

  /** The places in storage behind the leaves that a widened dividend takes in. */
  ghost predicate ClearPlaces(n: Numeral, store: seq<int>, shift: int) {
    forall i :: |n.leaves| <= i < n.integral + shift && i < |store| ==> store[i] == 0
  }

  lemma {:induction false} WidenedValue(n: Numeral, store: seq<int>, shift: int) returns (x: int)
    requires n.WellFormed() && Widened(n, store, shift).WellFormed() && n.integral + shift > |n.leaves|
    ensures Val(Widened(n, store, shift).leaves) == Val(n.leaves) * Pow(n.integral + shift - |n.leaves|) + x && x >= 0
    ensures x == 0 <==> ClearPlaces(n, store, shift)
  {
    var extra := n.integral + shift - |n.leaves|;
    var s, w := Stale(store, |n.leaves|, extra), Widened(n, store, shift).leaves;
    assert forall i :: 0 <= i < extra ==> w[|n.leaves| + i] == s[i];
    ValConcat(n.leaves, s);
    ValBound(s);
    ZeroValue(s);
    StaleZero(store, |n.leaves|, extra);
    x := Val(s);
  }

  /** A division by one leaf computes the quotient exactly if the places it takes in are clear. */
  lemma {:induction false} QuotientReadRight(a: Numeral, b: Numeral, q: Numeral, exact: bool, store: seq<int>,
                                             shift: int, leaf: int, zeros: nat)
    requires a.WellFormed() && 1 <= leaf < LEAF && Val(b.leaves) == leaf * Pow(zeros) && shift == b.Fraction() - zeros
    requires Quotient(Widened(a, store, shift), b, q, exact)
    ensures ClearPlaces(a, store, shift) ==> Quotient(a, b, q, exact)
    ensures exact || q.Fraction() >= 1 ==> (Quotient(a, b, q, exact) <==> ClearPlaces(a, store, shift))
  {
    if a.integral + shift > |a.leaves| {
      var e, f := a.integral + shift - |a.leaves|, q.Fraction();
      var w, v := Widened(a, store, shift), Val(a.leaves) * Pow(e);
      var x := WidenedValue(a, store, shift);
      PowPositive(0);
      QuotientInLeaf(w, b, leaf, zeros, 0, f, v + x);
      QuotientInLeaf(a, b, leaf, zeros, e, f, v);
      if x > 0 {
        ValBound(a.leaves);
        PowPositive(e);
        MulMono(0, Val(a.leaves), Pow(e));
        PowPositive(f);
        if f >= 1 { PowMono(1, f); }
        MoreDivides(v, x, Pow(f), leaf);
      }
    }
  }

  /** Whether there is a single leaf besides zeros. */
  ghost predicate OneLeaf(s: seq<int>) {
    exists i :: 0 <= i < |s| && s[i] != 0 && forall j :: 0 <= j < |s| && j != i ==> s[j] == 0
  }

  lemma {:induction false} StrippedOneLeaf(s: seq<int>, lead: nat, n: nat)
    requires n >= 1 && lead + n <= |s| && s[lead] != 0 && s[lead + n - 1] != 0
    requires forall i :: 0 <= i < lead || lead + n <= i < |s| ==> s[i] == 0
    ensures OneLeaf(s) <==> n == 1
  {
  }

  /** The first leaf that is not zero; zero if there is none. */
  ghost function FirstLeaf(s: seq<int>): int {
    if s == [] then 0 else if s[0] != 0 then s[0] else FirstLeaf(s[1..])
  }

  lemma {:induction false} FirstLeafAt(s: seq<int>, n: nat)
    requires n < |s| && s[n] != 0 && forall i :: 0 <= i < n ==> s[i] == 0
    ensures FirstLeaf(s) == s[n]
  {
    if n > 0 {
      FirstLeafAt(s[1..], n - 1);
    }
  }

  /** What both operands are multiplied by before they are divided. */
  ghost function Factor(b: Numeral): int {
    if |b.leaves| == 1 || FirstLeaf(b.leaves) < 0 then 1 else LEAF / (FirstLeaf(b.leaves) + 1)
  }

  ghost predicate FractionTrimmed(n: Numeral) {
    n.Fraction() > 0 ==> 0 < |n.leaves| && n.leaves[|n.leaves| - 1] != 0
  }

  /** The operands that are divided in place of `a` and `b`. */
  ghost predicate Operands(a: Numeral, b: Numeral, a2: Numeral, b2: Numeral) {
    && Factor(b) >= 1 && (Factor(b) == 1 ==> a2 == a && b2 == b) && Times(a2, a, Factor(b)) && Times(b2, b, Factor(b))
    && FractionTrimmed(a2) && FractionTrimmed(b2) && Val(b2.leaves) >= 1
  }

  /** The digits of the quotient are kept if it comes out, even with operands that are not exact if the divisor is one
      leaf. */
  ghost predicate Keeps(a: Numeral, pa: int, b: Numeral, pb: int)
    requires a.WellFormed() && b.WellFormed()
  {
    OneLeaf(b.leaves) || (Exact(a, pa) && Exact(b, pb))
  }

  /** The precision of the quotient. */
  ghost function QuotientPrecision(a: Numeral, pa: int, b: Numeral, pb: int): int
    requires a.WellFormed() && b.WellFormed()
  {
    if Keeps(a, pa, b, pb) || pa < pb then pa else pb
  }

  function LeavesFor(p: int): int {
    (p + DIGITS_IN_LEAF - 1) / DIGITS_IN_LEAF
  }

  /** The number of leaves behind the point that a quotient is computed to. */
  ghost function QuotientPlaces(a: Numeral, pa: int, b: Numeral, pb: int): int
    requires a.WellFormed() && b.WellFormed()
  {
    LeavesFor(if OneLeaf(b.leaves) then pa
              else if Exact(a, pa) && Exact(b, pb) then pa + pb
              else if pa < pb then pa else pb)
  }

  /** The dividend as it is read: with leaves from storage if the divisor is one leaf behind the point. */
  ghost function Read(a: Numeral, b: Numeral, store: seq<int>): Numeral {
    if OneLeaf(b.leaves) then Widened(a, store, b.Fraction()) else a
  }

  /** A value fitted to a precision, unless it is kept as it is. */
  ghost function Fitted(x: real, keep: bool, p: int): real {
    if keep || p < 0 then x else TowardsZero(x, p)
  }

  /** The quotient `q` of the operands `a` and `b` with precisions `pa` and `pb`, and the value that is kept of it. */
  ghost predicate Divides(a: Numeral, pa: int, b: Numeral, pb: int, store: seq<int>, q: Numeral, exact: bool, v: real) {
    && a.WellFormed() && b.WellFormed() && Quotient(Read(a, b, store), b, q, exact)
    && (exact || q.Fraction() >= QuotientPlaces(a, pa, b, pb))
    && (OneLeaf(b.leaves) && ComesOut(Read(a, b, store), b, q.Fraction()) ==> exact)
    && (!OneLeaf(b.leaves) ==> exact || StillGoes(a, b, q))
    && v == Fitted(q.Value(), exact && Keeps(a, pa, b, pb), QuotientPrecision(a, pa, b, pb))
  }

  lemma {:induction false} RatioOfFractions(a: real, pa: real, b: real, pb: real, pf: real)
    requires pa > 0.0 && pb > 0.0 && b > 0.0 && pf > 0.0
    ensures b / pb > 0.0 && (b * pa) * pf > 0.0
    ensures (a / pa) / (b / pb) == (a * (pf * pb)) / ((b * pa) * pf)
  {
    var x, y := a / pa, b / pb;
    assert a == x * pa && b == y * pb;
    var d := (b * pa) * pf;
    assert a * (pf * pb) == (x / y) * d by {
      assert x == (x / y) * y;
      assert (x / y) * d == ((x / y) * y) * (pb * pa * pf);
      assert a * (pf * pb) == x * (pb * pa * pf);
    }
  }

  lemma FloorOfRatio(x: real, up: int, lo: int, u: int, t: int)
    requires lo >= 1 && u >= 1 && t >= 1 && lo * (u * t) >= 1 && x == up as real / (lo * (u * t)) as real
    ensures Parts(x, t) == (up / lo) / u
  {
    DivideTwice(up, lo, u);
    Associate(lo, u, t);
    FloorOfExpanded(up, lo * u, t, lo * (u * t));
  }

  lemma RatioOfIntegers(va: int, pa: int, vb: int, pb: int, pf: int, up: int, lo: int, x: real, y: real)
    requires pa >= 1 && pb >= 1 && pf >= 1 && vb >= 1 && lo >= 1 && up == va * (pf * pb) && lo == vb * pa
    requires x == va as real / pa as real && y == vb as real / pb as real
    ensures lo * pf >= 1 && y > 0.0 && x / y == up as real / (lo * pf) as real
  {
    MulMono(1, lo, pf);
    RealProduct(pf, pb);
    RealProduct(va, pf * pb);
    RealProduct(vb, pa);
    RealProduct(lo, pf);
    RatioOfFractions(va as real, pa as real, vb as real, pb as real, pf as real);
  }

  /** The ratio of the magnitudes is that of the integers that the quotient is computed from. */
  lemma {:induction false} RatioOfAbs(a: Numeral, b: Numeral, f: nat)
    requires a.WellFormed() && b.WellFormed() && Val(b.leaves) >= 1
    ensures Lower(a, b) >= 1 && Lower(a, b) * Pow(f) >= 1 && b.Abs() > 0.0
    ensures a.Abs() / b.Abs() == Upper(a, b, f) as real / (Lower(a, b) * Pow(f)) as real
  {
    var pa := Pow(a.Fraction());
    PowPositive(a.Fraction());
    PowPositive(b.Fraction());
    PowPositive(f);
    PowAdd(f, b.Fraction());
    MulMono(1, Val(b.leaves), pa);
    RatioOfIntegers(Val(a.leaves), pa, Val(b.leaves), Pow(b.Fraction()), Pow(f), Upper(a, b, f), Lower(a, b), a.Abs(),
      b.Abs());
  }

  lemma {:induction false} LowerPositive(a: Numeral, b: Numeral)
    requires a.WellFormed() && b.WellFormed() && Lower(a, b) >= 1
    ensures Val(b.leaves) >= 1
  {
    PowPositive(a.Fraction());
    if Val(b.leaves) <= 0 {
      MulMono(Val(b.leaves), 0, Pow(a.Fraction()));
    }
  }

  /** A quotient with enough leaves has the digits of the ratio. */
  lemma {:induction false} QuotientDigits(a: Numeral, b: Numeral, q: Numeral, exact: bool, p: nat)
    requires Quotient(a, b, q, exact) && q.Fraction() * DIGITS_IN_LEAF >= p
    ensures b.Abs() > 0.0 && Truncated(q.Abs(), p) == Truncated(a.Abs() / b.Abs(), p)
  {
    var f := q.Fraction();
    var u, t := Ten(DIGITS_IN_LEAF * f - p), Ten(p);
    LowerPositive(a, b);
    RatioOfAbs(a, b, f);
    PowIsTen(f);
    TenAdd(DIGITS_IN_LEAF * f - p, p);
    TruncatedMagnitude(q.leaves, f, p);
    FloorOfRatio(a.Abs() / b.Abs(), Upper(a, b, f), Lower(a, b), u, t);
    TruncatedTo(a.Abs() / b.Abs(), t, Val(q.leaves) / u);
  }

  lemma {:induction false} AbsPositive(n: Numeral)
    requires n.WellFormed() && Val(n.leaves) >= 1
    ensures n.Abs() > 0.0
  {
    PowPositive(n.Fraction());
  }

  lemma {:induction false} ExactRatio(a: Numeral, b: Numeral, q: Numeral)
    requires Quotient(a, b, q, true)
    ensures b.Abs() > 0.0 && q.Abs() == a.Abs() / b.Abs()
  {
    hide Val, Pow, Magnitude, Upper, Lower;
    LowerPositive(a, b);
    AbsPositive(b);
    Remainder(a, b, q, true);
    Ratio(a.Abs(), b.Abs(), q.Abs());
  }

  lemma IntegersOfRatio(vq: int, pf: int, up: int, lo: int)
    requires pf >= 1 && lo >= 1 && lo * pf >= 1 && vq as real / pf as real == up as real / (lo * pf) as real
    ensures up == vq * lo
  {
    RealProduct(lo, pf);
    RealProduct(vq, lo);
    assert up as real == (vq as real / pf as real) * (lo as real * pf as real);
  }

  /** What has the value of the ratio is the quotient, and an exact one. */
  lemma {:induction false} RatioIsQuotient(a: Numeral, b: Numeral, q: Numeral)
    requires a.WellFormed() && b.WellFormed() && Val(b.leaves) >= 1
    requires q.WellFormed() && q.negative == (a.negative != b.negative)
    ensures b.Value() != 0.0 && (q.Value() == a.Value() / b.Value() ==> Quotient(a, b, q, true))
  {
    AbsPositive(b);
    SignedRatio(a.negative, b.negative, a.Abs(), b.Abs());
    if q.Value() == a.Value() / b.Value() {
      var f := q.Fraction();
      RatioOfAbs(a, b, f);
      PowPositive(f);
      IntegersOfRatio(Val(q.leaves), Pow(f), Upper(a, b, f), Lower(a, b));
      DivideUnique(Upper(a, b, f), Lower(a, b), Val(q.leaves), 0);
    }
  }

  lemma Ratio(a: real, b: real, q: real)
    requires b > 0.0 && a == q * b
    ensures q == a / b
  {
  }

  /** The value of a quotient fitted to a precision is that of the ratio. */
  lemma {:induction false} FittedQuotient(a: Numeral, b: Numeral, q: Numeral, exact: bool, keep: bool, p: nat)
    requires Quotient(a, b, q, exact) && (keep ==> exact) && (exact || q.Fraction() * DIGITS_IN_LEAF >= p)
    ensures b.Value() != 0.0 && Fitted(q.Value(), keep, p) == Fitted(a.Value() / b.Value(), keep, p)
  {
    AbsNotNegative(a);
    AbsNotNegative(q);
    if exact {
      ExactRatio(a, b, q);
    } else {
      QuotientDigits(a, b, q, exact, p);
    }
    var x := a.Abs() / b.Abs();
    RatioNotNegative(a.Abs(), b.Abs());
    SignedRatio(a.negative, b.negative, a.Abs(), b.Abs());
    SignedTruncation(q.negative, q.Abs(), p);
    SignedTruncation(q.negative, x, p);
  }

  lemma RatioNotNegative(a: real, b: real)
    requires a >= 0.0 && b > 0.0
    ensures a / b >= 0.0
  {
  }

  lemma SignedRatio(n: bool, m: bool, x: real, y: real)
    requires y > 0.0
    ensures Signed(m, y) != 0.0 && Signed(n, x) / Signed(m, y) == Signed(n != m, x / y)
  {
    assert Signed(n, x) == Signed(n != m, x / y) * Signed(m, y) by {
      assert (x / y) * y == x;
    }
  }

  /** Storage as a division finds it: what was in the places of the leaves is no longer there. */
  ghost function Masked(store: seq<int>, count: nat): (m: seq<int>)
    ensures |m| == |store|
  {
    seq(|store|, i requires 0 <= i < |store| => if i < count then 0 else store[i])
  }

  /** Whether the places that a division takes in are clear. */
  ghost predicate Clear(a: Numeral, b: Numeral, store: seq<int>) {
    OneLeaf(b.leaves) ==> ClearPlaces(a, store, b.Fraction())
  }

  lemma {:induction false} OneLeafValue(b: Numeral) returns (leaf: int, zeros: nat)
    requires b.WellFormed() && FractionTrimmed(b) && OneLeaf(b.leaves)
    ensures 1 <= leaf < LEAF && Val(b.leaves) == leaf * Pow(zeros) && (zeros > 0 ==> b.Fraction() == 0)
  {
    var i :| 0 <= i < |b.leaves| && b.leaves[i] != 0 && forall j :: 0 <= j < |b.leaves| && j != i ==> b.leaves[j] == 0;
    leaf, zeros := b.leaves[i], |b.leaves| - 1 - i;
    StrippedValue(b.leaves, i, 1, zeros);
    assert b.leaves[i..i + 1] == [leaf];
    assert Val([leaf]) == Val([]) * LEAF + leaf;
  }

  /** A quotient of the dividend that was read is one of the dividend exactly if the places taken in are clear. */
  lemma {:induction false} ReadQuotient(a: Numeral, b: Numeral, q: Numeral, exact: bool, store: seq<int>)
    requires a.WellFormed() && FractionTrimmed(b) && Quotient(Read(a, b, store), b, q, exact)
    ensures Clear(a, b, store) ==> Quotient(a, b, q, exact)
    ensures exact || q.Fraction() >= 1 ==> (Quotient(a, b, q, exact) <==> Clear(a, b, store))
  {
    if OneLeaf(b.leaves) {
      var leaf, zeros := OneLeafValue(b);
      if zeros == 0 {
        QuotientReadRight(a, b, q, exact, store, b.Fraction(), leaf, zeros);
      }
    }
  }

  /** With clear places the dividend that is read comes out where the dividend does. */
  lemma {:induction false} ReadComesOut(a: Numeral, b: Numeral, store: seq<int>, f: nat)
    requires a.WellFormed() && b.WellFormed() && FractionTrimmed(b) && Val(b.leaves) >= 1
    requires Read(a, b, store).WellFormed() && Clear(a, b, store)
    ensures Lower(a, b) >= 1 && Lower(Read(a, b, store), b) >= 1
    ensures ComesOut(Read(a, b, store), b, f) <==> ComesOut(a, b, f)
  {
    var w := Read(a, b, store);
    PowPositive(a.Fraction());
    MulMono(1, Val(b.leaves), Pow(a.Fraction()));
    if OneLeaf(b.leaves) && a.integral + b.Fraction() > |a.leaves| {
      var leaf, zeros := OneLeafValue(b);
      var e := a.integral + b.Fraction() - |a.leaves|;
      var x := WidenedValue(a, store, b.Fraction());
      PowPositive(0);
      QuotientInLeaf(w, b, leaf, zeros, 0, f, Val(w.leaves));
      QuotientInLeaf(a, b, leaf, zeros, e, f, Val(w.leaves));
    }
  }

  lemma {:induction false} PlacesSuffice(a: Numeral, pa: nat, b: Numeral, pb: nat)
    requires a.WellFormed() && b.WellFormed()
    ensures 0 <= QuotientPrecision(a, pa, b, pb) <= QuotientPlaces(a, pa, b, pb) * DIGITS_IN_LEAF
  {
  }

  /**
    * Division is right exactly if no leaf is left in the places behind the dividend that it takes in; then its
    * value is the ratio of the numbers, kept if it comes out and otherwise cut off behind the digits of the
    * precision. A value that is kept is the ratio only then.
    */
  lemma {:induction false} DivisionIsRight(a: Numeral, b: Numeral, a2: Numeral, pa: nat, b2: Numeral, pb: nat,
                                           store: seq<int>,
                                           q: Numeral, exact: bool, v: real)
    requires a.WellFormed() && b.WellFormed() && Val(b.leaves) >= 1
    requires Operands(a, b, a2, b2) && Divides(a2, pa, b2, pb, store, q, exact, v)
    ensures Clear(a2, b2, store) ==> Quotient(a, b, q, exact) && b.Value() != 0.0
    ensures Clear(a2, b2, store) ==>
      v == Fitted(a.Value() / b.Value(), exact && Keeps(a2, pa, b2, pb), QuotientPrecision(a2, pa, b2, pb))
    ensures exact || q.Fraction() >= 1 ==> (Quotient(a, b, q, exact) <==> Clear(a2, b2, store))
    ensures b.Value() != 0.0
    ensures exact && Keeps(a2, pa, b2, pb) ==> (v == a.Value() / b.Value() <==> Clear(a2, b2, store))
  {
    ReadQuotient(a2, b2, q, exact, store);
    ScaledQuotient(a, b, a2, b2, q, exact, Factor(b));
    RatioIsQuotient(a, b, q);
    PlacesSuffice(a2, pa, b2, pb);
    if Clear(a2, b2, store) {
      FittedQuotient(a, b, q, exact, exact && Keeps(a2, pa, b2, pb), QuotientPrecision(a2, pa, b2, pb));
    }
  }

  lemma {:induction false} WidenedAlike(n: Numeral, store: seq<int>, shift: int, shift2: int)
    requires n.WellFormed() && (shift == shift2 || (shift <= 0 && shift2 <= 0))
    ensures Widened(n, store, shift) == Widened(n, store, shift2)
  {
  }

  lemma {:induction false} TimesOne(n: Numeral)
    requires n.WellFormed()
    ensures Times(n, n, 1)
  {
  }

  /** The operands are divided as they are if the factor is one. */
  lemma {:induction false} OperandsAsTheyAre(a: Numeral, b: Numeral)
    requires a.Canonical() && b.Canonical() && b.leaves != []
    ensures Factor(b) == 1 ==> Operands(a, b, a, b)
  {
    LeavesArePositive(b);
    TimesOne(a);
    TimesOne(b);
  }

  /** Whether the same is read from two storages, however far. */
  ghost predicate ReadsAlike(a: Numeral, now: seq<int>, store: seq<int>) {
    forall b: Numeral :: Read(a, b, now) == Read(a, b, store)
  }

  /** What is read behind the leaves does not depend on what was there in their places. */
  lemma {:induction false} ReadBehind(a: Numeral, now: seq<int>, store: seq<int>, count: nat)
    requires a.WellFormed() && |store| <= |now|
    requires forall i :: |a.leaves| <= i < |now| ==> now[i] == if count <= i < |store| then store[i] else 0
    ensures ReadsAlike(a, now, Masked(store, count))
  {
    forall b: Numeral ensures Read(a, b, now) == Read(a, b, Masked(store, count)) {
      var extra := a.integral + b.Fraction() - |a.leaves|;
      if extra > 0 {
        assert Stale(now, |a.leaves|, extra) == Stale(Masked(store, count), |a.leaves|, extra);
      }
    }
  }

  lemma OperandsMultiplied(a: Numeral, b: Numeral, a2: Numeral, b2: Numeral)
    requires Times(a2, a, Factor(b)) && Times(b2, b, Factor(b)) && Factor(b) >= 2
    requires FractionTrimmed(a2) && FractionTrimmed(b2) && Val(b2.leaves) >= 1
    ensures Operands(a, b, a2, b2)
  {
  }

  lemma {:induction false} SameRead(a: Numeral, pa: int, b: Numeral, pb: int, store: seq<int>, store2: seq<int>,
                                    q: Numeral, exact: bool, v: real)
    requires Divides(a, pa, b, pb, store, q, exact, v) && ReadsAlike(a, store, store2)
    ensures Divides(a, pa, b, pb, store2, q, exact, v)
  {
  }

  lemma {:induction false} LongDivides(a: Numeral, pa: nat, b: Numeral, pb: nat, store: seq<int>, q: Numeral,
                                       exact: bool,
                                       keep: bool, p: int, v: real)
    requires Quotient(a, b, q, exact) && !OneLeaf(b.leaves) && keep == (Exact(a, pa) && Exact(b, pb))
    requires exact || StillGoes(a, b, q)
    requires exact || q.Fraction() >= QuotientPlaces(a, pa, b, pb)
    requires p == QuotientPrecision(a, pa, b, pb) && v == Fitted(q.Value(), exact && keep, p)
    ensures Divides(a, pa, b, pb, store, q, exact, v)
  {
  }
}
