/** Decimal numbers of any length. */
module Numbers {
  import opened Leaves
  import opened Decimal
  import opened Numerals
  import opened Chunks
  import opened Division
  import opened Addition
  import opened Quotients
  import opened Dividends
  import opened Rounding
  import opened Digits
  import opened Text
  import opened TextForms
  import opened TextStorage
  import Karatsuba

  function Max(a: int, b: int): int {
    if a > b then a else b
  }

  lemma {:induction false} AlignedOperand(x: array<int>, n: Numeral, ips: nat, dps: nat)
    requires n.WellFormed() && n.integral <= ips && |n.leaves| <= x.Length && x[..|n.leaves|] == n.leaves
    ensures Operand(x, 0, ips - n.integral, Max(dps - n.Fraction(), 0), ips + dps, Aligned(n, ips, dps))
  {
    var s, mi := Aligned(n, ips, dps), ips - n.integral;
    forall j | -1 < j < ips + dps - mi - Max(dps - n.Fraction(), 0)
      ensures x[j] == s[j + mi]
    {
      assert x[j] == n.leaves[j];
    }
  }

  /** Adds or subtracts, to or from the greater one, aligned leaves, with one leaf more in front. */
  method AddLeaves(res: array<int>, resSize: nat, x: array<int>, y: array<int>, mi0: int, mi1: int, mf0: int, mf1: int,
                   sub: bool,
                   ghost a: seq<int>, ghost b: seq<int>)
    requires 1 <= resSize <= res.Length && res != x && res != y && res[0] == 0
    requires Operand(x, 0, mi0, mf0, resSize - 1, a) && Operand(y, 0, mi1, mf1, resSize - 1, b) && IsLeaves(a)
      && IsLeaves(b)
    requires (mi0 == 0 || mi1 == 0) && (mf0 == 0 || mf1 == 0) && mi0 + mf1 < resSize && mi1 + mf0 < resSize
    requires sub ==> Val(a) >= Val(b)
    modifies res
    ensures IsLeaves(res[..resSize]) && Val(res[..resSize]) == if sub then Val(a) - Val(b) else Val(a) + Val(b)
    ensures forall i :: resSize <= i < res.Length ==> res[i] == old(res[i])
  {
    var carry;
    ghost var r;
    carry, r := MutateAddition(res, 0, resSize, x, 0, y, 0, mi0, mi1, mf0, mf1, sub, a, b);
    if sub && carry { ValBound(r); }
    ghost var c := if carry then 1 else 0;
    assert res[..resSize] == [c] + r;
    ValFront(c, r);
  }

  /** Adds or subtracts, to or from the greater one, numbers that `x` and `y` hold. */
  method AddAligned(res: array<int>, resSize: nat, x: array<int>, y: array<int>, mi0: int, mi1: int, mf0: int,
                    mf1: int, sub: bool,
                    ghost a: Numeral, ghost b: Numeral, ghost ips: nat, ghost dps: nat)
    requires resSize == ips + dps + 1 <= res.Length && res != x && res != y && res[0] == 0
    requires a.WellFormed() && a.integral <= ips && |a.leaves| <= x.Length && x[..|a.leaves|] == a.leaves
    requires b.WellFormed() && b.integral <= ips && |b.leaves| <= y.Length && y[..|b.leaves|] == b.leaves
    requires mi0 == ips - a.integral && mf0 == Max(dps - a.Fraction(), 0)
    requires mi1 == ips - b.integral && mf1 == Max(dps - b.Fraction(), 0)
    requires (mi0 == 0 || mi1 == 0) && (mf0 == 0 || mf1 == 0)
    requires sub ==> a.Abs() >= b.Abs()
    modifies res
    ensures IsLeaves(res[..resSize]) && forall i :: resSize <= i < res.Length ==> res[i] == old(res[i])
    ensures Magnitude(res[..resSize], dps) ==
      if sub then Short(a, dps) - Short(b, dps) else Short(a, dps) + Short(b, dps)
  {
    hide Short, Aligned, IsLeaves;
    ghost var s, t := Aligned(a, ips, dps), Aligned(b, ips, dps);
    assert sub ==> Val(s) >= Val(t) by {
      if sub { AlignedOrder(b, a, ips, dps); }
    }
    AlignedOperand(x, a, ips, dps);
    AlignedOperand(y, b, ips, dps);
    AddLeaves(res, resSize, x, y, mi0, mi1, mf0, mf1, sub, s, t);
    AlignedSum(a, b, ips, dps, res[..resSize], sub);
  }

  /** The number of leaves for `p` digits, and of digits in the last of them that are not needed. */
  method KeptLeaves(p: nat) returns (kept: nat, r: nat)
    ensures p + r == DIGITS_IN_LEAF * kept && r < DIGITS_IN_LEAF
  {
    kept := (p + DIGITS_IN_LEAF - 1) / DIGITS_IN_LEAF;
    r := if p % DIGITS_IN_LEAF != 0 then DIGITS_IN_LEAF - p % DIGITS_IN_LEAF else 0;
  }

  lemma {:induction false} ValOfLeaf(s: seq<int>)
    requires |s| == 1
    ensures Val(s) == s[0]
  {
    assert Val(s) == Val([]) * LEAF + s[0];
  }

  lemma {:induction false} RunOfLeaves(c: seq<int>, s: seq<int>, lead: nat, n: nat)
    requires lead + n <= |s| <= |c| && s == c[..|s|] && IsLeaves(s)
    ensures c[lead..lead + n] == s[lead..lead + n] && IsLeaves(s[lead..lead + n])
    ensures n > 0 ==> s[lead..lead + n][0] == s[lead]
  {
    SliceOfPrefix(c, |s|, lead, lead + n);
  }

  lemma FittedSum(a: Numeral, pa: int, b: Numeral, pb: int)
    requires SumDefined(a, pa, b, pb)
    requires Exact(a, pa) && Exact(b, pb) ==> ShortSum(a, b, SumPlaces(a, pa, b, pb)) == a.Value() + b.Value()
    ensures Fitted(ShortSum(a, b, SumPlaces(a, pa, b, pb)), Exact(a, pa) && Exact(b, pb), SumPrecision(a, pa, b, pb))
         == Sum(a, pa, b, pb)
  {
  }

  class Number {
    var canonical: array<int>
    var cache: array<int>
    var leafCount: int
    var integralPartSize: int
    var precision: nat
    var negative: bool

    ghost predicate Stored()
      reads this`canonical, this`cache, this`leafCount, this`integralPartSize, canonical
    {
      && 0 <= integralPartSize <= leafCount <= canonical.Length && canonical != cache
      && IsLeaves(canonical[..leafCount])
    }

    ghost function Contents(): (n: Numeral)
      reads this`canonical, this`cache, this`leafCount, this`integralPartSize, this`negative, canonical
      requires Stored()
      ensures n.WellFormed()
    {
      Numeral(canonical[..leafCount], integralPartSize, negative)
    }

    ghost predicate Proper()
      reads this`canonical, this`cache, this`leafCount, this`integralPartSize, this`negative, canonical
    {
      Stored() && Contents().Canonical()
    }

    ghost predicate Fits()
      reads this, canonical
    {
      Proper() && Contents().Digits() <= precision
    }

    /** Whether the storage holds nothing but leaves. */
    ghost predicate OnlyLeaves()
      reads this, canonical, cache
    {
      HoldsLeaves(canonical) && HoldsLeaves(cache)
    }

    /** What every operation keeps: a canonical number of no more digits than its precision, over storage of leaves. */
    ghost predicate Valid()
      reads this, canonical, cache
    {
      Fits() && OnlyLeaves()
    }

    /** Whether the storage behind the leaves is clear. */
    ghost predicate ClearBehind()
      reads this, canonical
    {
      forall i :: 0 <= leafCount <= i < canonical.Length ==> canonical[i] == 0
    }

    /** Behind the leaves is what was there when `store` held `count` leaves, and zeros in the places of
        those leaves. */
    ghost predicate Behind(store: seq<int>, count: int)
      reads this, canonical
    {
      |store| <= canonical.Length &&
      forall i :: 0 <= leafCount <= i < canonical.Length ==>
        canonical[i] == if count <= i < |store| then store[i] else 0
    }

    method FractionalLength() returns (n: int)
      ensures n == leafCount - integralPartSize
    {
      n := leafCount - integralPartSize;
    }

    /** The number of decimal digits behind the point. */
    method FractionalDecimalDigits() returns (n: int)
      requires Stored()
      ensures n == Contents().Digits()
    {
      var fraction := FractionalLength();
      n := fraction * DIGITS_IN_LEAF;
      if n > 0 {
        var zeros := TrailingZeros(canonical[leafCount - 1]);
        n := n - zeros;
      }
    }

    /** Whether there are fewer digits behind the point than the precision would allow. */
    method IsExact() returns (exact: bool)
      requires Stored()
      ensures exact <==> leafCount == integralPartSize || Contents().Digits() < precision
    {
      exact := true;
      if leafCount - integralPartSize > 0 {
        var digits := FractionalDecimalDigits();
        exact := digits < precision;
      }
    }

    /** Takes the first leaves of the cache as the number; the storage it had becomes the cache. */
    method TakeCache(count: int, integral: int, minus: bool)
      requires canonical != cache && 0 <= integral <= count <= cache.Length && IsLeaves(cache[..count])
      modifies this
      ensures Stored() && canonical == old(cache) && cache == old(canonical) && precision == old(precision)
      ensures Contents() == Numeral(old(cache[..count]), integral, minus)
    {
      leafCount := count;
      integralPartSize := integral;
      negative := minus;
      canonical, cache := cache, canonical;
    }

    method DropLeading(shift: int)
      requires Stored() && 0 < shift <= integralPartSize
      modifies this, canonical
      ensures canonical == old(canonical) && cache == old(cache) && precision == old(precision) && Stored()
      ensures Contents() == Numeral(old(Contents()).leaves[shift..], old(integralPartSize) - shift, old(negative))
      ensures Behind(old(canonical[..]), 0)
      ensures old(HoldsLeaves(canonical)) ==> HoldsLeaves(canonical)
    {
      ghost var s := canonical[..leafCount];
      integralPartSize := integralPartSize - shift;
      leafCount := leafCount - shift;
      Move(canonical, 0, shift, leafCount);
      assert canonical[..leafCount] == s[shift..];
    }

    method StripLeading()
      requires Stored()
      modifies this, canonical
      ensures Stored() && canonical == old(canonical) && cache == old(cache) && precision == old(precision)
      ensures negative == old(negative) && Contents().Abs() == old(Contents().Abs())
      ensures integralPartSize > 0 ==> canonical[0] != 0
      ensures leafCount - integralPartSize == old(leafCount - integralPartSize)
      ensures old(integralPartSize > 0 ==> canonical[0] != 0) ==> integralPartSize == old(integralPartSize)
      ensures Behind(old(canonical[..]), 0)
        && (integralPartSize == old(integralPartSize) ==>
        canonical[..] == old(canonical[..]) && leafCount == old(leafCount))
      ensures old(HoldsLeaves(canonical)) ==> HoldsLeaves(canonical)
    {
      ghost var n := Contents();
      var shift := LeadingZeros(canonical, 0, integralPartSize);
      assert shift < integralPartSize ==> n.leaves[shift..][0] != 0;
      if shift > 0 {
        WithoutLeading(n, shift);
        DropLeading(shift);
        assert integralPartSize > 0 ==> canonical[0] == Contents().leaves[0];
      }
    }

    method StripTrailing()
      requires Stored()
      modifies this`leafCount
      ensures Stored() && Contents().Abs() == old(Contents().Abs()) && integralPartSize <= leafCount <= old(leafCount)
      ensures forall i :: leafCount <= i < old(leafCount) ==> canonical[i] == 0
      ensures leafCount > integralPartSize ==> canonical[leafCount - 1] != 0
      ensures old(ClearBehind()) ==> ClearBehind()
    {
      ghost var n := Contents();
      while leafCount > integralPartSize && canonical[leafCount - 1] == 0
        invariant integralPartSize <= leafCount <= old(leafCount)
        invariant forall i :: leafCount <= i < old(leafCount) ==> canonical[i] == 0
      {
        leafCount := leafCount - 1;
      }
      WithoutTrailing(n, old(leafCount) - leafCount);
      assert canonical[..leafCount] == n.leaves[..leafCount];
    }

    /** Drops fractional leaves and replaces the last digits of those that remain by zeros. */
    method Cut(kept: int, r: int)
      requires Stored() && 0 <= kept <= leafCount - integralPartSize && 0 <= r < DIGITS_IN_LEAF && (r > 0 ==> kept > 0)
      modifies this`leafCount, canonical
      ensures Stored() && Contents() == CutOff(old(Contents()), kept, r)
      ensures integralPartSize > 0 ==> canonical[0] == old(canonical[0])
      ensures old(HoldsLeaves(canonical)) ==> HoldsLeaves(canonical)
    {
      ghost var s := canonical[..integralPartSize + kept];
      assert s == Contents().leaves[..integralPartSize + kept];
      ClearedValue(s, r);
      leafCount := leafCount - (leafCount - integralPartSize - kept);
      if r != 0 {
        var last := canonical[leafCount - 1];
        canonical[leafCount - 1] := last - last % DecimalShift(r);
      }
      assert canonical[..leafCount] == Cleared(s, r);
    }

    /** Drops the zero leaves behind, as they stand in the number. */
    method StripFraction(ghost m: Numeral)
      requires Stored() && Contents() == m
      modifies this`leafCount
      ensures Stored() && integralPartSize <= leafCount <= |m.leaves|
      ensures Contents() == Numeral(m.leaves[..leafCount], m.integral, m.negative) && Contents().Abs() == m.Abs()
      ensures leafCount > integralPartSize ==> canonical[leafCount - 1] != 0
    {
      StripTrailing();
      assert canonical[..leafCount] == m.leaves[..leafCount];
    }

    /** Cuts the fraction off behind as many digits as the precision says. */
    method Crop()
      requires Stored() && Contents().Digits() > precision
      modifies this, canonical
      ensures Stored() && canonical == old(canonical) && cache == old(cache)
      ensures negative == old(negative) && integralPartSize == old(integralPartSize)
      ensures Contents().Abs() == Truncated(old(Contents().Abs()), old(precision)) && precision == Contents().Digits()
      ensures integralPartSize > 0 ==> canonical[0] == old(canonical[0])
      ensures leafCount > integralPartSize ==> canonical[leafCount - 1] != 0
      ensures old(HoldsLeaves(canonical)) ==> HoldsLeaves(canonical)
    {
      hide Val, Pow, Magnitude, Truncated, EndZeros;
      var kept, r := KeptLeaves(precision);
      CutOffValue(Contents(), kept, r, precision);
      Cut(kept, r);
      StripFraction(Contents());
      precision := FractionalDecimalDigits();
    }

    /** Removes zero leaves in front and behind. */
    method Strip()
      requires Stored()
      modifies this, canonical
      ensures Stored() && canonical == old(canonical) && cache == old(cache) && precision == old(precision)
      ensures negative == old(negative) && Contents().Abs() == old(Contents().Abs())
      ensures integralPartSize > 0 ==> canonical[0] != 0
      ensures leafCount > integralPartSize ==> canonical[leafCount - 1] != 0
      ensures old(HoldsLeaves(canonical)) ==> HoldsLeaves(canonical)
      ensures old(leafCount == integralPartSize) ==> Behind(old(canonical[..]), 0) && leafCount == integralPartSize
      ensures integralPartSize == old(integralPartSize) && old(ClearBehind()) ==> ClearBehind()
      ensures old(integralPartSize > 0 ==> canonical[0] != 0) ==> integralPartSize == old(integralPartSize)
    {
      StripLeading();
      StripTrailing();
    }

    /** Raises the precision above the number of digits, or crops the digits to the precision. */
    method Fit(updatePrecision: bool)
      requires Stored()
      modifies this, canonical
      ensures Stored() && canonical == old(canonical) && cache == old(cache) && negative == old(negative)
      ensures updatePrecision ==> Contents() == old(Contents()) && Contents().Digits() < precision
      ensures !updatePrecision ==> Contents().Abs() == Truncated(old(Contents().Abs()), old(precision))
      ensures !updatePrecision ==> Contents().Digits() <= precision && integralPartSize == old(integralPartSize)
      ensures precision == if updatePrecision then Max(old(precision), Contents().Digits() + 1)
        else if old(Contents().Digits()) > old(precision) then Contents().Digits() else old(precision)
      ensures integralPartSize > 0 ==> canonical[0] == old(canonical[0])
      ensures Contents() == old(Contents()) || (leafCount > integralPartSize ==> canonical[leafCount - 1] != 0)
      ensures old(HoldsLeaves(canonical)) ==> HoldsLeaves(canonical)
      ensures updatePrecision || old(leafCount == integralPartSize) ==>
        canonical[..] == old(canonical[..]) && Contents() == old(Contents())
    {
      hide Val, Magnitude;
      ghost var n, p := Contents(), precision;
      var digits := FractionalDecimalDigits();
      if updatePrecision && digits >= precision {
        precision := digits + 1;
      }
      if leafCount > 0 && digits > precision {
        Crop();
      } else if !updatePrecision {
        TruncatedKeeps(n, p);
      }
    }

    /** Removes zero leaves at both ends and fits the digits to the precision, or the precision to the digits. */
    method StripAndFit(updatePrecision: bool)
      requires Stored()
      modifies this, canonical
      ensures Stored() && canonical == old(canonical) && cache == old(cache) && negative == old(negative)
      ensures (integralPartSize > 0 ==> canonical[0] != 0)
        && (leafCount > integralPartSize ==> canonical[leafCount - 1] != 0)
      ensures Contents().Abs() ==
        if updatePrecision then old(Contents().Abs()) else Truncated(old(Contents().Abs()), old(precision))
      ensures Contents().Digits() <= precision && (updatePrecision ==> Contents().Digits() < precision)
      ensures PrecisionAfter(precision, old(precision), updatePrecision, old(Contents().Value()), Contents())
      ensures old(HoldsLeaves(canonical)) ==> HoldsLeaves(canonical)
      ensures old(leafCount == integralPartSize) ==> Behind(old(canonical[..]), 0)
      ensures updatePrecision && integralPartSize == old(integralPartSize) && old(ClearBehind()) ==> ClearBehind()
      ensures updatePrecision && old(integralPartSize > 0 ==> canonical[0] != 0) ==>
        integralPartSize == old(integralPartSize)
    {
      hide HasDigits, Magnitude, EndZeros;
      Strip();
      ghost var n, p := Contents(), precision;
      Fit(updatePrecision);
      if !updatePrecision { FittedPrecision(n, Contents(), precision, p); }
    }

    /** Brings leaves into canonical form; keeps the value if the precision is to be updated, or
        cuts it off at the precision. */
    method Normalize(updatePrecision: bool)
      requires Stored()
      modifies this, canonical
      ensures Fits() && canonical == old(canonical) && cache == old(cache)
      ensures Contents().Value() == Fitted(old(Contents().Value()), updatePrecision, old(precision))
      ensures PrecisionAfter(precision, old(precision), updatePrecision, old(Contents().Value()), Contents())
      ensures updatePrecision ==> Contents().Digits() < precision
      ensures old(HoldsLeaves(canonical)) ==> HoldsLeaves(canonical)
      ensures old(leafCount == integralPartSize) ==> Behind(old(canonical[..]), 0)
      ensures updatePrecision && integralPartSize == old(integralPartSize) && old(ClearBehind()) ==> ClearBehind()
      ensures updatePrecision && old(integralPartSize > 0 ==> canonical[0] != 0) ==>
        integralPartSize == old(integralPartSize)
    {
      hide Val, Magnitude, Truncated, EndZeros;
      AbsNotNegative(Contents());
      SignedTruncation(negative, Contents().Abs(), precision);
      StripAndFit(updatePrecision);
      if leafCount == 0 {
        NoLeavesIsZero(Contents());
        negative := false;
      }
    }

    /** Compares magnitudes: negative if this one is less, zero if they are equal. */
    method AbsoluteLower(other: Number) returns (cmp: int)
      requires Proper() && other.Proper()
      ensures cmp < 0 <==> Contents().Abs() < other.Contents().Abs()
      ensures cmp == 0 <==> Contents().Abs() == other.Contents().Abs()
    {
      hide Val, Pow, Magnitude, EndZeros;
      ghost var a, b := Contents(), other.Contents();
      cmp := 1;
      if integralPartSize < other.integralPartSize {
        cmp := -1;
        LongerIsGreater(a, b);
      } else if integralPartSize == other.integralPartSize {
        var len := if leafCount < other.leafCount then leafCount else other.leafCount;
        assert a.leaves[..len] == canonical[0..0 + len] && b.leaves[..len] == other.canonical[0..0 + len];
        cmp := Compare(canonical, 0, other.canonical, 0, len);
        if cmp == 0 {
          cmp := leafCount - other.leafCount;
        }
        LeavesDecide(a, b, len, cmp);
      } else {
        LongerIsGreater(b, a);
      }
    }

    /** Whether two numbers have the same value. */
    method Equals(other: Number) returns (equal: bool)
      requires Valid() && other.Valid()
      ensures equal <==> Contents().Value() == other.Contents().Value()
    {
      SameValue(Contents(), other.Contents());
      equal := negative == other.negative && leafCount == other.leafCount && integralPartSize == other.integralPartSize;
      if equal {
        var cmp := Compare(canonical, 0, other.canonical, 0, leafCount);
        assert canonical[0..0 + leafCount] == canonical[..leafCount];
        assert other.canonical[0..0 + leafCount] == other.canonical[..leafCount];
        equal := cmp == 0;
      }
    }

    /** Whether the value of this number is less. */
    method Less(other: Number) returns (lower: bool)
      requires Valid() && other.Valid()
      ensures lower <==> Contents().Value() < other.Contents().Value()
    {
      ZeroHasNoLeaves(Contents());
      ZeroHasNoLeaves(other.Contents());
      lower := false;
      if negative && !other.negative {
        lower := true;
      } else if (negative && other.negative) || !(negative || other.negative) {
        var cmp := AbsoluteLower(other);
        lower := cmp < 0;
        if cmp != 0 && negative && other.negative {
          lower := !lower;
        }
      }
    }

    /** Whether two objects share no storage. */
    ghost predicate Apart(other: Number)
      reads this, other
    {
      other != this && {canonical, cache} !! {other.canonical, other.cache}
    }

    /** The first leaf that is not zero is at this place. */
    ghost predicate StartsAt(first: int)
      reads this, canonical
    {
      Stored() && 0 <= first < leafCount && canonical[first] != 0 && forall i :: 0 <= i < first ==> canonical[i] == 0
    }

    /** A divisor whose first leaf that is not zero is at this place, and at least half of LEAF. */
    ghost predicate NormalDivisor(first: int)
      reads this, canonical
    {
      && StartsAt(first) && canonical[first] >= LEAF / 2 && Val(Contents().leaves) >= 1
      && FractionTrimmed(Contents()) && (integralPartSize > 0 ==> canonical[0] != 0)
    }

    /** The leaves without the `lead` zeros in front and the `zeros` behind are `n` leaves. */
    ghost predicate StripsTo(lead: nat, n: nat, zeros: nat)
      reads this, canonical
    {
      && Stored() && lead + n + zeros == leafCount && n >= 1 && canonical[lead] != 0 && canonical[lead + n - 1] != 0
      && (forall i :: 0 <= i < lead || lead + n <= i < leafCount ==> canonical[i] == 0)
      && Val(Contents().leaves) == Val(canonical[lead..lead + n]) * Pow(zeros)
      && (integralPartSize > 0 ==> lead == 0) && (zeros > 0 ==> leafCount == integralPartSize)
    }

    lemma StripsToOne(lead: nat, n: nat, zeros: nat)
      requires StripsTo(lead, n, zeros)
      ensures OneLeaf(Contents().leaves) <==> n == 1
    {
      StrippedOneLeaf(Contents().leaves, lead, n);
    }

    /** Whether the arrays are those it had before, or new ones. */
    twostate predicate KeepsStorage(a: array<int>, b: array<int>)
      reads this
    {
      && (canonical == a || canonical == b || fresh(canonical)) && (cache == a || cache == b || fresh(cache))
      && canonical != cache
    }

    /** The precision of the sum, and the number of fractional leaves to compute it with. */
    method AdjustPrecision(other: Number, ghost a: Numeral, ghost pa: int, ghost b: Numeral, ghost pb: int)
      returns (dps: int, exact: bool)
      requires Fits() && other.Fits()
      requires a == Contents() && pa == precision && b == other.Contents() && pb == other.precision
      modifies this`precision
      ensures exact <==> Exact(a, pa) && Exact(b, pb)
      ensures precision == SumPrecision(a, pa, b, pb) >= 0 && dps == SumPlaces(a, pa, b, pb) >= 0
    {
      dps := Max(leafCount - integralPartSize, other.leafCount - other.integralPartSize);
      var augendExact := IsExact();
      var addendExact := other.IsExact();
      if leafCount - integralPartSize < other.leafCount - other.integralPartSize {
        precision := if augendExact then other.precision else precision;
      } else {
        precision := if addendExact then precision else other.precision;
      }
      if dps > precision {
        dps := precision;
      }
      exact := augendExact && addendExact;
    }

    /** Adds the leaves of two numbers, or subtracts those of the second one from the first, into the cleared cache. */
    method AddIntoCache(first: Number, second: Number, ips: int, dps: int, sub: bool, ghost a: Numeral,
                        ghost b: Numeral)
      requires first.Proper() && second.Proper() && a == first.Contents() && b == second.Contents()
      requires cache != first.canonical && cache != second.canonical
      requires ips == Max(a.integral, b.integral) && 0 <= dps <= Max(a.Fraction(), b.Fraction())
      requires sub ==> a.Abs() >= b.Abs()
      modifies this`cache, cache
      ensures (cache == old(cache) || fresh(cache)) && ips + dps + 1 <= cache.Length && IsLeaves(cache[..ips + dps + 1])
      ensures HoldsLeaves(cache) && forall i :: ips + dps + 1 <= i < cache.Length ==> cache[i] == 0
      ensures Magnitude(cache[..ips + dps + 1], dps) ==
        if sub then Short(a, dps) - Short(b, dps) else Short(a, dps) + Short(b, dps)
    {
      var resSize := ips + dps + 1;
      cache := Realloc(cache, resSize);
      ClearLeaves(cache, 0, cache.Length);
      var mi0, mi1 := ips - first.integralPartSize, ips - second.integralPartSize;
      var mf0 := Max(dps - (first.leafCount - first.integralPartSize), 0);
      var mf1 := Max(dps - (second.leafCount - second.integralPartSize), 0);
      AddAligned(cache, resSize, first.canonical, second.canonical, mi0, mi1, mf0, mf1, sub, a, b, ips, dps);
      LeavesThenZeros(cache, resSize);
    }

    /** Adds the leaves of two numbers, or subtracts those of the lesser one (this one if `swp`). */
    method SumIntoCache(other: Number, ips: int, dps: int, ghost a: Numeral, ghost b: Numeral)
      returns (sub: bool, swp: bool)
      requires Proper() && other.Proper() && (other == this || Apart(other)) && a == Contents() && b == other.Contents()
      requires ips == Max(a.integral, b.integral) && 0 <= dps <= Max(a.Fraction(), b.Fraction())
      modifies this`cache, cache
      ensures (cache == old(cache) || fresh(cache)) && ips + dps + 1 <= cache.Length && IsLeaves(cache[..ips + dps + 1])
      ensures HoldsLeaves(cache) && forall i :: ips + dps + 1 <= i < cache.Length ==> cache[i] == 0
      ensures sub == (negative != other.negative)
      ensures Magnitude(cache[..ips + dps + 1], dps) ==
        if !sub then Short(a, dps) + Short(b, dps)
        else if swp then Short(b, dps) - Short(a, dps)
        else Short(a, dps) - Short(b, dps)
    {
      sub := negative != other.negative;
      swp := false;
      if sub {
        var cmp := AbsoluteLower(other);
        swp := cmp < 0;
      }
      var first, second := if swp then other else this, if swp then this else other;
      AddIntoCache(first, second, ips, dps, sub, if swp then b else a, if swp then a else b);
    }

    /** Puts the sum of two numbers, cut off behind `dps` fractional leaves, in the place of this one. */
    method PutSum(other: Number, ips: int, dps: int, ghost a: Numeral, ghost b: Numeral)
      requires Proper() && other.Proper() && (other == this || Apart(other))
      requires a == Contents() && b == other.Contents()
      requires ips == Max(integralPartSize, other.integralPartSize)
      requires 0 <= dps <= Max(leafCount - integralPartSize, other.leafCount - other.integralPartSize)
      modifies this, cache
      ensures Stored() && precision == old(precision) && cache == old(canonical)
        && (canonical == old(cache) || fresh(canonical))
      ensures Contents().Value() == ShortSum(a, b, dps)
      ensures ClearBehind() && HoldsLeaves(canonical) && leafCount == ips + dps + 1 && integralPartSize == ips + 1
    {
      var sub, swp := SumIntoCache(other, ips, dps, a, b);
      var minus := if sub then (if negative then !swp else swp) else negative && other.negative;
      ghost var n := Numeral(cache[..ips + dps + 1], ips + 1, minus);
      SignedSum(a, b, dps, n, sub, swp);
      TakeCache(ips + dps + 1, ips + 1, minus);
      assert Contents() == n;
    }

    /** Adds a number; the leaves `w` of the sum before zeros in front and behind are removed stay in storage. */
    method AddNumbers(other: Number, ghost a: Numeral, ghost pa: nat, ghost b: Numeral, ghost pb: nat)
      returns (ghost w: Numeral)
      requires Fits() && other.Fits() && (other == this || Apart(other))
      requires a == Contents() && pa == precision && b == other.Contents() && pb == other.precision
        && SumDefined(a, pa, b, pb)
      requires Exact(a, pa) && Exact(b, pb) ==> ShortSum(a, b, SumPlaces(a, pa, b, pb)) == a.Value() + b.Value()
      modifies this, canonical, cache
      ensures Fits() && cache == old(canonical) && (canonical == old(cache) || fresh(canonical))
      ensures Contents().Value() == Sum(a, pa, b, pb)
      ensures Exact(a, pa) && Exact(b, pb) ==> Contents().Digits() < precision
      ensures w.WellFormed() && w.integral == Max(a.integral, b.integral) + 1 && w.Fraction() == SumPlaces(a, pa, b, pb)
      ensures w.Value() == ShortSum(a, b, w.Fraction()) && (w.Fraction() == 0 ==> Behind(w.leaves, 0))
      ensures PrecisionAfter(precision, SumPrecision(a, pa, b, pb), Exact(a, pa) && Exact(b, pb), w.Value(), Contents())
      ensures old(OnlyLeaves()) ==> OnlyLeaves()
    {
      hide Val, Magnitude, Pow, Fitted, ShortSum, Sum, SumPlaces, SumPrecision, PrecisionAfter;
      FittedSum(a, pa, b, pb);
      var ips := Max(integralPartSize, other.integralPartSize);
      var dps, exact := AdjustPrecision(other, a, pa, b, pb);
      SumPlacesBound(a, pa, b, pb);
      PutSum(other, ips, dps, a, b);
      w := Contents();
      Normalize(exact);
    }

    /** Adds a number, possibly itself. */
    method AddAssign(other: Number) returns (ghost w: Numeral)
      requires Valid() && other.Valid() && (other == this || Apart(other))
      modifies this, canonical, cache
      ensures Valid() && cache == old(canonical) && (canonical == old(cache) || fresh(canonical))
      ensures SumDefined(old(Contents()), old(precision), old(other.Contents()), old(other.precision))
      ensures Contents().Value() == Sum(old(Contents()), old(precision), old(other.Contents()), old(other.precision))
      ensures Exact(old(Contents()), old(precision)) && Exact(old(other.Contents()), old(other.precision)) ==>
        Contents().Digits() < precision
      ensures w.WellFormed() && w.integral == Max(old(integralPartSize), old(other.integralPartSize)) + 1
      ensures w.Fraction() == SumPlaces(old(Contents()), old(precision), old(other.Contents()), old(other.precision))
      ensures w.Value() == ShortSum(old(Contents()), old(other.Contents()), w.Fraction())
      ensures w.Fraction() == 0 ==> Behind(w.leaves, 0)
      ensures PrecisionAfter(precision,
        SumPrecision(old(Contents()), old(precision), old(other.Contents()), old(other.precision)),
        Exact(old(Contents()), old(precision)) && Exact(old(other.Contents()), old(other.precision)), w.Value(),
        Contents())
    {
      hide Val, Magnitude, Pow, SumPlaces, ShortSum, Sum, PrecisionAfter;
      ghost var a, b := Contents(), other.Contents();
      ExactPrecondition(a, precision, b, other.precision);
      w := AddNumbers(other, a, precision, b, other.precision);
    }

    /** Changes the sign of a number that is not zero. */
    method Negate()
      requires Proper()
      modifies this`negative
      ensures Proper() && Contents() == Negated(old(Contents()))
    {
      negative := !negative;
      if leafCount == 0 {
        negative := false;
      }
    }

    /** Subtracts another number. */
    method SubtractOther(other: Number)
      requires Valid() && other.Valid() && Apart(other)
      modifies this, canonical, cache
      ensures Valid() && cache == old(canonical) && (canonical == old(cache) || fresh(canonical))
      ensures SumDefined(Negated(old(Contents())), old(precision), other.Contents(), other.precision)
      ensures Contents().Value() == -Sum(Negated(old(Contents())), old(precision), other.Contents(), other.precision)
      ensures Exact(old(Contents()), old(precision)) && Exact(other.Contents(), other.precision) ==>
        Contents().Value() == old(Contents().Value()) - other.Contents().Value() && Exact(Contents(), precision)
      ensures DifferenceLeft(old(Contents()), old(precision), other.Contents(), other.precision, precision, Contents())
    {
      hide ShortSum, SumPlaces, SumPrecision, HasDigits, EndZeros;
      Negate();
      ghost var w := AddAssign(other);
      Negate();
    }

    /** Subtracts the number from itself: the change of the sign changes both operands, and it becomes twice itself. */
    method SubtractItself()
      requires Valid()
      modifies this, canonical, cache
      ensures Valid() && cache == old(canonical) && (canonical == old(cache) || fresh(canonical))
      ensures Contents().Value() == 2.0 * old(Contents().Value())
    {
      hide Sum, ShortSum, SumPlaces, SumPrecision, Val, Magnitude;
      ghost var c := Negated(Contents());
      Doubled(c, precision);
      Negate();
      ghost var _ := AddAssign(this);
      Negate();
    }

    /** Subtracts a number, which changes its own sign and adds: for the number itself that is not a subtraction. */
    method SubtractAssign(other: Number)
      requires Valid() && other.Valid() && (other == this || Apart(other))
      modifies this, canonical, cache
      ensures Valid() && cache == old(canonical) && (canonical == old(cache) || fresh(canonical))
      ensures other != this ==> SumDefined(Negated(old(Contents())), old(precision), other.Contents(), other.precision)
      ensures other != this ==>
        Contents().Value() == -Sum(Negated(old(Contents())), old(precision), other.Contents(), other.precision)
      ensures other != this && Exact(old(Contents()), old(precision)) && Exact(other.Contents(), other.precision) ==>
        Contents().Value() == old(Contents().Value()) - other.Contents().Value() && Exact(Contents(), precision)
      ensures other != this ==>
        DifferenceLeft(old(Contents()), old(precision), other.Contents(), other.precision, precision, Contents())
      ensures other == this ==> Contents().Value() == 2.0 * old(Contents().Value())
      ensures other == this ==>
        (Contents().Value() == old(Contents().Value()) - old(Contents().Value()) <==> old(leafCount) == 0)
    {
      hide Sum, SumDefined, Val, Magnitude, DifferenceLeft;
      if other == this {
        ZeroHasNoLeaves(Contents());
        SubtractItself();
      } else {
        SubtractOther(other);
      }
    }

    /** Multiplies leaves into the cleared cache. */
    method ProductIntoCache(n: Number, factor: Number, ghost x: seq<int>, ghost y: seq<int>)
      requires Proper() && n.Proper() && factor.Proper() && n.leafCount > 0 && factor.leafCount > 0
      requires cache != n.canonical && cache != factor.canonical
      requires x == n.Contents().leaves && y == factor.Contents().leaves
      modifies this`cache, cache
      ensures cache == old(cache) || fresh(cache)
      ensures |x| + |y| <= cache.Length && IsLeaves(cache[..|x| + |y|]) && Val(cache[..|x| + |y|]) == Val(x) * Val(y)
      ensures HoldsLeaves(cache)
    {
      hide Val, Pow;
      ClearLeaves(cache, 0, cache.Length);
      LeavesArePositive(n.Contents());
      LeavesArePositive(factor.Contents());
      MulMono(1, Val(x), Val(y));
      var count;
      cache, count := Karatsuba.Multiply(cache, n.canonical, 0, n.leafCount, factor.canonical, 0, factor.leafCount,
        x, y, Max(n.leafCount, factor.leafCount));
      LeavesThenZeros(cache, |x| + |y|);
    }

    /** The precision of a product, and whether the product is exact. */
    method AdjustProductPrecision(n: Number, factor: Number, ghost a: Numeral, ghost pa: int, ghost b: Numeral,
                                  ghost pb: int)
      returns (exact: bool)
      requires n.Fits() && factor.Fits()
      requires a == n.Contents() && pa == n.precision && b == factor.Contents() && pb == factor.precision
      modifies this`precision
      ensures precision == SumPrecision(a, pa, b, pb) >= 0
      ensures exact <==> Exact(a, pa) && Exact(b, pb)
    {
      var multiplierExact := n.IsExact();
      var factorExact := factor.IsExact();
      if n.leafCount - n.integralPartSize < factor.leafCount - factor.integralPartSize {
        precision := if multiplierExact then factor.precision else n.precision;
      } else {
        precision := if factorExact then n.precision else factor.precision;
      }
      exact := multiplierExact && factorExact;
    }

    /** Puts the product of two numbers, one of them this one, in the place of this one. */
    method PutProduct(n: Number, factor: Number, other: Number, ghost a: Numeral, ghost b: Numeral)
      requires Proper() && other.Proper() && leafCount > 0 && other.leafCount > 0 && (other == this || Apart(other))
      requires (n == other && factor == this) || (n == this && factor == other)
      requires a == n.Contents() && b == factor.Contents()
      modifies this, cache
      ensures Stored() && precision == old(precision) && cache == old(canonical)
        && (canonical == old(cache) || fresh(canonical))
      ensures Multiplies(Contents(), a, b) && HoldsLeaves(canonical)
    {
      hide Val, Pow, Magnitude;
      ProductIntoCache(n, factor, a.leaves, b.leaves);
      ghost var product := Numeral(cache[..|a.leaves| + |b.leaves|], a.integral + b.integral, a.negative != b.negative);
      assert Multiplies(product, a, b);
      TakeCache(leafCount + other.leafCount, integralPartSize + other.integralPartSize,
        !((n.negative && factor.negative) || !(n.negative || factor.negative)));
      assert Contents() == product;
    }

    /** Multiplies by a number, possibly itself; neither is zero. */
    method MultiplyLeaves(n: Number, factor: Number, other: Number, ghost a: Numeral, ghost pa: int, ghost b: Numeral,
                          ghost pb: int)
      requires Fits() && other.Fits() && leafCount > 0 && other.leafCount > 0 && (other == this || Apart(other))
      requires if other.leafCount < leafCount then n == other && factor == this else n == this && factor == other
      requires a == Contents() && pa == precision && b == other.Contents() && pb == other.precision
      modifies this, canonical, cache
      ensures Fits() && cache == old(canonical) && (canonical == old(cache) || fresh(canonical))
      ensures IsProduct(Contents().Value(), a, pa, b, pb)
      ensures ProductLeaves(a, pa, b, pb, precision, Contents())
      ensures Exact(a, pa) && Exact(b, pb) ==> Exact(Contents(), precision)
      ensures old(OnlyLeaves()) ==> OnlyLeaves()
    {
      hide ProductLeaves, IsProduct, Val, Magnitude, PrecisionAfter, TowardsZero;
      ghost var x, y := n.Contents(), factor.Contents();
      var exact := AdjustProductPrecision(n, factor, x, n.precision, y, factor.precision);
      PutProduct(n, factor, other, x, y);
      ghost var c := Contents();
      ghost var v := c.Value();
      Normalize(exact);
      assert Contents().Value() == Fitted(v, exact, ProductPrecision(a, pa, b, pb));
      RoundedProduct(c, Contents().Value(), a, pa, b, pb);
      ProductLeft(c, v, a, pa, b, pb, precision, Contents());
    }

    /** Multiplies by a number, possibly itself. */
    method MultiplyAssign(other: Number)
      requires Valid() && other.Valid() && (other == this || Apart(other))
      modifies this, canonical, cache
      ensures Valid() && KeepsStorage(old(canonical), old(cache))
      ensures IsProduct(Contents().Value(), old(Contents()), old(precision), old(other.Contents()),
        old(other.precision))
      ensures Exact(old(Contents()), old(precision)) && Exact(old(other.Contents()), old(other.precision)) ==>
        Exact(Contents(), precision)
      ensures if old(leafCount) == 0 || old(other.leafCount) == 0 then precision == old(precision) else
        ProductLeaves(old(Contents()), old(precision), old(other.Contents()), old(other.precision), precision,
          Contents())
    {
      hide ProductLeaves, IsProduct, Val, Magnitude;
      ghost var a, pa, b, pb := Contents(), precision, other.Contents(), other.precision;
      var n := if other.leafCount < leafCount then other else this;
      var factor := if other.leafCount < leafCount then this else other;
      if n.leafCount != 0 && factor.leafCount != 0 {
        MultiplyLeaves(n, factor, other, a, pa, b, pb);
      } else {
        ZeroProduct(a, pa, b, pb);
        leafCount, integralPartSize := 0, 0;
        negative := false;
        NoLeavesIsZero(Contents());
      }
    }

    /** Inserts a leaf in front. */
    method InsertLeading(leaf: int)
      requires Stored() && 0 <= leaf < LEAF
      modifies this, canonical
      ensures Stored() && cache == old(cache) && precision == old(precision)
        && (canonical == old(canonical) || fresh(canonical))
      ensures Contents() == Numeral([leaf] + old(Contents()).leaves, old(integralPartSize) + 1, old(negative))
      ensures Behind(old(canonical[..]), old(leafCount))
      ensures canonical == old(canonical) <==> old(leafCount) < old(canonical.Length)
      ensures old(HoldsLeaves(canonical)) ==> HoldsLeaves(canonical)
    {
      canonical := InsertFront(canonical, leafCount, leaf);
      integralPartSize := integralPartSize + 1;
      leafCount := leafCount + 1;
    }

    /** Multiplies the leaves in place; what is carried in front is returned. */
    method ScaleInPlace(leaf: int) returns (carrier: int, ghost r: seq<int>)
      requires Stored() && 0 <= leaf < LEAF
      modifies canonical
      ensures Stored() && 0 <= carrier < LEAF && r == canonical[..leafCount]
      ensures Val([carrier] + r) == leaf * Val(old(canonical[..leafCount]))
      ensures Behind(old(canonical[..]), leafCount)
      ensures old(HoldsLeaves(canonical)) ==> HoldsLeaves(canonical)
    {
      ghost var s := canonical[..leafCount];
      carrier, r := ScaleLeaves(canonical, 0, canonical, 0, leafCount, leaf, s);
      assert canonical[..leafCount] == r;
      ValFront(carrier, r);
    }

    /** Multiplies the leaves in place and drops zero leaves behind. */
    method ScaleAndTrim(leaf: int) returns (carrier: int, ghost z: nat)
      requires Stored() && 0 <= leaf < LEAF
      modifies this`leafCount, canonical
      ensures Stored() && leafCount + z == old(leafCount) && 0 <= carrier < LEAF
      ensures Val([carrier] + canonical[..leafCount]) * Pow(z) == leaf * Val(old(canonical[..leafCount]))
      ensures carrier == 0 ==> Val([carrier] + canonical[..leafCount]) == Val(canonical[..leafCount])
      ensures Behind(old(canonical[..]), old(leafCount))
      ensures leafCount > integralPartSize ==> canonical[leafCount - 1] != 0
      ensures old(HoldsLeaves(canonical)) ==> HoldsLeaves(canonical)
    {
      ghost var r;
      carrier, r := ScaleInPlace(leaf);
      StripTrailing();
      z := |r| - leafCount;
      CarriedLeaves(carrier, r, canonical[..leafCount], z);
    }

    /** Multiplies the leaves, drops zero leaves behind and puts a carry in front. */
    method ScaleAndCarry(leaf: int, ghost m: Numeral) returns (ghost z: nat)
      requires Stored() && 0 <= leaf < LEAF && m == Contents()
      modifies this, canonical
      ensures Stored() && cache == old(cache) && precision == old(precision)
      ensures canonical == old(canonical) || fresh(canonical)
      ensures negative == m.negative && Contents().Fraction() + z == m.Fraction()
      ensures Val(Contents().leaves) * Pow(z) == leaf * Val(m.leaves) && integralPartSize >= m.integral
      ensures Behind(old(canonical[..]), old(leafCount)) && (old(HoldsLeaves(canonical)) ==> HoldsLeaves(canonical))
      ensures leafCount > integralPartSize ==> canonical[leafCount - 1] != 0
      ensures leaf > 0 && (m.integral > 0 ==> m.leaves[0] != 0) && integralPartSize > 0 ==> canonical[0] != 0
    {
      hide Val, Pow, Magnitude, HoldsLeaves, IsLeaves;
      var carrier;
      carrier, z := ScaleAndTrim(leaf);
      if carrier > 0 {
        InsertLeading(carrier);
      } else if leaf > 0 {
        LeadingKept(m.leaves, canonical[..leafCount], z, leaf);
      }
    }

    /** Multiplies by a single leaf. */
    method MultiplyByLeaf(leaf: int)
      requires Stored() && 0 <= leaf < LEAF
      modifies this, canonical
      ensures Stored() && cache == old(cache) && precision == old(precision)
      ensures canonical == old(canonical) || fresh(canonical)
      ensures Times(Contents(), old(Contents()), leaf) && Contents().Fraction() <= old(Contents().Fraction())
      ensures integralPartSize >= old(integralPartSize)
      ensures Behind(old(canonical[..]), old(leafCount)) && (old(HoldsLeaves(canonical)) ==> HoldsLeaves(canonical))
      ensures leafCount > integralPartSize ==> canonical[leafCount - 1] != 0
      ensures leaf > 0 && old(integralPartSize > 0 ==> canonical[0] != 0) && integralPartSize > 0 ==> canonical[0] != 0
    {
      ghost var m := Contents();
      if leafCount > 0 {
        ghost var z := ScaleAndCarry(leaf, m);
        TimesByLeaf(Contents(), m, z, leaf);
      }
    }

    /** Puts zeros in front so that the point is `zeros` leaves in front of the leaves. */
    method PadFront(zeros: int, ghost s: seq<int>)
      requires 0 <= leafCount <= canonical.Length && canonical != cache && zeros > 0 && 0 <= precision
      requires s == canonical[..leafCount] && IsLeaves(s)
      modifies this, canonical
      ensures Stored() && cache == old(cache) && precision == old(precision)
        && (canonical == old(canonical) || fresh(canonical))
      ensures Contents() == Numeral(Zeros(zeros) + s, 0, old(negative))
      ensures old(HoldsLeaves(canonical)) ==> HoldsLeaves(canonical)
    {
      canonical := ShiftUp(canonical, leafCount, zeros);
      ClearLeaves(canonical, 0, zeros);
      Joined(canonical[..], Zeros(zeros), s);
      leafCount := leafCount + zeros;
      integralPartSize := 0;
    }

    /** Makes the leaves as many as the integral part has, with leaves as found in storage. */
    method Widen(count: int, ghost s: seq<int>)
      requires 0 <= leafCount < count == integralPartSize && leafCount <= canonical.Length && canonical != cache
        && 0 <= precision
      requires s == canonical[..leafCount] + Stale(canonical[..], leafCount, count - leafCount) && IsLeaves(s)
      modifies this`canonical, this`leafCount, canonical
      ensures Stored() && cache == old(cache) && precision == old(precision)
        && (canonical == old(canonical) || fresh(canonical))
      ensures Contents() == Numeral(s, count, old(negative))
      ensures old(HoldsLeaves(canonical)) ==> HoldsLeaves(canonical)
    {
      leafCount := count;
      canonical := Realloc(canonical, leafCount);
      assert canonical[..count] == s;
    }

    /** Moves the point by `shift` leaves, with leaves as found in storage. */
    method MovePoint(shift: int, ghost w: Numeral)
      requires Stored() && leafCount > 0 && w == Widened(Contents(), canonical[..], shift) && w.WellFormed()
      modifies this, canonical
      ensures Stored() && cache == old(cache) && precision == old(precision) && negative == old(negative)
        && leafCount > 0
      ensures canonical == old(canonical) || fresh(canonical)
      ensures Val(Contents().leaves) == Val(w.leaves) && Contents().Fraction() == w.Fraction() - shift
      ensures old(HoldsLeaves(canonical)) ==> HoldsLeaves(canonical)
    {
      hide Val, Pow;
      if shift != 0 {
        integralPartSize := integralPartSize + shift;
        if integralPartSize < 0 {
          ValBehindZeros(-integralPartSize, w.leaves);
          PadFront(-integralPartSize, w.leaves);
        } else if integralPartSize > leafCount {
          Widen(integralPartSize, w.leaves);
        }
      }
    }

    /** Divides the leaves in place; returns what remains. */
    method DivideInPlace(leaf: int) returns (rest: int)
      requires Stored() && 1 <= leaf
      modifies canonical
      ensures Stored() && DividedByLeaf(Val(old(canonical[..leafCount])), canonical[..leafCount], leaf, rest)
      ensures old(HoldsLeaves(canonical)) ==> HoldsLeaves(canonical)
    {
      ghost var s := canonical[..leafCount];
      rest := 0;
      assert canonical[..0] == [] == s[..0];
      for i := 0 to leafCount
        invariant DividedByLeaf(Val(s[..i]), canonical[..i], leaf, rest)
        invariant forall j :: i <= j < leafCount ==> canonical[j] == s[j]
        invariant old(HoldsLeaves(canonical)) ==> HoldsLeaves(canonical)
      {
        ghost var q := canonical[..i];
        NextQuotientLeaf(Val(s[..i]), q, leaf, rest, s[i]);
        var x := rest * LEAF + canonical[i];
        canonical[i] := x / leaf;
        rest := x % leaf;
        assert canonical[..i + 1] == q + [x / leaf];
        assert s[..i + 1][..i] == s[..i];
      }
      assert s[..leafCount] == s;
    }

    /** Appends one quotient leaf. */
    method AppendQuotientLeaf(leaf: int, rest0: int, ghost w: int) returns (rest: int)
      requires Stored() && DividedByLeaf(w, canonical[..leafCount], leaf, rest0)
      modifies this`canonical, this`leafCount, canonical
      ensures Stored() && (canonical == old(canonical) || fresh(canonical)) && leafCount == old(leafCount) + 1
      ensures DividedByLeaf(w * LEAF, canonical[..leafCount], leaf, rest)
      ensures old(HoldsLeaves(canonical)) ==> HoldsLeaves(canonical)
    {
      hide Val, Pow;
      ghost var q := canonical[..leafCount];
      NextQuotientLeaf(w, q, leaf, rest0, 0);
      canonical := Realloc(canonical, leafCount + 1);
      var x := rest0 * LEAF;
      canonical[leafCount] := x / leaf;
      rest := x % leaf;
      leafCount := leafCount + 1;
      assert canonical[..leafCount] == q + [x / leaf];
    }

    /** Appends quotient leaves until nothing remains or the fraction is long enough. */
    method AppendQuotientLeaves(leaf: int, rest0: int, required: int, ghost w: int) returns (rest: int, ghost k: nat)
      requires Stored() && DividedByLeaf(w, canonical[..leafCount], leaf, rest0)
      modifies this`canonical, this`leafCount, canonical
      ensures Stored() && (canonical == old(canonical) || fresh(canonical)) && leafCount == old(leafCount) + k
      ensures DividedByLeaf(Raised(w, k), canonical[..leafCount], leaf, rest)
      ensures rest == 0 || leafCount - integralPartSize >= required
      ensures old(HoldsLeaves(canonical)) ==> HoldsLeaves(canonical)
    {
      rest, k := rest0, 0;
      while rest != 0 && leafCount - integralPartSize < required
        invariant Stored() && leafCount == old(leafCount) + k
        invariant canonical == old(canonical) || fresh(canonical)
        invariant DividedByLeaf(Raised(w, k), canonical[..leafCount], leaf, rest)
        invariant old(HoldsLeaves(canonical)) ==> HoldsLeaves(canonical)
        decreases required - (leafCount - integralPartSize)
      {
        rest := AppendQuotientLeaf(leaf, rest, Raised(w, k));
        k := k + 1;
      }
    }

    /** The quotient of the dividend `w`, as read from storage, by a single leaf, `shift` places behind the point. */
    method QuotientByLeaf(leaf: int, shift: int, required: int, ghost w: Numeral) returns (rest: int, ghost k: nat)
      requires Stored() && leafCount > 0 && w == Widened(Contents(), canonical[..], shift) && w.WellFormed()
        && leaf >= 1
      modifies this, canonical
      ensures Stored() && cache == old(cache) && precision == old(precision) && negative == old(negative)
      ensures canonical == old(canonical) || fresh(canonical)
      ensures DividedByLeaf(Raised(Val(w.leaves), k), Contents().leaves, leaf, rest)
      ensures Contents().Fraction() == w.Fraction() - shift + k && (rest == 0 || Contents().Fraction() >= required)
      ensures old(HoldsLeaves(canonical)) ==> HoldsLeaves(canonical)
    {
      hide Val, Pow, Raised, Widened;
      MovePoint(shift, w);
      rest := DivideInPlace(leaf);
      if canonical[0] == 0 && integralPartSize > 0 {
        ValLeadingZeros(canonical[..leafCount], 1);
        DropLeading(1);
      }
      rest, k := AppendQuotientLeaves(leaf, rest, required, Val(w.leaves));
    }

    /** Divides by a single leaf, `shift` places behind the point, that `b` stands for; `q` is the
        quotient before its digits are fitted to the precision. The dividend is `w`, as read from storage. */
    method DivideByLeaf(leaf0: int, shift: int, ghost b: Numeral, ghost w: Numeral, ghost zeros: nat)
      returns (ghost q: Numeral, exact: bool)
      requires Stored() && leafCount > 0 && w == Widened(Contents(), canonical[..], shift) && w.WellFormed()
      requires b.WellFormed() && b.negative == (leaf0 < 0) && leaf0 != 0 && -LEAF < leaf0 < LEAF
      requires Val(b.leaves) == (if leaf0 < 0 then -leaf0 else leaf0) * Pow(zeros) && shift == b.Fraction() - zeros
      modifies this, canonical
      ensures Fits() && cache == old(cache) && (canonical == old(canonical) || fresh(canonical))
      ensures Quotient(w, b, q, exact) && (exact || q.Fraction() >= LeavesFor(old(precision)))
      ensures exact <==> ComesOut(w, b, q.Fraction())
      ensures Contents().Value() == Fitted(q.Value(), exact, old(precision))
      ensures PrecisionAfter(precision, old(precision), exact, q.Value(), Contents())
      ensures old(HoldsLeaves(canonical)) ==> HoldsLeaves(canonical)
    {
      var negativeDivisor := leaf0 < 0;
      var leaf := if leaf0 < 0 then -leaf0 else leaf0;
      var required := LeavesFor(precision);
      var rest;
      ghost var k;
      rest, k := QuotientByLeaf(leaf, shift, required, w);
      negative := !((negative && negativeDivisor) || !(negative || negativeDivisor));
      q := Contents();
      exact := rest == 0;
      RaisedIsProduct(Val(w.leaves), k);
      QuotientBySingleLeaf(w, b, q, leaf, zeros, k, rest);
      Normalize(exact);
    }

    /** The first leaves of the dividend, as many as the divisor has. */
    method TakeSample(n: nat) returns (sample: array<int>, len: nat, lead: nat, ghost s: seq<int>)
      requires Stored() && n >= 2 && Val(canonical[..leafCount]) >= 1
      ensures fresh(sample) && sample.Length == n + 1 && 0 < len <= n && lead + len <= leafCount
      ensures s == sample[..len] && s[0] != 0 && IsLeaves(s)
        && Val(Prefix(canonical[..leafCount], lead + len)) == Val(s)
    {
      hide Val, Prefix;
      ghost var a := canonical[..leafCount];
      lead := FrontZeros(canonical, leafCount, a);
      FirstIsLeading(a, lead);
      len := if leafCount - lead < n then leafCount - lead else n;
      sample := new int[n + 1];
      CopyLeaves(sample, 0, canonical, lead, len);
      s := a[lead..lead + len];
      SliceOfPrefix(canonical[..], leafCount, lead, lead + len);
      assert forall i :: 0 <= i < len ==> s[i] == canonical[lead + i];
      SampleOfPrefix(a, lead, len);
    }

    /** The number of leaves without the zero leaves behind. */
    method TrimmedCount() returns (count: int, ghost t: seq<int>)
      requires Stored() && Val(canonical[..leafCount]) >= 1
      ensures 0 < count <= leafCount && t == canonical[..count] && Trimmed(t)
      ensures forall i :: count <= i < leafCount ==> canonical[i] == 0
    {
      count := leafCount;
      ghost var a := canonical[..leafCount];
      assert a != [];
      if forall i :: 0 <= i < leafCount ==> canonical[i] == 0 {
        assert a == Zeros(leafCount);
        ValZeros(leafCount);
      }
      while canonical[count - 1] == 0
        invariant 0 < count <= leafCount
        invariant forall i :: count <= i < leafCount ==> canonical[i] == 0
        decreases count
      {
        count := count - 1;
      }
      t := canonical[..count];
    }

    /** Leading zero leaves of a quotient that starts behind the point. */
    method StartQuotient(integralPart0: int) returns (count: nat, integralPart: nat)
      requires Stored()
      modifies this`cache, cache
      ensures (cache == old(cache) || fresh(cache)) && count <= cache.Length && forall i :: 0 <= i < count ==>
        cache[i] == 0
      ensures count - integralPart == -integralPart0 && integralPart >= 0
      ensures old(HoldsLeaves(cache)) ==> HoldsLeaves(cache)
    {
      count, integralPart := 0, if integralPart0 < 0 then 0 else integralPart0;
      if integralPart0 < 0 {
        cache := Realloc(cache, -integralPart0);
        ClearLeaves(cache, 0, -integralPart0);
        count := -integralPart0;
      }
    }

    /** Puts the quotient in place, with zeros up to the point. */
    method PutQuotient(quotient: array<int>, count: nat, integralPart: nat, ghost ql: seq<int>) returns (ghost pad: nat)
      requires canonical != quotient && 0 < count <= quotient.Length && quotient[..count] == ql && IsLeaves(ql)
      modifies this, quotient
      ensures cache == old(canonical) && (canonical == quotient || fresh(canonical)) && precision == old(precision)
        && negative == old(negative)
      ensures pad == (if integralPart > count then integralPart - count else 0) && integralPartSize == integralPart
      ensures leafCount == count + pad <= canonical.Length && canonical[..leafCount] == ql + Zeros(pad)
      requires 0 <= precision
      ensures Stored()
      ensures old(HoldsLeaves(quotient)) ==> HoldsLeaves(canonical)
    {
      integralPartSize := integralPart;
      leafCount := if integralPart > count then integralPart else count;
      pad := leafCount - count;
      cache := Realloc(quotient, leafCount);
      assert cache[..count] == ql;
      if count < leafCount {
        ClearLeaves(cache, count, leafCount - count);
      }
      canonical, cache := cache, canonical;
      assert canonical[..leafCount] == ql + Zeros(pad);
    }

    /** The leaves of the quotient, for a divisor `d` whose last leaf is `n` - `shift` places behind the point. */
    method QuotientLeaves(divisor: array<int>, off: nat, n: nat, shift: int, required: int, ghost b: Numeral,
                          ghost d: seq<int>, ghost zeros: nat)
      returns (ghost k: nat, ghost s: seq<int>, ghost t: seq<int>, ghost ql: seq<int>, ghost pad: nat, exact: bool)
      requires Stored() && Val(canonical[..leafCount]) >= 1 && divisor != canonical && divisor != cache
      requires |d| == n && off + n <= divisor.Length && d == divisor[off..off + n] && Normalised(d)
      requires b.WellFormed() && b.Fraction() == zeros + n - shift && required >= 0
      modifies this, cache
      ensures Stored() && cache == old(canonical) && (canonical == old(cache) || fresh(canonical))
      ensures precision == old(precision) && negative == old(negative)
      ensures |t| <= old(leafCount) && t == old(canonical[..leafCount])[..|t|]
      ensures forall i :: |t| <= i < old(leafCount) ==> old(canonical[..leafCount])[i] == 0
      ensures Divided(t, k, ql, Val(d), s) && 0 <= Val(s) < Val(d) && Contents().leaves == ql + Zeros(pad)
        && (pad > 0 ==> exact)
      ensures Contents().Fraction() + b.Fraction() + old(leafCount)
        == old(leafCount - integralPartSize) + k + pad + zeros
      ensures (exact ==> Val(s) == 0 && |t| <= k) && (exact || (Contents().Fraction() >= required && Goes(ql, s)))
      ensures old(HoldsLeaves(cache)) ==> HoldsLeaves(canonical)
    {
      var sample, len, lead;
      ghost var s0;
      sample, len, lead, s0 := TakeSample(n);
      var leaves;
      leaves, t := TrimmedCount();
      SamePrefix(canonical[..leafCount], t, lead + len);
      var count, integralPart := StartQuotient(integralPartSize - shift - lead);
      var quotient;
      quotient, count, integralPart, exact, k, s := Rounds(sample, len, canonical, leaves, lead, divisor, off, n,
        cache, count, integralPart + 1, required, t, s0, d);
      ql := quotient[..count];
      pad := PutQuotient(quotient, count, integralPart, ql);
    }

    /** The precision of a long division and the number of fractional leaves it requires. */
    method AdjustQuotientPrecision(divisor: Number, ghost a: Numeral, ghost pa: int, ghost b: Numeral, ghost pb: int)
      returns (required: int, exact: bool)
      requires Stored() && divisor.Stored() && divisor != this
      requires a == Contents() && pa == precision && b == divisor.Contents() && pb == divisor.precision && 0 <= pb
      modifies this`precision
      ensures Stored() && Contents() == a && (exact <==> Exact(a, pa) && Exact(b, pb))
      ensures !OneLeaf(b.leaves) ==> 0 <= precision == QuotientPrecision(a, pa, b, pb)
      ensures !OneLeaf(b.leaves) ==> required == QuotientPlaces(a, pa, b, pb)
      ensures required >= 0
    {
      var newPrecision;
      var dividendExact := IsExact();
      var divisorExact := divisor.IsExact();
      exact := dividendExact && divisorExact;
      if exact {
        newPrecision := precision + divisor.precision;
      } else {
        newPrecision := if precision < divisor.precision then precision else divisor.precision;
        precision := newPrecision;
      }
      required := LeavesFor(newPrecision);
    }

    /** The quotient by the leaves [off, off + n) of a normalised divisor, with leaves up to the `required` place. */
    method LongQuotientLeaves(divisor: Number, off: nat, n: nat, shift: int, required: int, ghost d: seq<int>,
                              ghost zeros: nat)
      returns (exact: bool)
      requires Stored() && Val(Contents().leaves) >= 1 && divisor.Stored() && Apart(divisor) && required >= 0
      requires |d| == n && off + n <= divisor.canonical.Length && d == divisor.canonical[off..off + n] && Normalised(d)
      requires divisor.Contents().Fraction() == zeros + n - shift
        && Val(divisor.Contents().leaves) == Val(d) * Pow(zeros)
      modifies this, cache
      ensures Stored() && cache == old(canonical) && (canonical == old(cache) || fresh(canonical))
        && precision == old(precision)
      ensures Quotient(old(Contents()), old(divisor.Contents()), Contents(), exact)
      ensures exact || Contents().Fraction() >= required
      ensures exact || StillGoes(old(Contents()), old(divisor.Contents()), Contents())
      ensures old(HoldsLeaves(cache)) ==> HoldsLeaves(canonical)
    {
      ghost var a, b := Contents(), divisor.Contents();
      ghost var k, s, t, ql, pad;
      k, s, t, ql, pad, exact := QuotientLeaves(divisor.canonical, off, n, shift, required, b, d, zeros);
      negative := !((negative && divisor.negative) || !(negative || divisor.negative));
      LongQuotient(a, t, b, Contents(), ql, k, Val(d), s, zeros, pad, exact);
    }

    /** Divides by the leaves [off, off + n) of a normalised divisor. */
    method DivideLong(divisor: Number, off: nat, n: nat, shift: int, ghost d: seq<int>, ghost zeros: nat)
      returns (ghost q: Numeral, ghost exact: bool)
      requires Stored() && Val(Contents().leaves) >= 1 && divisor.Stored() && Apart(divisor)
      requires |d| == n && off + n <= divisor.canonical.Length && d == divisor.canonical[off..off + n] && Normalised(d)
      requires divisor.Contents().Fraction() == zeros + n - shift
        && Val(divisor.Contents().leaves) == Val(d) * Pow(zeros)
      requires !OneLeaf(divisor.Contents().leaves)
      modifies this, canonical, cache
      ensures Fits() && cache == old(canonical) && (canonical == old(cache) || fresh(canonical))
      ensures Divides(old(Contents()), old(precision), old(divisor.Contents()), old(divisor.precision),
        old(canonical[..]), q, exact, Contents().Value())
      ensures QuotientLeft(old(Contents()), old(precision), old(divisor.Contents()), old(divisor.precision), q, exact,
        precision, Contents())
      ensures old(OnlyLeaves()) ==> OnlyLeaves()
    {
      ghost var a, pa, b, pb := Contents(), precision, divisor.Contents(), divisor.precision;
      var required, operandsExact := AdjustQuotientPrecision(divisor, a, pa, b, pb);
      ghost var store, p := canonical[..], precision;
      var ex := LongQuotientLeaves(divisor, off, n, shift, required, d, zeros);
      q, exact := Contents(), ex;
      assert Quotient(a, b, q, exact);
      ghost var x := q.Value();
      Normalize(ex && operandsExact);
      assert Contents().Value() == Fitted(x, exact && operandsExact, p);
      LongDivides(a, pa, b, pb, store, q, exact, operandsExact, p, Contents().Value());
    }

    /** The number of leaves of a divisor without zeros in front and behind. */
    method StripDivisor() returns (lead: nat, n: nat, zeros: nat)
      requires Stored() && Val(Contents().leaves) >= 1 && FractionTrimmed(Contents())
      requires integralPartSize > 0 ==> canonical[0] != 0
      ensures StripsTo(lead, n, zeros)
    {
      hide Val, Pow;
      ghost var s := canonical[..leafCount];
      lead := LeadingZeros(canonical, 0, leafCount);
      FirstIsLeading(s, lead);
      n := leafCount - lead;
      zeros := 0;
      while canonical[lead + n - 1] == 0
        invariant n >= 1 && lead + n + zeros == leafCount
        invariant forall i :: lead + n <= i < leafCount ==> canonical[i] == 0
        decreases n
      {
        n := n - 1;
        zeros := zeros + 1;
      }
      StrippedValue(s, lead, n, zeros);
      RunOfLeaves(canonical[..], s, lead, n);
    }

    /** Divides by a divisor that has one leaf besides zeros in front and behind. */
    method DivideBySingle(divisor: Number, lead: nat, zeros: nat) returns (ghost q: Numeral, ghost exact: bool)
      requires Stored() && Val(Contents().leaves) >= 1 && Apart(divisor) && divisor.StripsTo(lead, 1, zeros)
      requires divisor.integralPartSize > 0 || HoldsLeaves(canonical)
      modifies this, canonical
      ensures Fits() && cache == old(cache) && (canonical == old(canonical) || fresh(canonical))
      ensures Divides(old(Contents()), old(precision), old(divisor.Contents()), old(divisor.precision),
        old(canonical[..]), q, exact, Contents().Value())
      ensures QuotientLeft(old(Contents()), old(precision), old(divisor.Contents()), old(divisor.precision), q, exact,
        precision, Contents())
      ensures old(HoldsLeaves(canonical)) ==> HoldsLeaves(canonical)
    {
      ghost var a, b, store := Contents(), divisor.Contents(), canonical[..];
      divisor.StripsToOne(lead, 1, zeros);
      ValOfLeaf(divisor.canonical[lead..lead + 1]);
      assert b.leaves[lead] == divisor.canonical[lead];
      var shift: int := lead as int - zeros as int + if divisor.integralPartSize > 0 then 0 else 1;
      ghost var w := Widened(a, store, shift);
      WidenedAlike(a, store, shift, b.Fraction());
      q, exact := DivideByLeaf(divisor.canonical[lead] * (if divisor.negative then -1 else 1), shift, b, w, zeros);
    }

    /** Divides by a normalised divisor, whose first non-zero leaf is at least half of LEAF. */
    method DivideNormalised(divisor: Number, ghost first: int) returns (ghost q: Numeral, ghost exact: bool)
      requires Stored() && Val(Contents().leaves) >= 1 && Apart(divisor) && divisor.NormalDivisor(first)
      requires divisor.integralPartSize > 0 || HoldsLeaves(canonical)
      modifies this, canonical, cache
      ensures Fits() && KeepsStorage(old(canonical), old(cache))
      ensures Divides(old(Contents()), old(precision), old(divisor.Contents()), old(divisor.precision),
        old(canonical[..]), q, exact, Contents().Value())
      ensures QuotientLeft(old(Contents()), old(precision), old(divisor.Contents()), old(divisor.precision), q, exact,
        precision, Contents())
      ensures old(OnlyLeaves()) ==> OnlyLeaves()
    {
      hide Val, Pow, Divides, QuotientLeft;
      var lead, n, zeros := divisor.StripDivisor();
      assert lead == first;
      if n == 1 {
        q, exact := DivideBySingle(divisor, lead, zeros);
      } else {
        q, exact := DivideByRun(divisor, lead, n, zeros);
      }
    }

    /** Divides by a normalised divisor of several leaves, zeros in front and behind aside. */
    method DivideByRun(divisor: Number, lead: nat, n: nat, zeros: nat) returns (ghost q: Numeral, ghost exact: bool)
      requires Stored() && Val(Contents().leaves) >= 1 && Apart(divisor)
      requires n >= 2 && divisor.NormalDivisor(lead) && divisor.StripsTo(lead, n, zeros)
      modifies this, canonical, cache
      ensures Fits() && KeepsStorage(old(canonical), old(cache))
      ensures Divides(old(Contents()), old(precision), old(divisor.Contents()), old(divisor.precision),
        old(canonical[..]), q, exact, Contents().Value())
      ensures QuotientLeft(old(Contents()), old(precision), old(divisor.Contents()), old(divisor.precision), q, exact,
        precision, Contents())
      ensures old(OnlyLeaves()) ==> OnlyLeaves()
    {
      var shift := divisor.integralPartSize - if divisor.integralPartSize > 0 then 0 else lead;
      ghost var d, b := divisor.canonical[lead..lead + n], divisor.Contents();
      divisor.StripsToOne(lead, n, zeros);
      RunOfLeaves(divisor.canonical[..], b.leaves, lead, n);
      assert b.leaves[lead] == divisor.canonical[lead];
      q, exact := DivideLong(divisor, lead, n, shift, d, zeros);
    }

    /** Zero, with storage that is empty. */
    constructor (precision: nat)
      ensures Valid() && Contents() == Numeral([], 0, false) && this.precision == precision
      ensures fresh(canonical) && fresh(cache) && ClearBehind() && canonical.Length == 0
    {
      this.precision, leafCount, integralPartSize, negative := precision, 0, 0, false;
      canonical, cache := new int[0], new int[0];
    }

    /** Copies a number. */
    constructor Copy(source: Number)
      requires source.Stored()
      ensures Stored() && Contents() == source.Contents() && precision == source.precision
      ensures fresh(canonical) && fresh(cache) && ClearBehind() && HoldsLeaves(canonical)
      ensures canonical.Length == leafCount
      ensures source.OnlyLeaves() ==> OnlyLeaves()
    {
      precision, leafCount, integralPartSize, negative := source.precision, source.leafCount, source.integralPartSize,
        source.negative;
      canonical := new int[if source.leafCount > 0 then source.leafCount else 0](_ => 0);
      cache := new int[if source.leafCount > 0 then source.cache.Length else 0](_ => 0);
      new;
      CopyLeaves(canonical, 0, source.canonical, 0, leafCount);
      CopyLeaves(cache, 0, source.cache, 0, cache.Length);
      assert canonical[..leafCount] == source.canonical[..leafCount];
    }

    /** The factor that makes the first leaf of this divisor large. */
    method FindNormalizator() returns (test: nat, normalizator: int)
      requires Proper() && leafCount > 0
      ensures StartsAt(test)
      ensures normalizator == LEAF / (canonical[test] + 1) && 1 <= normalizator < LEAF
        && normalizator * canonical[test] >= LEAF / 2
      ensures Factor(Contents()) == if leafCount == 1 then 1 else normalizator
    {
      ghost var s := canonical[..leafCount];
      LeavesArePositive(Contents());
      test := LeadingZeros(canonical, 0, leafCount);
      assert forall i :: 0 <= i < test ==> s[i] == canonical[i];
      FirstIsLeading(s, test);
      assert s[test] == canonical[test];
      FirstLeafAt(s, test);
      normalizator := LEAF / (canonical[test] + 1);
      Normalizator(canonical[test], normalizator);
    }

    /** Multiplies a divisor so that its first leaf that is not zero is at least half of LEAF. */
    method Enlarge(normalizator: int, ghost test: int) returns (ghost first: nat)
      requires Proper() && StartsAt(test)
      requires normalizator == LEAF / (canonical[test] + 1) && 1 <= normalizator < LEAF
      modifies this, canonical
      ensures NormalDivisor(first) && Times(Contents(), old(Contents()), normalizator)
      ensures cache == old(cache) && (canonical == old(canonical) || fresh(canonical))
      ensures integralPartSize >= old(integralPartSize) && precision == old(precision)
    {
      hide Val, Pow, Times;
      ghost var b := Contents();
      assert forall i :: 0 <= i < |b.leaves| ==> b.leaves[i] == canonical[i];
      MultiplyByLeaf(normalizator);
      ghost var c := Contents();
      first := NormalisedDivisor(c, b, test, normalizator);
      assert forall i :: 0 <= i < |c.leaves| ==> c.leaves[i] == canonical[i];
    }

    /** A multiple of a divisor whose first leaf is large. */
    method NormalisedCopy(other: Number, normalizator: int, ghost test: int) returns (copy: Number, ghost first: nat)
      requires other.Proper() && other.StartsAt(test)
      requires normalizator == LEAF / (other.canonical[test] + 1) && 1 <= normalizator < LEAF
      ensures fresh(copy) && fresh(copy.canonical) && fresh(copy.cache) && copy.NormalDivisor(first)
      ensures Times(copy.Contents(), other.Contents(), normalizator)
      ensures copy.integralPartSize >= other.integralPartSize && copy.precision == other.precision
    {
      hide Val, Pow, Times;
      copy := new Number.Copy(other);
      assert forall i :: 0 <= i < other.leafCount ==> copy.Contents().leaves[i] == other.Contents().leaves[i];
      first := copy.Enlarge(normalizator, test);
    }

    /** Multiplies this number by a factor; what is read behind it stays the same. */
    method MultiplyDividend(normalizator: int) returns (ghost a2: Numeral)
      requires Fits() && leafCount > 0 && 1 <= normalizator < LEAF
      modifies this, canonical
      ensures Stored() && cache == old(cache) && precision == old(precision)
        && (canonical == old(canonical) || fresh(canonical))
      ensures a2 == Contents() && Val(a2.leaves) >= 1 && (old(HoldsLeaves(canonical)) ==> HoldsLeaves(canonical))
      ensures Times(a2, old(Contents()), normalizator) && FractionTrimmed(a2)
      ensures ReadsAlike(a2, canonical[..], Masked(old(canonical[..]), old(leafCount)))
    {
      ghost var a, store, count := Contents(), canonical[..], leafCount;
      LeavesArePositive(a);
      MultiplyByLeaf(normalizator);
      a2 := Contents();
      PositiveTimes(a2, a, normalizator);
      ReadBehind(a2, canonical[..], store, count);
    }

    /** Divides by a normalised divisor, whatever the storage holds in places that are not read. */
    method DivideAsRead(divisor: Number, ghost first: int, ghost a: Numeral, ghost pa: nat, ghost b: Numeral,
                        ghost pb: nat,
                        ghost store: seq<int>)
      returns (ghost q: Numeral, ghost exact: bool)
      requires Stored() && Val(Contents().leaves) >= 1 && Apart(divisor) && divisor.NormalDivisor(first)
      requires divisor.integralPartSize > 0 || HoldsLeaves(canonical)
      requires a == Contents() && pa == precision && b == divisor.Contents() && pb == divisor.precision
      requires ReadsAlike(a, canonical[..], store)
      modifies this, canonical, cache
      ensures Fits() && KeepsStorage(old(canonical), old(cache))
      ensures Divides(a, pa, b, pb, store, q, exact, Contents().Value())
      ensures QuotientLeft(a, pa, b, pb, q, exact, precision, Contents())
      ensures old(OnlyLeaves()) ==> OnlyLeaves()
    {
      hide Val, Divides, ReadsAlike, QuotientLeft;
      ghost var now := canonical[..];
      q, exact := DivideNormalised(divisor, first);
      SameRead(a, pa, b, pb, now, store, q, exact, Contents().Value());
    }

    /** Divides both operands multiplied by a factor that makes the first leaf of the divisor large. */
    method DivideMultiplied(other: Number, normalizator: int, ghost test: int)
      returns (ghost a2: Numeral, ghost b2: Numeral, ghost q: Numeral, ghost exact: bool)
      requires Fits() && other.Fits() && Apart(other) && leafCount > 0 && other.StartsAt(test)
      requires other.integralPartSize > 0 || HoldsLeaves(canonical)
      requires normalizator == LEAF / (other.canonical[test] + 1) == Factor(other.Contents())
        && 2 <= normalizator < LEAF
      modifies this, canonical, cache
      ensures Fits() && KeepsStorage(old(canonical), old(cache))
      ensures Operands(old(Contents()), old(other.Contents()), a2, b2)
      ensures Divides(a2, old(precision), b2, old(other.precision), Masked(old(canonical[..]), old(leafCount)), q,
        exact, Contents().Value())
      ensures QuotientLeft(a2, old(precision), b2, old(other.precision), q, exact, precision, Contents())
      ensures old(OnlyLeaves()) ==> OnlyLeaves()
    {
      hide Val, Divides, ReadsAlike, Operands, Times, Masked, QuotientLeft;
      ghost var a, pa, b, pb, store := Contents(), precision, other.Contents(), other.precision,
        Masked(canonical[..], leafCount);
      a2 := MultiplyDividend(normalizator);
      var copy;
      ghost var first;
      copy, first := NormalisedCopy(other, normalizator, test);
      b2 := copy.Contents();
      OperandsMultiplied(a, b, a2, b2);
      q, exact := DivideAsRead(copy, first, a2, pa, b2, pb, store);
    }

    /** Divides by a divisor as it is. */
    method DivideAsItIs(other: Number, ghost first: int) returns (ghost q: Numeral, ghost exact: bool)
      requires Fits() && other.Fits() && Apart(other) && leafCount > 0 && other.StartsAt(first)
      requires other.leafCount == 1 || other.canonical[first] >= LEAF / 2
      requires other.integralPartSize > 0 || HoldsLeaves(canonical)
      modifies this, canonical, cache
      ensures Fits() && KeepsStorage(old(canonical), old(cache))
      ensures Divides(old(Contents()), old(precision), old(other.Contents()), old(other.precision),
        Masked(old(canonical[..]), old(leafCount)), q, exact, Contents().Value())
      ensures QuotientLeft(old(Contents()), old(precision), old(other.Contents()), old(other.precision), q, exact,
        precision, Contents())
      ensures old(OnlyLeaves()) ==> OnlyLeaves()
    {
      hide Val, Divides, ReadsAlike, QuotientLeft;
      ghost var a, pa, b, pb, now := Contents(), precision, other.Contents(), other.precision, canonical[..];
      ghost var store := Masked(now, leafCount);
      LeavesArePositive(a);
      LeavesArePositive(b);
      ReadBehind(a, now, now, leafCount);
      if other.leafCount == 1 {
        ValOfLeaf(b.leaves);
        assert other.canonical[0..1] == b.leaves;
        q, exact := DivideBySingle(other, 0, 0);
      } else {
        q, exact := DivideNormalised(other, first);
      }
      SameRead(a, pa, b, pb, now, store, q, exact, Contents().Value());
    }

    /** Divides a number that is not zero by another one. `a2` and `b2` are the operands that are divided in their
        places. */
    method DivideNonzero(other: Number)
      returns (ghost a2: Numeral, ghost b2: Numeral, ghost q: Numeral, ghost exact: bool)
      requires Fits() && other.Fits() && Apart(other) && leafCount > 0 && other.leafCount > 0
      requires other.integralPartSize > 0 || HoldsLeaves(canonical)
      modifies this, canonical, cache
      ensures Fits() && KeepsStorage(old(canonical), old(cache))
      ensures Operands(old(Contents()), old(other.Contents()), a2, b2)
      ensures Divides(a2, old(precision), b2, old(other.precision), Masked(old(canonical[..]), old(leafCount)), q,
        exact, Contents().Value())
      ensures QuotientLeft(a2, old(precision), b2, old(other.precision), q, exact, precision, Contents())
      ensures old(OnlyLeaves()) ==> OnlyLeaves()
    {
      hide Val, Pow, Divides, Masked, Magnitude, QuotientLeft;
      a2, b2 := Contents(), other.Contents();
      OperandsAsTheyAre(a2, b2);
      if other.leafCount == 1 {
        LeavesArePositive(b2);
        assert b2.leaves == [other.canonical[0]];
        q, exact := DivideAsItIs(other, 0);
      } else {
        var test, normalizator := other.FindNormalizator();
        if normalizator != 1 {
          a2, b2, q, exact := DivideMultiplied(other, normalizator, test);
        } else {
          q, exact := DivideAsItIs(other, test);
        }
      }
    }

    /**
      * Divides by another number; false for a division by zero. `a2` and `b2` are the operands that are divided in
      * the places of the two numbers, and `q` is their quotient before its digits are fitted to the precision. It
      * is the quotient of the numbers if, and but for a quotient without fraction only if, no leaf is left in
      * storage where it is taken in.
      */
    method DivideAssign(other: Number)
      returns (ok: bool, ghost a2: Numeral, ghost b2: Numeral, ghost q: Numeral, ghost exact: bool)
      requires Valid() && other.Valid() && Apart(other)
      modifies this, canonical, cache
      ensures Valid() && KeepsStorage(old(canonical), old(cache)) && ok == (old(other.Contents().Value()) != 0.0)
      ensures !ok || old(leafCount) == 0 ==> Contents() == old(Contents()) && precision == old(precision)
      ensures ok && old(leafCount) > 0 ==> Operands(old(Contents()), old(other.Contents()), a2, b2)
      ensures ok && old(leafCount) > 0 ==>
        Divides(a2, old(precision), b2, old(other.precision), Masked(old(canonical[..]), old(leafCount)), q, exact,
          Contents().Value())
        && QuotientLeft(a2, old(precision), b2, old(other.precision), q, exact, precision, Contents())
      ensures ok && old(leafCount) > 0 && Clear(a2, b2, Masked(old(canonical[..]), old(leafCount))) ==>
        && Quotient(old(Contents()), old(other.Contents()), q, exact)
        && Contents().Value() == Fitted(old(Contents().Value()) / old(other.Contents().Value()),
          exact && Keeps(a2, old(precision), b2, old(other.precision)),
          QuotientPrecision(a2, old(precision), b2, old(other.precision)))
      ensures ok && old(leafCount) > 0 && (exact || q.Fraction() >= 1) ==>
        (Quotient(old(Contents()), old(other.Contents()), q, exact) <==>
          Clear(a2, b2, Masked(old(canonical[..]), old(leafCount))))
      ensures ok && old(leafCount) > 0 && exact && Keeps(a2, old(precision), b2, old(other.precision)) ==>
        (Contents().Value() == old(Contents().Value()) / old(other.Contents().Value()) <==>
          Clear(a2, b2, Masked(old(canonical[..]), old(leafCount))))
      ensures ok && (old(leafCount) > 0 ==> Clear(a2, b2, Masked(old(canonical[..]), old(leafCount)))) ==>
        Close(Contents().Value(), old(Contents().Value()) / old(other.Contents().Value()),
          if Few(old(Contents().Value()), old(precision)) && Few(old(other.Contents().Value()), old(other.precision))
          then old(precision) else if old(precision) < old(other.precision) then old(precision)
          else old(other.precision))
      ensures ok && old(leafCount) > 0 && Clear(a2, b2, Masked(old(canonical[..]), old(leafCount))) ==>
        exact && (OneLeaf(b2.leaves) || (Few(old(Contents().Value()), old(precision)) &&
                                         Few(old(other.Contents().Value()), old(other.precision)))) ==>
        Contents().Value() == old(Contents().Value()) / old(other.Contents().Value())
      ensures ok && old(leafCount) > 0 && Clear(a2, b2, Masked(old(canonical[..]), old(leafCount))) ==>
        ComesOutSoon(old(Contents().Value()) / old(other.Contents().Value()), OneLeaf(b2.leaves),
          Few(old(Contents().Value()), old(precision)) && Few(old(other.Contents().Value()), old(other.precision)),
          old(precision), old(other.precision)) ==>
        Contents().Value() == old(Contents().Value()) / old(other.Contents().Value())
    {
      hide Val, Few, Close, ComesOutSoon, Fitted, Keeps, QuotientPrecision, Divides, Operands, QuotientLeft;
      ghost var a, pa, b, pb := Contents(), precision, other.Contents(), other.precision;
      ghost var store := Masked(canonical[..], leafCount);
      ok := other.leafCount > 0;
      ZeroHasNoLeaves(b);
      a2, b2, q, exact := a, b, a, true;
      if ok && leafCount != 0 {
        LeavesArePositive(b);
        a2, b2, q, exact := DivideNonzero(other);
        DivisionIsRight(a, b, a2, pa, b2, pb, store, q, exact, Contents().Value());
        if Clear(a2, b2, store) {
          QuotientIsClose(a, b, a2, pa, b2, pb, store, q, exact, Contents().Value());
          QuotientComesOut(a, b, a2, pa, b2, pb, store, q, exact, Contents().Value(), a.Value() / b.Value());
        }
      } else if ok {
        ZeroIsClose(a, b.Value(), if Few(a.Value(), pa) && Few(b.Value(), pb) then pa else if pa < pb then pa else pb);
      }
    }

    /**
      * The quotient of this number by a divisor, possibly itself; false for a division by zero. A copy is divided,
      * and behind its leaves there is nothing that the division could take in.
      */
    method Divide(divisor: Number)
      returns (ok: bool, n: Number, ghost a2: Numeral, ghost b2: Numeral, ghost q: Numeral, ghost exact: bool)
      requires Valid() && divisor.Valid()
      ensures fresh(n) && n.Valid() && ok == (divisor.Contents().Value() != 0.0)
      ensures !ok || leafCount == 0 ==> n.Contents() == Contents()
      ensures ok && leafCount > 0 ==> Operands(Contents(), divisor.Contents(), a2, b2)
      ensures ok && leafCount > 0 ==> Quotient(Contents(), divisor.Contents(), q, exact)
      ensures ok && leafCount > 0 ==> exact || q.Fraction() >= QuotientPlaces(a2, precision, b2, divisor.precision)
      ensures if ok && leafCount > 0
        then QuotientLeft(a2, precision, b2, divisor.precision, q, exact, n.precision, n.Contents())
        else n.precision == precision
      ensures ok && leafCount > 0 ==>
        FallsShort(Contents().Abs(), divisor.Contents().Abs(), q.Abs(), Pow(q.Fraction()), exact)
      ensures ok && leafCount > 0 ==>
        n.Contents().Value() == Fitted(Contents().Value() / divisor.Contents().Value(),
          exact && Keeps(a2, precision, b2, divisor.precision),
          QuotientPrecision(a2, precision, b2, divisor.precision))
      ensures ok ==> Close(n.Contents().Value(), Contents().Value() / divisor.Contents().Value(),
        if Few(Contents().Value(), precision) && Few(divisor.Contents().Value(), divisor.precision) then precision
        else if precision < divisor.precision then precision else divisor.precision)
      ensures ok && leafCount > 0 ==>
        exact && (OneLeaf(b2.leaves) ||
          (Few(Contents().Value(), precision) && Few(divisor.Contents().Value(), divisor.precision))) ==>
        n.Contents().Value() == Contents().Value() / divisor.Contents().Value()
      ensures ok && leafCount > 0 ==>
        ComesOutSoon(Contents().Value() / divisor.Contents().Value(), OneLeaf(b2.leaves),
          Few(Contents().Value(), precision) && Few(divisor.Contents().Value(), divisor.precision), precision,
          divisor.precision) ==>
        n.Contents().Value() == Contents().Value() / divisor.Contents().Value()
    {
      hide Val, Pow, Operands, Fitted, QuotientPrecision, QuotientPlaces, Keeps, Few, Close, QuotientLeft;
      n := new Number.Copy(this);
      ghost var store := Masked(n.canonical[..], leafCount);
      assert forall i :: 0 <= i < |store| ==> store[i] == 0;
      ok, a2, b2, q, exact := n.DivideAssign(divisor);
      if ok && leafCount > 0 {
        Remainder(Contents(), divisor.Contents(), q, exact);
      }
    }

    /** Adds a leaf to the leaves up to place `from`, the leaves `low`; the carry is returned. */
    method RippleLeaves(from: int, leaf: int, ghost low: seq<int>, ghost rest: seq<int>)
      returns (carrier: int, ghost t: seq<int>)
      requires Stored() && -1 <= from < leafCount && 0 <= leaf < LEAF && |low| == from + 1
        && canonical[..leafCount] == low + rest
      modifies canonical
      ensures Stored() && |t| == |low| && IsLeaves(t) && IsLeaves(low) && 0 <= carrier < LEAF
      ensures Val([carrier] + t) == Val(low) + leaf && canonical[..leafCount] == t + rest
      ensures old(HoldsLeaves(canonical)) ==> HoldsLeaves(canonical)
    {
      ghost var s := canonical[..leafCount];
      assert forall i :: 0 <= i < |low| ==> low[i] == s[i];
      assert forall i :: 0 <= i < |rest| ==> rest[i] == s[|low| + i];
      ghost var behind := canonical[leafCount..];
      assert canonical[..] == low + (rest + behind);
      carrier, t := Ripple(canonical, from, leaf, low, rest + behind);
      assert canonical[..leafCount] == t + rest;
    }

    /** Adds a leaf to the leaves up to place `from`; a carry ripples to the front and may grow a new leaf. */
    method AddLeafLow(from: int, leaf: int, ghost low: seq<int>, ghost rest: seq<int>) returns (ghost head: seq<int>)
      requires Stored() && -1 <= from < leafCount && 0 <= leaf < LEAF && |low| == from + 1
        && canonical[..leafCount] == low + rest
      modifies this, canonical
      ensures Stored() && cache == old(cache) && precision == old(precision) && negative == old(negative)
      ensures canonical == old(canonical) || fresh(canonical)
      ensures canonical != old(canonical) <==>
        integralPartSize == old(integralPartSize) + 1 && old(leafCount) == old(canonical.Length)
      ensures Contents().leaves == head + rest && Val(head) == Val(low) + leaf
      ensures Contents().Fraction() == old(Contents().Fraction())
      ensures (low != [] && low[0] != 0) || integralPartSize > old(integralPartSize) ==> head != [] && head[0] != 0
      ensures old(HoldsLeaves(canonical)) ==> HoldsLeaves(canonical)
    {
      var carrier;
      ghost var t;
      carrier, t := RippleLeaves(from, leaf, low, rest);
      head := t;
      if carrier > 0 {
        InsertLeading(carrier);
        head := [carrier] + t;
        assert head + rest == [carrier] + (t + rest);
      } else {
        ValBehindZero(carrier, t);
        if low != [] && low[0] != 0 { LeadingGrows(low, t); }
      }
    }

    /** Adds a leaf to the last one. */
    method Raise(leaf: int)
      requires Stored() && 0 <= leaf < LEAF && (integralPartSize > 0 ==> canonical[0] != 0)
      modifies this, canonical
      ensures Stored() && cache == old(cache) && precision == old(precision) && negative == old(negative)
      ensures canonical == old(canonical) || fresh(canonical)
      ensures canonical != old(canonical) <==>
        integralPartSize == old(integralPartSize) + 1 && old(leafCount) == old(canonical.Length)
      ensures Val(Contents().leaves) == Val(old(Contents().leaves)) + leaf
      ensures Contents().Fraction() == old(Contents().Fraction()) && (integralPartSize > 0 ==> canonical[0] != 0)
      ensures old(HoldsLeaves(canonical)) ==> HoldsLeaves(canonical)
    {
      ghost var s := canonical[..leafCount];
      assert s + [] == s;
      ghost var head := AddLeafLow(leafCount - 1, leaf, s, []);
      assert head + [] == head == canonical[..leafCount];
    }

    /** Cuts the leaves off and adds one unit of the last digit that is kept, if `up`. */
    method CutAndRaise(kept: int, r: int, up: bool)
      requires Stored() && 0 <= kept <= leafCount - integralPartSize && 0 <= r < DIGITS_IN_LEAF && (r > 0 ==> kept > 0)
      requires integralPartSize > 0 ==> canonical[0] != 0
      modifies this, canonical
      ensures Stored() && cache == old(cache) && precision == old(precision) && negative == old(negative)
      ensures canonical == old(canonical) || fresh(canonical)
      ensures canonical != old(canonical) <==>
        integralPartSize == old(integralPartSize) + 1 && old(integralPartSize) + kept == old(canonical.Length)
      ensures Contents().Fraction() == kept && (integralPartSize > 0 ==> canonical[0] != 0)
      ensures Val(Contents().leaves) == Val(CutOff(old(Contents()), kept, r).leaves) + (if up then Ten(r) else 0)
      ensures old(HoldsLeaves(canonical)) ==> HoldsLeaves(canonical)
    {
      Cut(kept, r);
      if up {
        TenValues();
        Raise(DecimalShift(r));
      }
    }

    /** The digit behind the first `p` ones behind the point. */
    method NextToSignificant(p: int) returns (digit: int)
      requires Stored() && 0 <= p < Contents().Digits()
      ensures digit >= 5 <==> Up(Contents(), p) == 1
    {
      NextDigit(Contents(), p);
      var leafNo := p / DIGITS_IN_LEAF;
      var digitInLeafNo := p % DIGITS_IN_LEAF;
      digit := canonical[integralPartSize + leafNo];
      digit := digit / DecimalShift(DIGITS_IN_LEAF - 1 - digitInLeafNo);
      digit := digit % 10;
    }

    /** Keeps the leaves that hold the first `p` digits behind the point, raised if the next digit says so. */
    method KeepDigits(p: int) returns (ghost kept: nat, ghost r: nat)
      requires Stored() && 0 <= p < Contents().Digits() && (integralPartSize > 0 ==> canonical[0] != 0)
      modifies this, canonical
      ensures Stored() && cache == old(cache) && precision == old(precision) && negative == old(negative)
      ensures canonical == old(canonical) || fresh(canonical)
      ensures canonical != old(canonical) <==>
        integralPartSize == old(integralPartSize) + 1 && old(integralPartSize) + kept == old(canonical.Length)
      ensures p + r == DIGITS_IN_LEAF * kept && r < DIGITS_IN_LEAF
      ensures Contents().Fraction() == kept <= old(Contents()).Fraction()
      ensures Val(Contents().leaves) == Val(CutOff(old(Contents()), kept, r).leaves) + Up(old(Contents()), p) * Ten(r)
      ensures integralPartSize > 0 ==> canonical[0] != 0
      ensures old(HoldsLeaves(canonical)) ==> HoldsLeaves(canonical)
    {
      var k, cut := KeptLeaves(p);
      kept, r := k, cut;
      var digit := NextToSignificant(p);
      CutAndRaise(k, cut, digit >= 5);
    }

    /** Rounds to fewer digits behind the point than there are. */
    method RoundLeaves(significant: int)
      requires Stored() && 0 <= significant < Contents().Digits() && (integralPartSize > 0 ==> canonical[0] != 0)
      modifies this, canonical
      ensures Stored() && cache == old(cache) && precision == old(precision) && negative == old(negative)
      ensures canonical == old(canonical) || fresh(canonical)
      ensures canonical != old(canonical) <==>
        integralPartSize == old(integralPartSize) + 1
          && old(integralPartSize) + LeavesFor(significant) == old(canonical.Length)
      ensures Contents().Digits() <= significant && Contents().Abs() == Rounded(old(Contents().Abs()), significant)
      ensures integralPartSize > 0 ==> canonical[0] != 0
      ensures leafCount > integralPartSize ==> canonical[leafCount - 1] != 0
      ensures old(HoldsLeaves(canonical)) ==> HoldsLeaves(canonical)
    {
      hide Val, Pow, Magnitude, Rounded, EndZeros, CutOff, Up;
      ghost var n := Contents();
      ghost var kept, r := KeepDigits(significant);
      ghost var m := Contents();
      StripFraction(m);
      RoundedStripped(n, significant, kept, r, m, Contents());
    }

    /** Rounds to a number of digits behind the point, halves away from zero. */
    method Round(significant: int)
      requires Valid() && significant >= 0
      modifies this, canonical
      ensures Valid() && cache == old(cache) && precision == old(precision) && Contents().Digits() <= significant
      ensures canonical == old(canonical) || fresh(canonical)
      ensures canonical != old(canonical) <==>
        integralPartSize == old(integralPartSize) + 1
          && old(integralPartSize) + LeavesFor(significant) == old(canonical.Length)
      ensures Contents().Abs() == Rounded(old(Contents().Abs()), significant)
      ensures negative == (old(negative) && leafCount != 0)
    {
      hide Rounded, Val, Magnitude, EndZeros;
      var digits := FractionalDecimalDigits();
      if significant < digits {
        RoundLeaves(significant);
        if leafCount == 0 {
          negative := false;
        }
      } else {
        RoundedKeeps(Contents(), significant);
      }
    }

    /** The digits in front of the point. */
    method IntegralString() returns (text: string)
      requires Stored()
      ensures text == IntegralText(Contents().leaves[..integralPartSize])
    {
      ghost var whole := canonical[..leafCount][..integralPartSize];
      text := "";
      var leaf := 0;
      while leaf < integralPartSize
        invariant 0 <= leaf <= integralPartSize && text == IntegralText(whole[..leaf])
      {
        NextInText(whole[..leaf], whole[leaf]);
        assert whole[..leaf + 1] == whole[..leaf] + [whole[leaf]];
        text := text + if leaf != 0 then Padded(canonical[leaf], DIGITS_IN_LEAF) else Plain(canonical[leaf]);
        leaf := leaf + 1;
      }
      assert whole[..integralPartSize] == whole;
    }

    /** The digits behind the point, zeros at the end included. */
    method FractionString() returns (text: string)
      requires Stored()
      ensures text == PaddedAll(Contents().leaves[integralPartSize..])
    {
      ghost var part := canonical[..leafCount][integralPartSize..];
      text := "";
      var leaf := integralPartSize;
      while leaf < leafCount
        invariant integralPartSize <= leaf <= leafCount && text == PaddedAll(part[..leaf - integralPartSize])
      {
        ghost var k := leaf - integralPartSize;
        assert part[..k + 1][..k] == part[..k];
        text := text + Padded(canonical[leaf], DIGITS_IN_LEAF);
        leaf := leaf + 1;
      }
      assert part[..leafCount - integralPartSize] == part;
    }

    /** Appends the point and the digits behind it; the text is all of that without the zeros at the end. */
    method AppendFraction(text0: string, ghost whole: string) returns (all: string, text: string)
      requires Fits() && leafCount > integralPartSize && whole == IntegralText(Contents().leaves[..integralPartSize])
      requires text0 == (if negative then "-" else "") + whole
      ensures |text| <= |all| && text == Printed(Contents()) == all[..|text|] && Legible(all)
      ensures |all| <= |whole| + DIGITS_IN_LEAF * (leafCount - integralPartSize) + if integralPartSize > 0 then 2 else 3
    {
      hide Val, Plain, Padded, PaddedAll, IntegralText, WithoutZeros, Legible, EndZeros, Magnitude;
      ghost var part := Contents().leaves[integralPartSize..];
      FractionPrinted(part);
      var front := WithPoint(text0, integralPartSize > 0, if negative then "-" else "", whole);
      PointNotation(negative, whole, WithoutZeros(PaddedAll(part)), front);
      var digits := FractionString();
      all := front + digits;
      text := StripZeros(all, front, digits);
      LegibleDigits(whole);
      LegibleDigits(digits);
      LegibleFront(if negative then "-" else "", whole, if whole == [] then "0" else "", digits);
    }

    /** All characters that are written for the number, and those of them that are its notation. */
    method Write() returns (all: string, text: string)
      requires Fits()
      ensures |text| <= |all| && text == Printed(Contents()) == all[..|text|] && Legible(all)
      ensures |all| < DIGITS_IN_LEAF * leafCount + BYTES_IN_LEAF
    {
      var whole := IntegralString();
      IntegralLength(Contents().leaves[..integralPartSize]);
      LegibleDigits(whole);
      text := (if negative then "-" else "") + whole;
      if leafCount > integralPartSize {
        all, text := AppendFraction(text, whole);
      } else {
        WholeNotation(negative, whole);
        if leafCount == 0 {
          text := text + "0";
        }
        all := text;
      }
    }

    /** The notation of the number, put together in the storage of the cache. */
    method ToString() returns (text: string)
      requires Valid()
      modifies this`cache, cache
      ensures Valid() && Contents() == old(Contents()) && (cache == old(cache) || fresh(cache))
      ensures text == Printed(Contents()) && Spells(cache[..], text)
      ensures exists w, f :: Denotes(text, Contents().negative, w, f, Contents().Abs())
    {
      hide Denotes, Printed, Legible, Spells, EndZeros, Val, Magnitude;
      cache := Realloc(cache, (leafCount * DIGITS_IN_LEAF + BYTES_IN_LEAF + BYTES_IN_LEAF - 1) / BYTES_IN_LEAF);
      var all;
      all, text := Write();
      WriteEnded(cache, all, |text|);
      ghost var w, f := PrintedDenotes(Contents());
    }

    /** Reads the number that a text without exponents and spacers starts with; false if there is none. */
    method FromString(t: string) returns (ok: bool)
      requires canonical != cache && OnlyLeaves() && forall i :: 0 <= i < |t| ==> t[i] !in {'_', 'e', 'E'}
      modifies this, canonical
      ensures ok == !Scan(t).Malformed? && cache == old(cache) && (canonical == old(canonical) || fresh(canonical))
      ensures ok ==> Valid() && ParsedAs(t, Contents()) && Exact(Contents(), precision)
      ensures RightlyRead(t, ok, if ok then Contents().Value() else 0.0)
      ensures ok ==>
        precision == Max(old(precision), Contents().Digits() + 1) || (leafCount == 0 && precision == old(precision))
      ensures OnlyLeaves()
      ensures ok && old(canonical.Length) == 0 ==> ClearBehind()
    {
      hide Val, Magnitude, EndZeros, Scan, Reading, RightlyRead;
      var l := Scan(t);
      ok := !l.Malformed?;
      if ok {
        leafCount, integralPartSize, negative := 0, 0, l.Found? && l.negative;
        if l.Found? {
          ReadDigits(l);
          ghost var m := Contents();
          Normalize(true);
          NormalDigits(Contents(), m, l.integral, l.fraction);
        }
      }
      AnyTextRead(t, if ok then Contents() else Numeral([], 0, false), if ok then Contents().Value() else 0.0);
    }

    /** Reads the digits of a number into leaves. */
    method ReadRuns(i: string, f: string)
      requires AllIn(i, 0, |i|, DIGITS) && AllIn(f, 0, |f|, DIGITS) && canonical != cache
      modifies this`canonical, this`leafCount, this`integralPartSize, canonical
      ensures Stored() && (canonical == old(canonical) || fresh(canonical))
      ensures Contents().Abs() == Reading(i, f) && integralPartSize == LeavesFor(|i|)
      ensures f == [] ==> leafCount == integralPartSize
      ensures (i != [] ==> i[0] != '0') && integralPartSize > 0 ==> canonical[0] != 0
      ensures old(HoldsLeaves(canonical)) ==> HoldsLeaves(canonical)
      ensures old(canonical.Length) == 0 ==> ClearBehind()
    {
      hide Val, Reading, Magnitude, Pow, DigitsVal;
      integralPartSize := (|i| + DIGITS_IN_LEAF - 1) / DIGITS_IN_LEAF;
      leafCount := integralPartSize + (|f| + DIGITS_IN_LEAF - 1) / DIGITS_IN_LEAF;
      if leafCount > 0 {
        canonical := Realloc(canonical, leafCount);
      }
      ReadLeaves(canonical, integralPartSize, leafCount, i, f);
      if i != [] && i[0] != '0' {
        LeadingDigit(i, canonical[..integralPartSize]);
      }
    }

    /** Reads the digits of a number; the precision is raised above their number. */
    method ReadDigits(l: Layout)
      requires l.Found? && AllIn(l.integral, 0, |l.integral|, DIGITS) && AllIn(l.fraction, 0, |l.fraction|, DIGITS)
      requires (l.fraction != [] ==> l.point) && canonical != cache && 0 <= precision
      modifies this, canonical
      ensures Stored() && cache == old(cache) && negative == old(negative)
        && (canonical == old(canonical) || fresh(canonical))
      ensures Contents().Abs() == Reading(l.integral, l.fraction)
      ensures precision == if l.point then Max(old(precision), |l.fraction| + 1) else old(precision)
      ensures old(HoldsLeaves(canonical)) ==> HoldsLeaves(canonical)
      ensures integralPartSize == LeavesFor(|l.integral|) && (old(canonical.Length) == 0 ==> ClearBehind())
      ensures (l.integral != [] ==> l.integral[0] != '0') && integralPartSize > 0 ==> canonical[0] != 0
    {
      hide Val, Magnitude, Reading;
      ReadRuns(l.integral, l.fraction);
      if !l.point {
        integralPartSize := leafCount;
      } else if |l.fraction| >= precision {
        precision := |l.fraction| + 1;
      }
    }

    /** Prints this number and reads what was printed into another one. */
    method PrintAndParse(other: Number) returns (ok: bool)
      requires Valid() && Apart(other) && other.canonical != other.cache && other.OnlyLeaves()
      modifies this`cache, cache, other, other.canonical
      ensures ok && Valid() && other.Valid() && other.Contents() == Contents() == old(Contents())
    {
      var text := ToString();
      PrintedIsPlain(Contents());
      PrintedThenParsed(Contents(), Contents());
      ok := other.FromString(text);
      PrintedThenParsed(Contents(), other.Contents());
    }
  }

  lemma {:induction false} TwoLeaves(n: Numeral, x: int, y: int)
    requires n.leaves == [x, y] && 0 <= x < LEAF && 0 <= y < LEAF
    ensures Val(n.leaves) == x * LEAF + y && Pow(1) == LEAF && Pow(0) == 1
  {
    hide Val;
    assert n.leaves[..1] == [x];
    ValOfLeaf(n.leaves[..1]);
    ValConcat([x], [y]);
    ValOfLeaf([y]);
    assert [x] + [y] == n.leaves;
    assert Pow(1) == LEAF * Pow(0);
  }

  lemma {:induction false} NinesRounded(n: Numeral, m: Numeral)
    requires n == Numeral([LEAF - 1, 990000000], 1, false) && m == Numeral([1, 0], 2, false)
    ensures n.Canonical() && m.Canonical() && m.Value() == Rounded(n.Abs(), 1)
  {
    hide Val, EndZeros;
    TwoLeaves(n, LEAF - 1, 990000000);
    TwoLeaves(m, 1, 0);
    assert n.Abs() == 999999999.99 && m.Abs() == 1000000000.0;
    assert Ten(1) == 10;
    assert NearestParts(n.Abs(), 10) == 10000000000;
  }

  /**
    * Rounding 999999999.99, stored in an array for its two leaves, to one digit: the carry makes a third leaf and
    * moves the leaves to another array. The old one ends where the first leaf is read after that.
    */
  method RoundInFullStorage(x: Number)
    requires x.Valid() && x.Contents() == Numeral([LEAF - 1, 990000000], 1, false) && x.canonical.Length == 2
    modifies x, x.canonical
    ensures x.Valid() && x.Contents() == Numeral([1, 0], 2, false)
    ensures fresh(x.canonical) && x.integralPartSize + LeavesFor(1) - 1 == old(x.canonical.Length)
  {
    ghost var m := Numeral([1, 0], 2, false);
    NinesRounded(x.Contents(), m);
    x.Round(1);
    SameValue(x.Contents(), m);
  }

  lemma {:induction false} LeavesOfFive(w: Numeral)
    requires w.WellFormed() && |w.leaves| == 2 && w.Fraction() == 0 && w.Value() == 5.0
    ensures w.leaves == [0, 5]
  {
    var s := w.leaves;
    AbsNotNegative(w);
    assert Val(s) == 5;
    assert Val(s[..1]) == Val([]) * LEAF + s[0];
    DivideUnique(Val(s), LEAF, s[0], s[1]);
  }

  lemma {:induction false} WholeNumber(n: Numeral, d: int)
    requires n == Numeral([d], 1, false) && 0 < d < LEAF
    ensures n.Canonical() && n.Value() == d as real && n.Fraction() == 0
    ensures forall k: nat :: Short(n, k) == d as real
  {
    ValOfLeaf(n.leaves);
    forall k: nat ensures Short(n, k) == d as real {
      AlignedValue(n, 1, k);
    }
  }

  /** Five, read with the leaf that a sum leaves behind it, and a half. */
  lemma {:induction false} FiveByHalf(w: Numeral, b: Numeral)
    requires w == Numeral([5, 5], 1, false) && b == Numeral([LEAF / 2], 0, false)
    ensures w.WellFormed() && b.WellFormed() && b.Value() == 0.5 && w.Value() / b.Value() == 10.00000001
  {
    ValOfLeaf(b.leaves);
    assert w.leaves[..1] == [5];
    ValOfLeaf(w.leaves[..1]);
    assert Val(w.leaves) == 5 * LEAF + 5;
    assert Pow(1) == LEAF * Pow(0) == LEAF;
  }

  /** The sum of 2 and 3 leaves a copy of its leaf in storage. */
  method SumOfTwoAndThree(two: Number, three: Number)
    requires two.Valid() && three.Valid() && two.Apart(three)
    requires two.Contents() == Numeral([2], 1, false) && three.Contents() == Numeral([3], 1, false)
    modifies two, two.canonical, two.cache
    ensures two.Valid() && two.KeepsStorage(old(two.canonical), old(two.cache)) && two.precision >= 1
    ensures two.Contents() == Numeral([5], 1, false) && 2 <= two.canonical.Length && two.canonical[1] == 5
  {
    WholeNumber(two.Contents(), 2);
    WholeNumber(three.Contents(), 3);
    WholeNumber(Numeral([5], 1, false), 5);
    ghost var w := two.AddAssign(three);
    SameValue(two.Contents(), Numeral([5], 1, false));
    LeavesOfFive(w);
    assert |two.Contents().leaves| == 1;
  }

  /** Adding 3 to 2 and dividing the same object by 0.5 gives 10.00000001: the sum leaves its last leaf in storage. */
  method SumByHalf(two: Number, three: Number, half: Number) returns (ghost q: Numeral, ghost exact: bool)
    requires two.Valid() && three.Valid() && half.Valid() && two.Apart(three) && two.Apart(half)
    requires two.Contents() == Numeral([2], 1, false) && three.Contents() == Numeral([3], 1, false)
    requires half.Contents() == Numeral([LEAF / 2], 0, false)
    modifies two, two.canonical, two.cache
    ensures two.Valid() && !Quotient(Numeral([5], 1, false), half.Contents(), q, exact)
    ensures two.Contents().Value() == 10.00000001
  {
    ghost var b := half.Contents();
    SumOfTwoAndThree(two, three);
    ghost var p := two.precision;
    ghost var store := Masked(two.canonical[..], 1);
    assert store[1] == 5;
    FiveByHalf(Numeral([5, 5], 1, false), b);
    var ok;
    ghost var a2, b2;
    ok, a2, b2, q, exact := two.DivideAssign(half);
    ReadTenAndMore(b, store, q, exact, p, half.precision, two.Contents().Value());
  }

  /** Five and a leaf of five behind it comes out by a half if there is a leaf behind the point. */
  lemma {:induction false} ComesOutByHalf(w: Numeral, b: Numeral, f: nat)
    requires w == Numeral([5, 5], 1, false) && b == Numeral([LEAF / 2], 0, false) && f >= 1
    ensures w.WellFormed() && b.WellFormed() && Lower(w, b) >= 1 && ComesOut(w, b, f)
  {
    var x, leaf, p := Val(w.leaves), LEAF / 2, Pow(f - 1);
    ValOfLeaf(b.leaves);
    QuotientInLeaf(w, b, leaf, 0, 0, f, x);
    Associate(x, 2 * p, leaf);
    Commute(2, p, leaf);
    DivideUnique(x * Pow(f), leaf, x * (2 * p), 0);
  }

  lemma {:induction false} ReadTenAndMore(b: Numeral, store: seq<int>, q: Numeral, exact: bool, p: nat, pb: nat,
                                          v: real)
    requires b == Numeral([LEAF / 2], 0, false) && |store| >= 2 && store[1] == 5 && p >= 1
    requires Divides(Numeral([5], 1, false), p, b, pb, store, q, exact, v)
    ensures !Clear(Numeral([5], 1, false), b, store) && OneLeaf(b.leaves) && exact && v == 10.00000001
  {
    var five, w := Numeral([5], 1, false), Numeral([5, 5], 1, false);
    StrippedOneLeaf(b.leaves, 0, 1);
    assert Stale(store, 1, 1) == [5];
    assert Read(five, b, store) == w;
    if q.Fraction() >= 1 { ComesOutByHalf(w, b, q.Fraction()); }
    FiveByHalf(w, b);
    FittedQuotient(w, b, q, exact, exact, p);
  }

  lemma {:induction false} SmallAndLarge(a: Numeral, b: Numeral)
    requires a == Numeral([0, 400], 0, false) && b == Numeral([2500000, 0, 0, 100], 2, false)
    ensures a.WellFormed() && a.Value() == 0.0000000000000004 && a.Digits() == 16
    ensures b.WellFormed() && b.Value() == 2500000000000000.0000000000000001 && b.Digits() == 16
  {
    hide Val, EndZeros;
    TwoLeaves(a, 0, 400);
    assert Pow(2) == LEAF * Pow(1);
    ValConcat([2500000], [0, 0, 100]);
    ValBehindZeros(2, [100]);
    assert Zeros(2) + [100] == [0, 0, 100] && [2500000] + [0, 0, 100] == b.leaves;
    ValOfLeaf([2500000]);
    ValOfLeaf([100]);
    assert Pow(3) == LEAF * Pow(2);
    TenValues();
    EndsUnique(400, 2, EndZeros(400));
    EndsUnique(100, 2, EndZeros(100));
  }

  /** One and a bit behind the sixteenth digit is cut off to one, and no precision is left. */
  lemma {:induction false} CutToOne(x: real, n: Numeral, now: int)
    requires x == 1.00000000000000000000000000000004 && n.Canonical()
    requires n.Value() == TowardsZero(x, 16) && PrecisionAfter(now, 16, false, x, n)
    ensures n == Numeral([1], 1, false) && now == 0
  {
    hide Val, Magnitude, TowardsZero, Ten;
    TenValues();
    TenAdd(9, 7);
    var t := Ten(16);
    assert t == 10000000000000000;
    InPartsIs(x, t, 10000000000000000.0000000000000004);
    InPartsIs(1.0, t, 10000000000000000.0);
    CutOffBehind(1.0, x, 16);
    WholeNumber(Numeral([1], 1, false), 1);
    SameValue(n, Numeral([1], 1, false));
  }

  lemma {:induction false} PowModThree(n: nat)
    ensures Pow(n) % 3 == 1
  {
    if n > 0 {
      PowModThree(n - 1);
      assert Pow(n) == 3 * (333333333 * Pow(n - 1)) + Pow(n - 1);
    }
  }

  /** The quotient of one by three with no precision is nothing. */
  lemma {:induction false} OneByThree(one: Numeral, three: Numeral, p: nat, pb: nat, store: seq<int>, q: Numeral,
                                      exact: bool, v: real)
    requires one == Numeral([1], 1, false) && three == Numeral([3], 1, false) && p == 0
    requires Divides(one, p, three, pb, store, q, exact, v)
    ensures v == 0.0
  {
    hide Val, TowardsZero;
    WholeNumber(one, 1);
    WholeNumber(three, 3);
    StrippedOneLeaf(three.leaves, 0, 1);
    ValOfLeaf(one.leaves);
    ValOfLeaf(three.leaves);
    assert Read(one, three, store) == one;
    PowModThree(q.Fraction());
    assert Upper(one, three, q.Fraction()) == Pow(q.Fraction()) && Lower(one, three) == 3;
    FittedQuotient(one, three, q, exact, false, p);
    CutOffBehind(0.0, 1.0 / 3.0, 0);
    assert Ten(0) == 1;
    InPartsIs(0.0, 1, 0.0);
  }

  /** With precision 16, the least there is, 4e-16 times 2500000000000000.0000000000000001 is cut off to one, which then
      has precision 0; divided by 3 it is zero. */
  method LosePrecision(x: Number, y: Number, three: Number)
    requires x.Valid() && y.Valid() && three.Valid() && x.Apart(y) && x.Apart(three)
    requires x.Contents() == Numeral([0, 400], 0, false) && x.precision == 16
    requires y.Contents() == Numeral([2500000, 0, 0, 100], 2, false) && y.precision == 16
    requires three.Contents() == Numeral([3], 1, false)
    modifies x, x.canonical, x.cache
    ensures x.Valid() && x.Contents().Value() == 0.0
  {
    ghost var a, b := x.Contents(), y.Contents();
    SmallAndLarge(a, b);
    x.MultiplyAssign(y);
    CutToOne(Product(a.Value(), b.Value()), x.Contents(), x.precision);
    WholeNumber(x.Contents(), 1);
    WholeNumber(three.Contents(), 3);
    ghost var store := Masked(x.canonical[..], 1);
    var ok;
    ghost var a2, b2, q, exact;
    ok, a2, b2, q, exact := x.DivideAssign(three);
    OneByThree(Numeral([1], 1, false), three.Contents(), 0, three.precision, store, q, exact, x.Contents().Value());
  }
}
