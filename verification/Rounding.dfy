/** Rounding of leaves to a number of decimal digits. */
module Rounding {
  import opened Leaves
  import opened Decimal
  import opened Numerals
  import opened Division

  lemma DigitOfSum(h: int, b: int, leaf: int, t: int, k: int)
    requires t >= 1 && k >= 1 && b == t * (10 * k)
    ensures ((h * b + leaf) / t) % 10 == (leaf / t) % 10
  {
    var a, r := leaf / t, leaf % t;
    assert h * b == (h * (10 * k)) * t;
    assert h * b + leaf == (h * (10 * k) + a) * t + r by {
      assert (h * (10 * k) + a) * t == (h * (10 * k)) * t + a * t;
    }
    DivideUnique(h * b + leaf, t, h * (10 * k) + a, r);
    var c, d := a / 10, a % 10;
    assert h * (10 * k) == (h * k) * 10;
    DivideUnique(h * (10 * k) + a, 10, h * k + c, d);
  }

  lemma DigitInLast(h: int, leaf: int, w: nat)
    requires 0 <= leaf < LEAF && w < DIGITS_IN_LEAF
    ensures ((h * LEAF + leaf) / Ten(w)) % 10 == (leaf / Ten(w)) % 10
  {
    TenAdd(w, DIGITS_IN_LEAF - w);
    TenValues();
    DigitOfSum(h, LEAF, leaf, Ten(w), Ten(DIGITS_IN_LEAF - w - 1));
  }

  /** The leaves up to place `i`, as the whole value divided by the unit of the leaf there. */
  lemma {:induction false} DivideByUnit(s: seq<int>, i: nat, w: nat)
    requires IsLeaves(s) && i <= |s|
    ensures Val(s) / Ten(DIGITS_IN_LEAF * (|s| - i) + w) == Val(s[..i]) / Ten(w)
  {
    ValSplit(s, i);
    ValBound(s[i..]);
    PowPositive(|s| - i);
    DivideUnique(Val(s), Pow(|s| - i), Val(s[..i]), Val(s[i..]));
    PowIsTen(|s| - i);
    TenAdd(DIGITS_IN_LEAF * (|s| - i), w);
    DivideTwice(Val(s), Pow(|s| - i), Ten(w));
  }

  /** The digit at place `w` of the leaf at place `i`, read off the whole value. */
  lemma DigitInside(s: seq<int>, i: nat, w: nat)
    requires IsLeaves(s) && i < |s| && w < DIGITS_IN_LEAF
    ensures (Val(s) / Ten(DIGITS_IN_LEAF * (|s| - i - 1) + w)) % 10 == (s[i] / Ten(w)) % 10
  {
    DivideByUnit(s, i + 1, w);
    var t := s[..i + 1];
    assert t[..i] == s[..i];
    DigitInLast(Val(t[..i]), s[i], w);
  }

  /** The digit behind the first `p` ones behind the point. */
  lemma NextDigit(n: Numeral, p: nat)
    requires n.WellFormed() && p < DIGITS_IN_LEAF * n.Fraction()
    ensures var i, w := n.integral + p / DIGITS_IN_LEAF, DIGITS_IN_LEAF - 1 - p % DIGITS_IN_LEAF;
      i < |n.leaves|
      && (Val(n.leaves) / Ten(DIGITS_IN_LEAF * n.Fraction() - p - 1)) % 10 == (n.leaves[i] / Ten(w)) % 10
  {
    var i, w := n.integral + p / DIGITS_IN_LEAF, DIGITS_IN_LEAF - 1 - p % DIGITS_IN_LEAF;
    DigitInside(n.leaves, i, w);
    assert DIGITS_IN_LEAF * (|n.leaves| - i - 1) + w == DIGITS_IN_LEAF * n.Fraction() - p - 1;
  }

  /** One if the digit behind the first `p` ones behind the point rounds up. */
  ghost function Up(n: Numeral, p: nat): int
    requires n.WellFormed() && p < DIGITS_IN_LEAF * n.Fraction()
  {
    if (Val(n.leaves) / Ten(DIGITS_IN_LEAF * n.Fraction() - p - 1)) % 10 >= 5 then 1 else 0
  }

  lemma {:induction false} NearestOfNumeral(n: Numeral, p: nat)
    requires n.WellFormed() && p < DIGITS_IN_LEAF * n.Fraction()
    ensures NearestParts(n.Abs(), Ten(p)) == Val(n.leaves) / Ten(DIGITS_IN_LEAF * n.Fraction() - p) + Up(n, p)
  {
    var v, f := Val(n.leaves), n.Fraction();
    var u := Ten(DIGITS_IN_LEAF * f - p - 1);
    RoundsUp(v, u);
    PowIsTen(f);
    TenAdd(DIGITS_IN_LEAF * f - p, p);
    NearestOfExpanded(v, 5 * u, Ten(p), Pow(f));
  }

  lemma {:induction false} UnitsOfLast(m: seq<int>, q: int, p: nat, r: nat, kept: nat)
    requires Val(m) == q * Ten(r) && p + r == DIGITS_IN_LEAF * kept
    ensures Magnitude(m, kept) == q as real / Ten(p) as real
  {
    PowIsTen(kept);
    TenAdd(p, r);
    Expand(q, Ten(p), Ten(r));
  }

  /** Cut off leaves, with one unit of their last digit added if the digit behind it says so, are the
      number rounded to `p` digits. */
  lemma {:induction false} RoundedLeaves(n: Numeral, p: nat, kept: nat, r: nat, m: seq<int>)
    requires n.WellFormed() && p < DIGITS_IN_LEAF * n.Fraction() && p + r == DIGITS_IN_LEAF * kept && r < DIGITS_IN_LEAF
    requires kept <= n.Fraction() && Val(m) == Val(CutOff(n, kept, r).leaves) + Up(n, p) * Ten(r)
    ensures Magnitude(m, kept) == Rounded(n.Abs(), p) && Val(m) % Ten(r) == 0
  {
    var t, f := n.leaves[..n.integral + kept], n.Fraction();
    var q := Val(n.leaves) / Ten(DIGITS_IN_LEAF * f - p) + Up(n, p);
    ClearedValue(t, r);
    DivideByUnit(n.leaves, n.integral + kept, r);
    assert DIGITS_IN_LEAF * (|n.leaves| - (n.integral + kept)) + r == DIGITS_IN_LEAF * f - p;
    NearestOfNumeral(n, p);
    Distribute(Val(t) / Ten(r), Up(n, p), Ten(r));
    UnitsOfLast(m, q, p, r, kept);
    MultipleOf(q, Ten(r));
  }

  /** Cutting off and rounding leave no more than `p` digits. */
  lemma {:induction false} FewDigits(n: Numeral, p: nat, kept: nat, r: nat)
    requires n.WellFormed() && n.Fraction() <= kept && p + r == DIGITS_IN_LEAF * kept && r < DIGITS_IN_LEAF
    requires n.Fraction() == kept ==> Val(n.leaves) % Ten(r) == 0
    ensures n.Digits() <= p
  {
    if n.Fraction() == kept && kept > 0 {
      var last := n.leaves[|n.leaves| - 1];
      ModuloOfLast(n.leaves, r);
      if EndZeros(last) < r {
        Divisible(last, EndZeros(last) + 1, r);
      }
    }
  }

  /** Leaves cut off and raised, and then without the zero leaves behind them, are the number rounded. */
  lemma RoundedStripped(n: Numeral, p: nat, kept: nat, r: nat, m: Numeral, t: Numeral)
    requires n.WellFormed() && p < n.Digits() && p + r == DIGITS_IN_LEAF * kept && r < DIGITS_IN_LEAF
    requires m.WellFormed() && m.Fraction() == kept <= n.Fraction()
    requires Val(m.leaves) == Val(CutOff(n, kept, r).leaves) + Up(n, p) * Ten(r)
    requires t.WellFormed() && t.Abs() == m.Abs() && t.Fraction() <= kept && t.integral == m.integral
    requires t.leaves == m.leaves[..|t.leaves|]
    ensures t.Digits() <= p && t.Abs() == Rounded(n.Abs(), p)
  {
    RoundedLeaves(n, p, kept, r, m.leaves);
    assert t.Fraction() == kept ==> t.leaves == m.leaves;
    FewDigits(t, p, kept, r);
  }

  /** A leaf added at the end of leaves, carried through the leaves `r` into `c`; `o` are the old leaves. */
  ghost predicate Rippled(r: seq<int>, o: seq<int>, c: int, leaf: int) {
    IsLeaves(r) && |r| == |o| && 0 <= c < LEAF && Val(r) + c * Pow(|r|) == Val(o) + leaf
  }

  lemma CarryOn(y: int, c2: int, x: int, c: int, p: int)
    requires y + c2 * LEAF == x + c
    ensures y * p + c2 * (LEAF * p) == x * p + c * p
  {
    Associate(c2, LEAF, p);
    Distribute(y, c2 * LEAF, p);
    Distribute(x, c, p);
  }

  lemma RippleStep(r: seq<int>, o: seq<int>, c: int, leaf: int, x: int, y: int, c2: int)
    requires Rippled(r, o, c, leaf) && 0 <= y < LEAF && 0 <= c2 <= 1 && y + c2 * LEAF == x + c
    ensures Rippled([y] + r, [x] + o, c2, leaf)
  {
    ValFront(y, r);
    ValFront(x, o);
    CarryOn(y, c2, x, c, Pow(|r|));
  }

  /** With the carry used up the leaves in front stay. */
  lemma {:induction false} RippleEnd(h: seq<int>, r: seq<int>, o: seq<int>, leaf: int)
    requires Rippled(r, o, 0, leaf)
    ensures Val(h + r) == Val(h + o) + leaf
  {
    ValConcat(h, r);
    ValConcat(h, o);
  }

  lemma {:induction false} LeadingGrows(s: seq<int>, t: seq<int>)
    requires IsLeaves(s) && IsLeaves(t) && |s| == |t| && Val(s) <= Val(t) && s != [] && s[0] != 0
    ensures t[0] != 0
  {
    ValLeading(s);
    if t[0] == 0 {
      ValLeadingZeros(t, 1);
      ValBound(t[1..]);
    }
  }

  /** Rounding keeps a number that has no more digits. */
  lemma {:induction false} RoundedKeeps(n: Numeral, p: nat)
    requires n.WellFormed() && n.Digits() <= p
    ensures Rounded(n.Abs(), p) == n.Abs()
  {
    TruncatedKeeps(n, p);
    NearestOfParts(n.Abs(), Ten(p));
  }

  lemma NearestOfParts(x: real, t: int)
    requires t >= 1 && TruncatedBy(x, t) == x
    ensures NearestParts(x, t) as real / t as real == x
  {
    var v := Parts(x, t);
    assert x * t as real == v as real;
    assert NearestParts(x, t) == v;
  }

  /** Adds the carry to one leaf. */
  method RippleLeaf(data: array<int>, idx: nat, c: int) returns (x: int, carrier: int)
    requires idx < data.Length && 0 <= data[idx] < LEAF && 0 < c < LEAF
    modifies data
    ensures 0 <= carrier <= 1 && 0 <= x < LEAF && x + carrier * LEAF == old(data[idx]) + c
    ensures data[..] == old(data[..])[idx := x]
  {
    x, carrier := data[idx] + c, 0;
    if x >= LEAF {
      x := x - LEAF;
      carrier := 1;
    }
    data[idx] := x;
  }

  /** Replacing the leaf behind which `r` starts. */
  lemma ReplaceBefore(h: seq<int>, y: int, r: seq<int>, rest: seq<int>, x: int)
    ensures (h + [y] + r + rest)[|h| := x] == h + ([x] + r) + rest
  {
  }

  lemma FrontReplaced(data: array<int>, was: seq<int>, s: seq<int>, t: seq<int>, rest: seq<int>)
    requires was == s + rest && data[..] == t + rest && |s| == |t| && IsLeaves(t)
    ensures (forall i :: 0 <= i < |was| ==> 0 <= was[i] < LEAF) ==> HoldsLeaves(data)
  {
    if forall i :: 0 <= i < |was| ==> 0 <= was[i] < LEAF {
      assert forall i :: 0 <= i < |rest| ==> rest[i] == was[|s| + i];
      assert forall i :: 0 <= i < data.Length ==> data[i] == (t + rest)[i];
    }
  }

  /** Adds a leaf to the last of the leaves `s`; returns what is carried out in front of them all. */
  method Ripple(data: array<int>, from: int, leaf: int, ghost s: seq<int>, ghost rest: seq<int>)
    returns (carrier: int, ghost t: seq<int>)
    requires from + 1 == |s| && 0 <= leaf < LEAF && IsLeaves(s) && data[..] == s + rest
    modifies data
    ensures |t| == |s| && IsLeaves(t) && 0 <= carrier < LEAF && Val([carrier] + t) == Val(s) + leaf
    ensures data[..] == t + rest
    ensures old(HoldsLeaves(data)) ==> HoldsLeaves(data)
  {
    ghost var h, r: seq<int>, o: seq<int> := s, [], [];
    carrier := leaf;
    var idx := from;
    assert s == h + o && data[..] == h + r + rest;
    while idx >= 0 && carrier > 0
      invariant idx + 1 == |h| && s == h + o && IsLeaves(h)
      invariant Rippled(r, o, carrier, leaf) && data[..] == h + r + rest
    {
      var c := carrier;
      ghost var y := h[idx];
      assert h == h[..idx] + [y];
      h := h[..idx];
      assert (h + [y] + r + rest)[idx] == y;
      var x;
      x, carrier := RippleLeaf(data, idx, c);
      ReplaceBefore(h, y, r, rest, x);
      RippleStep(r, o, c, leaf, y, x, carrier);
      r, o := [x] + r, [y] + o;
      idx := idx - 1;
    }
    t := h + r;
    RippledWhole(h, r, o, carrier, leaf);
    FrontReplaced(data, old(data[..]), s, t, rest);
  }

  lemma {:induction false} RippledWhole(h: seq<int>, r: seq<int>, o: seq<int>, c: int, leaf: int)
    requires Rippled(r, o, c, leaf) && (c > 0 ==> h == [])
    ensures Val([c] + (h + r)) == Val(h + o) + leaf
  {
    ValFront(c, h + r);
    if c > 0 {
      assert h + r == r && h + o == o;
    } else {
      RippleEnd(h, r, o, leaf);
    }
  }
}
