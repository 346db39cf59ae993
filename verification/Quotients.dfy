/** What a division of numbers computes, in terms of their values. */
module Quotients {
  import opened Leaves
  import opened Decimal
  import opened Numerals
  import opened Division

  /** The dividend `a`, as many leaves up as make its quotient by `b` an integer with `f` leaves behind the point. */
  ghost function Upper(a: Numeral, b: Numeral, f: nat): int
    requires a.WellFormed() && b.WellFormed()
  {
    Val(a.leaves) * Pow(f + b.Fraction())
  }

  ghost function Lower(a: Numeral, b: Numeral): int
    requires a.WellFormed() && b.WellFormed()
  {
    Val(b.leaves) * Pow(a.Fraction())
  }

  /** `q` is the quotient of the magnitudes of `a` and `b`, cut off behind its last leaf. */
  ghost predicate Quotient(a: Numeral, b: Numeral, q: Numeral, exact: bool) {
    && a.WellFormed() && b.WellFormed() && q.WellFormed() && q.negative == (a.negative != b.negative)
    && Lower(a, b) >= 1 && Val(q.leaves) == Upper(a, b, q.Fraction()) / Lower(a, b)
    && (exact ==> Upper(a, b, q.Fraction()) % Lower(a, b) == 0)
  }

  /** Whether the quotient of `a` by `b` comes out with `f` leaves behind the point. */
  ghost predicate ComesOut(a: Numeral, b: Numeral, f: nat)
    requires a.WellFormed() && b.WellFormed() && Lower(a, b) >= 1
  {
    Upper(a, b, f) % Lower(a, b) == 0
  }

  lemma Rearranged(n: real, d: real, pa: real, pb: real, pq: real, x: real, y: real, v: real, r: real)
    requires pa > 0.0 && pb > 0.0 && pq > 0.0 && x == v * y + r && x == n * (pq * pb) && y == d * pa
    ensures n / pa - (v / pq) * (d / pb) == r / (pa * pb * pq)
    ensures (r / (pa * pb * pq)) * pq == r / (pa * pb)
    ensures d / pb == y / (pa * pb)
  {
    RealFraction(v, pq, d, pb);
    RealFraction(n, pa, 1.0, pq * pb);
    RealFraction(d, pb, 1.0, pa);
    var p := pa * pb * pq;
    assert n / pa == (n * (pq * pb)) / p;
    assert (v * d) / (pq * pb) == (v * d * pa) / p;
  }

  /** `q` times `b` falls short of `a` by less than one `n`-th of `b`, or by nothing if it is exact. */
  ghost predicate FallsShort(a: real, b: real, q: real, n: int, exact: bool) {
    0.0 <= a - q * b && (a - q * b) * n as real < b && (exact ==> a == q * b)
  }

  lemma RemainderOfIntegers(n: int, d: int, pa: int, pb: int, pq: int, v: int, x: int, y: int, r: int, a: real,
                            b: real, q: real)
    requires pa >= 1 && pb >= 1 && pq >= 1 && x == n * (pq * pb) && y == d * pa && x == v * y + r && 0 <= r < y
    requires a == n as real / pa as real && b == d as real / pb as real && q == v as real / pq as real
    ensures FallsShort(a, b, q, pq, r == 0)
  {
    RealProduct(pq, pb);
    RealProduct(n, pq * pb);
    RealProduct(d, pa);
    RealProduct(v, y);
    Rearranged(n as real, d as real, pa as real, pb as real, pq as real, x as real, y as real, v as real, r as real);
    Bounded(r as real, y as real, pa as real * pb as real, pa as real * pb as real * pq as real);
  }

  lemma DivideParts(x: int, y: int)
    requires y >= 1
    ensures x == (x / y) * y + x % y && 0 <= x % y < y
  {
  }

  /** What remains of a division is less than one unit of the last quotient leaf times the divisor,
      and nothing if the quotient is exact. */
  lemma {:induction false} Remainder(a: Numeral, b: Numeral, q: Numeral, exact: bool)
    requires Quotient(a, b, q, exact)
    ensures FallsShort(a.Abs(), b.Abs(), q.Abs(), Pow(q.Fraction()), exact)
  {
    var pa, pb, pq := Pow(a.Fraction()), Pow(b.Fraction()), Pow(q.Fraction());
    var y := Lower(a, b);
    var x := Upper(a, b, q.Fraction());
    var v := x / y;
    PowPositive(a.Fraction());
    PowPositive(b.Fraction());
    PowPositive(q.Fraction());
    PowAdd(q.Fraction(), b.Fraction());
    DivideParts(x, y);
    RemainderOfIntegers(Val(a.leaves), Val(b.leaves), pa, pb, pq, v, x, y, x % y, a.Abs(), b.Abs(), q.Abs());
  }

  lemma Bounded(r: real, y: real, p: real, p2: real)
    requires 0.0 <= r < y && p > 0.0 && p2 > 0.0
    ensures r / p < y / p && r / p2 >= 0.0 && (r == 0.0 ==> r / p2 == 0.0)
  {
  }

  lemma CancelDivide(m: int, d: int, p: int)
    requires d >= 1 && p >= 1
    ensures d * p >= 1 && (m * p) / (d * p) == m / d && (m * p) % (d * p) == (m % d) * p
  {
    MulMono(1, d, p);
    var q, r := m / d, m % d;
    assert m * p == (q * d + r) * p;
    assert (q * d + r) * p == q * (d * p) + r * p;
    MulMono(r, d - 1, p);
    MulMono(0, r, p);
    assert (d - 1) * p == d * p - p;
    DivideUnique(m * p, d * p, q, r * p);
  }

  lemma CrossDivide(x: int, y: int, x2: int, y2: int)
    requires y >= 1 && y2 >= 1 && x * y2 == x2 * y
    ensures x / y == x2 / y2 && (x % y == 0 <==> x2 % y2 == 0)
  {
    CancelDivide(x, y, y2);
    CancelDivide(x2, y2, y);
    assert y * y2 == y2 * y;
    if x % y == 0 { assert (x2 % y2) * y == 0; Zero(x2 % y2, y); }
    if x2 % y2 == 0 { assert (x % y) * y2 == 0; Zero(x % y, y2); }
  }

  lemma Zero(x: int, y: int)
    requires x * y == 0 && y >= 1
    ensures x == 0
  {
  }

  /** `a2` is `k` times `a`. */
  ghost predicate Times(a2: Numeral, a: Numeral, k: int) {
    && a2.WellFormed() && a.WellFormed() && a2.negative == a.negative
    && Val(a2.leaves) * Pow(a.Fraction()) == k * (Val(a.leaves) * Pow(a2.Fraction()))
  }

  /** Scaling both operands does not change the quotient. */
  lemma {:induction false} ScaledQuotient(a: Numeral, b: Numeral, a2: Numeral, b2: Numeral, q: Numeral, exact: bool,
                                          k: int)
    requires q.WellFormed() && Times(a2, a, k) && Times(b2, b, k) && k >= 1 && Val(b.leaves) >= 1
    ensures Quotient(a, b, q, exact) <==> Quotient(a2, b2, q, exact)
  {
    var f := q.Fraction();
    PowAdd(f, b.Fraction());
    PowAdd(f, b2.Fraction());
    PowPositive(a.Fraction());
    PowPositive(a2.Fraction());
    PowPositive(b.Fraction());
    PositiveTimes(b2, b, k);
    MulMono(1, Val(b.leaves), Pow(a.Fraction()));
    MulMono(1, Val(b2.leaves), Pow(a2.Fraction()));
    CrossScaled(Val(a.leaves), Val(a2.leaves), Val(b.leaves), Val(b2.leaves), Pow(a.Fraction()), Pow(a2.Fraction()),
      Pow(b.Fraction()), Pow(b2.Fraction()), Pow(f), k);
    CrossDivide(Upper(a, b, f), Lower(a, b), Upper(a2, b2, f), Lower(a2, b2));
  }

  lemma CrossScaled(a: int, a2: int, b: int, b2: int, pa: int, pa2: int, pb: int, pb2: int, pf: int, k: int)
    requires a2 * pa == k * (a * pa2) && b2 * pb == k * (b * pb2)
    ensures (a * (pf * pb)) * (b2 * pa2) == (a2 * (pf * pb2)) * (b * pa)
  {
    assert (a * (pf * pb)) * (b2 * pa2) == (pf * (a * pa2)) * (b2 * pb);
    assert (pf * (a * pa2)) * (k * (b * pb2)) == (pf * (k * (a * pa2))) * (b * pb2);
    assert (pf * (a2 * pa)) * (b * pb2) == (a2 * (pf * pb2)) * (b * pa);
  }

  lemma SingleLeaf(w: int, pk: int, pz: int, pf: int, u: int, v: int, leaf: int, rest: int, x: int, y: int)
    requires 0 <= rest < leaf && w * pk == v * leaf + rest && pz >= 1 && pf >= 1
    requires x == w * (pk * (pf * pz)) && y == (leaf * pz) * pf
    ensures y >= 1 && x / y == v && (rest == 0 <==> x % y == 0)
  {
    var p := pf * pz;
    MulMono(1, pf, pz);
    DivideUnique(w * pk, leaf, v, rest);
    CancelDivide(w * pk, leaf, p);
    assert x == (w * pk) * p;
    assert y == leaf * p;
    if rest * p == 0 { Zero(rest, p); }
  }

  /** A quotient of leaves by a single leaf, `k` leaves behind the leaves `d` of the dividend `w`. */
  lemma {:induction false} QuotientBySingleLeaf(w: Numeral, b: Numeral, q: Numeral, leaf: int, zeros: nat, k: nat,
                                                rest: int)
    requires w.WellFormed() && b.WellFormed() && q.WellFormed() && q.negative == (w.negative != b.negative)
    requires 0 <= rest < leaf && Val(w.leaves) * Pow(k) == Val(q.leaves) * leaf + rest
    requires Val(b.leaves) == leaf * Pow(zeros) && q.Fraction() + b.Fraction() == w.Fraction() + k + zeros
    ensures Quotient(w, b, q, rest == 0) && (rest == 0 <==> ComesOut(w, b, q.Fraction()))
  {
    var f := w.Fraction();
    PowPositive(f);
    PowPositive(zeros);
    PowAdd(f, zeros);
    PowAdd(k, f + zeros);
    assert q.Fraction() + b.Fraction() == k + (f + zeros);
    SingleLeaf(Val(w.leaves), Pow(k), Pow(zeros), Pow(f), Pow(f + zeros), Val(q.leaves), leaf, rest,
      Upper(w, b, q.Fraction()), Lower(w, b));
  }

  /** Leaves up to place `k` as the whole leaves, divided by what the leaves behind are worth. */
  lemma {:induction false} PrefixValue(s: seq<int>, k: nat)
    requires IsLeaves(s)
    ensures k >= |s| ==> Val(Prefix(s, k)) == Val(s) * Pow(k - |s|)
    ensures k <= |s| ==> Pow(|s| - k) >= 1 && Val(Prefix(s, k)) == Val(s) / Pow(|s| - k)
    ensures k <= |s| && (forall i :: k <= i < |s| ==> s[i] == 0) ==> Val(s) == Val(Prefix(s, k)) * Pow(|s| - k)
  {
    if k >= |s| {
      assert Prefix(s, k) == s + Zeros(k - |s|);
      ValConcat(s, Zeros(k - |s|));
      ValZeros(k - |s|);
      PowPositive(0);
    }
    if k <= |s| {
      PowPositive(|s| - k);
      ValSplit(s, k);
      ValBound(s[k..]);
      DivideUnique(Val(s), Pow(|s| - k), Val(s[..k]), Val(s[k..]));
      if forall i :: k <= i < |s| ==> s[i] == 0 {
        assert s[k..] == Zeros(|s| - k);
        ValZeros(|s| - k);
      }
    }
  }

  lemma CutDivide(n: int, px: int, pr: int, v: int, u: int, q: int, s: int, x: int, y: int)
    requires px >= 1 && pr >= 1 && v >= 1 && u == n / pr && u == q * v + s && 0 <= s < v
    requires x == n * px && y == v * (px * pr)
    ensures y >= 1 && x / y == q && (n == u * pr && s == 0 ==> x % y == 0) && (x % y == 0 ==> s == 0)
  {
    DivideUnique(u, v, q, s);
    DivideTwice(n, pr, v);
    MulMono(1, pr, v);
    CancelDivide(n, pr * v, px);
    assert y == (pr * v) * px;
    if n == u * pr && s == 0 {
      assert x == q * y by {
        assert n == (q * v) * pr;
        assert n * px == q * ((pr * v) * px);
      }
      MultipleOf(q, y);
    }
    if x % y == 0 { NothingCut(n, px, pr, v, u, q, s); }
  }

  lemma NothingCut(n: int, px: int, pr: int, v: int, u: int, q: int, s: int)
    requires px >= 1 && pr >= 1 && v >= 1 && u == n / pr && u == q * v + s && 0 <= s < v
    requires v * (px * pr) >= 1 && n * px == q * (v * (px * pr))
    ensures s == 0
  {
    assert q * (v * (px * pr)) == ((q * v) * pr) * px;
    SameFactor(n, (q * v) * pr, px);
    MultipleOf(q * v, pr);
  }

  lemma SameFactor(a: int, b: int, p: int)
    requires a * p == b * p && p >= 1
    ensures a == b
  {
  }

  lemma Factors(v: int, pz: int, pf: int, px: int, pr: int, y: int)
    requires y == (v * pz) * pf && pz * pf == px * pr
    ensures y == v * (px * pr)
  {
    Associate(v, pz, pf);
  }

  lemma {:induction false} QuotientOfShortPrefix(a: Numeral, b: Numeral, q: Numeral, k: nat, v: int, r: int,
                                                 zeros: nat, exact: bool, f: nat)
    requires a.WellFormed() && b.WellFormed() && q.WellFormed() && q.negative == (a.negative != b.negative)
    requires Val(Prefix(a.leaves, k)) == Val(q.leaves) * v + r && 0 <= r < v && k < |a.leaves|
    requires Val(b.leaves) == v * Pow(zeros) && f == q.Fraction() + b.Fraction()
    requires f + (|a.leaves| - k) == zeros + a.Fraction()
    requires exact ==> r == 0 && forall i :: k <= i < |a.leaves| ==> a.leaves[i] == 0
    ensures Quotient(a, b, q, exact) && (ComesOut(a, b, q.Fraction()) ==> r == 0)
  {
    var n := |a.leaves| - k;
    PrefixValue(a.leaves, k);
    PowPositive(f);
    PowPositive(n);
    PowAdd(zeros, a.Fraction());
    PowAdd(f, n);
    Factors(v, Pow(zeros), Pow(a.Fraction()), Pow(f), Pow(n), Lower(a, b));
    CutDivide(Val(a.leaves), Pow(f), Pow(n), v, Val(Prefix(a.leaves, k)), Val(q.leaves), r,
      Upper(a, b, q.Fraction()), Lower(a, b));
  }

  /** A quotient of the dividend up to place `k` by the leaves of the divisor without trailing zeros. */
  lemma {:induction false} QuotientOfPrefix(a: Numeral, b: Numeral, q: Numeral, k: nat, v: int, r: int, zeros: nat,
                                            exact: bool)
    requires a.WellFormed() && b.WellFormed() && q.WellFormed() && q.negative == (a.negative != b.negative)
    requires Val(Prefix(a.leaves, k)) == Val(q.leaves) * v + r && 0 <= r < v
    requires Val(b.leaves) == v * Pow(zeros) && q.Fraction() + b.Fraction() + |a.leaves| == a.Fraction() + k + zeros
    requires exact ==> r == 0 && forall i :: k <= i < |a.leaves| ==> a.leaves[i] == 0
    ensures Quotient(a, b, q, exact) && (ComesOut(a, b, q.Fraction()) ==> r == 0)
  {
    if k >= |a.leaves| {
      PrefixValue(a.leaves, k);
      QuotientBySingleLeaf(a, b, q, v, zeros, k - |a.leaves|, r);
    } else {
      QuotientOfShortPrefix(a, b, q, k, v, r, zeros, exact, q.Fraction() + b.Fraction());
    }
  }

  lemma {:induction false} TimesByLeaf(n: Numeral, m: Numeral, z: nat, leaf: int)
    requires n.WellFormed() && m.WellFormed() && n.negative == m.negative && m.Fraction() == n.Fraction() + z
    requires Val(n.leaves) * Pow(z) == leaf * Val(m.leaves)
    ensures Times(n, m, leaf)
  {
    PowAdd(n.Fraction(), z);
    Regrouped(Val(n.leaves), Pow(n.Fraction()), Pow(z), leaf, Val(m.leaves));
  }

  lemma Regrouped(x: int, pf: int, pz: int, leaf: int, y: int)
    requires x * pz == leaf * y
    ensures x * (pf * pz) == leaf * (y * pf)
  {
    assert x * (pf * pz) == (x * pz) * pf;
    assert (leaf * y) * pf == leaf * (y * pf);
  }

  /** One more leaf of a division by a single leaf: `rest` is carried, `x` comes next. */
  lemma LeafStep(w: int, q: int, leaf: int, rest: int, x: int)
    requires 0 <= rest < leaf && 0 <= x < LEAF && w == q * leaf + rest
    ensures 0 <= (rest * LEAF + x) / leaf < LEAF && 0 <= (rest * LEAF + x) % leaf < leaf
    ensures w * LEAF + x == (q * LEAF + (rest * LEAF + x) / leaf) * leaf + (rest * LEAF + x) % leaf
  {
    var y := rest * LEAF + x;
    MulMono(rest + 1, leaf, LEAF);
    QuotientBounds(y, leaf, y / leaf);
    assert y == (y / leaf) * leaf + y % leaf;
    assert (q * LEAF + y / leaf) * leaf == (q * leaf) * LEAF + (y / leaf) * leaf;
  }

  /** The leaves `q` are the quotient of `w` by a leaf, and `rest` is what remains. */
  ghost predicate DividedByLeaf(w: int, q: seq<int>, leaf: int, rest: int) {
    IsLeaves(q) && 0 <= rest < leaf && w == Val(q) * leaf + rest
  }

  lemma {:induction false} NextQuotientLeaf(w: int, q: seq<int>, leaf: int, rest: int, x: int)
    requires DividedByLeaf(w, q, leaf, rest) && 0 <= x < LEAF
    ensures DividedByLeaf(w * LEAF + x, q + [(rest * LEAF + x) / leaf], leaf, (rest * LEAF + x) % leaf)
  {
    LeafStep(w, Val(q), leaf, rest, x);
    assert (q + [(rest * LEAF + x) / leaf])[..|q|] == q;
  }

  lemma Swap(q: int, v: int, p: int)
    ensures (q * v) * p == (q * p) * v
  {
  }

  /** A quotient that came out exactly, continued with zeros up to the point. */
  lemma {:induction false} PaddedQuotient(t: seq<int>, k: nat, q: seq<int>, v: int, s: seq<int>, pad: nat)
    requires Divided(t, k, q, v, s) && Val(s) == 0 && |t| <= k
    ensures Val(Prefix(t, k + pad)) == Val(q + Zeros(pad)) * v
  {
    var p := Prefix(t, k);
    assert Prefix(t, k + pad) == p + Zeros(pad);
    ValConcat(p, Zeros(pad));
    ValConcat(q, Zeros(pad));
    ValZeros(pad);
    Swap(Val(q), v, Pow(pad));
  }

  /** Zeros behind leaves do not change what comes first. */
  lemma {:induction false} SamePrefix(s: seq<int>, t: seq<int>, k: nat)
    requires |t| <= |s| && s[..|t|] == t && forall i :: |t| <= i < |s| ==> s[i] == 0
    ensures Prefix(t, k) == Prefix(s, k)
  {
  }

  /** From the rounds of a long division to the quotient of the numbers. */
  lemma {:induction false} LongQuotient(a: Numeral, t: seq<int>, b: Numeral, q: Numeral, ql: seq<int>, k: nat, v: int,
                                        s: seq<int>, zeros: nat, pad: nat, exact: bool)
    requires a.WellFormed() && b.WellFormed() && q.WellFormed() && q.negative == (a.negative != b.negative)
    requires |t| <= |a.leaves| && a.leaves[..|t|] == t && forall i :: |t| <= i < |a.leaves| ==> a.leaves[i] == 0
    requires Divided(t, k, ql, v, s) && 0 <= Val(s) < v && q.leaves == ql + Zeros(pad) && (pad > 0 ==> exact)
    requires Val(b.leaves) == v * Pow(zeros)
      && q.Fraction() + b.Fraction() + |a.leaves| == a.Fraction() + k + pad + zeros
    requires (exact ==> Val(s) == 0 && |t| <= k) && (exact || Goes(ql, s))
    ensures Quotient(a, b, q, exact) && (exact || StillGoes(a, b, q))
  {
    SamePrefix(a.leaves, t, k + pad);
    var r := if exact then 0 else Val(s);
    assert Val(Prefix(t, k + pad)) == Val(q.leaves) * v + r by {
      if exact {
        PaddedQuotient(t, k, ql, v, s, pad);
      } else {
        assert ql + Zeros(pad) == ql;
      }
    }
    QuotientOfPrefix(a, b, q, k + pad, v, r, zeros, exact);
    if !exact {
      assert ql + Zeros(pad) == ql;
      if Val(s) == 0 { LastLeafOf(ql); }
    }
  }

  /** Whether a quotient did not come out before its last leaf: that leaf is not zero, or something remains. */
  ghost predicate StillGoes(a: Numeral, b: Numeral, q: Numeral) {
    && a.WellFormed() && b.WellFormed() && q.Fraction() >= 0 && Lower(a, b) >= 1
    && (Val(q.leaves) % LEAF != 0 || !ComesOut(a, b, q.Fraction()))
  }

  lemma {:induction false} LastLeafOf(s: seq<int>)
    requires IsLeaves(s) && s != [] && s[|s| - 1] != 0
    ensures Val(s) % LEAF != 0
  {
    DivideUnique(Val(s), LEAF, Val(s[..|s| - 1]), s[|s| - 1]);
  }

  /** The factor that normalises a divisor brings its first leaf to at least half of LEAF. */
  lemma Normalizator(v: int, k: int)
    requires 1 <= v < LEAF && k == LEAF / (v + 1)
    ensures k >= 1 && k * (v + 1) <= LEAF && k * v >= LEAF / 2
  {
    var u := v + 1;
    assert k * u <= LEAF < k * u + u;
    if k < 1 { MulMono(k, 0, u); }
    assert k * v == k * u - k;
    if u >= 3 && k >= 3 {
      MulMono(3, u, k - 2);
      assert (k - 2) * (u - 2) >= k - 2;
      assert (k - 2) * (u - 2) == k * u - 2 * k - 2 * u + 4;
    }
  }

  /** A run between multiples of powers that its first leaf and its length tell. */
  lemma {:induction false} FirstLeafBounds(w: seq<int>)
    requires IsLeaves(w) && w != [] && w[0] != 0
    ensures w[0] * Pow(|w| - 1) <= Val(w) < (w[0] + 1) * Pow(|w| - 1)
    ensures Pow(|w| - 1) <= Val(w) < Pow(|w|)
  {
    assert w == [w[0]] + w[1..];
    ValFront(w[0], w[1..]);
    ValBound(w[1..]);
    ValBound(w);
    Distribute(w[0], 1, Pow(|w| - 1));
    ValLeading(w);
  }

  lemma ScaledBounds(first: int, k: int, p: int, v: int)
    requires first * p <= v < (first + 1) * p && k * (first + 1) <= LEAF && k * first >= LEAF / 2 && p >= 1 && k >= 1
    ensures LEAF / 2 * p <= k * v < LEAF * p
  {
    MulMono(first * p, v, k);
    MulMono(v + 1, (first + 1) * p, k);
    Associate(k, first, p);
    Associate(k, first + 1, p);
    MulMono(LEAF / 2, k * first, p);
    MulMono(k * (first + 1), LEAF, p);
    Distribute(v, 1, k);
  }

  lemma RaisedBounds(first: int, p: int, v: int, pz: int)
    requires p <= v < (first + 1) * p && v < LEAF * p && pz >= 1
    ensures p * pz <= v * pz < (first + 1) * (p * pz) && v * pz < LEAF * (p * pz)
  {
    MulMono(p, v, pz);
    MulMono(v + 1, (first + 1) * p, pz);
    MulMono(v + 1, LEAF * p, pz);
    Distribute(v, 1, pz);
    Associate(first + 1, p, pz);
    Associate(LEAF, p, pz);
  }

  lemma {:induction false} NormalisedFirst(s: seq<int>, w: seq<int>, z: nat, k: int)
    requires IsLeaves(s) && s != [] && s[0] != 0 && k == LEAF / (s[0] + 1)
    requires IsLeaves(w) && w != [] && w[0] != 0 && Val(w) * Pow(z) == k * Val(s)
    ensures w[0] >= LEAF / 2
  {
    var n, m, x := |s| - 1, |w| - 1, k * Val(s);
    Normalizator(s[0], k);
    FirstLeafBounds(s);
    FirstLeafBounds(w);
    PowPositive(z);
    PowPositive(n);
    PowAdd(m, z);
    ScaledBounds(s[0], k, Pow(n), Val(s));
    RaisedBounds(w[0], Pow(m), Val(w), Pow(z));
    SameLength(x, n, m + z);
    Cancel(LEAF / 2, w[0] + 1, Pow(n));
  }

  lemma {:induction false} SameLength(x: int, n: nat, m: nat)
    requires LEAF / 2 * Pow(n) <= x < LEAF * Pow(n) && Pow(m) <= x < LEAF * Pow(m)
    ensures n == m
  {
    PowPositive(n);
    PowPositive(m);
    if n + 1 <= m { PowMono(n + 1, m); }
    if m + 1 <= n {
      PowMono(m + 1, n);
      MulMono(1, LEAF / 2, Pow(n));
    }
  }

  /** Leaves without the zeros in front and behind. */
  lemma {:induction false} StrippedValue(s: seq<int>, lead: nat, n: nat, zeros: nat)
    requires IsLeaves(s) && |s| == lead + n + zeros
    requires forall i :: 0 <= i < lead || lead + n <= i < |s| ==> s[i] == 0
    ensures Val(s) == Val(s[lead..lead + n]) * Pow(zeros)
  {
    ValLeadingZeros(s, lead);
    assert s[lead..] == s[lead..lead + n] + Zeros(zeros);
    ValConcat(s[lead..lead + n], Zeros(zeros));
    ValZeros(zeros);
  }

  lemma CancelEqual(x: int, y: int, p: int)
    requires x * p == y * p && p >= 1
    ensures x == y
  {
    if x < y { MulMono(x + 1, y, p); Distribute(x, 1, p); }
    if y < x { MulMono(y + 1, x, p); Distribute(y, 1, p); }
  }

  lemma {:induction false} PositiveTimes(n: Numeral, m: Numeral, k: int)
    requires Times(n, m, k) && k >= 1 && Val(m.leaves) >= 1
    ensures Val(n.leaves) >= 1
  {
    PowPositive(m.Fraction());
    PowPositive(n.Fraction());
    MulMono(1, Val(m.leaves), Pow(n.Fraction()));
    MulMono(1, k, Val(m.leaves) * Pow(n.Fraction()));
    if Val(n.leaves) <= 0 { MulMono(Val(n.leaves), 0, Pow(m.Fraction())); }
  }

  lemma {:induction false} TimesCancelled(n: Numeral, b: Numeral, k: int)
    requires Times(n, b, k) && n.Fraction() <= b.Fraction()
    ensures Val(n.leaves) * Pow(b.Fraction() - n.Fraction()) == k * Val(b.leaves)
  {
    var z, p := b.Fraction() - n.Fraction(), Pow(n.Fraction());
    PowPositive(n.Fraction());
    PowAdd(n.Fraction(), z);
    Regroup(Val(n.leaves), p, Pow(z), k, Val(b.leaves));
  }

  lemma Regroup(x: int, p: int, pz: int, k: int, y: int)
    requires x * (p * pz) == k * (y * p) && p >= 1
    ensures x * pz == k * y
  {
    assert (x * pz) * p == x * (p * pz);
    assert (k * y) * p == k * (y * p);
    CancelEqual(x * pz, k * y, p);
  }

  /** Where the first leaf of a normalised divisor is, and that it is large. */
  lemma {:induction false} NormalisedDivisor(n: Numeral, b: Numeral, test: nat, k: int) returns (first: nat)
    requires Times(n, b, k) && n.Fraction() <= b.Fraction() && test < |b.leaves| && b.leaves[test] != 0
    requires k == LEAF / (b.leaves[test] + 1) && forall i :: 0 <= i < test ==> b.leaves[i] == 0
    ensures first < |n.leaves| && n.leaves[first] >= LEAF / 2 && forall i :: 0 <= i < first ==> n.leaves[i] == 0
    ensures Val(n.leaves) >= 1
  {
    var s := b.leaves[test..];
    Normalizator(s[0], k);
    ValLeadingZeros(b.leaves, test);
    FirstLeafBounds(s);
    PowPositive(|s| - 1);
    PositiveTimes(n, b, k);
    TimesCancelled(n, b, k);
    first := FirstNonZero(n.leaves);
    ValLeadingZeros(n.leaves, first);
    NormalisedFirst(s, n.leaves[first..], b.Fraction() - n.Fraction(), k);
  }

  lemma {:induction false} FirstNonZero(s: seq<int>) returns (first: nat)
    requires IsLeaves(s) && Val(s) >= 1
    ensures first < |s| && s[first] != 0 && forall i :: 0 <= i < first ==> s[i] == 0
  {
    if s == [] || s[0] != 0 {
      first := 0;
    } else {
      ValLeadingZeros(s, 1);
      first := FirstNonZero(s[1..]);
      first := first + 1;
      assert forall i :: 1 <= i < first ==> s[i] == s[1..][i - 1];
    }
  }

  lemma {:induction false} FirstIsLeading(s: seq<int>, n: nat)
    requires IsLeaves(s) && Val(s) >= 1 && n <= |s| && forall i :: 0 <= i < n ==> s[i] == 0
    ensures n < |s|
  {
    var first := FirstNonZero(s);
  }
}
