/** Numbers as sequences of leaves: digits in base 10^9, the most significant first. */
module Leaves {
  const LEAF: int := 1_000_000_000

  ghost predicate IsLeaves(s: seq<int>) {
    forall i :: 0 <= i < |s| ==> 0 <= s[i] < LEAF
  }

  ghost function Pow(n: nat): int {
    if n == 0 then 1 else LEAF * Pow(n - 1)
  }

  ghost function Val(s: seq<int>): int {
    if s == [] then 0 else Val(s[..|s| - 1]) * LEAF + s[|s| - 1]
  }

  ghost function Zeros(n: nat): seq<int> {
    seq(n, _ => 0)
  }

  lemma Distribute(a: int, b: int, c: int)
    ensures (a + b) * c == a * c + b * c
  {
  }

  lemma Associate(a: int, b: int, c: int)
    ensures (a * b) * c == a * (b * c)
  {
  }

  lemma Commute(a: int, b: int, c: int)
    ensures (a * b) * c == (a * c) * b
  {
  }

  lemma MulMono(a: int, b: int, c: int)
    requires a <= b && 0 <= c
    ensures a * c <= b * c
  {
  }

  /** The product of numbers below bounds is below the product of the bounds. */
  lemma ProductBelow(x: int, y: int, p: int, q: int)
    requires 0 <= x < p && 0 <= y < q
    ensures 0 <= x * y < p * q
  {
    MulMono(0, x, y);
    MulMono(x, p, y);
    MulMono(y + 1, q, p);
    Distribute(y, 1, p);
  }

  lemma {:induction false} PowPositive(n: nat)
    ensures Pow(n) >= 1
  {
    if n > 0 { PowPositive(n - 1); }
  }

  lemma {:induction false} PowAdd(a: nat, b: nat)
    ensures Pow(a + b) == Pow(a) * Pow(b)
  {
    if b > 0 {
      PowAdd(a, b - 1);
      assert Pow(a) * (LEAF * Pow(b - 1)) == LEAF * (Pow(a) * Pow(b - 1));
    }
  }

  lemma PowMono(a: nat, b: nat)
    requires a <= b
    ensures Pow(a) <= Pow(b)
  {
    PowAdd(a, b - a);
    PowPositive(b - a);
    PowPositive(a);
    assert Pow(a) * Pow(b - a) >= Pow(a) * 1;
  }

  lemma {:induction false} ValConcat(a: seq<int>, b: seq<int>)
    ensures Val(a + b) == Val(a) * Pow(|b|) + Val(b)
  {
    if b == [] {
      assert a + b == a;
    } else {
      var c, d := b[..|b| - 1], b[|b| - 1];
      assert (a + b)[..|a + b| - 1] == a + c;
      ValConcat(a, c);
      assert (Val(a) * Pow(|c|)) * LEAF == Val(a) * (LEAF * Pow(|c|));
    }
  }

  lemma ValSplit(s: seq<int>, i: nat)
    requires i <= |s|
    ensures Val(s) == Val(s[..i]) * Pow(|s| - i) + Val(s[i..])
  {
    assert s == s[..i] + s[i..];
    ValConcat(s[..i], s[i..]);
  }

  lemma ValOfOne(d: int)
    ensures Val([d]) == d
  {
    assert [d][..0] == [];
    assert Val([]) == 0;
  }

  lemma ValFront(d: int, s: seq<int>)
    ensures Val([d] + s) == d * Pow(|s|) + Val(s)
  {
    ValConcat([d], s);
    ValOfOne(d);
  }

  lemma {:induction false} ValBound(s: seq<int>)
    requires IsLeaves(s)
    ensures 0 <= Val(s) < Pow(|s|)
  {
    if s != [] {
      ValBound(s[..|s| - 1]);
    }
  }

  lemma {:induction false} ValZeros(n: nat)
    ensures Val(Zeros(n)) == 0
  {
    if n > 0 {
      ValZeros(n - 1);
      assert Zeros(n)[..n - 1] == Zeros(n - 1);
    }
  }

  /** Leading zero leaves do not count. */
  lemma ValLeadingZeros(s: seq<int>, n: nat)
    requires n <= |s| && forall i :: 0 <= i < n ==> s[i] == 0
    ensures Val(s) == Val(s[n..])
  {
    ValSplit(s, n);
    assert s[..n] == Zeros(n);
    ValZeros(n);
  }

  /** A non-zero first leaf bounds the value from below. */
  lemma ValLeading(s: seq<int>)
    requires IsLeaves(s) && s != [] && s[0] != 0
    ensures Val(s) >= Pow(|s| - 1)
  {
    assert s == [s[0]] + s[1..];
    ValFront(s[0], s[1..]);
    ValBound(s[1..]);
    PowPositive(|s| - 1);
    MulMono(1, s[0], Pow(|s| - 1));
  }

  /** Whether an array holds nothing but leaves. */
  ghost predicate HoldsLeaves(a: array<int>)
    reads a
  {
    forall i :: 0 <= i < a.Length ==> 0 <= a[i] < LEAF
  }

  lemma {:induction false} SliceOfPrefix<T>(s: seq<T>, n: nat, lo: nat, hi: nat)
    requires lo <= hi <= n <= |s|
    ensures s[..n][lo..hi] == s[lo..hi]
  {
  }

  lemma {:induction false} SameSlice<T>(s: seq<T>, t: seq<T>, lo: nat, hi: nat)
    requires lo <= hi <= |s| && hi <= |t| && forall i :: lo <= i < hi ==> s[i] == t[i]
    ensures s[lo..hi] == t[lo..hi]
  {
  }

  lemma {:induction false} ValBehindZeros(n: nat, s: seq<int>)
    ensures Val(Zeros(n) + s) == Val(s)
  {
    ValConcat(Zeros(n), s);
    ValZeros(n);
  }

  lemma {:induction false} ValBehindZero(zero: int, s: seq<int>)
    requires zero == 0
    ensures Val([zero] + s) == Val(s)
  {
    ValFront(zero, s);
  }

  lemma LeavesThenZeros(a: array<int>, n: nat)
    requires n <= a.Length && IsLeaves(a[..n]) && forall i :: n <= i < a.Length ==> a[i] == 0
    ensures HoldsLeaves(a)
  {
    assert forall i :: 0 <= i < n ==> a[..n][i] == a[i];
  }
}
