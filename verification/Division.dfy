/** Long division of leaves with guessed quotient leaves (The Art of Computer Programming, volume 2,
    section 4.3.1, algorithm D). */
module Division {
  import opened Leaves
  import opened Addition
  import opened Chunks

  lemma {:induction false} CompareStep(a: seq<int>, b: seq<int>, i: nat)
    requires IsLeaves(a) && IsLeaves(b) && |a| == |b| && i < |a| && a[..i] == b[..i] && a[i] < b[i]
    ensures Val(a) < Val(b)
  {
    var ta, tb, p := a[i + 1..], b[i + 1..], Pow(|a| - i - 1);
    assert a[i..] == [a[i]] + ta && b[i..] == [b[i]] + tb;
    ValSplit(a, i);
    ValSplit(b, i);
    assert Val(a[i..]) < Val(b[i..]) by {
      ValFront(a[i], ta);
      ValFront(b[i], tb);
      ValBound(ta);
      ValBound(tb);
      MulMono(a[i] + 1, b[i], p);
      Distribute(a[i], 1, p);
    }
  }

  /** Compares runs of equal length leaf by leaf. */
  method Compare(left: array<int>, lo: nat, right: array<int>, ro: nat, n: nat) returns (cmp: int)
    requires lo + n <= left.Length && ro + n <= right.Length
    requires IsLeaves(left[lo..lo + n]) && IsLeaves(right[ro..ro + n])
    ensures cmp < 0 <==> Val(left[lo..lo + n]) < Val(right[ro..ro + n])
    ensures cmp == 0 <==> left[lo..lo + n] == right[ro..ro + n]
    ensures cmp > 0 <==> Val(left[lo..lo + n]) > Val(right[ro..ro + n])
  {
    cmp := 0;
    ghost var a, b := left[lo..lo + n], right[ro..ro + n];
    var i := 0;
    while cmp == 0 && i < n
      invariant 0 <= i <= n
      invariant cmp == 0 ==> a[..i] == b[..i]
      invariant cmp != 0 ==> i > 0 && a[..i - 1] == b[..i - 1] && cmp == a[i - 1] - b[i - 1]
    {
      cmp := left[lo + i] - right[ro + i];
      i := i + 1;
    }
    if cmp < 0 {
      CompareStep(a, b, i - 1);
    } else if cmp > 0 {
      CompareStep(b, a, i - 1);
    } else {
      assert a[..n] == a && b[..n] == b;
    }
  }

  /** The facts about the sample `s`, three leaves of it, the divisor `v` and two leaves of it,
      with `t` the unit of the third and `p` = LEAF * `t` the unit of the second. */
  ghost predicate Guessing(s: int, u0: int, u1: int, u2: int, v: int, v1: int, v2: int, t: int) {
    && 0 <= u0 && 0 <= u1 < LEAF && 0 <= u2 < LEAF && LEAF / 2 <= v1 < LEAF && 0 <= v2 < LEAF && t >= 1
    && ((u0 * LEAF + u1) * LEAF + u2) * t <= s < ((u0 * LEAF + u1) * LEAF + u2 + 1) * t
    && (v1 * LEAF + v2) * t <= v < (v1 * LEAF + v2 + 1) * t
    && s < v * LEAF
  }

  /** The divisor and the sample seen through their leading leaves alone. */
  lemma LeadingBounds(s: int, u0: int, u1: int, u2: int, v: int, v1: int, v2: int, t: int)
    requires Guessing(s, u0, u1, u2, v, v1, v2, t)
    ensures (u0 * LEAF + u1) * (LEAF * t) <= s < (u0 * LEAF + u1 + 1) * (LEAF * t)
    ensures v1 * (LEAF * t) <= v < (v1 + 1) * (LEAF * t)
    ensures u0 <= v1
  {
    var u, p := u0 * LEAF + u1, LEAF * t;
    Associate(u, LEAF, t);
    MulMono(u * LEAF, u * LEAF + u2, t);
    MulMono(u * LEAF + u2 + 1, u * LEAF + LEAF, t);
    Distribute(u * LEAF, LEAF, t);
    Distribute(u, 1, p);
    Associate(v1, LEAF, t);
    MulMono(v1 * LEAF, v1 * LEAF + v2, t);
    MulMono(v1 * LEAF + v2 + 1, v1 * LEAF + LEAF, t);
    Distribute(v1 * LEAF, LEAF, t);
    Distribute(v1, 1, p);
    if u0 > v1 {
      MulMono((v1 + 1) * LEAF, u, p);
      Associate(LEAF, v1 + 1, p);
    }
  }

  lemma Cancel(a: int, b: int, c: int)
    requires a * c < b * c && c >= 0
    ensures a < b
  {
    if a >= b { MulMono(b, a, c); }
  }

  /** A guess from the leading leaves is never too low. */
  lemma NeverTooLow(s: int, u: int, v: int, v1: int, p: int, q: int, g: int)
    requires s < (u + 1) * p && v1 * p <= v && p >= 1 && v >= 1 && g >= 0 && q * v <= s
    requires u < (g + 1) * v1
    ensures q <= g
  {
    MulMono(v1 * p, v, g + 1);
    Associate(g + 1, v1, p);
    MulMono(u + 1, (g + 1) * v1, p);
    Cancel(q, g + 1, v);
  }

  /** A guess from the leading leaves is at most two too high. */
  lemma TwoTooHigh(s: int, u: int, v: int, v1: int, p: int, q: int, g: int)
    requires u * p <= s < (q + 1) * v && v1 * p <= v < (v1 + 1) * p && p >= 1 && v >= 1
    requires 0 <= g < LEAF && g * v1 <= u && v1 >= LEAF / 2
    ensures g <= q + 2
  {
    assert g * (v1 * p) <= s by {
      MulMono(g * v1, u, p);
      Associate(g, v1, p);
    }
    assert g * v <= s + g * p by {
      MulMono(v, v1 * p + p, g);
      Distribute(v1, 1, p);
      Distribute(v1 * p, p, g);
    }
    MulMono(g, LEAF, p);
    assert 2 * v >= LEAF * p by {
      MulMono(LEAF, 2 * v1, p);
      Associate(2, v1, p);
    }
    Distribute(q + 1, 2, v);
    Cancel(g, q + 3, v);
  }

  /** The test with a second divisor leaf fails only for a guess that is too high. */
  lemma TestedTooHigh(s: int, u: int, u2: int, v: int, v1: int, v2: int, t: int, g: int, q: int)
    requires s < (u * LEAF + u2 + 1) * t && (v1 * LEAF + v2) * t <= v && t >= 1 && v >= 1 && g >= 0
    requires q * v <= s
    requires v2 * g > (u - g * v1) * LEAF + u2
    ensures q < g
  {
    var w := v1 * LEAF + v2;
    assert g * w >= u * LEAF + u2 + 1 by {
      assert g * w == (g * v1) * LEAF + v2 * g;
    }
    assert g * (w * t) >= (u * LEAF + u2 + 1) * t by {
      MulMono(u * LEAF + u2 + 1, g * w, t);
      Associate(g, w, t);
    }
    MulMono(w * t, v, g);
    Cancel(q, g, v);
  }

  /** A guess that passes the test is at most one too high. */
  lemma TestedOneTooHigh(s: int, u: int, u2: int, v: int, v1: int, v2: int, t: int, g: int, q: int)
    requires (u * LEAF + u2) * t <= s < (q + 1) * v && v < (v1 * LEAF + v2 + 1) * t && t >= 1 && 0 <= g < LEAF
    requires LEAF * t <= v && v2 * g <= (u - g * v1) * LEAF + u2
    ensures g <= q + 1
  {
    var w := v1 * LEAF + v2;
    assert g * (w * t) <= s by {
      assert g * w == (g * v1) * LEAF + v2 * g;
      MulMono(g * w, u * LEAF + u2, t);
      Associate(g, w, t);
    }
    assert g * v <= g * (w * t) + g * t by {
      MulMono(v, (w + 1) * t, g);
      Distribute(w, 1, t);
      Distribute(w * t, t, g);
    }
    MulMono(g, LEAF, t);
    Distribute(q + 1, 1, v);
    Cancel(g, q + 2, v);
  }

  /** One test of a guess, which may lower it by one. */
  method TestGuess(leaf: int, u0: int, u1: int, u2: int, v1: int, v2: int, ghost s: int, ghost v: int, ghost t: int,
                   ghost q: int)
    returns (g: int, lowered: bool)
    requires Guessing(s, u0, u1, u2, v, v1, v2, t) && q * v <= s < (q + 1) * v && 0 <= q <= leaf < LEAF
    ensures q <= g < LEAF && g == leaf - (if lowered then 1 else 0) && (!lowered ==> g <= q + 1)
  {
    LeadingBounds(s, u0, u1, u2, v, v1, v2, t);
    MulMono(1, v1, LEAF * t);
    MulMono(1, t, LEAF);
    ghost var u := u0 * LEAF + u1;
    g := leaf;
    lowered := v2 * g > ((u0 * LEAF + u1) - g * v1) * LEAF + u2;
    if lowered {
      TestedTooHigh(s, u, u2, v, v1, v2, t, g, q);
      g := g - 1;
    } else {
      TestedOneTooHigh(s, u, u2, v, v1, v2, t, g, q);
    }
  }

  /** The guess from two leaves of the sample and one of the divisor. */
  method FirstGuess(u0: int, u1: int, v1: int, ghost s: int, ghost v: int, ghost p: int, ghost q: int)
    returns (leaf: int)
    requires 0 <= u0 <= v1 < LEAF && 0 <= u1 < LEAF && LEAF / 2 <= v1
    requires (u0 * LEAF + u1) * p <= s < (u0 * LEAF + u1 + 1) * p && v1 * p <= v < (v1 + 1) * p && p >= 1 && v >= 1
    requires q * v <= s < (q + 1) * v && 0 <= q < LEAF
    ensures q <= leaf <= q + 2 && leaf < LEAF
  {
    ghost var u := u0 * LEAF + u1;
    if u0 == v1 {
      leaf := LEAF - 1;
    } else {
      leaf := (u0 * LEAF + u1) / v1;
      QuotientBounds(u, v1, leaf);
      NeverTooLow(s, u, v, v1, p, q, leaf);
    }
    TwoTooHigh(s, u, v, v1, p, q, leaf);
  }

  lemma QuotientBounds(u: int, v: int, g: int)
    requires v >= 1 && g == u / v && 0 <= u < LEAF * v
    ensures g * v <= u < (g + 1) * v && 0 <= g < LEAF
  {
    Distribute(g, 1, v);
    Cancel(g, LEAF, v);
    Cancel(-1, g, v);
  }

  /** Guesses a quotient leaf from three leaves of the sample and two of the divisor; the guess
      is right or one too high. */
  method GuessLeaf(u0: int, u1: int, u2: int, v1: int, v2: int, ghost s: int, ghost v: int, ghost t: int, ghost q: int)
    returns (leaf: int)
    requires Guessing(s, u0, u1, u2, v, v1, v2, t) && q * v <= s < (q + 1) * v && 0 <= q < LEAF
    ensures q <= leaf <= q + 1 && leaf < LEAF
  {
    LeadingBounds(s, u0, u1, u2, v, v1, v2, t);
    MulMono(1, t, LEAF);
    MulMono(1, v1, LEAF * t);
    leaf := FirstGuess(u0, u1, v1, s, v, LEAF * t, q);
    var lowered;
    leaf, lowered := TestGuess(leaf, u0, u1, u2, v1, v2, s, v, t, q);
    if lowered {
      leaf, lowered := TestGuess(leaf, u0, u1, u2, v1, v2, s, v, t, q);
    }
  }

  /** A run seen through its first two leaves. */
  lemma {:induction false} FirstTwo(s: seq<int>)
    requires |s| >= 2 && IsLeaves(s)
    ensures (s[0] * LEAF + s[1]) * Pow(|s| - 2) <= Val(s) < (s[0] * LEAF + s[1] + 1) * Pow(|s| - 2)
  {
    var t, p := s[2..], Pow(|s| - 2);
    assert s == [s[0]] + s[1..] && s[1..] == [s[1]] + t;
    ValFront(s[0], s[1..]);
    ValFront(s[1], t);
    ValBound(t);
    Associate(s[0], LEAF, p);
    Distribute(s[0] * LEAF, s[1], p);
    Distribute(s[0] * LEAF + s[1], 1, p);
  }

  lemma {:induction false} FirstThree(s: seq<int>)
    requires |s| >= 3 && IsLeaves(s)
    ensures ((s[0] * LEAF + s[1]) * LEAF + s[2]) * Pow(|s| - 3) <= Val(s)
      < ((s[0] * LEAF + s[1]) * LEAF + s[2] + 1) * Pow(|s| - 3)
  {
    var t, p := s[3..], Pow(|s| - 3);
    assert s == s[..3] + t;
    ValConcat(s[..3], t);
    assert Val(s[..3]) == (s[0] * LEAF + s[1]) * LEAF + s[2] by {
      assert s[..3] == [s[0]] + ([s[1]] + [s[2]]);
      ValFront(s[0], [s[1]] + [s[2]]);
      ValFront(s[1], [s[2]]);
      assert Val([s[2]]) == Val([]) * LEAF + s[2];
      assert Pow(1) == LEAF * Pow(0) && Pow(2) == LEAF * Pow(1);
    }
    ValBound(t);
    Distribute(Val(s[..3]), 1, p);
  }

  /** The divisor: at least two leaves, the first one not less than half of LEAF. */
  ghost predicate Normalised(d: seq<int>) {
    |d| >= 2 && IsLeaves(d) && d[0] >= LEAF / 2
  }

  lemma {:induction false} GuessingLeaves(s: seq<int>, d: seq<int>)
    requires Normalised(d) && IsLeaves(s) && (|s| == |d| || |s| == |d| + 1) && Val(s) < Val(d) * LEAF
    ensures |s| == |d| ==> Guessing(Val(s), 0, s[0], s[1], Val(d), d[0], d[1], Pow(|d| - 2))
    ensures |s| == |d| + 1 ==> Guessing(Val(s), s[0], s[1], s[2], Val(d), d[0], d[1], Pow(|d| - 2))
  {
    PowPositive(|d| - 2);
    FirstTwo(d);
    if |s| == |d| {
      FirstTwo(s);
    } else {
      FirstThree(s);
    }
  }

  /** The quotient leaf that is to be guessed. */
  ghost function QuotientOf(s: int, v: int): (q: int)
    requires v >= 1 && 0 <= s < v * LEAF
    ensures 0 <= q < LEAF && q * v <= s < (q + 1) * v
  {
    QuotientBounds(s, v, s / v);
    s / v
  }

  /** A multiple of the divisor, one leaf longer. */
  method MultiplySample(mult: array<int>, divisor: array<int>, off: nat, n: nat, leaf: int, ghost d: seq<int>)
    requires mult != divisor && n + 1 <= mult.Length && off + n <= divisor.Length
    requires d == divisor[off..off + n] && IsLeaves(d) && 0 <= leaf < LEAF
    modifies mult
    ensures IsLeaves(mult[..n + 1]) && Val(mult[..n + 1]) == leaf * Val(d)
  {
    CopyLeaves(mult, 1, divisor, off, n);
    var carrier;
    ghost var r;
    carrier, r := ScaleLeaves(mult, 1, mult, 1, n, leaf, d);
    mult[0] := carrier;
    assert mult[..n + 1] == [carrier] + r;
    ValFront(carrier, r);
  }

  /** Whether a multiple of the divisor exceeds the sample, which lacks the first place unless `extra`. */
  method Exceeds(mult: array<int>, sample: array<int>, n: nat, extra: bool) returns (b: bool)
    requires n + 1 <= mult.Length && (if extra then n + 1 else n) <= sample.Length
    requires IsLeaves(mult[..n + 1]) && IsLeaves(sample[..if extra then n + 1 else n])
    ensures b <==> Val(sample[..if extra then n + 1 else n]) < Val(mult[..n + 1])
    ensures !extra && !b ==> mult[0] == 0
  {
    ghost var m := mult[..n + 1];
    if extra {
      var cmp := Compare(sample, 0, mult, 0, n + 1);
      b := cmp < 0;
      assert sample[0..0 + (n + 1)] == sample[..n + 1] && mult[0..0 + (n + 1)] == m;
    } else if mult[0] != 0 {
      ValBound(sample[..n]);
      ValLeading(m);
      b := true;
    } else {
      var cmp := Compare(sample, 0, mult, 1, n);
      b := cmp < 0;
      assert sample[0..0 + n] == sample[..n] && mult[1..1 + n] == m[1..];
      ValLeadingZeros(m, 1);
    }
  }

  /** Subtracts a multiple of the divisor from the sample, which is not less, in place. */
  method SubtractMultiple(sample: array<int>, len: nat, mult: array<int>, off: nat, ghost m: seq<int>)
    requires sample != mult && len <= sample.Length && off + len <= mult.Length && mult[off..off + len] == m
    requires IsLeaves(sample[..len]) && IsLeaves(m) && Val(m) <= Val(sample[..len])
    modifies sample
    ensures IsLeaves(sample[..len]) && Val(sample[..len]) == Val(old(sample[..len])) - Val(m)
    ensures forall i :: len <= i < sample.Length ==> sample[i] == old(sample[i])
  {
    ghost var a := sample[..len];
    assert sample[0..0 + |a|] == a;
    PlainOperand(sample, 0, a);
    PlainOperand(mult, off, m);
    var borrowed;
    ghost var r;
    borrowed, r := MutateAddition(sample, -1, len + 1, sample, 0, mult, off, 0, 0, 0, 0, true, a, m);
    assert sample[..len] == r;
    assert !borrowed by {
      if borrowed { ValBound(r); }
    }
  }

  lemma Difference(s: int, v: int, q: int)
    requires q * v <= s < (q + 1) * v
    ensures 0 <= s - q * v < v
  {
    Distribute(q, 1, v);
  }

  /** A quotient leaf that is right or one too high; only a sample with an extra leaf has one more
      than the divisor. */
  method Guess(sample: array<int>, len: nat, divisor: array<int>, off: nat, extra: bool, ghost s: seq<int>,
               ghost d: seq<int>)
    returns (leaf: int, ghost q: int)
    requires |d| >= 2 && off + |d| <= divisor.Length && d == divisor[off..off + |d|] && Normalised(d)
    requires len == |s| == |d| + (if extra then 1 else 0) && len <= sample.Length && s == sample[..len]
    requires IsLeaves(s) && Val(s) < Val(d) * LEAF
    ensures 0 <= q <= leaf <= q + 1 && leaf < LEAF && q * Val(d) <= Val(s) < (q + 1) * Val(d)
  {
    ghost var v, t := Val(d), Pow(|d| - 2);
    ValBound(s);
    FirstTwo(d);
    PowPositive(|d| - 2);
    MulMono(1, d[0] * LEAF + d[1], t);
    q := QuotientOf(Val(s), v);
    GuessingLeaves(s, d);
    if extra {
      leaf := GuessLeaf(sample[0], sample[1], sample[2], divisor[off], divisor[off + 1], Val(s), v, t, q);
    } else {
      leaf := GuessLeaf(0, sample[0], sample[1], divisor[off], divisor[off + 1], Val(s), v, t, q);
    }
  }

  /** Multiplies the divisor by the guess and corrects a guess that is too high. */
  method Correct(guess: int, sample: array<int>, mult: array<int>, divisor: array<int>, off: nat, n: nat, extra: bool,
                 ghost s: seq<int>, ghost d: seq<int>, ghost q: int)
    returns (leaf: int)
    requires sample != mult && mult != divisor && n + 1 <= mult.Length && off + n <= divisor.Length
      && d == divisor[off..off + n]
    requires |s| == n + (if extra then 1 else 0) && |s| <= sample.Length && s == sample[..|s|] && IsLeaves(s)
      && IsLeaves(d)
    requires 0 <= q <= guess <= q + 1 && guess < LEAF && q * Val(d) <= Val(s) < (q + 1) * Val(d)
    modifies mult
    ensures leaf == q && IsLeaves(mult[..n + 1]) && Val(mult[..n + 1]) == q * Val(d) && (!extra ==> mult[0] == 0)
  {
    leaf := guess;
    MultiplySample(mult, divisor, off, n, leaf, d);
    var tooMuch := Exceeds(mult, sample, n, extra);
    if tooMuch {
      leaf := leaf - 1;
      MultiplySample(mult, divisor, off, n, leaf, d);
    }
    if !extra {
      ValBound(s);
      if mult[0] != 0 { ValLeading(mult[..n + 1]); }
    }
  }

  /** Produces the next quotient leaf and leaves the remainder in the sample. */
  method NextLeaf(sample: array<int>, len: nat, mult: array<int>, divisor: array<int>, off: nat, n: nat, extra: bool,
                  ghost s: seq<int>, ghost d: seq<int>)
    returns (leaf: int)
    requires sample != mult && sample != divisor && mult != divisor && n + 1 <= mult.Length && |d| == n
    requires off + n <= divisor.Length && d == divisor[off..off + n] && Normalised(d)
    requires len == |s| == n + (if extra then 1 else 0) && len <= sample.Length && s == sample[..len]
    requires IsLeaves(s) && Val(s) < Val(d) * LEAF
    modifies sample, mult
    ensures 0 <= leaf < LEAF && IsLeaves(sample[..len])
    ensures Val(s) == leaf * Val(d) + Val(sample[..len]) && 0 <= Val(sample[..len]) < Val(d)
    ensures forall i :: len <= i < sample.Length ==> sample[i] == old(sample[i])
  {
    ghost var q;
    leaf, q := Guess(sample, len, divisor, off, extra, s, d);
    leaf := Correct(leaf, sample, mult, divisor, off, n, extra, s, d, q);
    ghost var m := mult[..n + 1];
    if !extra { ValLeadingZeros(m, 1); }
    var offset := if extra then 0 else 1;
    assert mult[offset..offset + len] == m[offset..];
    Difference(Val(s), Val(d), leaf);
    SubtractMultiple(sample, len, mult, offset, m[offset..]);
  }

  /** The first `k` leaves of the dividend, continued with zeros. */
  ghost function Prefix(a: seq<int>, k: nat): (s: seq<int>)
    ensures |s| == k
  {
    if k <= |a| then a[..k] else a + Zeros(k - |a|)
  }

  /** Behind zero leaves the first leaves of the dividend are worth what follows the zeros. */
  lemma SampleOfPrefix(a: seq<int>, lead: nat, len: nat)
    requires lead + len <= |a| && forall i :: 0 <= i < lead ==> a[i] == 0
    ensures Val(Prefix(a, lead + len)) == Val(a[lead..lead + len])
  {
    ValLeadingZeros(a[..lead + len], lead);
    assert a[..lead + len][lead..] == a[lead..lead + len];
  }

  /** The leaves of the dividend at the places [k, k + n). */
  ghost function Following(a: seq<int>, k: nat, n: nat): (s: seq<int>)
    ensures |s| == n
  {
    Prefix(a, k + n)[k..]
  }

  /** A value moved up by `n` leaves. */
  ghost function Raised(x: int, n: nat): int {
    if n == 0 then x else Raised(x, n - 1) * LEAF
  }

  lemma {:induction false} RaisedIsProduct(x: int, n: nat)
    ensures Raised(x, n) == x * Pow(n)
  {
    if n > 0 {
      RaisedIsProduct(x, n - 1);
      assert x * (LEAF * Pow(n - 1)) == (x * Pow(n - 1)) * LEAF;
    }
  }

  lemma {:induction false} RaisedSum(x: int, y: int, n: nat)
    ensures Raised(x + y, n) == Raised(x, n) + Raised(y, n)
  {
    if n > 0 { RaisedSum(x, y, n - 1); }
  }

  lemma ValAppend(s: seq<int>, f: seq<int>)
    ensures Val(s + f) == Raised(Val(s), |f|) + Val(f)
  {
    ValConcat(s, f);
    RaisedIsProduct(Val(s), |f|);
  }

  /** The leaves of the dividend up to place `k` are worth `x` and the sample `s`. */
  ghost predicate Consumed(a: seq<int>, k: nat, x: int, s: seq<int>) {
    IsLeaves(s) && Val(Prefix(a, k)) == x + Val(s)
  }

  lemma {:induction false} FollowingLeaves(a: seq<int>, k: nat, n: nat, r: seq<int>)
    requires IsLeaves(a) && IsLeaves(r)
    ensures IsLeaves(r + Following(a, k, n))
  {
    var f, p := Following(a, k, n), Prefix(a, k + n);
    assert forall i :: 0 <= i < n ==> f[i] == p[k + i];
  }

  lemma {:induction false} BothAppend(p: seq<int>, s: seq<int>, f: seq<int>, x: int)
    requires Val(p) == x + Val(s)
    ensures Val(p + f) == Raised(x, |f|) + Val(s + f)
  {
    ValAppend(p, f);
    ValAppend(s, f);
    RaisedSum(x, Val(s), |f|);
  }

  lemma {:induction false} PrefixMore(a: seq<int>, k: nat, n: nat, x: int, s: seq<int>)
    requires IsLeaves(a) && Consumed(a, k, x, s)
    ensures Consumed(a, k + n, Raised(x, n), s + Following(a, k, n))
  {
    FollowingLeaves(a, k, n, s);
    BothAppend(Prefix(a, k), s, Following(a, k, n), x);
    assert Prefix(a, k + n) == Prefix(a, k) + Following(a, k, n);
  }

  lemma {:induction false} Strippable(s: seq<int>, zeros: nat, n: nat)
    requires |s| <= n + 1 && IsLeaves(s) && Val(s) < Pow(n) && zeros <= |s| && (zeros < |s| ==> s[zeros] != 0)
    requires forall i :: 0 <= i < zeros ==> s[i] == 0
    ensures |s| - zeros <= n && Val(s[zeros..]) == Val(s)
  {
    ValLeadingZeros(s, zeros);
    if zeros == 0 && |s| == n + 1 { ValLeading(s); }
  }

  /** Drops the zero leaves in front of the sample. */
  method Strip(sample: array<int>, len0: nat, ghost n: nat, ghost s: seq<int>) returns (len: nat, ghost r: seq<int>)
    requires len0 <= sample.Length && len0 <= n + 1 && s == sample[..len0] && IsLeaves(s) && Val(s) < Pow(n)
    modifies sample
    ensures len == |r| <= n && len <= sample.Length && sample[..len] == r
    ensures IsLeaves(r) && Val(r) == Val(s) && (len > 0 ==> r[0] != 0)
    ensures s != [] && s[0] != 0 ==> r == s
  {
    var shift := FrontZeros(sample, len0, s);
    Strippable(s, shift, n);
    r := s[shift..];
    len := len0 - shift;
    DropFront(sample, shift, len);
  }

  /** The number of zero leaves in front of the sample. */
  method FrontZeros(sample: array<int>, len: nat, ghost s: seq<int>) returns (zeros: nat)
    requires len <= sample.Length && s == sample[..len]
    ensures zeros <= len && (zeros < len ==> s[zeros] != 0) && forall i :: 0 <= i < zeros ==> s[i] == 0
  {
    zeros := LeadingZeros(sample, 0, len);
    assert zeros < len ==> s[zeros] == sample[zeros];
    assert forall i :: 0 <= i < zeros ==> s[i] == sample[i];
  }

  /** Moves the sample over the leaves in front of it. */
  method DropFront(sample: array<int>, shift: nat, len: nat)
    requires shift + len <= sample.Length
    modifies sample
    ensures sample[..len] == old(sample[..shift + len])[shift..]
  {
    if shift > 0 && len > 0 {
      Move(sample, 0, shift, len);
    }
  }

  /** Whether the dividend ends with a non-zero leaf. */
  ghost predicate Trimmed(a: seq<int>) {
    IsLeaves(a) && a != [] && a[|a| - 1] != 0
  }

  /** Skips zero leaves of the dividend when the sample is empty. */
  method SkipZeros(dividend: array<int>, leafCount: nat, leafNo0: nat, ghost a: seq<int>) returns (leafNo: nat)
    requires leafCount <= dividend.Length && a == dividend[..leafCount] && Trimmed(a) && leafNo0 < leafCount
    ensures leafNo0 <= leafNo < leafCount && a[leafNo] != 0
    ensures forall i :: leafNo0 <= i < leafNo ==> a[i] == 0
  {
    assert dividend[leafCount - 1] == a[leafCount - 1];
    var zeros := LeadingZeros(dividend, leafNo0, leafCount - leafNo0);
    leafNo := leafNo0 + zeros;
    assert forall i :: leafNo0 <= i < leafNo ==> a[i] == dividend[i];
  }

  /** Appends leaves of the dividend to the sample, as many as there are or fit. */
  method Append(sample: array<int>, len0: nat, dividend: array<int>, leafCount: nat, leafNo0: nat, n: nat,
                ghost a: seq<int>, ghost r: seq<int>)
    returns (len: nat, leafNo: nat)
    requires sample != dividend && n <= sample.Length && len0 < n && sample[..len0] == r
    requires leafCount <= dividend.Length && a == dividend[..leafCount] && leafNo0 < leafCount
    modifies sample
    ensures len0 < len <= n && leafNo - leafNo0 == len - len0 && (len == n || leafNo == leafCount)
    ensures sample[..len] == r + Following(a, leafNo0, len - len0)
  {
    var compensationLen := if leafCount - leafNo0 < n - len0 then leafCount - leafNo0 else n - len0;
    CopyLeaves(sample, len0, dividend, leafNo0, compensationLen);
    len := len0 + compensationLen;
    leafNo := leafNo0 + compensationLen;
    FollowingInside(a, leafNo0, compensationLen);
    assert forall i :: leafNo0 <= i < leafNo ==> a[i] == dividend[i];
    assert sample[..len] == r + a[leafNo0..leafNo];
  }

  lemma {:induction false} FollowingInside(a: seq<int>, k: nat, n: nat)
    requires k + n <= |a|
    ensures Following(a, k, n) == a[k..k + n]
  {
  }

  /** Fills the sample up with zeros behind an exhausted dividend. */
  method FillUp(sample: array<int>, len: nat, n: nat, ghost a: seq<int>, ghost leafNo: nat, ghost r: seq<int>)
    requires n <= sample.Length && len <= n && sample[..len] == r && (len < n ==> |a| <= leafNo)
    modifies sample
    ensures sample[..n] == r + Following(a, leafNo, n - len)
  {
    ClearLeaves(sample, len, n - len);
    if len < n {
      assert Following(a, leafNo, n - len) == Zeros(n - len);
    }
  }

  lemma {:induction false} FollowingMore(a: seq<int>, k: nat, m: nat, n: nat)
    ensures Following(a, k, m) + Following(a, k + m, n) == Following(a, k, m + n)
  {
    assert Prefix(a, k + m + n)[..k + m] == Prefix(a, k + m);
  }

  lemma {:induction false} SkippedZeros(a: seq<int>, k: nat, skipped: nat, n: nat)
    requires k + skipped <= |a| && forall i :: k <= i < k + skipped ==> a[i] == 0
    ensures Val(Following(a, k, skipped + n)) == Val(Following(a, k + skipped, n))
  {
    var f := Following(a, k, skipped + n);
    FollowingMore(a, k, skipped, n);
    assert forall i :: 0 <= i < skipped ==> f[i] == a[k + i] == 0;
    ValLeadingZeros(f, skipped);
    assert f[skipped..] == Following(a, k + skipped, n);
  }

  /** Behind an empty sample zeros of the dividend can be skipped. */
  lemma EmptyRefilled(a: seq<int>, k: nat, skipped: nat, n: nat, x: int)
    requires IsLeaves(a) && Consumed(a, k, x, []) && k + skipped <= |a|
    requires forall i :: k <= i < k + skipped ==> a[i] == 0
    ensures Consumed(a, k + (skipped + n), Raised(x, skipped + n), Following(a, k + skipped, n))
  {
    hide Following, Raised, Val;
    var f, g := Following(a, k, skipped + n), Following(a, k + skipped, n);
    PrefixMore(a, k, skipped + n, x, []);
    assert [] + f == f;
    FollowingLeaves(a, k + skipped, n, []);
    assert [] + g == g;
    SkippedZeros(a, k, skipped, n);
    SameConsumed(a, k + (skipped + n), Raised(x, skipped + n), f, g);
  }

  lemma SameConsumed(a: seq<int>, k: nat, x: int, s: seq<int>, t: seq<int>)
    requires Consumed(a, k, x, s) && IsLeaves(t) && Val(s) == Val(t)
    ensures Consumed(a, k, x, t)
  {
  }

  /** The sample `r` with the next leaves of the dividend appended; zeros are skipped for an empty sample. */
  lemma Refilled(a: seq<int>, k: nat, skipped: nat, n: nat, x: int, r: seq<int>)
    requires IsLeaves(a) && Consumed(a, k, x, r)
    requires skipped > 0 ==> r == [] && k + skipped <= |a|
    requires forall i :: k <= i < k + skipped ==> a[i] == 0
    ensures Consumed(a, k + (skipped + n), Raised(x, skipped + n), r + Following(a, k + skipped, n))
  {
    hide Following, Raised, Val;
    if skipped > 0 {
      EmptyRefilled(a, k, skipped, n, x);
      assert r + Following(a, k + skipped, n) == Following(a, k + skipped, n);
    } else {
      PrefixMore(a, k, n, x, r);
    }
  }

  /** Appends leaves of the dividend and zeros behind its end up to the length of the divisor. */
  method AppendAll(sample: array<int>, len: nat, dividend: array<int>, leafCount: nat, leafNo0: nat, n: nat,
                   ghost a: seq<int>, ghost r: seq<int>)
    returns (leafNo: nat)
    requires sample != dividend && n <= sample.Length && len < n && sample[..len] == r
    requires leafCount <= dividend.Length && a == dividend[..leafCount]
    modifies sample
    ensures leafNo == leafNo0 + (n - len) && sample[..n] == r + Following(a, leafNo0, n - len)
  {
    var l := len;
    leafNo := leafNo0;
    if leafNo < leafCount {
      l, leafNo := Append(sample, len, dividend, leafCount, leafNo, n, a, r);
    } else {
      assert r + Following(a, leafNo0, 0) == r;
    }
    FillUp(sample, l, n, a, leafNo, r + Following(a, leafNo0, l - len));
    FollowingMore(a, leafNo0, l - len, n - l);
    leafNo := leafNo + (n - l);
  }

  /** Appends leaves of the dividend to a sample that is too short; before, zero leaves of the dividend
      were skipped for an empty sample. */
  method AppendConsumed(sample: array<int>, len: nat, dividend: array<int>, leafCount: nat, leafNo0: nat, n: nat,
                        ghost a: seq<int>, ghost k: nat, ghost x: int, ghost r: seq<int>)
    returns (leafNo: nat, ghost t: seq<int>)
    requires sample != dividend && n <= sample.Length && len == |r| < n && r == sample[..len]
    requires leafCount <= dividend.Length && a == dividend[..leafCount] && IsLeaves(a) && Consumed(a, k, x, r)
    requires k <= leafNo0 && (k < leafNo0 ==> r == [] && leafNo0 <= |a|) && forall i :: k <= i < leafNo0 ==> a[i] == 0
    modifies sample
    ensures leafNo == leafNo0 + (n - len) && t == sample[..n] && Consumed(a, leafNo, Raised(x, leafNo - k), t)
    ensures t == r + Following(a, leafNo0, n - len)
  {
    hide Val, Raised, Prefix, Following;
    leafNo := AppendAll(sample, len, dividend, leafCount, leafNo0, n, a, r);
    t := sample[..n];
    Refilled(a, k, leafNo0 - k, n - len, x, r);
  }

  /** A sample that starts with a leaf that is not zero, or with leaves of the dividend from such a leaf on. */
  lemma {:induction false} NotEmpty(a: seq<int>, k: nat, n: nat, r: seq<int>, t: seq<int>)
    requires IsLeaves(t) && t == r + Following(a, k, n) && t != []
    requires if r == [] then k < |a| && a[k] != 0 else r[0] != 0
    ensures Val(t) > 0
  {
    assert t[0] == if r == [] then a[k] else r[0];
    ValLeading(t);
    PowPositive(|t| - 1);
  }

  /** Brings a sample that is too short to the length of the divisor. */
  method Fetch(sample: array<int>, len: nat, dividend: array<int>, leafCount: nat, leafNo0: nat, n: nat,
               ghost a: seq<int>, ghost x: int, ghost r: seq<int>)
    returns (leafNo: nat, ghost t: seq<int>)
    requires sample != dividend && n <= sample.Length && len == |r| < n && r == sample[..len]
      && (if len > 0 then r[0] != 0 else leafNo0 < leafCount)
    requires leafCount <= dividend.Length && a == dividend[..leafCount] && Trimmed(a) && Consumed(a, leafNo0, x, r)
    modifies sample
    ensures leafNo > leafNo0 && t == sample[..n] && Consumed(a, leafNo, Raised(x, leafNo - leafNo0), t) && Val(t) > 0
    ensures len > 0 ==> leafNo == leafNo0 + (n - len)
  {
    leafNo := leafNo0;
    if len == 0 {
      leafNo := SkipZeros(dividend, leafCount, leafNo, a);
    }
    ghost var from := leafNo;
    leafNo, t := AppendConsumed(sample, len, dividend, leafCount, leafNo, n, a, leafNo0, x, r);
    NotEmpty(a, from, n - len, r, t);
  }

  /** Brings the sample to the length of the divisor with the next leaves of the dividend, zeros
      behind its end; an empty sample behind the end has nothing left to divide. */
  method Refill(sample: array<int>, len0: nat, dividend: array<int>, leafCount: nat, leafNo0: nat, n: nat,
                ghost a: seq<int>, ghost x: int, ghost s: seq<int>)
    returns (leafNo: nat, exhausted: bool, ghost t: seq<int>)
    requires sample != dividend && n + 1 <= sample.Length && len0 <= n + 1 && n >= 1
    requires leafCount <= dividend.Length && a == dividend[..leafCount] && Trimmed(a)
    requires s == sample[..len0] && Consumed(a, leafNo0, x, s) && Val(s) < Pow(n)
    modifies sample
    ensures leafNo >= leafNo0
    ensures exhausted ==> leafNo == leafNo0 >= leafCount && Val(Prefix(a, leafNo)) == x
    ensures !exhausted ==> t == sample[..n] && Consumed(a, leafNo, Raised(x, leafNo - leafNo0), t) && Val(t) > 0
    ensures !exhausted && leafNo == leafNo0 ==> Val(t) == Val(s)
    ensures 0 < len0 <= n && s[0] != 0 ==> !exhausted && leafNo == leafNo0 + (n - len0)
  {
    var len;
    len, t := Strip(sample, len0, n, s);
    leafNo := leafNo0;
    exhausted := len == 0 && leafNo >= leafCount;
    if len < n && !exhausted {
      leafNo, t := Fetch(sample, len, dividend, leafCount, leafNo, n, a, x, t);
    } else if !exhausted {
      ValLeading(t);
      PowPositive(len - 1);
    }
  }

  lemma {:induction false} RoomForLeaf(s: seq<int>, d: seq<int>, x: int)
    requires Normalised(d) && IsLeaves(s) && |s| == |d| && 0 <= x < LEAF
    ensures Val(s) < Val(d) * LEAF
    ensures Val(s) < Val(d) ==> Val(s + [x]) < Val(d) * LEAF
    ensures Val(s) <= Val(s + [x])
  {
    ValBound(s);
    ValLeading(d);
    assert (s + [x])[..|s|] == s;
  }

  /** Fetches one more leaf when the sample is less than the divisor. */
  method FetchExtra(sample: array<int>, dividend: array<int>, leafCount: nat, leafNo0: nat, divisor: array<int>,
                    off: nat, n: nat,
                    ghost a: seq<int>, ghost x: int, ghost t: seq<int>, ghost d: seq<int>)
    returns (leafNo: nat, extra: bool, ghost s: seq<int>)
    requires sample != dividend && sample != divisor && n + 1 <= sample.Length && n == |d| && off + n <= divisor.Length
    requires leafCount <= dividend.Length && a == dividend[..leafCount] && IsLeaves(a) && d == divisor[off..off + n]
      && Normalised(d)
    requires t == sample[..n] && Consumed(a, leafNo0, x, t)
    modifies sample
    ensures extra <==> Val(t) < Val(d)
    ensures leafNo == leafNo0 + (if extra then 1 else 0) && |s| == n + (if extra then 1 else 0) && s == sample[..|s|]
    ensures Consumed(a, leafNo, if extra then Raised(x, 1) else x, s) && Val(s) < Val(d) * LEAF && Val(t) <= Val(s)
  {
    assert sample[0..0 + n] == t;
    var cmp := Compare(sample, 0, divisor, off, n);
    extra := cmp < 0;
    leafNo := leafNo0;
    s := t;
    if extra {
      sample[n] := if leafNo < leafCount then dividend[leafNo] else 0;
      PrefixMore(a, leafNo, 1, x, t);
      assert Following(a, leafNo, 1) == [sample[n]];
      s := t + [sample[n]];
      leafNo := leafNo + 1;
      RoomForLeaf(t, d, sample[n]);
    } else {
      RoomForLeaf(t, d, 0);
    }
  }

  /** Appends zeros to the quotient. */
  method AppendZeros(quotient: array<int>, count: nat, zeros: int, ghost q: seq<int>) returns (grown: array<int>)
    requires count <= quotient.Length && q == quotient[..count]
    modifies quotient
    ensures grown == quotient || fresh(grown)
    ensures count + (if zeros > 0 then zeros else 0) <= grown.Length
    ensures grown[..count + if zeros > 0 then zeros else 0] == q + Zeros(if zeros > 0 then zeros else 0)
    ensures old(HoldsLeaves(quotient)) ==> HoldsLeaves(grown)
  {
    grown := quotient;
    if zeros > 0 {
      grown := Realloc(quotient, count + zeros);
      ClearLeaves(grown, count, zeros);
    }
  }

  method AppendLeaf(quotient: array<int>, count: nat, leaf: int, ghost q: seq<int>) returns (grown: array<int>)
    requires count <= quotient.Length && q == quotient[..count]
    modifies quotient
    ensures grown == quotient || fresh(grown)
    ensures count + 1 <= grown.Length && grown[..count + 1] == q + [leaf]
    ensures 0 <= leaf < LEAF && old(HoldsLeaves(quotient)) ==> HoldsLeaves(grown)
  {
    grown := Realloc(quotient, count + 1);
    grown[count] := leaf;
  }

  /** The dividend up to place `k` is the product of the quotient leaves `q` and the divisor `v`,
      and the sample `s`. */
  ghost predicate Divided(a: seq<int>, k: nat, q: seq<int>, v: int, s: seq<int>) {
    IsLeaves(q) && Consumed(a, k, Val(q) * v, s)
  }

  lemma {:induction false} RaisedScale(q: int, v: int, m: nat)
    ensures Raised(q * v, m) == Raised(q, m) * v
  {
    if m > 0 {
      RaisedScale(q, v, m - 1);
      Associate(Raised(q, m - 1), LEAF, v);
      assert (Raised(q, m - 1) * v) * LEAF == Raised(q, m - 1) * (LEAF * v);
    }
  }

  /** One more quotient leaf, `m` - 1 zero leaves behind the others. */
  lemma {:induction false} OneMoreLeaf(a: seq<int>, k: nat, q: seq<int>, m: nat, leaf: int, v: int, s: seq<int>,
                                       r: seq<int>)
    requires IsLeaves(q) && m >= 1 && Consumed(a, k, Raised(Val(q) * v, m), s) && 0 <= leaf < LEAF && IsLeaves(r)
    requires Val(s) == leaf * v + Val(r)
    ensures Divided(a, k, q + Zeros(m - 1) + [leaf], v, r)
  {
    var z := Zeros(m - 1) + [leaf];
    assert q + Zeros(m - 1) + [leaf] == q + z;
    ValAppend(q, z);
    assert z[..m - 1] == Zeros(m - 1);
    ValZeros(m - 1);
    RaisedScale(Val(q), v, m);
    Distribute(Raised(Val(q), m), leaf, v);
  }

  lemma {:induction false} RaisedTwice(x: int, m: nat, n: nat)
    ensures Raised(Raised(x, m), n) == Raised(x, m + n)
  {
    if n > 0 { RaisedTwice(x, m, n - 1); }
  }

  lemma {:induction false} RaisedZero(m: nat)
    ensures Raised(0, m) == 0
  {
    if m > 0 { RaisedZero(m - 1); }
  }

  /** Brings the sample up so that it yields one quotient leaf. */
  method Supply(sample: array<int>, len0: nat, dividend: array<int>, leafCount: nat, leafNo0: nat, divisor: array<int>,
                off: nat, n: nat,
                ghost a: seq<int>, ghost x: int, ghost s0: seq<int>, ghost d: seq<int>)
    returns (leafNo: nat, exhausted: bool, extra: bool, ghost s: seq<int>)
    requires sample != dividend && sample != divisor && n + 1 <= sample.Length && len0 <= n + 1 && n == |d|
    requires leafCount <= dividend.Length && a == dividend[..leafCount] && Trimmed(a)
    requires off + n <= divisor.Length && d == divisor[off..off + n] && Normalised(d)
    requires s0 == sample[..len0] && Consumed(a, leafNo0, x, s0) && Val(s0) < Pow(n)
    modifies sample
    ensures leafNo >= leafNo0
    ensures exhausted ==> leafNo == leafNo0 >= leafCount && Val(Prefix(a, leafNo)) == x
    ensures !exhausted ==> |s| == n + (if extra then 1 else 0) && s == sample[..|s|] && 0 < Val(s) < Val(d) * LEAF
    ensures !exhausted ==> Consumed(a, leafNo, Raised(x, leafNo - leafNo0), s)
    ensures !exhausted && Val(s0) < Val(d) ==> leafNo > leafNo0
    ensures 0 < len0 <= n && s0[0] != 0 ==> !exhausted && leafNo == leafNo0 + (n - len0) + (if extra then 1 else 0)
  {
    hide Val, Raised, Prefix, Pow;
    ghost var t;
    extra, s := false, s0;
    leafNo, exhausted, t := Refill(sample, len0, dividend, leafCount, leafNo0, n, a, x, s0);
    if !exhausted {
      ghost var m := leafNo - leafNo0;
      leafNo, extra, s := FetchExtra(sample, dividend, leafCount, leafNo, divisor, off, n, a, Raised(x, m), t, d);
      RaisedTwice(x, m, 1);
    }
  }

  /** Whether the last quotient leaf or the remainder is not zero: the quotient had not come out before that leaf. */
  ghost predicate Goes(q: seq<int>, s: seq<int>) {
    (q != [] && q[|q| - 1] != 0) || Val(s) > 0
  }

  /** Fills in zero quotient leaves and produces the next quotient leaf from the sample. */
  method Produce(sample: array<int>, len: nat, mult: array<int>, divisor: array<int>, off: nat, n: nat, extra: bool,
                 zfill: nat,
                 quotient0: array<int>, count0: nat, ghost a: seq<int>, ghost k: nat, ghost s: seq<int>,
                   ghost d: seq<int>, ghost q: seq<int>)
    returns (quotient: array<int>, count: nat)
    requires sample != mult && sample != divisor && mult != divisor && n + 1 <= mult.Length && |d| == n
    requires quotient0 != sample && quotient0 != mult && quotient0 != divisor
    requires off + n <= divisor.Length && d == divisor[off..off + n] && Normalised(d)
    requires len == |s| == n + (if extra then 1 else 0) && len <= sample.Length && s == sample[..len]
      && Val(s) < Val(d) * LEAF
    requires count0 <= quotient0.Length && q == quotient0[..count0] && IsLeaves(q)
    requires Consumed(a, k, Raised(Val(q) * Val(d), zfill + 1), s)
    modifies sample, mult, quotient0
    ensures quotient == quotient0 || fresh(quotient)
    ensures count == count0 + zfill + 1 <= quotient.Length
    ensures Divided(a, k, quotient[..count], Val(d), sample[..len]) && 0 <= Val(sample[..len]) < Val(d)
    ensures Val(s) > 0 ==> Goes(quotient[..count], sample[..len])
    ensures old(HoldsLeaves(quotient0)) ==> HoldsLeaves(quotient)
  {
    hide Val, Raised, Prefix;
    quotient := AppendZeros(quotient0, count0, zfill, q);
    var leaf := NextLeaf(sample, len, mult, divisor, off, n, extra, s, d);
    quotient := AppendLeaf(quotient, count0 + zfill, leaf, q + Zeros(zfill));
    count := count0 + zfill + 1;
    OneMoreLeaf(a, k, q, zfill + 1, leaf, Val(d), s, sample[..len]);
  }

  /** One round of the division: supplies the sample and produces the next quotient leaf. */
  method Round(sample: array<int>, len0: nat, mult: array<int>, dividend: array<int>, leafCount: nat, leafNo0: nat,
               divisor: array<int>, off: nat, n: nat, firstLeaf: bool, quotient0: array<int>, count0: nat,
               ghost a: seq<int>, ghost s0: seq<int>, ghost d: seq<int>, ghost q: seq<int>)
    returns (quotient: array<int>, count: nat, leafNo: nat, len: nat, exhausted: bool, extra: bool)
    requires sample != dividend && sample != divisor && sample != mult && mult != divisor && mult != dividend
    requires quotient0 != sample && quotient0 != mult && quotient0 != dividend && quotient0 != divisor
    requires n + 1 <= sample.Length && n + 1 <= mult.Length && len0 <= n + 1 && n == |d|
    requires leafCount <= dividend.Length && a == dividend[..leafCount] && Trimmed(a)
    requires off + n <= divisor.Length && d == divisor[off..off + n] && Normalised(d)
    requires count0 <= quotient0.Length && q == quotient0[..count0] && s0 == sample[..len0]
    requires Divided(a, leafNo0, q, Val(d), s0) && Val(s0) < Pow(n)
    requires if firstLeaf then Val(q) == 0 && 0 < len0 <= n && s0[0] != 0 else Val(s0) < Val(d)
    modifies sample, mult, quotient0
    ensures (quotient == quotient0 || fresh(quotient)) && count <= quotient.Length
    ensures exhausted ==> !firstLeaf && count == count0 && leafNo == leafNo0 >= leafCount && quotient[..count] == q
    ensures exhausted ==> len == 0 && Divided(a, leafNo, q, Val(d), [])
    ensures !exhausted ==>
      len == n + (if extra then 1 else 0) && Divided(a, leafNo, quotient[..count], Val(d), sample[..len])
    ensures !exhausted ==> count > count0 && 0 <= Val(sample[..len]) < Val(d) && Goes(quotient[..count], sample[..len])
    ensures !exhausted && firstLeaf ==> count == count0 + 1 && leafNo == leafNo0 + (n - len0) + (if extra then 1 else 0)
    ensures !exhausted && !firstLeaf ==> count - count0 == leafNo - leafNo0
    ensures old(HoldsLeaves(quotient0)) ==> HoldsLeaves(quotient)
  {
    quotient, count := quotient0, count0;
    ghost var s;
    leafNo, exhausted, extra, s :=
      Supply(sample, len0, dividend, leafCount, leafNo0, divisor, off, n, a, Val(q) * Val(d), s0, d);
    len := if exhausted then 0 else if extra then n + 1 else n;
    if !exhausted {
      var zfill := if firstLeaf then 0 else leafNo - leafNo0 - 1;
      if firstLeaf {
        RaisedZero(leafNo - leafNo0);
        RaisedZero(1);
      }
      quotient, count :=
        Produce(sample, len, mult, divisor, off, n, extra, zfill, quotient0, count0, a, leafNo, s, d, q);
    }
  }

  /** The rounds of the division of `a` by `d`. The quotient leaves and the remainder `s` make up
      the dividend, continued with zeros, up to place `k`; the remainder is less than the divisor. */
  method Rounds(sample: array<int>, len0: nat, dividend: array<int>, leafCount: nat, lead: nat, divisor: array<int>,
                off: nat, n: nat,
                quotient0: array<int>, count0: nat, integralPart0: int, required: int,
                ghost a: seq<int>, ghost s0: seq<int>, ghost d: seq<int>)
    returns (quotient: array<int>, count: nat, integralPart: int, exact: bool, ghost k: nat, ghost s: seq<int>)
    requires sample != dividend && sample != divisor && quotient0 != sample && quotient0 != dividend
      && quotient0 != divisor
    requires n + 1 <= sample.Length && 0 < len0 <= n == |d|
    requires leafCount <= dividend.Length && a == dividend[..leafCount] && Trimmed(a)
    requires off + n <= divisor.Length && d == divisor[off..off + n] && Normalised(d)
    requires count0 <= quotient0.Length && forall i :: 0 <= i < count0 ==> quotient0[i] == 0
    requires s0 == sample[..len0] && s0[0] != 0 && Consumed(a, lead + len0, 0, s0)
    modifies sample, quotient0
    ensures (quotient == quotient0 || fresh(quotient)) && 0 < count <= quotient.Length
    ensures Divided(a, k, quotient[..count], Val(d), s) && 0 <= Val(s) < Val(d)
      && (exact ==> Val(s) == 0 && k >= leafCount)
    ensures count - integralPart == count0 - integralPart0 + 1 + k - n - lead
    ensures integralPart0 - 1 <= integralPart <= integralPart0
    ensures exact || (count - integralPart >= required && Goes(quotient[..count], s))
    ensures old(HoldsLeaves(quotient0)) ==> HoldsLeaves(quotient)
  {
    var mult := new int[n + 1];
    quotient, count, integralPart, exact := quotient0, count0, integralPart0, false;
    var leafNo: nat, len: nat, firstLeaf, more := lead + len0, len0, true, true;
    assert quotient[..count] == Zeros(count);
    ValZeros(count);
    ValBound(s0);
    PowMono(len0, n);
    ValBound(d);
    ghost var q := quotient[..count];
    s := s0;
    while more
      invariant quotient == quotient0 || fresh(quotient)
      invariant quotient != sample && quotient != mult && quotient != dividend && quotient != divisor
      invariant count <= quotient.Length && len <= n + 1 && q == quotient[..count] && s == sample[..len]
      invariant Divided(a, leafNo, q, Val(d), s) && 0 <= Val(s) < Pow(n)
      invariant (more ==> !exact) && (exact ==> s == [] && leafNo >= leafCount)
      invariant firstLeaf ==> more && count == count0 && integralPart == integralPart0
      invariant firstLeaf ==> leafNo == lead + len0 && s == s0 && Val(q) == 0
      invariant !firstLeaf ==> Val(s) < Val(d) && count > 0
      invariant !firstLeaf ==> count - integralPart == count0 - integralPart0 + 1 + leafNo - n - lead
      invariant integralPart0 - 1 <= integralPart <= integralPart0
      invariant more ==> firstLeaf || count - integralPart < required
      invariant old(HoldsLeaves(quotient0)) ==> HoldsLeaves(quotient)
      invariant !more ==> exact || (count - integralPart >= required && Goes(q, s))
      decreases if more then 1 else 0, required - (count - integralPart)
    {
      var exhausted, extra;
      quotient, count, leafNo, len, exhausted, extra :=
        Round(sample, len, mult, dividend, leafCount, leafNo, divisor, off, n,
        firstLeaf, quotient, count, a, s, d, q);
      q, s := quotient[..count], sample[..len];
      if exhausted {
        exact := true;
        more := false;
      } else {
        if firstLeaf && extra {
          integralPart := integralPart - 1;
        }
        firstLeaf := false;
        more := count - integralPart < required;
      }
    }
    k := leafNo;
  }
}
