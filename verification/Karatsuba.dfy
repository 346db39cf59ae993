/** The product of two runs of leaves: Karatsuba's method over a schoolbook base case. */
module Karatsuba {
  import opened Leaves
  import opened Addition
  import opened Chunks

  const THRESHOLD := 20

  /** The leaves of a run; a run of negative size is empty. */
  ghost function Run(data: array<int>, off: int, size: int): (s: seq<int>)
    reads data
    requires size > 0 ==> 0 <= off && off + size <= data.Length
  {
    if size <= 0 then [] else data[off..off + size]
  }

  lemma {:induction false} SuffixChange(f: seq<int>, g: seq<int>, n: nat)
    requires |f| == |g| && n <= |f|
    requires forall i :: n <= i < |f| ==> f[i] == g[i]
    ensures Val(g) == Val(f) + (Val(g[..n]) - Val(f[..n])) * Pow(|f| - n)
  {
    Patched(f, g, 0, n);
    assert f[0..n] == f[..n] && g[0..n] == g[..n];
  }

  lemma {:induction false} Exchange(x: int, a: int, b: int, c: int, p: int, sub: bool)
    requires Combined(x, 0, c, sub) == Combined(a, b, 0, sub)
    ensures (x - a) * p == if sub then (c - b) * p else (b - c) * p
  {
    assert x - a == if sub then c - b else b - c;
  }

  /** The change of a run of `n` leaves that `b` is added to or subtracted from, losing the carry. */
  ghost function Change(b: int, carry: bool, n: nat, sub: bool): int {
    if sub then (if carry then Pow(n) else 0) - b else b - (if carry then Pow(n) else 0)
  }

  /** What adding or subtracting `b` at the first `n` leaves does to a whole run. */
  lemma {:induction false} Accumulated(f: seq<int>, g: seq<int>, n: nat, e: nat, b: int, carry: bool, sub: bool)
    requires |f| == |g| == n + e
    requires forall i :: n <= i < |f| ==> f[i] == g[i]
    requires Combined(Val(g[..n]), 0, if carry then Pow(n) else 0, sub) == Combined(Val(f[..n]), b, 0, sub)
    ensures Val(g) == Val(f) + Change(b, carry, n, sub) * Pow(e)
  {
    SuffixChange(f, g, n);
    Exchange(Val(g[..n]), Val(f[..n]), b, if carry then Pow(n) else 0, Pow(e), sub);
  }

  /** Adds to or subtracts from the leaves [lo, lo + n) of `buf`, in place, an operand with `mi`
      missing leading leaves; `e` more leaves behind belong to the run. */
  method Accumulate(buf: array<int>, lo: int, n: nat, src: array<int>, p: int, mi: int, sub: bool,
                    ghost e: nat, ghost b: seq<int>)
    returns (carry: bool)
    requires 0 <= lo && lo + n + e <= buf.Length && src != buf
    requires Operand(src, p, mi, 0, n, b) && IsLeaves(b) && mi <= n
    requires NearLeaves(buf[lo..lo + n], sub)
    requires lo >= 1 || sub || Val(buf[lo..lo + n]) + Val(b) < Pow(n)
    modifies buf
    ensures IsLeaves(buf[lo..lo + n]) || (!carry && NearLeaves(buf[lo..lo + n], true) && old(buf[lo]) == LEAF)
    ensures forall i :: 0 <= i < buf.Length && (i < lo - 1 || i >= lo + n) ==> buf[i] == old(buf[i])
    ensures lo >= 1 ==> buf[lo - 1] == old(buf[lo - 1]) + if carry && !sub then 1 else 0
    ensures !sub && Val(old(buf[lo..lo + n])) + Val(b) < Pow(n) ==> !carry
    ensures Val(buf[lo..lo + n + e]) == Val(old(buf[lo..lo + n + e])) + Change(Val(b), carry, n, sub) * Pow(e)
  {
    hide Val, Pow;
    ghost var f := buf[lo..lo + n + e];
    ghost var a := buf[lo..lo + n];
    assert f[..n] == a;
    assert Operand(buf, lo, 0, 0, n, a);
    ghost var r;
    carry, r := MutateAddition(buf, lo - 1, n + 1, buf, lo, src, p, 0, mi, 0, 0, sub, a, b);
    ghost var g := buf[lo..lo + n + e];
    assert buf[lo..lo + n] == r == g[..n];
    assert !sub && Val(a) + Val(b) < Pow(n) ==> !carry by {
      if !sub { ValBound(r); }
    }
    assert forall i :: n <= i < |f| ==> f[i] == g[i];
    Accumulated(f, g, n, e, Val(b), carry, sub);
  }

  /** The product of one leaf of the first factor and the whole second factor, one leaf longer. */
  method Element(e: array<int>, fy: array<int>, fyo: int, fys: nat, leaf: int, ghost y: seq<int>)
    returns (ghost b: seq<int>)
    requires e.Length >= fys + 1 && e != fy && 0 <= fyo && fyo + fys <= fy.Length
    requires |y| == fys && Holds(fy, fyo, 0, fys, y, 0) && IsLeaves(y) && 0 <= leaf < LEAF
    modifies e
    ensures |b| == fys + 1 && IsLeaves(b) && e[..fys + 1] == b && Val(b) == leaf * Val(y)
  {
    var carrier;
    ghost var r;
    carrier, r := ScaleLeaves(e, 1, fy, fyo, fys, leaf, y);
    e[0] := carrier;
    b := [carrier] + r;
    ValFront(carrier, r);
  }

  /** The leaves from `i` on hold the product of the leaves of `x` from `i` on and `y`. */
  ghost predicate Multiplied(w: seq<int>, x: seq<int>, y: seq<int>, i: int) {
    && |w| == |x| + |y| && 0 <= i <= |x| && IsLeaves(w)
    && (forall k :: 0 <= k < i ==> w[k] == 0)
    && Val(w) == Val(x[i..]) * Val(y)
  }

  lemma LeafTimes(leaf: int, v: int, p: int)
    requires 0 <= leaf < LEAF && 0 <= v < p
    ensures leaf * v <= (LEAF - 1) * (p - 1)
  {
    MulMono(v, p - 1, leaf);
    MulMono(leaf, LEAF - 1, p - 1);
  }

  lemma {:induction false} NoCarry(a: seq<int>, b: int, leaf: int, vy: int, n: nat)
    requires |a| == n + 1 && IsLeaves(a) && a[0] == 0 && 0 <= vy < Pow(n) && b == leaf * vy && 0 <= leaf < LEAF
    ensures Val(a) + b < Pow(n + 1)
  {
    ValLeadingZeros(a, 1);
    ValBound(a[1..]);
    LeafTimes(leaf, vy, Pow(n));
  }

  lemma {:induction false} MultipliedStep(w: seq<int>, g: seq<int>, x: seq<int>, y: seq<int>, i: nat, b: int)
    requires i < |x| && Multiplied(w, x, y, i + 1) && |g| == |w| && IsLeaves(g)
    requires forall k :: 0 <= k < i ==> g[k] == 0
    requires b == x[i] * Val(y) && Val(g) == Val(w) + b * Pow(|x| - 1 - i)
    ensures Multiplied(g, x, y, i)
  {
    assert x[i..] == [x[i]] + x[i + 1..];
    ValFront(x[i], x[i + 1..]);
    var p := Pow(|x| - 1 - i);
    Distribute(x[i] * p, Val(x[i + 1..]), Val(y));
    Commute(x[i], p, Val(y));
  }

  lemma {:induction false} ElementAdded(w: seq<int>, g: seq<int>, x: seq<int>, y: seq<int>, i: nat, e: nat,
                                        b: seq<int>, carry: bool)
    requires i + 1 + e == |x| && |b| == |y| + 1 && IsLeaves(b) && IsLeaves(y) && 0 <= x[i] < LEAF
    requires Multiplied(w, x, y, i + 1) && |g| == |w| && IsLeaves(g[i..i + |y| + 1])
    requires forall k :: 0 <= k < |w| && (k < i || i + |y| + 1 <= k) ==> g[k] == w[k]
    requires Val(b) == x[i] * Val(y) && Val(g[i..]) == Val(w[i..]) + Change(Val(b), carry, |b|, false) * Pow(e)
    requires Val(w[i..i + |b|]) + Val(b) < Pow(|b|) ==> !carry
    ensures Multiplied(g, x, y, i)
  {
    ValBound(y);
    NoCarry(w[i..i + |b|], Val(b), x[i], Val(y), |y|);
    ValLeadingZeros(w, i);
    ValLeadingZeros(g, i);
    assert forall k :: i <= k < i + |y| + 1 ==> g[k] == g[i..i + |y| + 1][k - i];
    MultipliedStep(w, g, x, y, i, Val(b));
  }

  /** A part of an array, as a part of the leaves in front of `end`. */
  lemma PartOfPrefix(a: array<int>, end: nat, i: nat, n: nat)
    requires i + n <= end <= a.Length
    ensures a[i..i + n] == a[..end][i..i + n]
  {
  }

  /** Adding an element carries nothing out of its leaves. */
  lemma ElementFits(w: seq<int>, x: seq<int>, y: seq<int>, i: nat, b: seq<int>)
    requires i < |x| && Multiplied(w, x, y, i + 1) && IsLeaves(y) && 0 <= x[i] < LEAF && i + |y| + 1 <= |w|
    requires Val(b) == x[i] * Val(y)
    ensures IsLeaves(w[i..i + |y| + 1]) && Val(w[i..i + |y| + 1]) + Val(b) < Pow(|y| + 1)
  {
    hide Val, Pow;
    ValBound(y);
    NoCarry(w[i..i + |y| + 1], Val(b), x[i], Val(y), |y|);
  }

  /** Adds one element of the schoolbook product to the leaves from `i` on. */
  method AddElement(res: array<int>, i: nat, el: array<int>, n: nat, ghost e: nat, ghost b: seq<int>,
                    ghost x: seq<int>, ghost y: seq<int>)
    requires res != el && |x| + |y| <= res.Length && i + 1 + e == |x| && IsLeaves(y)
    requires Multiplied(res[..|x| + |y|], x, y, i + 1) && 0 <= x[i] < LEAF
    requires |b| == n == |y| + 1 <= el.Length && IsLeaves(b) && el[..n] == b && Val(b) == x[i] * Val(y)
    modifies res
    ensures Multiplied(res[..|x| + |y|], x, y, i)
    ensures forall k :: |x| + |y| <= k < res.Length ==> res[k] == old(res[k])
  {
    hide Val, Pow;
    ghost var end := |x| + |y|;
    ghost var w := res[..end];
    PartOfPrefix(res, end, i, n);
    PartOfPrefix(res, end, i, n + e);
    ElementFits(w, x, y, i, b);
    PlainOperand(el, 0, b);
    var carry := Accumulate(res, i, n, el, 0, 0, false, e, b);
    PartOfPrefix(res, end, i, n);
    PartOfPrefix(res, end, i, n + e);
    ElementAdded(w, res[..end], x, y, i, e, b, carry);
  }

  /** The schoolbook product into zeroed leaves. */
  method Schoolbook(res: array<int>, fx: array<int>, fxo: int, fxs: nat, fy: array<int>, fyo: int, fys: nat,
                    ghost x: seq<int>, ghost y: seq<int>)
    requires res != fx && res != fy && |x| == fxs && |y| == fys && fxs + fys <= res.Length
    requires 0 <= fxo && fxo + fxs <= fx.Length && Holds(fx, fxo, 0, fxs, x, 0) && IsLeaves(x)
    requires 0 <= fyo && fyo + fys <= fy.Length && Holds(fy, fyo, 0, fys, y, 0) && IsLeaves(y)
    requires forall i :: 0 <= i < res.Length ==> res[i] == 0
    modifies res
    ensures IsLeaves(res[..fxs + fys]) && Val(res[..fxs + fys]) == Val(x) * Val(y)
    ensures forall i :: fxs + fys <= i < res.Length ==> res[i] == 0
  {
    var e := new int[fys + 1](_ => 0);
    var i := fxs;
    assert res[..fxs + fys] == Zeros(fxs + fys);
    ValZeros(fxs + fys);
    assert x[fxs..] == [];
    while i > 0
      invariant 0 <= i <= fxs && fresh(e) && e != res
      invariant Multiplied(res[..|x| + |y|], x, y, i)
      invariant forall k :: fxs + fys <= k < res.Length ==> res[k] == 0
    {
      i := i - 1;
      assert fx[fxo + i] == x[i];
      if fx[fxo + i] != 0 {
        ghost var b := Element(e, fy, fyo, fys, fx[fxo + i], y);
        AddElement(res, i, e, fys + 1, fxs - 1 - i, b, x, y);
      } else {
        MultipliedStep(res[..fxs + fys], res[..fxs + fys], x, y, i, 0);
      }
    }
    assert x[0..] == x;
  }

  /** The leaves `v` behind `mi` zeros. */
  lemma {:induction false} PaddedOperand(src: array<int>, p: int, mi: nat, v: seq<int>)
    requires 0 <= p && p + |v| <= src.Length && src[p..p + |v|] == v && IsLeaves(v)
    ensures Operand(src, p, mi, 0, mi + |v|, Zeros(mi) + v)
    ensures IsLeaves(Zeros(mi) + v) && Val(Zeros(mi) + v) == Val(v)
  {
    var b := Zeros(mi) + v;
    forall j | p - mi - 1 + mi < j <= p - mi - 1 + (mi + |v|)
      ensures src[j] == b[j - (p - mi - 1) - 1]
    {
      assert src[j] == src[p..p + |v|][j - p] == b[j - p + mi];
    }
    ValLeadingZeros(b, mi);
    assert b[mi..] == v;
  }

  /** Adds two runs of leaves, the first one not longer, into zeroed leaves with one more in front. */
  method AddRuns(h: array<int>, ho: nat, f: array<int>, p0: nat, n0: nat, p1: nat, n1: nat, ghost a: seq<int>,
                 ghost b: seq<int>)
    requires h != f && ho + n1 + 1 <= h.Length && n0 <= n1 && p0 + n0 <= f.Length && p1 + n1 <= f.Length
    requires |a| == n0 && |b| == n1 && f[p0..p0 + n0] == a && f[p1..p1 + n1] == b && IsLeaves(a) && IsLeaves(b)
    requires h[ho] == 0 && 1 <= n0
    modifies h
    ensures IsLeaves(h[ho..ho + n1 + 1]) && Val(h[ho..ho + n1 + 1]) == Val(a) + Val(b)
    ensures forall i :: 0 <= i < h.Length && (i < ho || i >= ho + n1 + 1) ==> h[i] == old(h[i])
  {
    hide Val, Pow;
    var mi := n1 - n0;
    PaddedOperand(f, p0, mi, a);
    PlainOperand(f, p1, b);
    var carry;
    ghost var r;
    carry, r := MutateAddition(h, ho, n1 + 1, f, p0, f, p1, mi, 0, 0, 0, false, Zeros(mi) + a, b);
    ghost var c := if carry then 1 else 0;
    assert h[ho..ho + n1 + 1] == [c] + r;
    ValFront(c, r);
  }

  /** Copies a run to the end of `n` zeroed leaves. */
  method CopyRun(h: array<int>, ho: nat, n: nat, f: array<int>, fo: nat, fs: nat, ghost v: seq<int>)
    requires h != f && ho + n <= h.Length && fo + fs <= f.Length && fs <= n && v == f[fo..fo + fs] && IsLeaves(v)
    requires forall i :: ho <= i < ho + n ==> h[i] == 0
    modifies h
    ensures IsLeaves(h[ho..ho + n]) && Val(h[ho..ho + n]) == Val(v)
    ensures forall i :: 0 <= i < h.Length && (i < ho || i >= ho + n) ==> h[i] == old(h[i])
  {
    PaddedOperand(f, fo, n - fs, v);
    CopyLeaves(h, ho + n - fs, f, fo, fs);
    assert h[ho..ho + n] == Zeros(n - fs) + v;
  }

  /** The upper half of a factor, above its last `m` leaves. */
  ghost function Upper(v: seq<int>, m: nat): (u: seq<int>) {
    if |v| > m then v[..|v| - m] else []
  }

  ghost function Lower(v: seq<int>, m: nat): (l: seq<int>) {
    if |v| > m then v[|v| - m..] else v
  }

  /** The sum of the upper and the lower half of a factor; a short factor has no upper half. */
  method HalfSum(h: array<int>, ho: nat, m: nat, f: array<int>, fo: int, fs: nat, ghost v: seq<int>)
    requires h != f && ho + m + 1 <= h.Length && 0 <= fo && fo + fs <= f.Length && 1 <= m && fs <= 2 * m
    requires v == f[fo..fo + fs] && IsLeaves(v)
    requires forall i :: ho <= i < ho + m + 1 ==> h[i] == 0
    modifies h
    ensures IsLeaves(h[ho..ho + m + 1])
    ensures Val(h[ho..ho + m + 1]) == Val(Upper(v, m)) + Val(Lower(v, m))
    ensures forall i :: 0 <= i < h.Length && (i < ho || i >= ho + m + 1) ==> h[i] == old(h[i])
  {
    if fs > m {
      AddRuns(h, ho, f, fo, fs - m, fo + fs - m, m, v[..fs - m], v[fs - m..]);
    } else {
      CopyRun(h, ho, m + 1, f, fo, fs, v);
    }
  }

  lemma {:induction false} Regroup(x: int, y: int, z: int, p: int, q: int)
    requires q == LEAF * p
    ensures x + (y + z * LEAF) * p == x + y * p + z * q
  {
  }

  /** The value of a run and a carry out of it, read from its third leaf on. */
  lemma {:induction false} Reduce(f: seq<int>, lo: nat, c: int, t: int) returns (k: nat)
    requires |f| >= 2 && lo <= |f| && 0 <= c <= 1
    requires Val(f[lo..]) + c * Pow(|f| - lo) == t
    requires lo >= 3 ==> f[lo - 1] == c && forall i :: 2 <= i < lo - 1 ==> f[i] == 0
    requires lo <= 1 ==> 0 <= f[1]
    requires lo == 0 ==> c == 0 && 0 <= f[0]
    ensures Val(f[2..]) + k * Pow(|f| - 2) == t
  {
    var n := |f| - 2;
    if lo >= 3 {
      k := 0;
      ValLeadingZeros(f[2..], lo - 3);
      assert f[2..][lo - 3..] == [c] + f[lo..];
      ValFront(c, f[lo..]);
    } else if lo == 2 {
      k := c;
    } else if lo == 1 {
      k := f[1] + c * LEAF;
      assert f[1..] == [f[1]] + f[2..];
      ValFront(f[1], f[2..]);
      Regroup(Val(f[2..]), f[1], c, Pow(n), Pow(n + 1));
    } else {
      k := f[1] + f[0] * LEAF;
      assert f[1..] == [f[1]] + f[2..];
      assert f[0..] == [f[0]] + f[1..];
      ValFront(f[1], f[2..]);
      ValFront(f[0], f[1..]);
      Regroup(Val(f[2..]), f[1], f[0], Pow(n), Pow(n + 1));
    }
  }

  /** A value with few leaves has zeros in front. */
  lemma {:induction false} SmallHead(v: seq<int>, n: nat)
    requires IsLeaves(v) && n <= |v| && Val(v) < Pow(|v| - n)
    ensures forall i :: 0 <= i < n ==> v[i] == 0
  {
    if n > 0 {
      if v[0] != 0 {
        ValLeading(v);
        PowMono(|v| - n, |v| - 1);
      } else {
        ValLeadingZeros(v, 1);
        SmallHead(v[1..], n - 1);
        assert forall i :: 0 < i < n ==> v[i] == v[1..][i - 1];
      }
    }
  }

  /** The leaves of `v` above the last `m`, as `n` leaves. */
  ghost function Top(v: seq<int>, m: nat, n: nat): (a: seq<int>)
    requires m <= |v|
    ensures |a| == n
  {
    if |v| - m <= n then Zeros(n - (|v| - m)) + v[..|v| - m] else v[|v| - m - n..|v| - m]
  }

  lemma {:induction false} TopValue(v: seq<int>, m: nat, n: nat)
    requires IsLeaves(v) && m <= |v| && Val(v) < Pow(n)
    ensures IsLeaves(Top(v, m, n))
    ensures Val(Top(v, m, n)) * Pow(m) + Val(v[|v| - m..]) == Val(v)
    ensures forall i :: 0 <= i < |v| - n ==> v[i] == 0
  {
    hide Val, Pow;
    if |v| > n { SmallHead(v, |v| - n); }
    var top := v[..|v| - m];
    ValSplit(v, |v| - m);
    if |top| <= n {
      ValLeadingZeros(Top(v, m, n), n - |top|);
      assert Top(v, m, n)[n - |top|..] == top;
    } else {
      ValLeadingZeros(top, |top| - n);
      assert top[|top| - n..] == Top(v, m, n);
    }
  }

  lemma {:induction false} TopOperand(src: array<int>, m: nat, n: nat, v: seq<int>)
    requires m <= |v| <= src.Length && src[..|v|] == v
    ensures Operand(src, 0, n - (|v| - m), 0, n, Top(v, m, n))
  {
    var a, mi := Top(v, m, n), n - (|v| - m);
    forall j | - mi - 1 + (if mi < 0 then 0 else mi) < j <= - mi - 1 + n
      ensures src[j] == a[j + mi]
    {
      assert src[j] == src[..|v|][j];
    }
  }

  lemma TopAtMost(a: int, p: int, low: int, v: int)
    requires a * p + low == v && p >= 1 && low >= 0 && a >= 0
    ensures a <= v
  {
    MulMono(1, p, a);
  }

  lemma {:induction false} SumAbove(s: int, c: int, pn: int, top: int, z: int, pm: int, tail: int, v: int)
    requires s + c * pn == top + z && top * pm + tail == v
    ensures s * pm + tail + c * (pn * pm) == z * pm + v
  {
    assert (s + c * pn) * pm == s * pm + c * (pn * pm);
    assert (top + z) * pm == top * pm + z * pm;
  }

  lemma {:induction false} PlacedSum(f: seq<int>, lo: nat, c: int, s: seq<int>, z: seq<int>, v: seq<int>, m: nat)
    requires |f| >= 2 && m <= |v| && |s| == |z| && lo + |z| + m == |f|
    requires f[lo..] == s + v[|v| - m..] && 0 <= c <= 1
    requires IsLeaves(v) && Val(v) < Pow(|z|) && Val(s) + c * Pow(|z|) == Val(Top(v, m, |z|)) + Val(z)
    ensures Val(f[lo..]) + c * Pow(|f| - lo) == Val(z) * Pow(m) + Val(v)
  {
    var n, t := |z|, v[|v| - m..];
    TopValue(v, m, n);
    ValConcat(s, t);
    PowAdd(n, m);
    SumAbove(Val(s), c, Pow(n), Val(Top(v, m, n)), Val(z), Pow(m), Val(t), Val(v));
  }

  /** The sum `s` with the carry `c` lies at `lo`, with the leaves `t` behind and zeros in front. */
  ghost predicate Placed(f: seq<int>, lo: nat, c: int, s: seq<int>, t: seq<int>) {
    && |f| >= 2 && lo <= |f| && f[lo..] == s + t && 0 <= c <= 1 && 0 <= f[0]
    && (lo >= 2 ==> f[lo - 1] == c) && forall i :: 1 <= i < lo - 1 ==> f[i] == 0
  }

  lemma {:induction false} PlacedLeaves(f: seq<int>, lo: nat, c: int, s: seq<int>, t: seq<int>)
    requires Placed(f, lo, c, s, t) && IsLeaves(s) && IsLeaves(t)
    ensures IsLeaves(f[1..])
  {
    forall i | 0 <= i < |f| - 1
      ensures 0 <= f[1..][i] < LEAF
    {
      if i + 1 >= lo {
        assert f[i + 1] == f[lo..][i + 1 - lo];
      }
    }
  }

  method CopyLow(buf: array<int>, size: nat, m: nat, zs: nat, r: array<int>, rs: nat, ghost v: seq<int>)
    requires buf.Length == size + 1 && forall i :: 1 <= i <= size ==> buf[i] == 0
    requires buf != r && |v| == rs <= r.Length && r[..rs] == v && m <= rs <= size && size + 1 - m - zs >= 0
    requires forall i :: 0 <= i < rs - zs ==> v[i] == 0
    modifies buf
    ensures forall i :: 1 <= i < size + 1 - m - zs ==> buf[i] == 0
    ensures buf[size + 1 - m..] == v[rs - m..] && (size >= 1 && rs <= size ==> buf[0] == old(buf[0]))
  {
    CopyLeaves(buf, size + 1 - rs, r, 0, rs);
    assert forall i :: 0 <= i < rs ==> r[i] == r[..rs][i] == v[i];
  }

  /** Adds two runs into a buffer that holds zeros in front of the place of the sum. */
  method AddOver(buf: array<int>, lo: nat, n: nat, mi: int, r: array<int>, z: array<int>, zp: nat,
                 ghost a: seq<int>, ghost b: seq<int>, ghost t: seq<int>)
    returns (carry: bool, ghost s: seq<int>)
    requires buf.Length >= 2 && lo + n <= buf.Length && 0 <= buf[0] && buf[lo + n..] == t
    requires forall i :: 1 <= i < lo ==> buf[i] == 0
    requires buf != z && buf != r && Operand(r, 0, mi, 0, n, a) && Operand(z, zp, 0, 0, n, b)
    requires IsLeaves(a) && IsLeaves(b) && mi <= n && (lo == 0 ==> Val(a) + Val(b) < Pow(n))
    modifies buf
    ensures Placed(buf[..], lo, if carry then 1 else 0, s, t) && IsLeaves(s) && |s| == n
    ensures Val(s) + (if carry then 1 else 0) * Pow(n) == Val(a) + Val(b) && (lo == 0 ==> !carry)
  {
    carry, s := MutateAddition(buf, lo - 1, n + 1, r, 0, z, zp, mi, 0, 0, 0, false, a, b);
    assert lo == 0 ==> !carry by { ValBound(s); }
    assert buf[lo..] == s + t;
    if lo == 0 && n > 0 {
      assert buf[0] == s[0];
    }
  }

  lemma {:induction false} PlacedOutcome(f: seq<int>, lo: nat, c: int, s: seq<int>, z: seq<int>, v: seq<int>, m: nat)
    returns (k: nat)
    requires m <= |v| && Placed(f, lo, c, s, v[|v| - m..]) && |s| == |z| && lo + |z| + m == |f|
    requires IsLeaves(s) && IsLeaves(v) && Val(v) < Pow(|z|) && (lo == 0 ==> c == 0)
    requires Val(s) + c * Pow(|z|) == Val(Top(v, m, |z|)) + Val(z)
    ensures IsLeaves(f[1..]) && Val(f[2..]) + k * Pow(|f| - 2) == Val(z) * Pow(m) + Val(v)
  {
    PlacedLeaves(f, lo, c, s, v[|v| - m..]);
    PlacedSum(f, lo, c, s, z, v, m);
    assert f[1] == f[1..][0];
    k := Reduce(f, lo, c, Val(z) * Pow(m) + Val(v));
  }

  lemma {:induction false} TopBound(v: seq<int>, m: nat, n: nat)
    requires IsLeaves(v) && m <= |v| && Val(v) < Pow(n)
    ensures IsLeaves(Top(v, m, n)) && Val(Top(v, m, n)) <= Val(v)
    ensures forall i :: 0 <= i < |v| - n ==> v[i] == 0
  {
    TopValue(v, m, n);
    PowPositive(m);
    ValBound(v[|v| - m..]);
    ValBound(Top(v, m, n));
    TopAtMost(Val(Top(v, m, n)), Pow(m), Val(v[|v| - m..]), Val(v));
  }

  /** Copies the low product into the zeroed buffer and adds the middle product `m` leaves above. */
  method PlaceSum(buf: array<int>, size: nat, m: nat, z: array<int>, zp: nat, zs: nat, r: array<int>, rs: nat,
                  ghost vz: seq<int>, ghost vr: seq<int>)
    returns (ghost k: nat)
    requires buf.Length == size + 1 && size >= 1 && 0 <= buf[0] && forall i :: 1 <= i <= size ==> buf[i] == 0
    requires buf != z && buf != r && |vz| == zs && |vr| == rs && zp + zs <= z.Length && rs <= r.Length
    requires z[zp..zp + zs] == vz && r[..rs] == vr && IsLeaves(vz) && IsLeaves(vr)
    requires 1 <= zs && m <= rs <= size && size - m - zs >= -1 && Val(vr) <= Val(vz)
    requires size - m - zs == -1 ==> Val(vz) + Val(vr) < Pow(zs)
    modifies buf
    ensures IsLeaves(buf[1..])
    ensures Val(buf[2..]) + k * Pow(size - 1) == Val(vz) * Pow(m) + Val(vr)
  {
    hide Val, Pow;
    var lo := size + 1 - m - zs;
    ghost var a, t := Top(vr, m, zs), vr[rs - m..];
    ValBound(vz);
    TopBound(vr, m, zs);
    CopyLow(buf, size, m, zs, r, rs, vr);
    TopOperand(r, m, zs, vr);
    PlainOperand(z, zp, vz);
    var carry;
    ghost var s;
    carry, s := AddOver(buf, lo, zs, zs - rs + m, r, z, zp, a, vz, t);
    k := PlacedOutcome(buf[..], lo, if carry then 1 else 0, s, vz, vr, m);
    assert buf[..][1..] == buf[1..] && buf[..][2..] == buf[2..];
  }

  lemma {:induction false} PlacedAlone(f: seq<int>, lo: nat, v: seq<int>, m: nat) returns (k: nat)
    requires Placed(f, lo, 0, v, Zeros(m)) && IsLeaves(v) && lo + |v| + m == |f|
    requires lo == 0 ==> |v| > 0
    ensures IsLeaves(f[1..]) && Val(f[2..]) + k * Pow(|f| - 2) == Val(v) * Pow(m)
  {
    ValConcat(v, Zeros(m));
    ValZeros(m);
    PlacedLeaves(f, lo, 0, v, Zeros(m));
    assert f[1] == f[1..][0];
    k := Reduce(f, lo, 0, Val(v) * Pow(m));
  }

  /** Places the middle product `m` leaves above the end when there is no low product. */
  method PlaceAlone(buf: array<int>, size: nat, m: nat, z: array<int>, zp: nat, zs: nat, ghost vz: seq<int>)
    returns (ghost k: nat)
    requires buf.Length == size + 1 && size >= 1 && 0 <= buf[0] && forall i :: 1 <= i <= size ==> buf[i] == 0
    requires buf != z && |vz| == zs && zp + zs <= z.Length && z[zp..zp + zs] == vz && IsLeaves(vz)
    requires size - m - zs >= -1 && zs >= 1
    modifies buf
    ensures IsLeaves(buf[1..])
    ensures Val(buf[2..]) + k * Pow(size - 1) == Val(vz) * Pow(m)
  {
    var lo := size + 1 - m - zs;
    CopyLeaves(buf, lo, z, zp, zs);
    assert forall i :: 0 <= i < zs ==> z[zp + i] == z[zp..zp + zs][i] == vz[i];
    assert buf[lo..] == vz + Zeros(m);
    k := PlacedAlone(buf[..], lo, vz, m);
    assert buf[..][1..] == buf[1..] && buf[..][2..] == buf[2..];
  }

  /** The leaves hold `t` up to a multiple of their range; an unfinished carry in front only
      if that multiple is not negative. */
  ghost predicate Pending(g: seq<int>, k: int, t: int) {
    |g| >= 1 && NearLeaves(g, true) && (g[0] == LEAF ==> k >= 0) && Val(g) + k * Pow(|g|) == t
  }

  lemma {:induction false} Settled(g: seq<int>, k: int, t: int)
    requires Pending(g, k, t) && 0 <= t < Pow(|g|)
    ensures IsLeaves(g) && Val(g) == t
  {
    var p := Pow(|g|);
    if g[0] == LEAF {
      assert g == [LEAF] + g[1..];
      ValFront(LEAF, g[1..]);
      ValBound(g[1..]);
      MulMono(0, k, p);
    } else {
      ValBound(g);
      if k > 0 { MulMono(1, k, p); }
      if k < 0 { MulMono(k, -1, p); }
    }
  }

  lemma Carried(c: int, vb: int, pn: int, pm: int)
    ensures (vb - c * pn) * pm == vb * pm - c * (pn * pm)
  {
    assert (c * pn) * pm == c * (pn * pm);
  }

  /** Accumulating in a whole run loses the carry, a multiple of the range of the run. */
  lemma {:induction false} AddedToWhole(f: seq<int>, g: seq<int>, n: nat, e: nat, c: int, vb: int, k: int, t: int)
    requires n + e == |f| == |g|
    requires Val(g) == Val(f) + (vb - c * Pow(n)) * Pow(e) && Val(f) + k * Pow(|f|) == t
    ensures Val(g) + (k + c) * Pow(|f|) == t + vb * Pow(e)
  {
    PowAdd(n, e);
    Carried(c, vb, Pow(n), Pow(e));
    assert (k + c) * Pow(|f|) == k * Pow(|f|) + c * Pow(|f|);
  }

  /** Accumulating behind the first leaf of a run leaves the carry in that leaf. */
  lemma {:induction false} AddedBehindFirst(f: seq<int>, g: seq<int>, n: nat, e: nat, c: int, vb: int)
    requires 1 + n + e == |f| == |g| && g[0] == f[0] + c
    requires Val(g[1..]) == Val(f[1..]) + (vb - c * Pow(n)) * Pow(e)
    ensures Val(g) == Val(f) + vb * Pow(e)
  {
    assert f == [f[0]] + f[1..] && g == [g[0]] + g[1..];
    ValFront(f[0], f[1..]);
    ValFront(g[0], g[1..]);
    PowAdd(n, e);
    Carried(c, vb, Pow(n), Pow(e));
    assert (f[0] + c) * Pow(n + e) == f[0] * Pow(n + e) + c * Pow(n + e);
  }

  lemma {:induction false} HighOutcome(f: seq<int>, g: seq<int>, d: nat, n: nat, e: nat, carry: bool, vb: int, k0: nat,
                                       t: int)
    returns (k: int)
    requires d <= 1 && d + n + e == |f| == |g| >= 1
    requires IsLeaves(f) && IsLeaves(g[d..d + n]) && (d == 1 ==> g[0] == f[0] + if carry then 1 else 0)
    requires forall i :: d + n <= i < |f| ==> g[i] == f[i]
    requires Val(g[d..]) == Val(f[d..]) + Change(vb, carry, n, false) * Pow(e)
    requires Pending(f, k0, t)
    ensures Pending(g, k, t + vb * Pow(e))
  {
    var c := if carry then 1 else 0;
    assert forall i :: d <= i < d + n ==> g[i] == g[d..d + n][i - d];
    if d == 0 {
      assert f[0..] == f && g[0..] == g;
      AddedToWhole(f, g, n, e, c, vb, k0, t);
      k := k0 + c;
    } else {
      AddedBehindFirst(f, g, n, e, c, vb);
      k := k0;
    }
  }

  lemma PartOfRest(a: array<int>, lo: nat, n: nat, e: nat)
    requires 2 <= lo && lo + n + e == a.Length
    ensures a[2..][lo - 2..] == a[lo..lo + n + e] && a[2..][lo - 2..lo - 2 + n] == a[lo..lo + n]
  {
  }

  /** Adds the high product `e` leaves above the end. */
  method AddHigh(buf: array<int>, lo: nat, src: array<int>, p: nat, n: nat, ghost e: nat, ghost b: seq<int>,
                 ghost k0: nat, ghost t: int)
    returns (ghost k: int)
    requires 2 <= lo <= 3 && lo + n + e == buf.Length && src != buf && 3 <= buf.Length
    requires |b| == n && p + n <= src.Length && src[p..p + n] == b && IsLeaves(b)
    requires IsLeaves(buf[2..]) && Pending(buf[2..], k0, t)
    modifies buf
    ensures Pending(buf[2..], k, t + Val(b) * Pow(e))
  {
    hide Val, Pow;
    PlainOperand(src, p, b);
    ghost var f := buf[2..];
    ghost var d := lo - 2;
    PartOfRest(buf, lo, n, e);
    var carry := Accumulate(buf, lo, n, src, p, 0, false, e, b);
    ghost var g := buf[2..];
    PartOfRest(buf, lo, n, e);
    assert forall i :: d + n <= i < |f| ==> g[i] == f[i];
    k := HighOutcome(f, g, d, n, e, carry, Val(b), k0, t);
  }

  lemma Negated(x: int, p: int)
    ensures (-x) * p == -(x * p)
  {
  }

  lemma {:induction false} LowOutcomeWhole(f: seq<int>, g: seq<int>, n: nat, e: nat, carry: bool, vb: int, k0: int,
                                           t: int)
    returns (k: int)
    requires n + e == |f| == |g| && n >= 1 && Pending(f, k0, t)
    requires IsLeaves(g[..n]) || (!carry && NearLeaves(g[..n], true) && f[0] == LEAF)
    requires forall i :: n <= i < |f| ==> g[i] == f[i]
    requires Val(g) == Val(f) + Change(vb, carry, n, true) * Pow(e)
    ensures Pending(g, k, t - vb * Pow(e))
  {
    assert forall i :: 0 <= i < n ==> g[i] == g[..n][i];
    var c := if carry then 1 else 0;
    k := k0 - c;
    PowAdd(n, e);
    Carried(c, vb, Pow(n), Pow(e));
    assert k * Pow(|f|) == k0 * Pow(|f|) - c * Pow(|f|);
    Negated(vb - c * Pow(n), Pow(e));
  }

  /** Subtracting from a run with one more leaf in front than counts. */
  lemma {:induction false} LowOutcomeWide(f: seq<int>, g: seq<int>, n: nat, e: nat, carry: bool, vb: int, k0: int,
                                          t: int)
    returns (k: int)
    requires n + e == |f| == |g| >= 2 && IsLeaves(f) && Pending(f[1..], k0, t)
    requires IsLeaves(g[..n]) && forall i :: n <= i < |f| ==> g[i] == f[i]
    requires Val(g) == Val(f) + Change(vb, carry, n, true) * Pow(e)
    ensures IsLeaves(g) && Pending(g[1..], k, t - vb * Pow(e))
  {
    hide Val;
    assert forall i :: 0 <= i < n ==> g[i] == g[..n][i];
    var c, p := if carry then 1 else 0, Pow(|f| - 1);
    PowAdd(n, e);
    Carried(c, vb, Pow(n), Pow(e));
    Negated(vb - c * Pow(n), Pow(e));
    assert f == [f[0]] + f[1..] && g == [g[0]] + g[1..];
    ValFront(f[0], f[1..]);
    ValFront(g[0], g[1..]);
    k := k0 - (f[0] - g[0] + c * LEAF);
    Spread(k0, f[0], g[0], c, p);
  }

  lemma Spread(k: int, f: int, g: int, c: int, p: int)
    ensures (k - (f - g + c * LEAF)) * p == k * p - f * p + g * p - c * (LEAF * p)
  {
    assert (f - g + c * LEAF) * p == f * p - g * p + c * (LEAF * p);
  }

  lemma {:induction false} LowOutcome(h0: seq<int>, h1: seq<int>, d: nat, n: nat, e: nat, carry: bool, vb: int,
                                      k0: int, t: int)
    returns (k: int)
    requires d <= 1 <= n && d + n + e == |h0| == |h1| >= 2 && Pending(h0[1..], k0, t) && (d == 0 ==> IsLeaves(h0))
    requires IsLeaves(h1[d..d + n]) || (!carry && NearLeaves(h1[d..d + n], true) && h0[d] == LEAF)
    requires forall i :: d + n <= i < |h0| ==> h1[i] == h0[i]
    requires Val(h1[d..]) == Val(h0[d..]) + Change(vb, carry, n, true) * Pow(e)
    ensures Pending(h1[1..], k, t - vb * Pow(e)) && (d == 0 ==> IsLeaves(h1))
  {
    if d == 0 {
      assert h0[0..] == h0 && h1[0..] == h1 && h1[0..n] == h1[..n];
      k := LowOutcomeWide(h0, h1, n, e, carry, vb, k0, t);
    } else {
      assert h1[1..][..n] == h1[1..1 + n];
      k := LowOutcomeWhole(h0[1..], h1[1..], n, e, carry, vb, k0, t);
    }
  }

  lemma {:induction false} MinuendLeaves(h: seq<int>, d: nat, n: nat, k: int, t: int)
    requires d <= 1 && d + n <= |h| && |h| >= 2 && Pending(h[1..], k, t) && (d == 0 ==> IsLeaves(h))
    ensures NearLeaves(h[d..d + n], true)
  {
    if d == 1 {
      assert forall i :: 0 <= i < n ==> h[d..d + n][i] == h[1..][i];
    }
  }

  /** Subtracts a product `e` leaves above the end; what is borrowed in front is lost. */
  method SubtractProduct(buf: array<int>, lo: nat, n: nat, src: array<int>, mi: int, ghost e: nat, ghost b: seq<int>,
                         ghost k0: int, ghost t: int)
    returns (ghost k: int)
    requires 1 <= lo <= 2 && mi <= n && 1 <= n && lo + n + e == buf.Length && src != buf && 3 <= buf.Length
    requires Operand(src, 0, mi, 0, n, b) && IsLeaves(b)
    requires Pending(buf[1..][1..], k0, t) && (lo == 1 ==> IsLeaves(buf[1..]))
    modifies buf
    ensures Pending(buf[1..][1..], k, t - Val(b) * Pow(e)) && (lo == 1 ==> IsLeaves(buf[1..]))
  {
    ghost var h0, d := buf[1..], lo - 1;
    assert h0[d..] == buf[lo..lo + n + e];
    assert h0[d..d + n] == buf[lo..lo + n];
    MinuendLeaves(h0, d, n, k0, t);
    var carry := Accumulate(buf, lo, n, src, 0, mi, true, e, b);
    ghost var h1 := buf[1..];
    assert h1[d..] == buf[lo..lo + n + e];
    assert h1[d..d + n] == buf[lo..lo + n];
    k := LowOutcome(h0, h1, d, n, e, carry, Val(b), k0, t);
  }

  lemma {:induction false} Halves(v: seq<int>, m: nat)
    requires IsLeaves(v) && |v| <= 2 * m && v != [] && v[0] != 0
    ensures Val(v) == Val(Upper(v, m)) * Pow(m) + Val(Lower(v, m))
    ensures 0 <= Val(Lower(v, m)) && 0 <= Val(Upper(v, m))
      && 0 < Val(Upper(v, m)) + Val(Lower(v, m)) < 2 * Pow(|Lower(v, m)|)
    ensures if |v| > m then Val(Upper(v, m)) >= Pow(|v| - m - 1) >= 1 else Val(Upper(v, m)) == 0
  {
    hide Val, Pow;
    var u, l := Upper(v, m), Lower(v, m);
    assert v == u + l;
    ValConcat(u, l);
    ValBound(u);
    ValBound(l);
    if |v| > m {
      ValLeading(u);
      PowPositive(|v| - m - 1);
      PowMono(|u|, m);
    } else {
      ValLeading(v);
      PowPositive(|v| - 1);
    }
  }

  lemma TimesBound(a: int, b: int, p: int, q: int)
    requires 0 <= a < 2 * p && 0 <= b < 2 * q
    ensures a * b < 4 * (p * q)
  {
    MulMono(a, 2 * p, b);
    MulMono(b, 2 * q - 1, 2 * p);
  }

  lemma Expanded(x1: int, x0: int, y1: int, y0: int, p: int)
    ensures (x1 * p + x0) * (y1 * p + y0)
      == ((x1 + x0) * (y1 + y0)) * p + x0 * y0 + (x1 * y1) * (p * p) - (x1 * y1) * p - (x0 * y0) * p
  {
    assert (x1 * p + x0) * (y1 * p + y0) == (x1 * y1) * (p * p) + (x1 * y0) * p + (x0 * y1) * p + x0 * y0;
    assert (x1 + x0) * (y1 + y0) == x1 * y1 + x1 * y0 + x0 * y1 + x0 * y0;
    assert ((x1 + x0) * (y1 + y0)) * p == (x1 * y1) * p + (x1 * y0) * p + (x0 * y1) * p + (x0 * y0) * p;
  }

  lemma {:induction false} PowOrder(m: nat, n: nat)
    requires Pow(m) < Pow(n)
    ensures m < n
  {
    if n <= m {
      PowMono(n, m);
    }
  }

  /** The number of places for the middle product suffices, except for one leaf that can carry nothing. */
  lemma {:induction false} MiddleFits(z: seq<int>, hx: int, hy: int, r: int, fxs: nat, fys: nat, m: nat, p: nat, q: nat)
    requires IsLeaves(z) && z != [] && z[0] != 0 && Val(z) == hx * hy && 0 <= hx < 2 * Pow(p) && 0 <= hy < 2 * Pow(q)
    requires 0 <= r < Pow(p + q) && m >= 2 && 1 <= fxs <= 2 * m && 1 <= fys <= 2 * m
      && (fxs >= 2 * m - 1 || fys >= 2 * m - 1)
    requires p == (if fxs > m then m else fxs) && q == (if fys > m then m else fys)
    ensures fxs + fys + 1 - m - |z| >= -1 && (fxs > m && fys > m ==> fxs + fys + 1 - m - |z| >= 0)
    ensures fxs + fys + 1 - m - |z| == -1 ==> Val(z) + r < Pow(|z|)
  {
    TimesBound(hx, hy, Pow(p), Pow(q));
    PowAdd(p, q);
    ValLeading(z);
    assert Pow(p + q + 1) == LEAF * Pow(p + q);
    PowOrder(|z| - 1, p + q + 1);
    if |z| >= p + q + 1 {
      PowMono(p + q + 1, |z|);
    }
  }

  /** The high product has at most one zero leaf in front. */
  lemma {:induction false} HighLeaves(v: seq<int>, zeros: nat, a: int, b: int, p: nat, q: nat)
    requires IsLeaves(v) && |v| == p + q + 2 && zeros <= |v| && Val(v) == a * b && a >= Pow(p) && b >= Pow(q)
    requires forall i :: 0 <= i < zeros ==> v[i] == 0
    ensures zeros <= 1
  {
    PowPositive(p);
    PowPositive(q);
    MulMono(Pow(p), a, b);
    MulMono(Pow(q), b, Pow(p));
    PowAdd(p, q);
    ValLeadingZeros(v, zeros);
    ValBound(v[zeros..]);
    if zeros >= 2 { PowMono(|v| - zeros, p + q); }
  }

  /** Storage that was empty before the product `v` was put into it; still empty for zero. */
  ghost predicate Product(data: array<int>, n: nat, size: int, v: int)
    reads data
  {
    if v == 0 then n == 0 && data.Length == 0
    else 0 < n == size <= data.Length && IsLeaves(data[..n]) && Val(data[..n]) == v
  }

  /** The number of zero leaves in front of a product that is not zero. */
  method SkipLeading(z: array<int>, zs: nat, ghost v: int) returns (shift: nat)
    requires zs <= z.Length && IsLeaves(z[..zs]) && Val(z[..zs]) == v > 0
    ensures shift < zs && z[shift] != 0 && IsLeaves(z[shift..zs]) && Val(z[shift..zs]) == v
  {
    shift := LeadingZeros(z, 0, zs);
    ghost var s := z[..zs];
    ValLeadingZeros(s, shift);
    assert s[shift..] == z[shift..zs];
  }

  /** Clears the buffer and puts the middle product `m` leaves above the low product. */
  method PlaceMiddle(buf: array<int>, fxs: nat, fys: nat, m: nat, z: array<int>, zs: nat, r: array<int>, rs: nat,
                     ghost hx: int, ghost hy: int, ghost low: int, ghost p: nat, ghost q: nat)
    returns (ghost k: nat)
    requires buf.Length == fxs + fys + 2 && 0 <= buf[0] && buf != z && buf != r
    requires 2 <= m && 1 <= fxs <= 2 * m && 1 <= fys <= 2 * m && (fxs >= 2 * m - 1 || fys >= 2 * m - 1)
    requires p == (if fxs > m then m else fxs) && q == (if fys > m then m else fys)
    requires 0 < hx < 2 * Pow(p) && 0 < hy < 2 * Pow(q) && 0 <= low < Pow(p + q) && low <= hx * hy
    requires Product(z, zs, 2 * m + 2, hx * hy) && Product(r, rs, p + q, low)
    modifies buf
    ensures IsLeaves(buf[1..]) && IsLeaves(buf[2..]) && Pending(buf[2..], k, (hx * hy) * Pow(m) + low)
  {
    hide Val, Pow;
    var size := fxs + fys + 1;
    ClearLeaves(buf, 1, size);
    MulMono(1, hx, hy);
    var shift := SkipLeading(z, zs, hx * hy);
    ghost var vz := z[shift..zs];
    MiddleFits(vz, hx, hy, low, fxs, fys, m, p, q);
    if r.Length != 0 {
      k := PlaceSum(buf, size, m, z, shift, zs - shift, r, rs, vz, r[..rs]);
    } else {
      k := PlaceAlone(buf, size, m, z, shift, zs - shift, vz);
    }
    assert buf[2..] == buf[1..][1..];
  }

  /** Adds the high product 2m leaves above the end, unless it is zero. */
  method AddHighProduct(buf: array<int>, fxs: nat, fys: nat, m: nat, r2m: array<int>, r2ms: nat,
                        ghost ux: int, ghost uy: int, ghost k0: nat, ghost t: int)
    returns (ghost k: int)
    requires buf.Length == fxs + fys + 2 && fxs + fys >= 1 && buf != r2m
    requires Product(r2m, r2ms, fxs + fys - 2 * m, ux * uy)
    requires ux * uy != 0 ==> fxs > m && fys > m && ux >= Pow(fxs - m - 1) && uy >= Pow(fys - m - 1)
    requires IsLeaves(buf[2..]) && Pending(buf[2..], k0, t)
    modifies buf
    ensures Pending(buf[2..], k, t + (ux * uy) * Pow(2 * m))
    ensures ux * uy == 0 ==> buf[1..] == old(buf[1..])
  {
    k := k0;
    if r2m.Length != 0 {
      var shift := LeadingZeros(r2m, 0, r2ms);
      ghost var v, b := r2m[..r2ms], r2m[shift..r2ms];
      HighLeaves(v, shift, ux, uy, fxs - m - 1, fys - m - 1);
      ValLeadingZeros(v, shift);
      assert v[shift..] == b;
      k := AddHigh(buf, 2 + shift, r2m, shift, r2ms - shift, 2 * m, b, k0, t);
    }
  }

  /** Subtracts a product `m` leaves above the end, unless it is zero. */
  method SubtractHalf(buf: array<int>, size: nat, m: nat, ncar: nat, src: array<int>, n: nat, ghost full: nat,
                      ghost v: int,
                      ghost k0: int, ghost t: int)
    returns (ghost k: int)
    requires buf.Length == size + 1 && size >= 2 && buf != src && ncar <= 1 && m + ncar < size
    requires Product(src, n, full, v) && (v != 0 ==> full + m + ncar <= size)
    requires Pending(buf[1..][1..], k0, t) && (ncar == 0 ==> IsLeaves(buf[1..]))
    modifies buf
    ensures Pending(buf[1..][1..], k, t - v * Pow(m)) && (ncar == 0 ==> IsLeaves(buf[1..]))
  {
    k := k0;
    if src.Length != 0 {
      var mi := size - n - m - ncar;
      PaddedOperand(src, 0, mi, src[..n]);
      k := SubtractProduct(buf, 1 + ncar, size - m - ncar, src, mi, m, Zeros(mi) + src[..n], k, t);
    }
  }

  /** Subtracts the high and the low product, each `m` leaves above the end. */
  method SubtractProducts(buf: array<int>, fxs: nat, fys: nat, m: nat, r2m: array<int>, r2ms: nat, r: array<int>,
                          rs: nat,
                          ghost high: int, ghost low: int, ghost k0: int, ghost t: int)
    returns (ghost k: int)
    requires buf.Length == fxs + fys + 2 && buf != r2m && buf != r && 2 <= m
    requires 1 <= fxs <= 2 * m && 1 <= fys <= 2 * m && (fxs >= 2 * m - 1 || fys >= 2 * m - 1)
    requires Product(r2m, r2ms, fxs + fys - 2 * m, high) && (high != 0 ==> fxs > m && fys > m)
    requires Product(r, rs, (if fxs > m then m else fxs) + (if fys > m then m else fys), low)
    requires Pending(buf[1..][1..], k0, t) && (fxs <= m || fys <= m ==> IsLeaves(buf[1..]))
    modifies buf
    ensures Pending(buf[1..][1..], k, t - high * Pow(m) - low * Pow(m))
  {
    var size := fxs + fys + 1;
    var ncar := if fxs > m && fys > m then 1 else 0;
    ghost var full := if high != 0 then fxs + fys - 2 * m else 0;
    k := SubtractHalf(buf, size, m, ncar, r2m, r2ms, full, high, k0, t);
    k := SubtractHalf(buf, size, m, ncar, r, rs, (if fxs > m then m else fxs) + (if fys > m then m else fys), low, k,
      t - high * Pow(m));
  }

  /** The products of the halves as a product of the factors, with `a` and `b` the values above `m` leaves. */
  lemma {:induction false} Assembled(x: seq<int>, y: seq<int>, m: nat, hx: int, hy: int, high: int, low: int)
    requires IsLeaves(x) && IsLeaves(y) && x != [] && y != [] && x[0] != 0 && y[0] != 0 && |x| <= 2 * m && |y| <= 2 * m
    requires hx == Val(Upper(x, m)) + Val(Lower(x, m)) && hy == Val(Upper(y, m)) + Val(Lower(y, m))
    requires high == Val(Upper(x, m)) * Val(Upper(y, m)) && low == Val(Lower(x, m)) * Val(Lower(y, m))
    ensures (hx * hy) * Pow(m) + low + high * Pow(2 * m) - high * Pow(m) - low * Pow(m) == Val(x) * Val(y)
    ensures 0 <= Val(x) * Val(y) < Pow(|x| + |y|)
  {
    hide Val, Pow;
    Halves(x, m);
    Halves(y, m);
    PowAdd(m, m);
    Expanded(Val(Upper(x, m)), Val(Lower(x, m)), Val(Upper(y, m)), Val(Lower(y, m)), Pow(m));
    ProductRange(x, y);
  }

  lemma {:induction false} ProductRange(x: seq<int>, y: seq<int>)
    requires IsLeaves(x) && IsLeaves(y)
    ensures 0 <= Val(x) * Val(y) < Pow(|x| + |y|)
  {
    ValBound(x);
    ValBound(y);
    PowAdd(|x|, |y|);
    ProductBelow(Val(x), Val(y), Pow(|x|), Pow(|y|));
  }

  lemma {:induction false} LowBound(ux: int, lx: int, uy: int, ly: int, x: seq<int>, y: seq<int>)
    requires 0 <= ux && 0 <= uy && IsLeaves(x) && IsLeaves(y) && lx == Val(x) && ly == Val(y)
    ensures 0 <= lx * ly < Pow(|x| + |y|) && lx * ly <= (ux + lx) * (uy + ly)
  {
    ProductRange(x, y);
    ValBound(x);
    ValBound(y);
    MulMono(lx, ux + lx, ly);
    MulMono(ly, uy + ly, ux + lx);
  }

  lemma {:induction false} HalfBounds(x: seq<int>, y: seq<int>, m: nat)
    requires IsLeaves(x) && IsLeaves(y) && x != [] && y != [] && x[0] != 0 && y[0] != 0 && |x| <= 2 * m && |y| <= 2 * m
    ensures 0 < Val(Upper(x, m)) + Val(Lower(x, m)) < 2 * Pow(|Lower(x, m)|)
    ensures 0 < Val(Upper(y, m)) + Val(Lower(y, m)) < 2 * Pow(|Lower(y, m)|)
    ensures 0 <= Val(Lower(x, m)) * Val(Lower(y, m)) < Pow(|Lower(x, m)| + |Lower(y, m)|)
    ensures Val(Lower(x, m)) * Val(Lower(y, m))
      <= (Val(Upper(x, m)) + Val(Lower(x, m))) * (Val(Upper(y, m)) + Val(Lower(y, m)))
    ensures Val(Upper(x, m)) * Val(Upper(y, m)) != 0 ==>
              |x| > m && |y| > m && Val(Upper(x, m)) >= Pow(|x| - m - 1) && Val(Upper(y, m)) >= Pow(|y| - m - 1)
  {
    Halves(x, m);
    Halves(y, m);
    LowBound(Val(Upper(x, m)), Val(Lower(x, m)), Val(Upper(y, m)), Val(Lower(y, m)), Lower(x, m), Lower(y, m));
  }

  /** The sum of the low, the middle and the high product at their places. */
  method AddProducts(buf: array<int>, fxs: nat, fys: nat, m: nat, z: array<int>, zs: nat, r2m: array<int>, r2ms: nat,
                     r: array<int>, rs: nat, ghost x: seq<int>, ghost y: seq<int>, ghost hx: int, ghost hy: int)
    returns (ghost k: int)
    requires buf.Length == fxs + fys + 2 && 0 <= buf[0] && buf != z && buf != r && buf != r2m && 2 <= m
    requires |x| == fxs && |y| == fys && IsLeaves(x) && IsLeaves(y) && x != [] && y != [] && x[0] != 0 && y[0] != 0
    requires fxs <= 2 * m && fys <= 2 * m && (fxs >= 2 * m - 1 || fys >= 2 * m - 1)
    requires hx == Val(Upper(x, m)) + Val(Lower(x, m)) && hy == Val(Upper(y, m)) + Val(Lower(y, m))
    requires Product(z, zs, 2 * m + 2, hx * hy)
    requires Product(r2m, r2ms, fxs + fys - 2 * m, Val(Upper(x, m)) * Val(Upper(y, m)))
    requires Product(r, rs, |Lower(x, m)| + |Lower(y, m)|, Val(Lower(x, m)) * Val(Lower(y, m)))
    modifies buf
    ensures Pending(buf[1..][1..], k, (hx * hy) * Pow(m) + Val(Lower(x, m)) * Val(Lower(y, m))
                                      + (Val(Upper(x, m)) * Val(Upper(y, m))) * Pow(2 * m))
    ensures fxs <= m || fys <= m ==> IsLeaves(buf[1..])
  {
    hide Val, Pow, Pending, IsLeaves, Product;
    ghost var low := Val(Lower(x, m)) * Val(Lower(y, m));
    HalfBounds(x, y, m);
    ghost var k0 := PlaceMiddle(buf, fxs, fys, m, z, zs, r, rs, hx, hy, low, |Lower(x, m)|, |Lower(y, m)|);
    k := AddHighProduct(buf, fxs, fys, m, r2m, r2ms, Val(Upper(x, m)), Val(Upper(y, m)), k0, (hx * hy) * Pow(m) + low);
    assert buf[2..] == buf[1..][1..];
  }

  /** Combines the products of the halves into the product of the factors. */
  method Combine(buf: array<int>, fxs: nat, fys: nat, m: nat, z: array<int>, zs: nat, r2m: array<int>, r2ms: nat,
                 r: array<int>, rs: nat, ghost x: seq<int>, ghost y: seq<int>, ghost hx: int, ghost hy: int)
    requires buf.Length == fxs + fys + 2 && 0 <= buf[0] && buf != z && buf != r && buf != r2m && 2 <= m
    requires |x| == fxs && |y| == fys && IsLeaves(x) && IsLeaves(y) && x != [] && y != [] && x[0] != 0 && y[0] != 0
    requires fxs <= 2 * m && fys <= 2 * m && (fxs >= 2 * m - 1 || fys >= 2 * m - 1)
    requires hx == Val(Upper(x, m)) + Val(Lower(x, m)) && hy == Val(Upper(y, m)) + Val(Lower(y, m))
    requires Product(z, zs, 2 * m + 2, hx * hy)
    requires Product(r2m, r2ms, fxs + fys - 2 * m, Val(Upper(x, m)) * Val(Upper(y, m)))
    requires Product(r, rs, |Lower(x, m)| + |Lower(y, m)|, Val(Lower(x, m)) * Val(Lower(y, m)))
    modifies buf
    ensures IsLeaves(buf[2..]) && Val(buf[2..]) == Val(x) * Val(y)
  {
    ghost var high, low := Val(Upper(x, m)) * Val(Upper(y, m)), Val(Lower(x, m)) * Val(Lower(y, m));
    ghost var k := AddProducts(buf, fxs, fys, m, z, zs, r2m, r2ms, r, rs, x, y, hx, hy);
    k := SubtractProducts(buf, fxs, fys, m, r2m, r2ms, r, rs, high, low, k,
      (hx * hy) * Pow(m) + low + high * Pow(2 * m));
    assert buf[2..] == buf[1..][1..];
    Assembled(x, y, m, hx, hy, high, low);
    Settled(buf[2..], k, Val(x) * Val(y));
  }

  lemma {:induction false} Stripped(v: seq<int>, zeros: nat)
    requires IsLeaves(v) && zeros <= |v| && (zeros < |v| ==> v[zeros] != 0)
    requires forall i :: 0 <= i < zeros ==> v[i] == 0
    ensures Val(v[zeros..]) == Val(v) && (Val(v) == 0 <==> zeros == |v|) && Val(v) >= 0
  {
    ValLeadingZeros(v, zeros);
    if zeros < |v| {
      ValLeading(v[zeros..]);
      PowPositive(|v| - zeros - 1);
    }
  }

  lemma {:induction false} StrippedProduct(x: seq<int>, sx: nat, y: seq<int>, sy: nat)
    requires IsLeaves(x) && sx <= |x| && (sx < |x| ==> x[sx] != 0) && forall i :: 0 <= i < sx ==> x[i] == 0
    requires IsLeaves(y) && sy <= |y| && (sy < |y| ==> y[sy] != 0) && forall i :: 0 <= i < sy ==> y[i] == 0
    ensures Val(x[sx..]) * Val(y[sy..]) == Val(x) * Val(y)
    ensures Val(x) * Val(y) == 0 <==> sx == |x| || sy == |y|
  {
    Stripped(x, sx);
    Stripped(y, sy);
    if sx < |x| && sy < |y| {
      MulMono(1, Val(x), Val(y));
    }
  }

  /** The product of two runs in storage of its own. */
  method ProductOf(fx: array<int>, fxo: int, fxs: int, fy: array<int>, fyo: int, fys: int, ghost x: seq<int>,
                   ghost y: seq<int>, ghost bound: nat)
    returns (out: array<int>, n: nat)
    requires fxs > 0 ==> 0 <= fxo && fxo + fxs <= fx.Length
    requires fys > 0 ==> 0 <= fyo && fyo + fys <= fy.Length
    requires fxs <= bound && fys <= bound
    requires x == Run(fx, fxo, fxs) && y == Run(fy, fyo, fys) && IsLeaves(x) && IsLeaves(y)
    ensures fresh(out) && Product(out, n, fxs + fys, Val(x) * Val(y))
    decreases bound, 3
  {
    var empty := new int[0];
    out, n := Multiply(empty, fx, fxo, fxs, fy, fyo, fys, x, y, bound);
  }

  lemma {:induction false} RunsOfHalves(f: array<int>, fo: nat, fs: nat, m: nat, v: seq<int>)
    requires fo + fs <= f.Length && v == f[fo..fo + fs]
    ensures Upper(v, m) == Run(f, fo, fs - m)
    ensures Lower(v, m) == if fs > m then Run(f, fo + fs - m, m) else Run(f, fo, fs)
  {
    if fs > m {
      assert v[..fs - m] == f[fo..fo + fs - m];
      assert v[fs - m..] == f[fo + fs - m..fo + fs];
    }
  }

  /** The lower halves multiplied with each other. */
  method LowerProduct(fx: array<int>, fxo: nat, fxs: nat, fy: array<int>, fyo: nat, fys: nat, m: nat,
                      ghost x: seq<int>, ghost y: seq<int>, ghost bound: nat)
    returns (r: array<int>, rs: nat)
    requires fxo + fxs <= fx.Length && x == fx[fxo..fxo + fxs] && IsLeaves(x) && fxs > 0
    requires fyo + fys <= fy.Length && y == fy[fyo..fyo + fys] && IsLeaves(y) && fys > 0
    requires 2 <= m < bound && fxs <= 2 * m && fys <= 2 * m
    ensures fresh(r) && Product(r, rs, |Lower(x, m)| + |Lower(y, m)|, Val(Lower(x, m)) * Val(Lower(y, m)))
    decreases bound, 0
  {
    var lx, ly := if fxs > m then m else fxs, if fys > m then m else fys;
    RunsOfHalves(fx, fxo, fxs, m, x);
    RunsOfHalves(fy, fyo, fys, m, y);
    r, rs := ProductOf(fx, fxo + fxs - lx, lx, fy, fyo + fys - ly, ly, Lower(x, m), Lower(y, m), bound - 1);
  }

  /** The upper halves multiplied with each other. */
  method UpperProduct(fx: array<int>, fxo: nat, fxs: nat, fy: array<int>, fyo: nat, fys: nat, m: nat,
                      ghost x: seq<int>, ghost y: seq<int>, ghost bound: nat)
    returns (r2m: array<int>, r2ms: nat)
    requires fxo + fxs <= fx.Length && x == fx[fxo..fxo + fxs] && IsLeaves(x) && fxs > 0
    requires fyo + fys <= fy.Length && y == fy[fyo..fyo + fys] && IsLeaves(y) && fys > 0
    requires 2 <= m < bound && fxs <= 2 * m && fys <= 2 * m
    ensures fresh(r2m) && Product(r2m, r2ms, fxs + fys - 2 * m, Val(Upper(x, m)) * Val(Upper(y, m)))
    decreases bound, 0
  {
    RunsOfHalves(fx, fxo, fxs, m, x);
    RunsOfHalves(fy, fyo, fys, m, y);
    r2m, r2ms := ProductOf(fx, fxo, fxs - m, fy, fyo, fys - m, Upper(x, m), Upper(y, m), bound - 1);
  }

  /** The sums of the halves of both factors, one behind the other in a zeroed buffer. */
  method HalfSums(buffer: array<int>, fx: array<int>, fxo: nat, fxs: nat, fy: array<int>, fyo: nat, fys: nat, m: nat,
                  ghost x: seq<int>, ghost y: seq<int>)
    returns (ghost sx: seq<int>, ghost sy: seq<int>)
    requires fxo + fxs <= fx.Length && x == fx[fxo..fxo + fxs] && IsLeaves(x) && buffer != fx
    requires fyo + fys <= fy.Length && y == fy[fyo..fyo + fys] && IsLeaves(y) && buffer != fy
    requires fxs <= 2 * m && fys <= 2 * m && 2 <= m
    requires 2 * m + 2 <= buffer.Length && forall i :: 0 <= i < buffer.Length ==> buffer[i] == 0
    modifies buffer
    ensures sx == Run(buffer, 0, m + 1) && IsLeaves(sx) && Val(sx) == Val(Upper(x, m)) + Val(Lower(x, m))
    ensures sy == Run(buffer, m + 1, m + 1) && IsLeaves(sy) && Val(sy) == Val(Upper(y, m)) + Val(Lower(y, m))
  {
    hide Val, Pow;
    HalfSum(buffer, 0, m, fx, fxo, fxs, x);
    ghost var first := buffer[..];
    sx := first[0..0 + m + 1];
    HalfSum(buffer, m + 1, m, fy, fyo, fys, y);
    sy := buffer[m + 1..m + 1 + m + 1];
    SameSlice(first, buffer[..], 0, 0 + m + 1);
  }

  /** The sums of the halves multiplied with each other. */
  method MiddleProduct(buffer: array<int>, fx: array<int>, fxo: nat, fxs: nat, fy: array<int>, fyo: nat, fys: nat,
                       m: nat,
                       ghost x: seq<int>, ghost y: seq<int>, ghost bound: nat)
    returns (z: array<int>, zs: nat, ghost hx: int, ghost hy: int)
    requires fxo + fxs <= fx.Length && x == fx[fxo..fxo + fxs] && IsLeaves(x) && buffer != fx
    requires fyo + fys <= fy.Length && y == fy[fyo..fyo + fys] && IsLeaves(y) && buffer != fy
    requires fxs <= 2 * m && fys <= 2 * m && 2 <= m && m + 1 < bound
    requires 2 * m + 2 <= buffer.Length && forall i :: 0 <= i < buffer.Length ==> buffer[i] == 0
    modifies buffer
    ensures hx == Val(Upper(x, m)) + Val(Lower(x, m)) && hy == Val(Upper(y, m)) + Val(Lower(y, m))
    ensures fresh(z) && Product(z, zs, 2 * m + 2, hx * hy) && 0 <= buffer[0]
    decreases bound, 0
  {
    ghost var sx, sy := HalfSums(buffer, fx, fxo, fxs, fy, fyo, fys, m, x, y);
    hx, hy := Val(sx), Val(sy);
    assert buffer[0] == sx[0];
    z, zs := ProductOf(buffer, 0, m + 1, buffer, m + 1, m + 1, sx, sy, bound - 1);
  }

  /** Leaves with zeros in front. */
  lemma {:induction false} ZerosInFront(f: seq<int>, shift: nat)
    requires shift <= |f| && IsLeaves(f[shift..]) && forall i :: 0 <= i < shift ==> f[i] == 0
    ensures IsLeaves(f) && Val(f) == Val(f[shift..])
  {
    ValLeadingZeros(f, shift);
    assert forall i :: shift <= i < |f| ==> f[i] == f[shift..][i - shift];
  }

  method CopyProduct(result: array<int>, totalShift: nat, buffer: array<int>, n: nat)
    requires result != buffer && totalShift + n <= result.Length && buffer.Length == n + 2 && IsLeaves(buffer[2..])
    requires forall i :: 0 <= i < result.Length ==> result[i] == 0
    modifies result
    ensures IsLeaves(result[..totalShift + n]) && Val(result[..totalShift + n]) == Val(buffer[2..])
    ensures forall i :: totalShift + n <= i < result.Length ==> result[i] == 0
  {
    CopyLeaves(result, totalShift, buffer, 2, n);
    ghost var f := result[..totalShift + n];
    assert f[totalShift..] == buffer[2..];
    ZerosInFront(f, totalShift);
  }

  /** The product of two runs of leaves that start with a non-zero leaf, at least one of them long. */
  method MultiplyByHalves(result: array<int>, totalShift: nat, fx: array<int>, fxo: nat, fxs: nat, fy: array<int>,
                          fyo: nat, fys: nat,
                          ghost x: seq<int>, ghost y: seq<int>, ghost bound: nat)
    requires result != fx && result != fy && totalShift + fxs + fys <= result.Length
    requires forall i :: 0 <= i < result.Length ==> result[i] == 0
    requires fxo + fxs <= fx.Length && x == fx[fxo..fxo + fxs] && IsLeaves(x) && fxs > 0 && x[0] != 0
    requires fyo + fys <= fy.Length && y == fy[fyo..fyo + fys] && IsLeaves(y) && fys > 0 && y[0] != 0
    requires (fxs > THRESHOLD || fys > THRESHOLD) && fxs <= bound && fys <= bound
    modifies result
    ensures IsLeaves(result[..totalShift + fxs + fys]) && Val(result[..totalShift + fxs + fys]) == Val(x) * Val(y)
    ensures forall i :: totalShift + fxs + fys <= i < result.Length ==> result[i] == 0
    decreases bound, 1
  {
    hide Val, Pow;
    var fs := if fxs > fys then fxs else fys;
    var m := fs / 2 + fs % 2;
    var size := fxs + fys + 1;
    var r2m, r2ms := UpperProduct(fx, fxo, fxs, fy, fyo, fys, m, x, y, bound);
    var r, rs := LowerProduct(fx, fxo, fxs, fy, fyo, fys, m, x, y, bound);
    var buffer := new int[if size + 1 > (m + 1) * 2 then size + 1 else (m + 1) * 2](_ => 0);
    var z, zs;
    ghost var hx, hy;
    z, zs, hx, hy := MiddleProduct(buffer, fx, fxo, fxs, fy, fyo, fys, m, x, y, bound);
    Combine(buffer, fxs, fys, m, z, zs, r2m, r2ms, r, rs, x, y, hx, hy);
    CopyProduct(result, totalShift, buffer, fxs + fys);
  }

  /** Multiplies two runs of leaves into zeroed storage that grows as needed; returns the number
      of leaves of the product, or zero without touching the storage when a factor is zero. */
  method Multiply(result: array<int>, fx: array<int>, fxo: int, fxs: int, fy: array<int>, fyo: int, fys: int,
                  ghost x: seq<int>, ghost y: seq<int>, ghost bound: nat)
    returns (out: array<int>, leafCount: nat)
    requires result != fx && result != fy && forall i :: 0 <= i < result.Length ==> result[i] == 0
    requires fxs > 0 ==> 0 <= fxo && fxo + fxs <= fx.Length
    requires fys > 0 ==> 0 <= fyo && fyo + fys <= fy.Length
    requires fxs <= bound && fys <= bound
    requires x == Run(fx, fxo, fxs) && y == Run(fy, fyo, fys) && IsLeaves(x) && IsLeaves(y)
    modifies result
    ensures out == result || fresh(out)
    ensures if Val(x) * Val(y) == 0 then leafCount == 0 && out == result
            else 0 < leafCount == fxs + fys <= out.Length &&
                 IsLeaves(out[..leafCount]) && Val(out[..leafCount]) == Val(x) * Val(y)
    ensures forall i :: leafCount <= i < out.Length ==> out[i] == 0
    decreases bound, 2
  {
    hide Val, Pow;
    out, leafCount := result, 0;
    var sx := LeadingZeros(fx, fxo, fxs);
    var sy := LeadingZeros(fy, fyo, fys);
    StrippedProduct(x, sx, y, sy);
    var fxrl, fyrl := fxs - sx, fys - sy;
    if (fxrl > THRESHOLD || fyrl > THRESHOLD) && fxrl > 0 && fyrl > 0 {
      leafCount := fxrl + fyrl + (sx + sy);
      out := Realloc(result, leafCount);
      MultiplyByHalves(out, sx + sy, fx, fxo + sx, fxrl, fy, fyo + sy, fyrl, x[sx..], y[sy..], bound);
    } else if fxrl > 0 && fyrl > 0 {
      leafCount := fxs + fys;
      out := Realloc(result, leafCount);
      Schoolbook(out, fx, fxo, fxs, fy, fyo, fys, x, y);
    }
  }
}
