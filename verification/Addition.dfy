/** The aligned adder and subtracter that every operation on numbers rests on. */
module Addition {
  import opened Leaves

  /** An operand lies in another array than the result, or place by place where the result goes. */
  ghost predicate Safe(res: array<int>, resOff: int, src: array<int>, off: int) {
    src != res || off == resOff
  }

  /** The value of a sum or difference of operands with a carry or borrow `c`. */
  ghost function Combined(a: int, b: int, c: int, sub: bool): int {
    if sub then a - b - c else a + b + c
  }

  /** One more leaf in front: `d` with carry `c2` out of `x`, `y` and the carry `c` from below. */
  lemma {:induction false} CarryStep(x: int, y: int, c: int, d: int, c2: int, p: int, r: int, a: int, b: int, c0: int,
                                     sub: bool)
    requires Combined(r, 0, c * p, sub) == Combined(a, b, c0, sub)
    requires d == Combined(x, y, c, sub) + (if sub then c2 * LEAF else - c2 * LEAF)
    ensures Combined(d * p + r, 0, c2 * (LEAF * p), sub) == Combined(x * p + a, y * p + b, c0, sub)
  {
  }

  lemma {:induction false} CarrySequence(x: int, y: int, c: int, d: int, c2: int, r: seq<int>, a: seq<int>,
                                         b: seq<int>, c0: int, sub: bool)
    requires |r| == |a| == |b|
    requires Combined(Val(r), 0, c * Pow(|r|), sub) == Combined(Val(a), Val(b), c0, sub)
    requires d == Combined(x, y, c, sub) + (if sub then c2 * LEAF else - c2 * LEAF)
    ensures Combined(Val([d] + r), 0, c2 * Pow(|r| + 1), sub) == Combined(Val([x] + a), Val([y] + b), c0, sub)
  {
    ValFront(d, r);
    ValFront(x, a);
    ValFront(y, b);
    CarryStep(x, y, c, d, c2, Pow(|r|), Val(r), Val(a), Val(b), c0, sub);
  }

  /** Adds or subtracts one pair of leaves. */
  method CombineLeaf(e0: int, e1: int, carryIn: int, sub: bool) returns (x: int, carry: int)
    requires (0 <= e0 < LEAF || (sub && e0 == LEAF)) && 0 <= e1 < LEAF && 0 <= carryIn <= 1
    ensures 0 <= carry <= 1 && (0 <= x < LEAF || (x == e0 == LEAF && carry == 0))
    ensures x == Combined(e0, e1, carryIn, sub) + (if sub then carry * LEAF else - carry * LEAF)
  {
    if sub {
      x := e0 - carryIn;
      if x < e1 {
        x, carry := x + LEAF, 1;
      } else {
        carry := 0;
      }
      x := x - e1;
    } else {
      x := e0 + e1 + carryIn;
      if x >= LEAF {
        x, carry := x - LEAF, 1;
      } else {
        carry := 0;
      }
    }
  }

  /** The operand reads as the leaves `s` (the first one at place 1) at the places (to, from];
      an unused operand reads as zeros. */
  ghost predicate Supplies(src: array<int>, off: int, used: bool, to: int, from: int, s: seq<int>)
    reads src
  {
    && 0 <= to <= from <= |s|
    && (used ==>
          && (to < from ==> 0 <= off + to + 1 && off + from < src.Length)
          && forall j :: off + to < j <= off + from ==> src[j] == s[j - off - 1])
    && (!used ==> forall i :: to <= i < from ==> s[i] == 0)
  }

  /** Leaves, except that the minuend of a subtraction may start with an unfinished carry,
      a leaf equal to LEAF. */
  ghost predicate NearLeaves(s: seq<int>, sub: bool) {
    forall i :: 0 <= i < |s| ==> 0 <= s[i] < LEAF || (i == 0 && sub && s[i] == LEAF)
  }

  /** The places (idx, n] of the result are computed: they hold the last leaves of `r`. */
  ghost predicate Computed(r: seq<int>, a: seq<int>, b: seq<int>, idx: int, carry: int, sub: bool) {
    && |r| == |a| == |b| && 0 <= idx <= |r| && 0 <= carry <= 1
    && (forall i :: idx <= i < |r| ==> 0 <= r[i] < LEAF || (i == 0 && r[i] == a[i] == LEAF && carry == 0))
    && Combined(Val(r[idx..]), 0, carry * Pow(|r| - idx), sub) == Combined(Val(a[idx..]), Val(b[idx..]), 0, sub)
  }

  lemma {:induction false} ComputedStep(r: seq<int>, a: seq<int>, b: seq<int>, idx: int, c: int, x: int, c2: int,
                                        sub: bool)
    requires Computed(r, a, b, idx, c, sub) && idx > 0
    requires NearLeaves(a, sub) && 0 <= c2 <= 1 && (0 <= x < LEAF || (x == a[idx - 1] == LEAF && c2 == 0))
    requires x == Combined(a[idx - 1], b[idx - 1], c, sub) + (if sub then c2 * LEAF else - c2 * LEAF)
    ensures Computed(r[idx - 1 := x], a, b, idx - 1, c2, sub)
  {
    var q := r[idx - 1 := x];
    assert q[idx - 1..] == [x] + r[idx..];
    assert a[idx - 1..] == [a[idx - 1]] + a[idx..];
    assert b[idx - 1..] == [b[idx - 1]] + b[idx..];
    CarrySequence(a[idx - 1], b[idx - 1], c, x, c2, r[idx..], a[idx..], b[idx..], 0, sub);
  }

  ghost predicate Tail(r: seq<int>, r0: seq<int>, from: int) {
    |r| == |r0| && forall i {:trigger r[i]} :: 0 <= from <= i < |r| ==> r[i] == r0[i]
  }

  method Propagate(res: array<int>, resOff: int, from: int, to: int,
                   src0: array<int>, off0: int, use0: bool,
                   src1: array<int>, off1: int, use1: bool, sub: bool, carryIn: int,
                   ghost a: seq<int>, ghost b: seq<int>, ghost r0: seq<int>)
    returns (carry: int, ghost r: seq<int>)
    requires 0 <= to <= from && 0 <= resOff + 1 && resOff + from < res.Length
    requires NearLeaves(a, sub) && IsLeaves(b) && Computed(r0, a, b, from, carryIn, sub)
    requires Supplies(src0, off0, use0, to, from, a) && Safe(res, resOff, src0, off0)
    requires Supplies(src1, off1, use1, to, from, b) && Safe(res, resOff, src1, off1)
    modifies res
    ensures Computed(r, a, b, to, carry, sub) && Tail(r, r0, from)
    ensures Supplies(res, resOff, true, to, from, r)
    ensures forall i :: 0 <= i < res.Length && (i <= resOff + to || i > resOff + from) ==> res[i] == old(res[i])
  {
    hide Val, Pow, Combined;
    carry := carryIn;
    var idx := from;
    r := r0;
    while idx > to
      invariant to <= idx <= from
      invariant Computed(r, a, b, idx, carry, sub) && Tail(r, r0, from)
      invariant Supplies(src0, off0, use0, to, idx, a) && Supplies(src1, off1, use1, to, idx, b)
      invariant Supplies(res, resOff, true, idx, from, r)
      invariant forall i :: 0 <= i < res.Length && (i <= resOff + idx || i > resOff + from) ==> res[i] == old(res[i])
    {
      var e0 := if use0 then src0[off0 + idx] else 0;
      var e1 := if use1 then src1[off1 + idx] else 0;
      assert e0 == a[idx - 1] && e1 == b[idx - 1];
      ghost var c := carry;
      var x;
      x, carry := CombineLeaf(e0, e1, carry, sub);
      res[resOff + idx] := x;
      ComputedStep(r, a, b, idx, c, x, carry, sub);
      r := r[idx - 1 := x];
      idx := idx - 1;
    }
  }

  /** The leaves of an operand aligned to `n` places: zeros in the `mi` places in front and the
      `mf` places behind that the operand lacks. A negative `mi` skips leading leaves. */
  ghost predicate Operand(src: array<int>, p: int, mi: int, mf: int, n: int, s: seq<int>)
    reads src
  {
    && |s| == n && 0 <= mf <= n && mi + mf <= n
    && Supplies(src, p - mi - 1, true, if mi < 0 then 0 else mi, n - mf, s)
    && (forall i :: 0 <= i < mi ==> s[i] == 0)
    && (forall i :: n - mf <= i < n ==> s[i] == 0)
  }

  lemma {:induction false} PlainOperand(src: array<int>, p: int, v: seq<int>)
    requires 0 <= p && p + |v| <= src.Length && src[p..p + |v|] == v
    ensures Operand(src, p, 0, 0, |v|, v)
  {
    forall j | p - 1 < j <= p - 1 + |v|
      ensures src[j] == v[j - (p - 1) - 1]
    {
      assert src[j] == src[p..p + |v|][j - p];
    }
  }

  lemma {:induction false} OperandParts(src: array<int>, p: int, mi: int, mf: int, n: int, s: seq<int>, l: int, h: int,
                                        low: bool, high: bool)
    requires Operand(src, p, mi, mf, n, s) && 0 <= h <= l <= n
    requires mi <= h && l <= n - mf
    requires if low then mf == 0 else n - mf <= l
    requires if high then mi <= 0 else h <= mi || h == 0
    ensures Supplies(src, p - mi - 1, low, l, n, s)
    ensures Supplies(src, p - mi - 1, true, h, l, s)
    ensures Supplies(src, p - mi - 1, high, 0, h, s)
  {
  }

  lemma NothingComputed(r: seq<int>, a: seq<int>, b: seq<int>, sub: bool)
    requires |r| == |a| == |b|
    ensures Computed(r, a, b, |r|, 0, sub)
  {
    assert r[|r|..] == a[|r|..] == b[|r|..] == [];
  }

  /** The three runs of the adder: behind, where only one operand has leaves; where both have
      them; in front, where again only one has. */
  method ThreeRuns(res: array<int>, resOff: int, n: int, l: int, h: int,
                   src0: array<int>, off0: int, src1: array<int>, off1: int, low1: bool, high1: bool, sub: bool,
                   ghost a: seq<int>, ghost b: seq<int>)
    returns (carry: int, ghost r: seq<int>)
    requires 0 <= h <= l <= n == |a| == |b| && 0 <= resOff + 1 && resOff + n < res.Length
    requires NearLeaves(a, sub) && IsLeaves(b) && Safe(res, resOff, src0, off0) && Safe(res, resOff, src1, off1)
    requires Supplies(src0, off0, !low1, l, n, a) && Supplies(src1, off1, low1, l, n, b)
    requires Supplies(src0, off0, true, h, l, a) && Supplies(src1, off1, true, h, l, b)
    requires Supplies(src0, off0, !high1, 0, h, a) && Supplies(src1, off1, high1, 0, h, b)
    modifies res
    ensures Computed(r, a, b, 0, carry, sub) && Supplies(res, resOff, true, 0, n, r)
    ensures forall i :: 0 <= i < res.Length && (i <= resOff || i > resOff + n) ==> res[i] == old(res[i])
  {
    hide Val, Pow, Combined;
    r := Zeros(n);
    NothingComputed(r, a, b, sub);
    carry, r := Propagate(res, resOff, n, l, src0, off0, !low1, src1, off1, low1, sub, 0, a, b, r);
    carry, r := Propagate(res, resOff, l, h, src0, off0, true, src1, off1, true, sub, carry, a, b, r);
    carry, r := Propagate(res, resOff, h, 0, src0, off0, !high1, src1, off1, high1, sub, carry, a, b, r);
  }

  /** Adds to or subtracts from each other two operands aligned by the numbers of missing
      leaves; `res` has one leaf in front for the carry of an addition. */
  method MutateAddition(res: array<int>, resOff: int, resSize: int,
                        src0: array<int>, p0: int, src1: array<int>, p1: int,
                        mi0: int, mi1: int, mf0: int, mf1: int, sub: bool,
                        ghost a: seq<int>, ghost b: seq<int>)
    returns (borrowed: bool, ghost r: seq<int>)
    requires 1 <= resSize && 0 <= resOff + 1 && resOff + resSize <= res.Length
    requires Operand(src0, p0, mi0, mf0, resSize - 1, a) && Safe(res, resOff, src0, p0 - mi0 - 1)
    requires Operand(src1, p1, mi1, mf1, resSize - 1, b) && Safe(res, resOff, src1, p1 - mi1 - 1)
    requires (mi0 <= 0 || mi1 <= 0) && (mf0 == 0 || mf1 == 0) && mi0 + mf1 < resSize && mi1 + mf0 < resSize
    requires NearLeaves(a, sub) && IsLeaves(b)
    requires resOff >= 0 || sub || Val(a) + Val(b) < Pow(resSize - 1)
    modifies res
    ensures |r| == resSize - 1 && Supplies(res, resOff, true, 0, resSize - 1, r)
    ensures IsLeaves(r) || (!borrowed && NearLeaves(r, true) && a[0] == LEAF)
    ensures Combined(Val(r), 0, if borrowed then Pow(resSize - 1) else 0, sub) == Combined(Val(a), Val(b), 0, sub)
    ensures forall i :: 0 <= i < res.Length && (i < resOff || i >= resOff + resSize) ==> res[i] == old(res[i])
    ensures resOff >= 0 ==> res[resOff] == old(res[resOff]) + if borrowed && !sub then 1 else 0
  {
    hide Val;
    var n := resSize - 1;
    var off0, off1 := p0 - mi0 - 1, p1 - mi1 - 1;
    var low1 := mf0 > mf1;
    var high1 := mi0 > mi1;
    var tail := if low1 then mf0 else mf1;
    var head := if high1 then mi0 else mi1;
    var l := if tail < n then n - tail else 0;
    var h := if head < 0 then 0 else if head < l then head else l;
    OperandParts(src0, p0, mi0, mf0, n, a, l, h, !low1, !high1);
    OperandParts(src1, p1, mi1, mf1, n, b, l, h, low1, high1);
    var carry;
    carry, r := ThreeRuns(res, resOff, n, l, h, src0, off0, src1, off1, low1, high1, sub, a, b);
    assert r[0..] == r && a[0..] == a && b[0..] == b;
    borrowed := carry != 0;
    if !sub { ValBound(r); }
    if carry != 0 && !sub {
      res[resOff] := res[resOff] + 1;
    }
  }
}
