/** The decimal notation of numbers. */
module Text {
  import opened Leaves
  import opened Decimal
  import opened Numerals
  import opened Division
  import opened TextStorage

  const DIGITS: set<char> := {'0', '1', '2', '3', '4', '5', '6', '7', '8', '9'}
  const DIGITS_AND_DOT: set<char> := DIGITS + {'.'}
  const VALID_CHARACTERS: set<char> := DIGITS_AND_DOT + {'-'}

  ghost predicate AllIn(t: string, lo: int, hi: int, s: set<char>) {
    forall i :: 0 <= lo <= i < hi <= |t| ==> t[i] in s
  }

  ghost predicate NoneIn(t: string, lo: int, hi: int, s: set<char>) {
    forall i :: 0 <= lo <= i < hi <= |t| ==> t[i] !in s
  }

  /** The first place from `from` on with a character of the set, or -1. */
  function FindOneOf(t: string, s: set<char>, from: nat): (k: int)
    ensures k == -1 || (from <= k < |t| && t[k] in s)
    ensures NoneIn(t, from, if k == -1 then |t| else k, s)
    decreases |t| - from
  {
    if from >= |t| then -1 else if t[from] in s then from else FindOneOf(t, s, from + 1)
  }

  /** The first place from `from` on with a character outside the set, or -1. */
  function FindOtherThan(t: string, s: set<char>, from: nat): (k: int)
    ensures k == -1 || (from <= k < |t| && t[k] !in s)
    ensures AllIn(t, from, if k == -1 then |t| else k, s)
    decreases |t| - from
  {
    if from >= |t| then -1 else if t[from] !in s then from else FindOtherThan(t, s, from + 1)
  }

  /** The end of the text before `end` without the zeros there, or -1 if there is nothing else. */
  function EndOfOtherThanZero(t: string, end: nat): (k: int)
    requires end <= |t|
    ensures k == -1 || (0 < k <= end && t[k - 1] != '0')
    ensures AllIn(t, if k == -1 then 0 else k, end, {'0'})
  {
    if end == 0 then -1 else if t[end - 1] != '0' then end else EndOfOtherThanZero(t, end - 1)
  }

  datatype Layout =
    | Malformed
    | Zero
    | Found(negative: bool, integral: string, fraction: string, point: bool)

  /** Without a point among them, digits and points are digits. */
  lemma WithoutPoint(t: string, lo: nat, hi: nat)
    requires AllIn(t, lo, hi, DIGITS_AND_DOT) && NoneIn(t, lo, hi, {'.'})
    ensures AllIn(t, lo, hi, DIGITS)
  {
  }

  /** A run of digits in a text. */
  function Run(t: string, lo: nat, hi: nat): (r: string)
    requires lo <= hi <= |t| && AllIn(t, lo, hi, DIGITS)
    ensures AllIn(r, 0, |r|, DIGITS) && (r != [] ==> lo < |t| && r[0] == t[lo])
  {
    t[lo..hi]
  }

  /** The digits of a number in a text from its first digit that is not a leading zero on. */
  function ScanDigits(t: string, negative: bool, start: nat): (l: Layout)
    requires start < |t|
    ensures l.Found? && AllIn(l.integral, 0, |l.integral|, DIGITS) && AllIn(l.fraction, 0, |l.fraction|, DIGITS)
    ensures l.fraction != [] ==> l.point && l.fraction[|l.fraction| - 1] != '0'
    ensures l.integral != [] ==> l.integral[0] == t[start]
  {
    var dot0 := FindOneOf(t, {'.'}, start);
    var other := FindOtherThan(t, DIGITS_AND_DOT, start);
    var dot := if other != -1 && other < dot0 then -1 else dot0;
    var whole := if dot != -1 then dot else if other != -1 then other else |t|;
    WithoutPoint(t, start, whole);
    if dot == -1 then
      Found(negative, Run(t, start, whole), [], false)
    else
      Found(negative, Run(t, start, whole), ScanFraction(t, dot, start), true)
  }

  /** The digits behind the point of a number in a text. */
  function ScanFraction(t: string, dot: nat, start: nat): (f: string)
    requires start <= dot < |t| && t[dot] == '.'
    ensures AllIn(f, 0, |f|, DIGITS) && (f != [] ==> f[|f| - 1] != '0')
  {
    var end0 := FindOtherThan(t, DIGITS, dot + 1);
    var end1 := if end0 == -1 then |t| else end0;
    var end2 := EndOfOtherThanZero(t, end1);
    var end := if end2 != -1 then end2 else start + 1;
    assert end > dot;
    Run(t, dot + 1, end)
  }

  /** Where the first number of a text is, without leading zeros and zeros behind its fraction. */
  function Scan(t: string): (l: Layout)
    ensures l.Found? ==> AllIn(l.integral, 0, |l.integral|, DIGITS) && AllIn(l.fraction, 0, |l.fraction|, DIGITS)
    ensures l.Found? && l.fraction != [] ==> l.point && l.fraction[|l.fraction| - 1] != '0'
    ensures l.Found? && l.integral != [] ==> l.integral[0] != '0'
  {
    var sign := FindOneOf(t, VALID_CHARACTERS, 0);
    if sign == -1 then Malformed else
    var negative := t[sign] == '-';
    var first := if negative then sign + 1 else sign;
    if first >= |t| || FindOneOf(t, DIGITS_AND_DOT, first) != first then Malformed else
    var start := FindOtherThan(t, {'0'}, first);
    if start == -1 then Zero else
    var digit := FindOneOf(t, DIGITS, start);
    if digit == -1 && first < start then Zero else
    if digit == -1 || digit - start > 1 then Malformed else
    ScanDigits(t, negative, start)
  }

  ghost function DigitOf(c: char): int {
    c as int - '0' as int
  }

  /** The value of a run of digits. */
  ghost function DigitsVal(s: string): int {
    if s == [] then 0 else DigitsVal(s[..|s| - 1]) * 10 + DigitOf(s[|s| - 1])
  }

  lemma {:induction false} DigitsConcat(a: string, b: string)
    ensures DigitsVal(a + b) == DigitsVal(a) * Ten(|b|) + DigitsVal(b)
  {
    if b == [] {
      assert a + b == a;
    } else {
      var c, d := b[..|b| - 1], b[|b| - 1];
      assert (a + b)[..|a + b| - 1] == a + c;
      DigitsConcat(a, c);
      assert (DigitsVal(a) * Ten(|c|)) * 10 == DigitsVal(a) * (10 * Ten(|c|));
    }
  }

  function DigitChar(d: int): (c: char)
    requires 0 <= d < 10
    ensures c in DIGITS && DigitOf(c) == d && (c == '0' <==> d == 0)
  {
    ['0', '1', '2', '3', '4', '5', '6', '7', '8', '9'][d]
  }

  /** The last `n` digits of a leaf. */
  function Padded(leaf: int, n: nat): (s: string)
    requires 0 <= leaf
    ensures |s| == n && AllIn(s, 0, n, DIGITS)
  {
    if n == 0 then [] else Padded(leaf / 10, n - 1) + [DigitChar(leaf % 10)]
  }

  /** A leaf without leading zeros. */
  function Plain(leaf: int): (s: string)
    requires 0 <= leaf
    ensures s != [] && AllIn(s, 0, |s|, DIGITS) && (leaf != 0 ==> s[0] != '0')
  {
    if leaf < 10 then [DigitChar(leaf)] else Plain(leaf / 10) + [DigitChar(leaf % 10)]
  }

  function PaddedAll(s: seq<int>): (t: string)
    requires forall i :: 0 <= i < |s| ==> 0 <= s[i]
    ensures |t| == DIGITS_IN_LEAF * |s| && AllIn(t, 0, |t|, DIGITS)
  {
    if s == [] then [] else PaddedAll(s[..|s| - 1]) + Padded(s[|s| - 1], DIGITS_IN_LEAF)
  }

  function WithoutZeros(t: string): (r: string)
    ensures |r| <= |t| && r == t[..|r|] && AllIn(t, |r|, |t|, {'0'}) && (r != [] ==> r[|r| - 1] != '0')
  {
    if t == [] || t[|t| - 1] != '0' then t else WithoutZeros(t[..|t| - 1])
  }

  function IntegralText(s: seq<int>): (t: string)
    requires forall i :: 0 <= i < |s| ==> 0 <= s[i]
    ensures AllIn(t, 0, |t|, DIGITS) && (t == [] <==> s == []) && (s != [] && s[0] != 0 ==> t[0] != '0')
  {
    if s == [] then [] else Plain(s[0]) + PaddedAll(s[1..])
  }

  /** The notation of a number with the digits `i` in front of the point and `f` behind it. */
  function Notation(negative: bool, i: string, f: string): string {
    (if negative then "-" else "") + (if i == [] then "0" else i) + (if f == [] then "" else "." + f)
  }

  /** The notation of a number. */
  function Printed(n: Numeral): string
    requires n.integral <= |n.leaves| && forall i :: 0 <= i < |n.leaves| ==> 0 <= n.leaves[i]
  {
    Notation(n.negative, IntegralText(n.leaves[..n.integral]), WithoutZeros(PaddedAll(n.leaves[n.integral..])))
  }

  lemma {:induction false} PaddedValue(leaf: int, n: nat)
    requires 0 <= leaf < Ten(n)
    ensures DigitsVal(Padded(leaf, n)) == leaf
  {
    if n > 0 {
      PaddedValue(leaf / 10, n - 1);
      var p := Padded(leaf / 10, n - 1);
      assert (p + [DigitChar(leaf % 10)])[..n - 1] == p;
    }
  }

  lemma {:induction false} PlainValue(leaf: int)
    requires 0 <= leaf
    ensures DigitsVal(Plain(leaf)) == leaf
  {
    if leaf < 10 {
      assert Plain(leaf)[..0] == [];
    } else {
      PlainValue(leaf / 10);
      var p := Plain(leaf / 10);
      assert (p + [DigitChar(leaf % 10)])[..|p|] == p;
    }
  }

  lemma {:induction false} PaddedAllValue(s: seq<int>)
    requires IsLeaves(s)
    ensures DigitsVal(PaddedAll(s)) == Val(s)
  {
    if s != [] {
      PaddedAllValue(s[..|s| - 1]);
      TenValues();
      PaddedValue(s[|s| - 1], DIGITS_IN_LEAF);
      DigitsConcat(PaddedAll(s[..|s| - 1]), Padded(s[|s| - 1], DIGITS_IN_LEAF));
    }
  }

  lemma FrontTextValue(leaf: int, r: seq<int>)
    requires 0 <= leaf && IsLeaves(r)
    ensures DigitsVal(Plain(leaf) + PaddedAll(r)) == leaf * Pow(|r|) + Val(r)
  {
    PlainValue(leaf);
    PaddedAllValue(r);
    DigitsConcat(Plain(leaf), PaddedAll(r));
    PowIsTen(|r|);
  }

  lemma IntegralTextValue(s: seq<int>)
    requires IsLeaves(s)
    ensures DigitsVal(IntegralText(s)) == Val(s)
  {
    if s != [] {
      FrontTextValue(s[0], s[1..]);
      assert s == [s[0]] + s[1..];
      ValFront(s[0], s[1..]);
    }
  }

  lemma {:induction false} WithoutZerosValue(t: string)
    ensures DigitsVal(t) == DigitsVal(WithoutZeros(t)) * Ten(|t| - |WithoutZeros(t)|)
  {
    if t != [] && t[|t| - 1] == '0' {
      WithoutZerosValue(t[..|t| - 1]);
      var k := |t| - 1 - |WithoutZeros(t)|;
      assert DigitsVal(WithoutZeros(t)) * (10 * Ten(k)) == (DigitsVal(WithoutZeros(t)) * Ten(k)) * 10;
    }
  }

  lemma FindOneOfAt(t: string, s: set<char>, from: nat, k: nat)
    requires from <= k < |t| && t[k] in s && NoneIn(t, from, k, s)
    ensures FindOneOf(t, s, from) == k
  {
    var r := FindOneOf(t, s, from);
  }

  lemma FindOtherThanAt(t: string, s: set<char>, from: nat, k: nat)
    requires from <= k < |t| && t[k] !in s && AllIn(t, from, k, s)
    ensures FindOtherThan(t, s, from) == k
  {
    var r := FindOtherThan(t, s, from);
  }

  lemma FindNothingElse(t: string, s: set<char>, from: nat)
    requires AllIn(t, from, |t|, s)
    ensures FindOtherThan(t, s, from) == -1
  {
    var r := FindOtherThan(t, s, from);
  }

  lemma FindNone(t: string, s: set<char>, from: nat)
    requires NoneIn(t, from, |t|, s)
    ensures FindOneOf(t, s, from) == -1
  {
    var r := FindOneOf(t, s, from);
  }

  /** A notation: sign, digits in front of the point, digits behind it. */
  ghost predicate Canonical(i: string, f: string) {
    && AllIn(i, 0, |i|, DIGITS) && AllIn(f, 0, |f|, DIGITS)
    && (i != [] ==> i[0] != '0') && (f != [] ==> f[|f| - 1] != '0')
  }

  lemma {:induction false} ScanWhole(t: string, negative: bool, start: nat, i: string)
    requires Canonical(i, []) && i != [] && start + |i| == |t| && t[start..] == i
    ensures ScanDigits(t, negative, start) == Found(negative, i, [], false)
  {
    assert forall k :: start <= k < |t| ==> t[k] == i[k - start];
    FindNothingElse(t, DIGITS_AND_DOT, start);
    FindNone(t, {'.'}, start);
  }

  lemma {:induction false} ScanPoint(t: string, negative: bool, h: string, i: string, f: string)
    requires Canonical(i, f) && f != [] && t == h + i + "." + f
    ensures ScanDigits(t, negative, |h|) == Found(negative, i, f, true)
  {
    var start, dot := |h|, |h| + |i|;
    assert t[start..dot] == i;
    assert t[dot + 1..|t|] == f;
    assert t[dot] == '.';
    assert t[|t| - 1] == f[|f| - 1];
    ScanPlaces(t, start, dot, i, f);
  }

  lemma {:induction false} ScanPlaces(t: string, start: nat, dot: nat, i: string, f: string)
    requires Canonical(i, f) && f != [] && start <= dot < |t| && t[dot] == '.'
    requires t[start..dot] == i && t[dot + 1..|t|] == f
    ensures FindOneOf(t, {'.'}, start) == dot && FindOtherThan(t, DIGITS_AND_DOT, start) == -1
      && FindOtherThan(t, DIGITS, dot + 1) == -1
  {
    assert forall k :: start <= k < dot ==> t[k] == t[start..dot][k - start];
    assert forall k :: dot < k < |t| ==> t[k] == t[dot + 1..|t|][k - dot - 1];
    FindOneOfAt(t, {'.'}, start, dot);
    FindNothingElse(t, DIGITS_AND_DOT, start);
    FindNothingElse(t, DIGITS, dot + 1);
  }

  /** The scan skips the sign and at most one zero in front of a point. */
  lemma {:induction false} ScanStart(t: string, negative: bool, start: nat)
    requires start + 1 < |t| || (start < |t| && t[start] != '.')
    requires start == (if negative then 1 else 0) + (if t[start] == '.' then 1 else 0)
    requires negative ==> t[0] == '-'
    requires if t[start] == '.' then t[start - 1] == '0' && t[start + 1] in DIGITS
             else t[start] in DIGITS && t[start] != '0'
    ensures Scan(t) == ScanDigits(t, negative, start)
  {
    var first := if negative then 1 else 0;
    FindOneOfAt(t, VALID_CHARACTERS, 0, 0);
    FindOneOfAt(t, DIGITS_AND_DOT, first, first);
    FindOtherThanAt(t, {'0'}, first, start);
    FindOneOfAt(t, DIGITS, start, if t[start] == '.' then start + 1 else start);
  }

  lemma {:induction false} BehindFront(t: string, front: string, u: string)
    requires t == front + u
    ensures t[|front|..] == u && t[..|front|] == front
    ensures forall k :: 0 <= k < |u| ==> t[|front| + k] == u[k]
  {
  }

  lemma {:induction false} ScanWholeNotation(negative: bool, i: string)
    requires Canonical(i, []) && i != []
    ensures Scan(Notation(negative, i, [])) == Found(negative, i, [], false)
  {
    hide Scan, ScanDigits;
    var t, front := Notation(negative, i, []), if negative then "-" else "";
    assert t == front + i;
    BehindFront(t, front, i);
    assert t[|front| + 0] == i[0];
    assert i[0] in DIGITS;
    ScanStart(t, negative, |front|);
    ScanWhole(t, negative, |front|, i);
  }

  lemma PointParts(sign: string, zero: string, i: string, f: string, t: string)
    requires t == sign + (zero + i) + ("." + f)
    ensures t == (sign + zero) + i + "." + f
    ensures sign != "" ==> t != "" && t[0] == sign[0]
  {
  }

  lemma FrontPlaces(front: string, i: string, f: string, t: string)
    requires t == front + i + "." + f && f != []
    ensures |front| + 1 < |t| && t[|front|] == (if i == [] then '.' else i[0]) && (i == [] ==> t[|front| + 1] == f[0])
    ensures front != "" ==> t[|front| - 1] == front[|front| - 1]
  {
  }

  lemma {:induction false} ScanPointNotation(negative: bool, i: string, f: string)
    requires Canonical(i, f) && f != []
    ensures Scan(Notation(negative, i, f)) == Found(negative, i, f, true)
  {
    hide Scan, ScanDigits;
    var sign, zero := if negative then "-" else "", if i == [] then "0" else "";
    var t, front := Notation(negative, i, f), sign + zero;
    assert zero + i == if i == [] then "0" else i;
    PointParts(sign, zero, i, f, t);
    FrontPlaces(front, i, f, t);
    assert f[0] in DIGITS && (i != [] ==> i[0] in DIGITS);
    ScanStart(t, negative, |front|);
    ScanPoint(t, negative, front, i, f);
  }

  /** Scanning a notation finds the sign and the digits it was made of. */
  lemma {:induction false} ScanNotation(negative: bool, i: string, f: string)
    requires Canonical(i, f) && (i != [] || f != [])
    ensures Scan(Notation(negative, i, f)) == Found(negative, i, f, f != [])
  {
    if f == [] {
      ScanWholeNotation(negative, i);
    } else {
      ScanPointNotation(negative, i, f);
    }
  }

  /** The magnitude that digits in front of and behind the point stand for. */
  ghost function Reading(i: string, f: string): real {
    DigitsVal(i + f) as real / Ten(|f|) as real
  }

  lemma Shares(vi: int, vf: int, vp: int, tf: int, tk: int, pw: int, v: int)
    requires v == vi * pw + vp && vp == vf * tk && pw == tf * tk
    ensures (vi * tf + vf) * tk == v
  {
    assert (vi * tf + vf) * tk == vi * (tf * tk) + vf * tk;
  }

  lemma {:induction false} FractionPrinted(part: seq<int>)
    requires IsLeaves(part) && (part != [] ==> part[|part| - 1] != 0)
    ensures WithoutZeros(PaddedAll(part)) == [] ==> part == []
  {
    if part != [] {
      PaddedAllValue(part);
      WithoutZerosValue(PaddedAll(part));
      LastPositive(part);
    }
  }

  lemma {:induction false} PrintedValue(n: Numeral, vi: int, f: string, p: string)
    requires n.WellFormed() && vi == Val(n.leaves[..n.integral]) && DigitsVal(p) == Val(n.leaves[n.integral..])
    requires |p| == DIGITS_IN_LEAF * n.Fraction() && |f| <= |p| && DigitsVal(p) == DigitsVal(f) * Ten(|p| - |f|)
    ensures (vi * Ten(|f|) + DigitsVal(f)) as real / Ten(|f|) as real == n.Abs()
  {
    var k := |p| - |f|;
    ValSplit(n.leaves, n.integral);
    PowIsTen(n.Fraction());
    TenAdd(|f|, k);
    Shares(vi, DigitsVal(f), DigitsVal(p), Ten(|f|), Ten(k), Pow(n.Fraction()), Val(n.leaves));
    Expand(vi * Ten(|f|) + DigitsVal(f), Ten(|f|), Ten(k));
  }

  /** The digits printed for a number stand for its magnitude. */
  lemma {:induction false} PrintedDigits(n: Numeral, i: string, f: string)
    requires n.Canonical() && i == IntegralText(n.leaves[..n.integral])
      && f == WithoutZeros(PaddedAll(n.leaves[n.integral..]))
    ensures Canonical(i, f) && Reading(i, f) == n.Abs()
  {
    hide Val, DigitsVal, Ten, Pow, EndZeros, Magnitude;
    var whole, part := n.leaves[..n.integral], n.leaves[n.integral..];
    var p := PaddedAll(part);
    IntegralTextValue(whole);
    PaddedAllValue(part);
    WithoutZerosValue(p);
    DigitsConcat(i, f);
    PrintedValue(n, Val(whole), f, p);
  }

  lemma {:induction false} PrintedNothing(n: Numeral)
    requires n.Canonical() && IntegralText(n.leaves[..n.integral]) == []
      && WithoutZeros(PaddedAll(n.leaves[n.integral..])) == []
    ensures n.leaves == []
  {
    FractionPrinted(n.leaves[n.integral..]);
    assert n.leaves == n.leaves[..n.integral] + n.leaves[n.integral..];
  }

  /** The digits `d` read from the left: whole leaves `q` and `n` digits worth `part`, in front in `leaf`. */
  ghost predicate ReadLeft(q: seq<int>, leaf: int, part: int, n: int, d: string) {
    && IsLeaves(q) && 0 <= n <= DIGITS_IN_LEAF && 0 <= part < Ten(n) && |d| == DIGITS_IN_LEAF * |q| + n
    && Val(q) * Ten(n) + part == DigitsVal(d) && leaf == part * Ten(DIGITS_IN_LEAF - n)
  }

  lemma {:induction false} NextLeft(q: seq<int>, leaf: int, part: int, n: int, d: string, c: char)
    requires ReadLeft(q, leaf, part, n, d) && n < DIGITS_IN_LEAF && c in DIGITS
    ensures ReadLeft(q, leaf + DigitOf(c) * Ten(DIGITS_IN_LEAF - n - 1), part * 10 + DigitOf(c), n + 1, d + [c])
  {
    assert (d + [c])[..|d|] == d;
    Associate(Val(q), 10, Ten(n));
    Commute(Val(q), 10, Ten(n));
    var u := Ten(DIGITS_IN_LEAF - n - 1);
    Associate(part, 10, u);
    Distribute(part * 10, DigitOf(c), u);
  }

  lemma {:induction false} FlushLeft(q: seq<int>, leaf: int, part: int, d: string)
    requires ReadLeft(q, leaf, part, DIGITS_IN_LEAF, d)
    ensures ReadLeft(q + [leaf], 0, 0, 0, d)
  {
    TenValues();
    assert (q + [part])[..|q|] == q;
  }

  lemma FilledUp(v: int, part: int, tn: int, u: int)
    requires 0 <= part < tn && u >= 1 && tn * u == LEAF
    ensures 0 <= part * u < LEAF && v * LEAF + part * u == (v * tn + part) * u
  {
    MulMono(part + 1, tn, u);
    MulMono(0, part, u);
    Distribute(part, 1, u);
    Distribute(v * tn, part, u);
    Associate(v, tn, u);
  }

  /** The last leaf is filled up with zero digits. */
  lemma LastLeft(q: seq<int>, leaf: int, part: int, n: int, d: string)
    requires ReadLeft(q, leaf, part, n, d)
    ensures IsLeaves(q + [leaf]) && Val(q + [leaf]) == DigitsVal(d) * Ten(DIGITS_IN_LEAF - n)
  {
    TenValues();
    TenAdd(n, DIGITS_IN_LEAF - n);
    FilledUp(Val(q), part, Ten(n), Ten(DIGITS_IN_LEAF - n));
    assert (q + [leaf])[..|q|] == q;
  }

  /** One more digit, read from the left. */
  method ReadDigit(dst: array<int>, from: nat, idx0: nat, leaf0: int, digitInLeaf0: int, c: char, ghost q0: seq<int>,
                   ghost part0: int, ghost d: string)
    returns (idx: nat, leaf: int, digitInLeaf: int, ghost q: seq<int>, ghost part: int)
    requires ReadLeft(q0, leaf0, part0, digitInLeaf0, d) && c in DIGITS
    requires idx0 == from + |q0| && idx0 < dst.Length && dst[from..idx0] == q0
    modifies dst
    ensures ReadLeft(q, leaf, part, digitInLeaf, d + [c]) && digitInLeaf > 0
    ensures idx == from + |q| && idx <= idx0 + 1 && idx <= dst.Length && dst[from..idx] == q
    ensures forall i :: 0 <= i < dst.Length && (i < from || i > idx0) ==> dst[i] == old(dst[i])
    ensures idx == idx0 ==> dst[..] == old(dst[..])
  {
    idx, leaf, digitInLeaf, q, part := idx0, leaf0, digitInLeaf0, q0, part0;
    if digitInLeaf == DIGITS_IN_LEAF {
      FlushLeft(q, leaf, part, d);
      dst[idx] := leaf;
      q, part := q + [leaf], 0;
      idx := idx + 1;
      digitInLeaf := 0;
      leaf := 0;
    }
    NextLeft(q, leaf, part, digitInLeaf, d, c);
    leaf := leaf + (c as int - '0' as int) * DecimalShift(DIGITS_IN_LEAF - digitInLeaf - 1);
    part := part * 10 + DigitOf(c);
    digitInLeaf := digitInLeaf + 1;
  }

  /** Writes the last leaf that digits behind the point were read into. */
  method WriteLast(dst: array<int>, from: nat, idx: nat, leafCount: nat, leaf: int,
                   ghost q: seq<int>, ghost part: int, ghost n: int, ghost f: string)
    requires ReadLeft(q, leaf, part, n, f) && (n > 0 || f == [])
    requires leafCount - from == (|f| + DIGITS_IN_LEAF - 1) / DIGITS_IN_LEAF
    requires from <= leafCount <= dst.Length && idx == from + |q| <= leafCount && dst[from..idx] == q
    modifies dst
    ensures IsLeaves(dst[from..leafCount])
    ensures Val(dst[from..leafCount]) == DigitsVal(f) * Ten(DIGITS_IN_LEAF * (leafCount - from) - |f|)
    ensures forall i :: 0 <= i < dst.Length && (i < from || leafCount <= i) ==> dst[i] == old(dst[i])
  {
    if idx < leafCount {
      LastLeft(q, leaf, part, n, f);
      dst[idx] := leaf;
      assert dst[from..leafCount] == q + [leaf];
    }
  }

  /** Reads the digits behind the point into leaves, from the left. */
  method ReadFraction(dst: array<int>, integralPartSize: nat, leafCount: nat, f: string)
    requires AllIn(f, 0, |f|, DIGITS) && integralPartSize <= leafCount <= dst.Length
    requires leafCount - integralPartSize == (|f| + DIGITS_IN_LEAF - 1) / DIGITS_IN_LEAF
    modifies dst
    ensures IsLeaves(dst[integralPartSize..leafCount])
    ensures Val(dst[integralPartSize..leafCount])
         == DigitsVal(f) * Ten(DIGITS_IN_LEAF * (leafCount - integralPartSize) - |f|)
    ensures forall i :: 0 <= i < dst.Length && (i < integralPartSize || leafCount <= i) ==> dst[i] == old(dst[i])
  {
    var idx: nat, leaf, digitInLeaf := integralPartSize, 0, 0;
    ghost var q: seq<int>, part := [], 0;
    assert f[..0] == [];
    for k := 0 to |f|
      invariant idx == integralPartSize + |q| <= leafCount && dst[integralPartSize..idx] == q
      invariant ReadLeft(q, leaf, part, digitInLeaf, f[..k]) && (k > 0 ==> digitInLeaf > 0)
      invariant forall i :: 0 <= i < dst.Length && (i < integralPartSize || leafCount <= i) ==> dst[i] == old(dst[i])
    {
      idx, leaf, digitInLeaf, q, part :=
        ReadDigit(dst, integralPartSize, idx, leaf, digitInLeaf, f[k], q, part, f[..k]);
      assert f[..k + 1] == f[..k] + [f[k]];
    }
    assert f[..|f|] == f;
    WriteLast(dst, integralPartSize, idx, leafCount, leaf, q, part, digitInLeaf, f);
  }

  /** The digits `d` read from the right: whole leaves `q` and `n` digits worth `leaf` in front of them. */
  ghost predicate ReadRight(q: seq<int>, leaf: int, n: int, d: string) {
    && IsLeaves(q) && 0 <= n <= DIGITS_IN_LEAF && 0 <= leaf < Ten(n) && |d| == DIGITS_IN_LEAF * |q| + n
    && leaf * Pow(|q|) + Val(q) == DigitsVal(d)
  }

  lemma DigitAhead(leaf: int, c: int, tn: int, pq: int)
    requires 0 <= leaf < tn && 0 <= c <= 9
    ensures (leaf + c * tn) * pq == leaf * pq + c * (tn * pq) && 0 <= leaf + c * tn < 10 * tn
  {
    Distribute(leaf, c * tn, pq);
    Associate(c, tn, pq);
    MulMono(c, 9, tn);
    MulMono(0, c, tn);
  }

  lemma {:induction false} NextRight(q: seq<int>, leaf: int, n: int, d: string, c: char)
    requires ReadRight(q, leaf, n, d) && n < DIGITS_IN_LEAF && c in DIGITS
    ensures ReadRight(q, leaf + DigitOf(c) * Ten(n), n + 1, [c] + d)
  {
    DigitsConcat([c], d);
    assert [c][..0] == [];
    assert DigitsVal([c]) == DigitOf(c);
    PowIsTen(|q|);
    TenAdd(n, DIGITS_IN_LEAF * |q|);
    DigitAhead(leaf, DigitOf(c), Ten(n), Pow(|q|));
  }

  lemma {:induction false} FlushRight(q: seq<int>, leaf: int, n: int, d: string)
    requires ReadRight(q, leaf, n, d)
    ensures IsLeaves([leaf] + q) && Val([leaf] + q) == DigitsVal(d)
    ensures n == DIGITS_IN_LEAF ==> ReadRight([leaf] + q, 0, 0, d)
  {
    TenValues();
    TenAdd(n, DIGITS_IN_LEAF - n);
    MulMono(1, Ten(DIGITS_IN_LEAF - n), Ten(n));
    ValFront(leaf, q);
  }

  /** One more digit, read from the right. */
  method ReadDigitRight(dst: array<int>, end: nat, idx0: int, leaf0: int, digitInLeaf0: int, c: char,
                        ghost q0: seq<int>, ghost d: string)
    returns (idx: int, leaf: int, digitInLeaf: int, ghost q: seq<int>)
    requires ReadRight(q0, leaf0, digitInLeaf0, d) && c in DIGITS
    requires 0 <= idx0 && idx0 + 1 + |q0| == end <= dst.Length && dst[idx0 + 1..end] == q0
    modifies dst
    ensures ReadRight(q, leaf, digitInLeaf, [c] + d) && digitInLeaf > 0
    ensures idx0 - 1 <= idx && idx + 1 + |q| == end && dst[idx + 1..end] == q
    ensures forall i :: 0 <= i < dst.Length && (i < idx0 || i >= end) ==> dst[i] == old(dst[i])
  {
    hide Val, DigitsVal, Pow, Ten;
    idx, leaf, digitInLeaf, q := idx0, leaf0, digitInLeaf0, q0;
    if digitInLeaf == DIGITS_IN_LEAF {
      FlushRight(q, leaf, digitInLeaf, d);
      dst[idx] := leaf;
      q := [leaf] + q;
      idx := idx - 1;
      digitInLeaf := 0;
      leaf := 0;
      assert dst[idx + 1..end] == q;
    }
    NextRight(q, leaf, digitInLeaf, d, c);
    leaf := leaf + (c as int - '0' as int) * DecimalShift(digitInLeaf);
    digitInLeaf := digitInLeaf + 1;
  }

  /** Writes the first leaf that digits in front of the point were read into. */
  method WriteFirst(dst: array<int>, end: nat, idx: int, leaf: int, ghost q: seq<int>, ghost n: int, ghost s: string)
    requires ReadRight(q, leaf, n, s) && end == (|s| + DIGITS_IN_LEAF - 1) / DIGITS_IN_LEAF && end <= dst.Length
    requires 0 <= idx && idx + 1 + |q| == end && dst[idx + 1..end] == q
    modifies dst
    ensures IsLeaves(dst[..end]) && Val(dst[..end]) == DigitsVal(s)
    ensures forall i :: end <= i < dst.Length ==> dst[i] == old(dst[i])
  {
    hide Val, DigitsVal;
    FlushRight(q, leaf, n, s);
    dst[idx] := leaf;
    assert idx == 0;
    assert dst[..end] == [leaf] + q;
  }

  /** Reads the digits in front of the point into leaves, from the right. */
  method ReadIntegral(dst: array<int>, integralPartSize: nat, s: string)
    requires AllIn(s, 0, |s|, DIGITS) && integralPartSize <= dst.Length
    requires integralPartSize == (|s| + DIGITS_IN_LEAF - 1) / DIGITS_IN_LEAF
    modifies dst
    ensures IsLeaves(dst[..integralPartSize]) && Val(dst[..integralPartSize]) == DigitsVal(s)
    ensures forall i :: integralPartSize <= i < dst.Length ==> dst[i] == old(dst[i])
  {
    if integralPartSize > 0 {
      var idx, leaf, digitInLeaf := integralPartSize - 1, 0, 0;
      ghost var q: seq<int> := [];
      assert s[|s|..] == [];
      for k := |s| downto 0
        invariant 0 <= idx && idx + 1 + |q| == integralPartSize && dst[idx + 1..integralPartSize] == q
        invariant ReadRight(q, leaf, digitInLeaf, s[k..]) && (k < |s| ==> digitInLeaf > 0)
        invariant forall i :: integralPartSize <= i < dst.Length ==> dst[i] == old(dst[i])
      {
        idx, leaf, digitInLeaf, q := ReadDigitRight(dst, integralPartSize, idx, leaf, digitInLeaf, s[k], q, s[k + 1..]);
        assert s[k..] == [s[k]] + s[k + 1..];
      }
      assert s[0..] == s;
      WriteFirst(dst, integralPartSize, idx, leaf, q, digitInLeaf, s);
    }
  }

  /** Leaves in front of and behind the point make up what the digits read. */
  lemma {:induction false} ReadValue(w: seq<int>, p: seq<int>, i: string, f: string)
    requires IsLeaves(w) && IsLeaves(p) && Val(w) == DigitsVal(i) && |f| <= DIGITS_IN_LEAF * |p|
    requires Val(p) == DigitsVal(f) * Ten(DIGITS_IN_LEAF * |p| - |f|)
    ensures Magnitude(w + p, |p|) == Reading(i, f)
  {
    var k := DIGITS_IN_LEAF * |p| - |f|;
    ValConcat(w, p);
    DigitsConcat(i, f);
    PowIsTen(|p|);
    TenAdd(|f|, k);
    Shares(DigitsVal(i), DigitsVal(f), Val(p), Ten(|f|), Ten(k), Pow(|p|), Val(w + p));
    Expand(DigitsVal(i + f), Ten(|f|), Ten(k));
  }

  lemma {:induction false} DigitsAtLeast(s: string)
    requires s != [] && AllIn(s, 0, |s|, DIGITS) && s[0] != '0'
    ensures DigitsVal(s) >= Ten(|s| - 1)
  {
    var h := s[..|s| - 1];
    if h != [] {
      DigitsAtLeast(h);
    } else {
      assert DigitsVal(h) == 0;
    }
  }

  /** Digits that do not start with a zero make a first leaf that is not zero. */
  lemma {:induction false} LeadingDigit(i: string, w: seq<int>)
    requires i != [] && AllIn(i, 0, |i|, DIGITS) && i[0] != '0'
    requires IsLeaves(w) && Val(w) == DigitsVal(i) && |w| == (|i| + DIGITS_IN_LEAF - 1) / DIGITS_IN_LEAF
    ensures w[0] != 0
  {
    hide Val, Pow, Ten, DigitsVal;
    var m := DIGITS_IN_LEAF * (|w| - 1);
    DigitsAtLeast(i);
    PowIsTen(|w| - 1);
    TenAdd(m, |i| - 1 - m);
    MulMono(1, Ten(|i| - 1 - m), Ten(m));
    if w[0] == 0 {
      ValLeadingZeros(w, 1);
      ValBound(w[1..]);
    }
  }

  /** What a text is read as. */
  ghost predicate ParsedAs(t: string, n: Numeral) {
    match Scan(t)
    case Malformed => false
    case Zero => n == Numeral([], 0, false)
    case Found(negative, i, f, _) => n.Canonical() && n.Value() == Signed(negative, Reading(i, f))
  }

  lemma ScanZero()
    ensures Scan("0") == Zero
  {
    FindOneOfAt("0", VALID_CHARACTERS, 0, 0);
    FindOneOfAt("0", DIGITS_AND_DOT, 0, 0);
    FindNothingElse("0", {'0'}, 0);
  }

  lemma {:induction false} ParsedNotation(t: string, negative: bool, i: string, f: string, n: Numeral, m: Numeral)
    requires n.Canonical() && Scan(t) == Found(negative, i, f, f != []) && n.negative == negative
      && Reading(i, f) == n.Abs()
    ensures ParsedAs(t, m) <==> m == n
  {
    if m.Canonical() { SameValue(n, m); }
  }

  /** Reading what was printed gives back the number: its leaves, its point and its sign. */
  lemma {:induction false} PrintedThenParsed(n: Numeral, m: Numeral)
    requires n.Canonical()
    ensures ParsedAs(Printed(n), m) <==> m == n
  {
    var i, f := IntegralText(n.leaves[..n.integral]), WithoutZeros(PaddedAll(n.leaves[n.integral..]));
    if i == [] && f == [] {
      PrintedNothing(n);
      assert Printed(n) == "0";
      ScanZero();
    } else {
      PrintedDigits(n, i, f);
      ScanNotation(n.negative, i, f);
      ParsedNotation(Printed(n), n.negative, i, f, n, m);
    }
  }

  /** The notation of a number has no exponents and no spacers. */
  lemma {:induction false} PrintedIsPlain(n: Numeral)
    requires n.Canonical()
    ensures forall i :: 0 <= i < |Printed(n)| ==> Printed(n)[i] !in {'_', 'e', 'E'}
  {
    var i, p := IntegralText(n.leaves[..n.integral]), PaddedAll(n.leaves[n.integral..]);
    var f := WithoutZeros(p);
    assert AllIn(f, 0, |f|, DIGITS);
    NotationIsPlain(n.negative, i, f);
  }

  lemma {:induction false} NotationIsPlain(negative: bool, i: string, f: string)
    requires AllIn(i, 0, |i|, DIGITS) && AllIn(f, 0, |f|, DIGITS)
    ensures forall k :: 0 <= k < |Notation(negative, i, f)| ==> Notation(negative, i, f)[k] in DIGITS + {'-', '.'}
  {
    var whole := if i == [] then "0" else i;
    assert forall k :: 0 <= k < |whole| ==> whole[k] in DIGITS;
    assert forall k :: 0 <= k < |f| ==> f[k] in DIGITS;
  }

  lemma LegibleDigits(t: string)
    requires AllIn(t, 0, |t|, DIGITS)
    ensures Legible(t)
  {
    assert forall k :: 0 <= k < |t| ==> t[k] in DIGITS;
  }

  /** What is written in front of the digits behind the point. */
  lemma LegibleFront(sign: string, whole: string, zero: string, digits: string)
    requires Legible(sign) && Legible(whole) && Legible(zero) && Legible(digits)
    ensures Legible(sign + whole + zero + "." + digits)
  {
  }

  lemma {:induction false} PlainLength(leaf: int, n: nat)
    requires 0 <= leaf < Ten(n) && n >= 1
    ensures |Plain(leaf)| <= n
  {
    if leaf >= 10 {
      assert Ten(1) == 10 * Ten(0) == 10;
      PlainLength(leaf / 10, n - 1);
    }
  }

  lemma IntegralLength(s: seq<int>)
    requires IsLeaves(s)
    ensures |IntegralText(s)| <= DIGITS_IN_LEAF * |s|
  {
    if s != [] {
      TenValues();
      PlainLength(s[0], DIGITS_IN_LEAF);
    }
  }

  /** Drops the zeros behind a point and digits. */
  method StripZeros(text0: string, ghost front: string, ghost p: string) returns (text: string)
    requires text0 == front + p && front != [] && front[|front| - 1] != '0'
    ensures text == front + WithoutZeros(p)
  {
    text := text0;
    ghost var r := p;
    while text[|text| - 1] == '0'
      invariant text == front + r && WithoutZeros(r) == WithoutZeros(p)
      decreases |text|
    {
      text := text[..|text| - 1];
      r := r[..|r| - 1];
    }
  }

  /** The notation with one more leaf. */
  lemma {:induction false} NextInText(s: seq<int>, leaf: int)
    requires IsLeaves(s) && 0 <= leaf
    ensures IntegralText(s + [leaf]) == IntegralText(s) + if s == [] then Plain(leaf) else Padded(leaf, DIGITS_IN_LEAF)
  {
    if s == [] {
      assert (s + [leaf])[1..] == [];
    } else {
      var t := (s + [leaf])[1..];
      assert t[..|t| - 1] == s[1..] && t[|t| - 1] == leaf;
    }
  }

  lemma {:induction false} WholeNotation(negative: bool, i: string)
    ensures i != [] ==> (if negative then "-" else "") + i == Notation(negative, i, [])
    ensures i == [] ==> (if negative then "-" else "") + i + "0" == Notation(negative, i, [])
  {
  }

  lemma {:induction false} PointNotation(negative: bool, i: string, f: string, front: string)
    requires f != [] && front == (if negative then "-" else "") + i + (if i == [] then "0" else "") + "."
    ensures front + f == Notation(negative, i, f)
  {
  }

  /** A text up to the point, with a zero in front of it if there is nothing else. */
  method WithPoint(text0: string, integral: bool, ghost sign: string, ghost i: string) returns (text: string)
    requires text0 == sign + i && (integral <==> i != [])
    ensures text == sign + i + (if i == [] then "0" else "") + "."
  {
    text := text0;
    if !integral {
      text := text + "0";
    } else {
      assert sign + i + "" == sign + i;
    }
    text := text + ".";
  }

  /** Reads digits in front of and behind the point into leaves. */
  method ReadLeaves(dst: array<int>, integralPartSize: nat, leafCount: nat, i: string, f: string)
    requires AllIn(i, 0, |i|, DIGITS) && AllIn(f, 0, |f|, DIGITS) && integralPartSize <= leafCount <= dst.Length
    requires integralPartSize == (|i| + DIGITS_IN_LEAF - 1) / DIGITS_IN_LEAF
    requires leafCount - integralPartSize == (|f| + DIGITS_IN_LEAF - 1) / DIGITS_IN_LEAF
    modifies dst
    ensures IsLeaves(dst[..leafCount]) && Magnitude(dst[..leafCount], leafCount - integralPartSize) == Reading(i, f)
    ensures Val(dst[..integralPartSize]) == DigitsVal(i)
    ensures forall i :: leafCount <= i < dst.Length ==> dst[i] == old(dst[i])
  {
    ReadFraction(dst, integralPartSize, leafCount, f);
    ghost var p := dst[integralPartSize..leafCount];
    ReadIntegral(dst, integralPartSize, i);
    ghost var w := dst[..integralPartSize];
    assert dst[..leafCount] == w + p;
    ReadValue(w, p, i, f);
  }
}
