/** How any text is read as a number, judged by its characters. */
module TextForms {
  import Leaves
  import opened Decimal
  import opened Numerals
  import Dividends
  import DecimalDigits = Digits
  import opened Text

  predicate IsDigit(c: char) {
    '0' <= c <= '9'
  }

  ghost predicate OnlyDigits(s: string) {
    forall k :: 0 <= k < |s| ==> IsDigit(s[k])
  }

  ghost predicate AllZeros(s: string) {
    forall k :: 0 <= k < |s| ==> s[k] == '0'
  }

  ghost predicate Starts(c: char) {
    IsDigit(c) || c == '.' || c == '-'
  }

  /** The parts of a text: `h` in front of the first character that a number can start with, a sign, all the digits that
      follow, a point, all the digits behind it, and the rest. */
  ghost predicate Splits(t: string, h: string, negative: bool, i: string, point: bool, f: string, rest: string) {
    && t == h + (if negative then "-" else "") + i + (if point then "." else "") + f + rest
    && (forall k :: 0 <= k < |h| ==> !Starts(h[k])) && (negative || i != "" || point)
    && OnlyDigits(i) && OnlyDigits(f) && (!point ==> f == "")
    && (rest != "" ==> !IsDigit(rest[0]) && (!point ==> rest[0] != '.'))
  }

  /** Whether there are digits, and the first one is neither the first nor the second character. */
  ghost predicate LateDigit(v: string) {
    (exists k :: 2 <= k < |v| && IsDigit(v[k])) && forall k :: 0 <= k < 2 && k < |v| ==> !IsDigit(v[k])
  }

  /** The texts that are refused: there is no digit where the number should be, or there are only zeros in front of the
      point, none behind it, and more digits later in the text. */
  ghost predicate Refused(i: string, point: bool, f: string, rest: string) {
    && f == ""
    && (i == "" || (AllZeros(i) && LateDigit((if point then "." else "") + rest)))
  }

  /** What a text is read as: the number that its digits denote. */
  ghost predicate Reads(t: string, negative: bool, i: string, f: string) {
    !Scan(t).Malformed? && forall n :: ParsedAs(t, n) ==> n.WellFormed() && n.Value() == Signed(negative, Reading(i, f))
  }

  lemma DigitSets(c: char)
    ensures c in DIGITS <==> IsDigit(c)
    ensures c in DIGITS_AND_DOT <==> IsDigit(c) || c == '.'
    ensures c in VALID_CHARACTERS <==> Starts(c)
  {
  }

  /** The characters of a text from place `start` on. */
  ghost predicate From(t: string, start: nat, i: string, point: bool, f: string, rest: string) {
    && start <= |t| && t[start..] == i + (if point then "." else "") + f + rest
    && OnlyDigits(i) && OnlyDigits(f) && (!point ==> f == "")
    && (rest != "" ==> !IsDigit(rest[0]) && (!point ==> rest[0] != '.'))
  }

  lemma {:induction false} EndAt(t: string, end: nat, k: nat)
    requires 0 < k <= end <= |t| && t[k - 1] != '0' && forall j :: k <= j < end ==> t[j] == '0'
    ensures EndOfOtherThanZero(t, end) == k
  {
    var r := EndOfOtherThanZero(t, end);
  }

  lemma FindOneOfAfter(t: string, s: set<char>, from: nat, k: nat)
    requires from <= k <= |t| && NoneIn(t, from, k, s)
    ensures FindOneOf(t, s, from) == -1 || FindOneOf(t, s, from) >= k
  {
    var r := FindOneOf(t, s, from);
  }

  lemma {:induction false} Places(t: string, start: nat, i: string, point: bool, f: string, rest: string)
    requires From(t, start, i, point, f, rest)
    ensures forall k :: start <= k < start + |i| ==> IsDigit(t[k]) && t[k] == i[k - start]
    ensures point ==> start + |i| < |t| && t[start + |i|] == '.'
    ensures forall k :: 0 <= k < |f| ==> start + |i| + 1 + k < |t| && t[start + |i| + 1 + k] == f[k]
    ensures OnlyDigits(i) && OnlyDigits(f)
    ensures var e := start + |i| + (if point then 1 else 0) + |f|;
      e <= |t| && t[e..] == rest && (e < |t| ==> !IsDigit(t[e]) && (!point ==> t[e] != '.'))
  {
    var u := i + (if point then "." else "") + f + rest;
    assert forall k :: start <= k < |t| ==> t[k] == u[k - start];
    assert forall k :: 0 <= k < |f| ==> point && u[|i| + 1 + k] == f[k];
    var e := |i| + (if point then 1 else 0) + |f|;
    assert u[e..] == rest;
    assert t[start + e..] == u[e..];
  }

  lemma {:induction false} WithoutZerosEnd(t: string, dot: nat, f: string)
    requires dot + 1 + |f| <= |t| && t[dot] == '.' && t[dot + 1..dot + 1 + |f|] == f
    ensures EndOfOtherThanZero(t, dot + 1 + |f|) == dot + 1 + |WithoutZeros(f)|
    ensures t[dot + 1..dot + 1 + |WithoutZeros(f)|] == WithoutZeros(f)
  {
    hide Text.WithoutZeros, EndOfOtherThanZero;
    var g := WithoutZeros(f);
    var end, k := dot + 1 + |f|, dot + 1 + |g|;
    assert forall j :: dot < j < end ==> t[j] == t[dot + 1..end][j - dot - 1];
    assert g == f[..|g|];
    if g != [] { assert t[k - 1] == f[|g| - 1] == g[|g| - 1]; }
    EndAt(t, end, k);
  }

  lemma DigitsInside(t: string, dot: nat, f: string)
    requires dot + 1 + |f| <= |t| && forall k :: 0 <= k < |f| ==> t[dot + 1 + k] == f[k]
    ensures t[dot + 1..dot + 1 + |f|] == f && (OnlyDigits(f) ==> AllIn(t, dot + 1, dot + 1 + |f|, DIGITS))
  {
    if OnlyDigits(f) {
      forall j | dot < j <= dot + |f| ensures t[j] in DIGITS {
        assert t[j] == f[j - dot - 1];
      }
    }
  }

  /** The fraction that is read: the digits behind the point without the zeros at their end. */
  lemma {:induction false} FractionAt(t: string, start: nat, i: string, f: string, rest: string)
    requires From(t, start, i, true, f, rest)
    ensures start + |i| < |t| && t[start + |i|] == '.' && ScanFraction(t, start + |i|, start) == WithoutZeros(f)
  {
    hide Text.WithoutZeros, FindOtherThan, FindOneOf, EndOfOtherThanZero, From, OnlyDigits;
    var dot, end := start + |i|, start + |i| + 1 + |f|;
    assert end <= |t| && t[dot] == '.' && AllIn(t, dot + 1, end, DIGITS) && t[dot + 1..end] == f
      && (end < |t| ==> t[end] !in DIGITS) by {
      Places(t, start, i, true, f, rest);
      DigitsInside(t, dot, f);
    }
    if end < |t| { FindOtherThanAt(t, DIGITS, dot + 1, end); } else { FindNothingElse(t, DIGITS, dot + 1); }
    WithoutZerosEnd(t, dot, f);
  }

  lemma OtherAfter(t: string, from: nat, k: nat)
    requires from <= k <= |t| && AllIn(t, from, k, DIGITS_AND_DOT)
    ensures FindOtherThan(t, DIGITS_AND_DOT, from) == -1 || FindOtherThan(t, DIGITS_AND_DOT, from) >= k
  {
    var r := FindOtherThan(t, DIGITS_AND_DOT, from);
  }

  /** The digits that are read from place `start` on, with a point behind them. */
  lemma {:induction false} PointedDigitsAt(t: string, negative: bool, start: nat, i: string, f: string, rest: string)
    requires From(t, start, i, true, f, rest)
    ensures start < |t| && ScanDigits(t, negative, start) == Found(negative, i, WithoutZeros(f), true)
  {
    hide Text.WithoutZeros, FindOtherThan, FindOneOf, ScanFraction, From, OnlyDigits;
    var dot := start + |i|;
    FractionAt(t, start, i, f, rest);
    assert t[start..dot] == i && AllIn(t, start, dot + 1, DIGITS_AND_DOT) by { Places(t, start, i, true, f, rest); }
    assert NoneIn(t, start, dot, {'.'}) by { Places(t, start, i, true, f, rest); }
    FindOneOfAt(t, {'.'}, start, dot);
    OtherAfter(t, start, dot + 1);
  }

  /** The digits that are read from place `start` on, with no point behind them. */
  lemma {:induction false} PlainDigitsAt(t: string, negative: bool, start: nat, i: string, rest: string)
    requires From(t, start, i, false, "", rest) && start < |t|
    ensures ScanDigits(t, negative, start) == Found(negative, i, "", false)
  {
    hide Text.WithoutZeros, FindOtherThan, FindOneOf, ScanFraction;
    Places(t, start, i, false, "", rest);
    var whole := start + |i|;
    assert t[start..whole] == i && AllIn(t, start, whole, DIGITS_AND_DOT) && NoneIn(t, start, whole, {'.'});
    FindOneOfAfter(t, {'.'}, start, whole);
    if whole < |t| {
      FindOtherThanAt(t, DIGITS_AND_DOT, start, whole);
      FindOneOfAfter(t, {'.'}, start, whole + 1);
    } else {
      FindNothingElse(t, DIGITS_AND_DOT, start);
    }
  }

  lemma {:induction false} ZeroDigits(z: string)
    requires AllZeros(z)
    ensures DigitsVal(z) == 0
  {
    if z != "" { ZeroDigits(z[..|z| - 1]); }
  }

  /** Zeros in front of the digits and behind the fraction do not count. */
  lemma {:induction false} ZerosDoNotCount(z: string, i: string, f: string)
    requires AllZeros(z)
    ensures Reading(z + i, f) == Reading(i, WithoutZeros(f))
  {
    hide DigitsVal, Ten, Text.WithoutZeros;
    var g := WithoutZeros(f);
    var e := f[|g|..];
    assert forall k :: 0 <= k < |e| ==> e[k] == f[|g| + k];
    assert f == g + e;
    assert (z + i) + f == z + ((i + g) + e);
    DigitsConcat(z, (i + g) + e);
    DigitsConcat(i + g, e);
    ZeroDigits(z);
    ZeroDigits(e);
    TenAdd(|g|, |e|);
    Expand(DigitsVal(i + g), Ten(|g|), Ten(|e|));
  }

  /** The parts of a text from behind its sign on. */
  lemma {:induction false} BehindSign(t: string, h: string, negative: bool, i: string, point: bool, f: string,
                                      rest: string)
    requires Splits(t, h, negative, i, point, f, rest)
    ensures From(t, |h| + (if negative then 1 else 0), i, point, f, rest)
    ensures |h| < |t| && (t[|h|] == '-' <==> negative) && FindOneOf(t, VALID_CHARACTERS, 0) == |h|
  {
    hide FindOneOf, OnlyDigits;
    var sign, u := if negative then "-" else "", i + (if point then "." else "") + f + rest;
    assert t == h + (sign + u);
    if !negative { NoSign(i, point, f, rest); }
    SignAt(t, h, sign, u);
  }

  lemma {:induction false} SignAt(t: string, h: string, sign: string, u: string)
    requires t == h + (sign + u) && (sign == "-" || (sign == "" && u != "" && u[0] != '-' && u[0] in VALID_CHARACTERS))
    requires forall k :: 0 <= k < |h| ==> !Starts(h[k])
    ensures |h| < |t| && (t[|h|] == '-' <==> sign == "-") && FindOneOf(t, VALID_CHARACTERS, 0) == |h|
    ensures t[|h| + |sign|..] == u
  {
    hide FindOneOf;
    Behind(t, 0, h, sign + u);
    Behind(t, |h|, sign, u);
    assert NoneIn(t, 0, |h|, VALID_CHARACTERS);
    FindOneOfAt(t, VALID_CHARACTERS, 0, |h|);
  }

  lemma NoSign(i: string, point: bool, f: string, rest: string)
    requires OnlyDigits(i) && (i != "" || point)
    ensures var u := i + (if point then "." else "") + f + rest;
      u != "" && u[0] != '-' && u[0] in VALID_CHARACTERS
  {
    var u := i + (if point then "." else "") + f + rest;
    assert i != "" ==> u[0] == i[0];
  }

  /** Where the digits start that are not leading zeros. */
  lemma {:induction false} ZerosSkipped(t: string, first: nat, z: string, i: string, point: bool, f: string,
                                        rest: string)
    requires From(t, first, z + i, point, f, rest) && AllZeros(z) && (i != "" ==> i[0] != '0')
    ensures From(t, first + |z|, i, point, f, rest)
    ensures FindOtherThan(t, {'0'}, first) == if first + |z| == |t| then -1 else first + |z|
  {
    hide FindOtherThan;
    var start := first + |z|;
    var u := i + (if point then "." else "") + f + rest;
    assert (z + i) + (if point then "." else "") + f + rest == z + u;
    DigitsBehind(z, i);
    Behind(t, first, z, u);
    if start < |t| {
      assert t[start] == u[0];
      FindOtherThanAt(t, {'0'}, first, start);
    } else {
      FindNothingElse(t, {'0'}, first);
    }
  }

  lemma DigitsBehind(z: string, i: string)
    requires OnlyDigits(z + i)
    ensures OnlyDigits(i)
  {
    assert forall k :: 0 <= k < |i| ==> i[k] == (z + i)[|z| + k];
  }

  lemma Behind(t: string, first: nat, z: string, u: string)
    requires first <= |t| && t[first..] == z + u
    ensures first + |z| <= |t| && t[first + |z|..] == u
    ensures forall k :: first <= k < first + |z| ==> t[k] == z[k - first]
  {
    assert t[first + |z|..] == t[first..][|z|..];
    assert forall k :: first <= k < first + |z| ==> t[k] == t[first..][k - first];
  }

  /** The leading zeros of digits. */
  lemma {:induction false} LeadingZerosOf(i: string) returns (z: string, j: string)
    ensures i == z + j && AllZeros(z) && (j != "" ==> j[0] != '0') && (AllZeros(i) <==> j == "")
  {
    if i == "" || i[0] != '0' {
      z, j := "", i;
    } else {
      z, j := LeadingZerosOf(i[1..]);
      z := "0" + z;
      assert i == ['0'] + i[1..];
    }
  }

  lemma {:induction false} FirstIsDigitOrPoint(t: string, first: nat, i: string, point: bool, f: string, rest: string)
    requires From(t, first, i, point, f, rest) && (i != "" || point)
    ensures first < |t| && t[first] in DIGITS_AND_DOT
  {
    Places(t, first, i, point, f, rest);
  }

  lemma ScanSteps(t: string, sign: nat, first: nat)
    requires sign < |t| && FindOneOf(t, VALID_CHARACTERS, 0) == sign
    requires first == (if t[sign] == '-' then sign + 1 else sign) < |t| && FindOneOf(t, DIGITS_AND_DOT, first) == first
    ensures var start := FindOtherThan(t, {'0'}, first);
      Scan(t) == if start == -1 then Zero else
                 var digit := FindOneOf(t, DIGITS, start);
                 if digit == -1 && first < start then Zero
                 else if digit == -1 || digit - start > 1 then Malformed
                 else ScanDigits(t, t[sign] == '-', start)
  {
    hide FindOneOf, FindOtherThan, ScanDigits;
  }

  lemma ScanStops(t: string, sign: nat, first: nat)
    requires sign < |t| && FindOneOf(t, VALID_CHARACTERS, 0) == sign
    requires first == (if t[sign] == '-' then sign + 1 else sign)
    requires first >= |t| || FindOneOf(t, DIGITS_AND_DOT, first) != first
    ensures Scan(t) == Malformed
  {
    hide FindOneOf, FindOtherThan, ScanDigits;
  }

  /** The scan of a text that has digits where the number should be. */
  lemma {:induction false} ScanFrom(t: string, h: string, negative: bool, z: string, j: string, point: bool, f: string,
                                    rest: string)
    requires Splits(t, h, negative, z + j, point, f, rest) && AllZeros(z) && (j != "" ==> j[0] != '0')
    requires z + j != "" || point
    ensures var start := |h| + (if negative then 1 else 0) + |z|;
      From(t, start, j, point, f, rest)
      && Scan(t) == if start >= |t| then Zero else
                    var digit := FindOneOf(t, DIGITS, start);
                    if digit == -1 && z != "" then Zero
                    else if digit == -1 || digit - start > 1 then Malformed
                    else ScanDigits(t, negative, start)
  {
    hide FindOneOf, FindOtherThan, ScanDigits, Splits, Scan, From, OnlyDigits, AllZeros;
    var first := |h| + if negative then 1 else 0;
    BehindSign(t, h, negative, z + j, point, f, rest);
    ZerosSkipped(t, first, z, j, point, f, rest);
    assert first < |t| && t[first] in DIGITS_AND_DOT by { FirstIsDigitOrPoint(t, first, z + j, point, f, rest); }
    FindOneOfAt(t, DIGITS_AND_DOT, first, first);
    ScanSteps(t, |h|, first);
  }

  /** The first digit of a text from place `start` on. */
  lemma {:induction false} FirstDigit(t: string, start: nat, j: string, point: bool, f: string, rest: string)
    requires From(t, start, j, point, f, rest) && start < |t|
    ensures j != "" ==> FindOneOf(t, DIGITS, start) == start
    ensures j == "" && f != "" ==> FindOneOf(t, DIGITS, start) == start + 1
    ensures j == "" && f == "" ==>
      var digit := FindOneOf(t, DIGITS, start);
      var v := (if point then "." else "") + rest;
      && digit != start && (digit > start + 1 <==> LateDigit(v)) && (digit == start + 1 ==> !point)
  {
    hide FindOneOf, LateDigit;
    Places(t, start, j, point, f, rest);
    if j != "" {
      DigitSets(t[start]);
      FindOneOfAt(t, DIGITS, start, start);
    } else if f != "" {
      FindOneOfAt(t, DIGITS, start, start + 1);
    } else {
      var v := (if point then "." else "") + rest;
      assert j + (if point then "." else "") + f + rest == v;
      assert t[start..] == v && v[0] == t[start];
      LateDigitAt(t, start, v);
    }
  }

  lemma {:induction false} LateDigitAt(t: string, start: nat, v: string)
    requires start < |t| && t[start..] == v && !IsDigit(v[0])
    ensures var digit := FindOneOf(t, DIGITS, start);
      digit != start && (digit > start + 1 <==> LateDigit(v)) && (digit == start + 1 ==> |v| > 1 && IsDigit(v[1]))
  {
    hide FindOneOf;
    var digit := FindOneOf(t, DIGITS, start);
    assert forall k :: start <= k < |t| ==> t[k] == v[k - start];
    if digit > start + 1 { assert IsDigit(v[digit - start]); }
    if LateDigit(v) {
      var k :| 2 <= k < |v| && IsDigit(v[k]);
      assert t[start + k] == v[k];
    }
  }

  lemma {:induction false} NothingBehindPoint(t: string, h: string, negative: bool, rest: string)
    requires Splits(t, h, negative, "", true, "", rest)
    ensures Scan(t) == Malformed
  {
    hide FindOneOf, Splits, Scan, From, LateDigit, ScanDigits;
    assert "" + "" == "";
    ScanFrom(t, h, negative, "", "", true, "", rest);
    FirstIsPoint(t, |h| + if negative then 1 else 0, rest);
    FirstDigit(t, |h| + if negative then 1 else 0, "", true, "", rest);
  }

  lemma FirstIsPoint(t: string, start: nat, rest: string)
    requires From(t, start, "", true, "", rest)
    ensures start < |t|
  {
  }

  /** A text is refused if no digit is where the number should be. */
  lemma {:induction false} NoDigits(t: string, h: string, negative: bool, point: bool, rest: string)
    requires Splits(t, h, negative, "", point, "", rest)
    ensures Scan(t) == Malformed
  {
    hide FindOneOf, Splits, Scan, From;
    if point {
      NothingBehindPoint(t, h, negative, rest);
    } else {
      var first := |h| + if negative then 1 else 0;
      BehindSign(t, h, negative, "", point, "", rest);
      NothingAt(t, first, rest);
      ScanStops(t, |h|, first);
    }
  }

  lemma {:induction false} NothingAt(t: string, first: nat, rest: string)
    requires From(t, first, "", false, "", rest)
    ensures first >= |t| || FindOneOf(t, DIGITS_AND_DOT, first) != first
  {
    hide FindOneOf;
    assert t[first..] == rest;
    if first < |t| {
      assert t[first] == rest[0];
      FindOneOfAfter(t, DIGITS_AND_DOT, first, first + 1);
    }
  }

  /** The scan of a text with digits, not all of which are zeros in front of the point. */
  lemma {:induction false} DigitsFound(t: string, h: string, negative: bool, z: string, j: string, point: bool,
                                       f: string, rest: string)
    requires Splits(t, h, negative, z + j, point, f, rest) && AllZeros(z) && (j != "" ==> j[0] != '0')
    requires j != "" || f != ""
    ensures Scan(t) == Found(negative, j, if point then WithoutZeros(f) else "", point)
  {
    hide FindOneOf, Scan, OnlyDigits, AllZeros, ScanDigits, From;
    var start := |h| + (if negative then 1 else 0) + |z|;
    ScanFrom(t, h, negative, z, j, point, f, rest);
    SomethingAt(t, start, j, point, f, rest);
    FirstDigit(t, start, j, point, f, rest);
    if point { PointedDigitsAt(t, negative, start, j, f, rest); } else { PlainDigitsAt(t, negative, start, j, rest); }
  }

  lemma SomethingAt(t: string, start: nat, j: string, point: bool, f: string, rest: string)
    requires From(t, start, j, point, f, rest)
    ensures start < |t| <==> j != "" || point || rest != ""
    ensures j != "" || f != "" ==> j != "" || point
  {
  }

  /** The scan of a text with zeros in front of the point and no digit behind it. */
  lemma {:induction false} ZerosFound(t: string, h: string, negative: bool, i: string, point: bool, rest: string)
    requires Splits(t, h, negative, i, point, "", rest) && AllZeros(i) && i != ""
    ensures Scan(t) == Malformed <==> LateDigit((if point then "." else "") + rest)
    ensures Scan(t) == Malformed || Scan(t) == Zero || Scan(t) == Found(negative, "", "", false)
  {
    hide FindOneOf, Scan, OnlyDigits, AllZeros, ScanDigits, From, LateDigit;
    var start := |h| + (if negative then 1 else 0) + |i|;
    assert i + "" == i;
    ScanFrom(t, h, negative, i, "", point, "", rest);
    SomethingAt(t, start, "", point, "", rest);
    if start < |t| {
      FirstDigit(t, start, "", point, "", rest);
      if !point { PlainDigitsAt(t, negative, start, "", rest); }
    } else {
      NoLateDigit();
    }
  }

  lemma NoLateDigit()
    ensures !LateDigit("" + "")
  {
  }

  lemma {:induction false} ReadsDigits(t: string, negative: bool, z: string, j: string, f: string, point: bool)
    requires Scan(t) == Found(negative, j, if point then WithoutZeros(f) else "", point) && AllZeros(z)
    requires !point ==> f == ""
    ensures Reads(t, negative, z + j, f)
  {
    hide Scan, Reading, Text.WithoutZeros;
    ZerosDoNotCount(z, j, f);
    NoZeros();
  }

  lemma NoZeros()
    ensures WithoutZeros("") == ""
  {
  }

  lemma {:induction false} ReadsZero(t: string, negative: bool, i: string)
    requires Scan(t) == Zero || Scan(t) == Found(negative, "", "", false)
    requires AllZeros(i)
    ensures Reads(t, negative, i, "")
  {
    hide Scan;
    assert i + "" == i && Ten(0) == 1;
    ZeroDigits(i);
    NoLeavesIsZero(Numeral([], 0, false));
    assert Reading("", "") == 0.0;
  }

  /** Every text with a character that a number can start with is refused, or read as the number that its digits denote,
      whatever is in front of them and behind them. */
  lemma {:induction false} ReadOrRefused(t: string, h: string, negative: bool, i: string, point: bool, f: string,
                                         rest: string)
    requires Splits(t, h, negative, i, point, f, rest)
    ensures Scan(t).Malformed? <==> Refused(i, point, f, rest)
    ensures !Refused(i, point, f, rest) ==> Reads(t, negative, i, f)
  {
    hide Scan, OnlyDigits, AllZeros, LateDigit, Reads;
    var z, j := LeadingZerosOf(i);
    if i == "" && f == "" {
      NoDigits(t, h, negative, point, rest);
    } else if j == "" && f == "" {
      ZerosFound(t, h, negative, i, point, rest);
      if !Scan(t).Malformed? { ReadsZero(t, negative, i); }
    } else {
      DigitsFound(t, h, negative, z, j, point, f, rest);
      ReadsDigits(t, negative, z, j, f, point);
    }
  }

  /** A text without such a character is refused. */
  lemma {:induction false} NothingToRead(t: string)
    requires forall k :: 0 <= k < |t| ==> !Starts(t[k])
    ensures Scan(t).Malformed?
  {
    hide FindOneOf;
    FindNone(t, VALID_CHARACTERS, 0);
  }

  lemma {:induction false} DigitsInFront(s: string) returns (i: string, rest: string)
    ensures s == i + rest && OnlyDigits(i) && (rest != "" ==> !IsDigit(rest[0]))
  {
    if s == "" || !IsDigit(s[0]) {
      i, rest := "", s;
    } else {
      i, rest := DigitsInFront(s[1..]);
      i := [s[0]] + i;
      assert s == [s[0]] + s[1..];
    }
  }

  lemma {:induction false} FrontOf(t: string) returns (h: string, rest: string)
    ensures t == h + rest && (forall k :: 0 <= k < |h| ==> !Starts(h[k])) && (rest != "" ==> Starts(rest[0]))
  {
    if t == "" || Starts(t[0]) {
      h, rest := "", t;
    } else {
      h, rest := FrontOf(t[1..]);
      h := [t[0]] + h;
      assert t == [t[0]] + t[1..];
    }
  }

  lemma {:induction false} BehindDigits(v: string) returns (point: bool, f: string, rest: string)
    requires v != "" ==> !IsDigit(v[0])
    ensures v == (if point then "." else "") + f + rest && (point <==> v != "" && v[0] == '.')
    ensures OnlyDigits(f) && (!point ==> f == "") && (rest != "" ==> !IsDigit(rest[0]) && (!point ==> rest[0] != '.'))
  {
    point := v != "" && v[0] == '.';
    if point {
      f, rest := DigitsInFront(v[1..]);
      assert v == "." + v[1..];
    } else {
      f, rest := "", v;
    }
  }

  lemma PartsJoined(h: string, sign: string, i: string, dot: string, f: string, rest: string)
    ensures h + (sign + (i + (dot + f + rest))) == h + sign + i + dot + f + rest
  {
  }

  /** Every text with a character that a number can start with has such parts. */
  lemma {:induction false} PartsOf(t: string, k: nat)
    returns (h: string, negative: bool, i: string, point: bool, f: string, rest: string)
    requires k < |t| && Starts(t[k])
    ensures Splits(t, h, negative, i, point, f, rest)
  {
    hide OnlyDigits;
    var s, v;
    h, s := FrontOf(t);
    assert s == "" ==> h == t;
    negative := s[0] == '-';
    var sign, u := if negative then "-" else "", if negative then s[1..] else s;
    assert s == sign + u;
    i, v := DigitsInFront(u);
    point, f, rest := BehindDigits(v);
    PartsJoined(h, sign, i, if point then "." else "", f, rest);
    if i == "" { assert u == v; }
  }

  /** Whether a text is refused or read as the number of value `v`, whichever way its parts are told apart. */
  ghost predicate RightlyRead(t: string, ok: bool, v: real) {
    && ((forall k :: 0 <= k < |t| ==> !Starts(t[k])) ==> !ok)
    && (forall h, negative, i, point, f, rest :: Splits(t, h, negative, i, point, f, rest) ==>
      && ok == !Refused(i, point, f, rest)
      && (ok ==> v == Signed(negative, DigitsVal(i + f) as real / Ten(|f|) as real)))
  }

  lemma {:induction false} AnyTextRead(t: string, n: Numeral, v: real)
    requires Scan(t).Malformed? || (ParsedAs(t, n) && n.WellFormed() && v == n.Value())
    ensures RightlyRead(t, !Scan(t).Malformed?, v)
  {
    hide Scan, Splits, Refused, Starts, ParsedAs;
    if forall k :: 0 <= k < |t| ==> !Starts(t[k]) { NothingToRead(t); }
    forall h, negative, i, point, f, rest | Splits(t, h, negative, i, point, f, rest)
      ensures Scan(t).Malformed? == Refused(i, point, f, rest)
      ensures !Scan(t).Malformed? ==> v == Signed(negative, DigitsVal(i + f) as real / Ten(|f|) as real)
    {
      ReadOrRefused(t, h, negative, i, point, f, rest);
    }
  }

  /** Whether a number or a refusal depends on what is behind the number: "1, 17" is read as 1 and "0, x" as 0, but
      "0, 17" is refused. */
  lemma {:induction false} RefusedForDigitsBehind()
    ensures Reads("1, 17", false, "1", "") && Reads("0, x", false, "0", "") && Scan("0, 17").Malformed?
  {
    hide Scan, Reads;
    ReadInFront("1, 17", "1", ", 17");
    ReadInFront("0, x", "0", ", x");
    ReadInFront("0, 17", "0", ", 17");
    assert "1"[0] != '0' && "0"[0] == '0' && IsDigit(", 17"[2]);
  }

  lemma {:induction false} ReadInFront(t: string, i: string, rest: string)
    requires t == i + rest && i != "" && OnlyDigits(i) && (rest != "" ==> !IsDigit(rest[0]) && rest[0] != '.')
    ensures if AllZeros(i) && LateDigit(rest) then Scan(t).Malformed? else Reads(t, false, i, "")
  {
    hide Scan, Reads, LateDigit, AllZeros;
    assert t == "" + "" + i + "" + "" + rest && "" + rest == rest;
    ReadOrRefused(t, "", false, i, false, "", rest);
  }

  /** A plain notation of the magnitude `x`: at least one digit in front of the point and no superfluous zero there, a
      point only in front of digits, and no zero behind them. */
  ghost predicate Denotes(t: string, negative: bool, w: string, f: string, x: real) {
    && t == (if negative then "-" else "") + w + (if f == "" then "" else "." + f)
    && w != "" && OnlyDigits(w) && OnlyDigits(f) && (w[0] == '0' ==> w == "0") && (f != "" ==> f[|f| - 1] != '0')
    && DigitsVal(w + f) as real / Ten(|f|) as real == x
  }

  lemma {:induction false} AllDigits(s: string)
    requires AllIn(s, 0, |s|, DIGITS)
    ensures OnlyDigits(s)
  {
    assert forall k :: 0 <= k < |s| ==> s[k] in DIGITS;
  }

  lemma ZeroInFront(f: string)
    ensures DigitsVal("0" + f) == DigitsVal(f)
  {
    DigitsConcat("0", f);
    ZeroDigits("0");
  }

  /** What is printed is a plain notation of the number. */
  lemma {:induction false} PrintedDenotes(n: Numeral) returns (w: string, f: string)
    requires n.Canonical()
    ensures Denotes(Printed(n), n.negative, w, f, n.Abs())
  {
    hide DigitsVal, IntegralText, PaddedAll, Text.WithoutZeros, Numeral.Abs;
    var i := IntegralText(n.leaves[..n.integral]);
    f := WithoutZeros(PaddedAll(n.leaves[n.integral..]));
    PrintedDigits(n, i, f);
    AllDigits(i);
    AllDigits(f);
    w := if i == "" then "0" else i;
    if i == "" {
      assert i + f == f;
      ZeroInFront(f);
    }
  }

  lemma {:induction false} DigitsBound(s: string)
    requires OnlyDigits(s)
    ensures 0 <= DigitsVal(s) < Ten(|s|)
  {
    if s != "" {
      var h := s[..|s| - 1];
      assert forall k :: 0 <= k < |h| ==> IsDigit(h[k]);
      DigitsBound(h);
    }
  }

  lemma {:induction false} SameDigits(s: string, u: string)
    requires OnlyDigits(s) && OnlyDigits(u) && |s| == |u| && DigitsVal(s) == DigitsVal(u)
    ensures s == u
  {
    if s != "" {
      var h, g := s[..|s| - 1], u[..|u| - 1];
      assert forall k :: 0 <= k < |h| ==> IsDigit(h[k]) && IsDigit(g[k]);
      DivideUnique(DigitsVal(s), 10, DigitsVal(h), DigitOf(s[|s| - 1]));
      DivideUnique(DigitsVal(u), 10, DigitsVal(g), DigitOf(u[|u| - 1]));
      SameDigits(h, g);
      assert s == h + [s[|s| - 1]] && u == g + [u[|u| - 1]];
    }
  }

  /** A longer fraction that does not end with a zero denotes something else. */
  lemma {:induction false} OtherFraction(w: string, f: string, w2: string, f2: string)
    requires OnlyDigits(w2 + f2) && |f| < |f2| && f2[|f2| - 1] != '0'
    ensures DigitsVal(w + f) as real / Ten(|f|) as real != DigitsVal(w2 + f2) as real / Ten(|f2|) as real
  {
    var s := w2 + f2;
    var k := |f2| - |f|;
    TenAdd(|f|, k);
    Expand(DigitsVal(w + f), Ten(|f|), Ten(k));
    if DigitsVal(w + f) as real / Ten(|f|) as real == DigitsVal(s) as real / Ten(|f2|) as real {
      SameNumerator(DigitsVal(w + f) * Ten(k), DigitsVal(s), Ten(|f2|));
      assert s[|s| - 1] == f2[|f2| - 1];
      TenthsWhole(DigitsVal(w + f), Ten(k - 1), DigitsVal(s[..|s| - 1]), DigitOf(s[|s| - 1]));
    }
  }

  lemma TenthsWhole(v: int, t: int, h: int, d: int)
    requires 0 <= d < 10 && v * (10 * t) == h * 10 + d
    ensures d == 0
  {
    assert v * (10 * t) == (v * t) * 10;
    DivideUnique(h * 10 + d, 10, h, d);
    DivideUnique(h * 10 + d, 10, v * t, 0);
  }

  lemma {:induction false} LongerIsMore(w: string, f: string, w2: string, f2: string)
    requires OnlyDigits(w + f) && OnlyDigits(w2 + f2) && |f| == |f2| && |w| < |w2| && w2[0] != '0'
    ensures DigitsVal(w + f) < DigitsVal(w2 + f2)
  {
    hide DigitsVal, Ten;
    var s := w2 + f2;
    DigitsBound(w + f);
    assert AllIn(s, 0, |s|, DIGITS);
    DigitsAtLeast(s);
    TenAdd(|w + f|, |s| - 1 - |w + f|);
    Leaves.MulMono(1, Ten(|s| - 1 - |w + f|), Ten(|w + f|));
  }

  /** There is only one plain notation of a magnitude. */
  lemma {:induction false} OneNotation(t: string, u: string, negative: bool, x: real, w: string, f: string, w2: string,
                                       f2: string)
    requires Denotes(t, negative, w, f, x) && Denotes(u, negative, w2, f2, x)
    ensures t == u
  {
    hide DigitsVal, Ten;
    if |f| < |f2| { OtherFraction(w, f, w2, f2); }
    if |f2| < |f| { OtherFraction(w2, f2, w, f); }
    SameNumerator(DigitsVal(w + f), DigitsVal(w2 + f2), Ten(|f|));
    if |w| < |w2| { LongerIsMore(w, f, w2, f2); }
    if |w2| < |w| { LongerIsMore(w2, f2, w, f); }
    SameDigits(w + f, w2 + f2);
    assert w == (w + f)[..|w|] && w2 == (w2 + f2)[..|w|];
    assert f == (w + f)[|w|..] && f2 == (w2 + f2)[|w|..];
  }

  lemma {:induction false} WithoutLastZero(v: int, r: nat, h: int, d: int)
    requires v == h * 10 + d && 0 < d < 10 && r >= 1
    ensures v % Ten(r) != 0
  {
    DivideUnique(v, 10, h, d);
    assert Ten(1) == 10 * Ten(0) == 10;
    if v % Ten(r) == 0 { Divisible(v, 1, r); }
  }

  /** A number that was read has as many digits as its fraction, which does not end with a zero. */
  lemma {:induction false} DigitsRead(n: Numeral, i: string, f: string)
    requires n.WellFormed() && Dividends.FractionTrimmed(n) && n.Abs() == Reading(i, f)
    requires f != "" ==> '0' < f[|f| - 1] <= '9'
    ensures n.Digits() == |f|
  {
    hide Ten, Numeral.Abs, Numeral.Digits, DigitsVal;
    var v := DigitsVal(i + f);
    DecimalDigits.DigitsAreLeast(n, |f|);
    DecimalDigits.PartsWhole(v, Ten(|f|));
    if n.Digits() < |f| {
      FewerLeavesThanDigits(n);
      var p := n.Digits();
      DecimalDigits.DigitsAreLeast(n, p);
      TooFewDigits(v, i, f, p);
    }
  }

  lemma {:induction false} TooFewDigits(v: int, i: string, f: string, p: nat)
    requires p < |f| && v == DigitsVal(i + f) && '0' < f[|f| - 1] <= '9'
    ensures !DecimalDigits.HasDigits(v as real / Ten(|f|) as real, p)
  {
    var s, r := i + f, |f| - p;
    TenAdd(r, p);
    WithoutLastZero(v, r, DigitsVal(s[..|s| - 1]), DigitOf(s[|s| - 1]));
    FloorOfExpanded(v, Ten(r), Ten(p), Ten(|f|));
    if DecimalDigits.HasDigits(v as real / Ten(|f|) as real, p) {
      DecimalDigits.KeptParts(v as real / Ten(|f|) as real, Ten(p));
      DecimalDigits.WholeQuotient(v, Ten(r), Ten(p), Ten(|f|));
    }
  }

  lemma {:induction false} NormalDigits(n: Numeral, m: Numeral, i: string, f: string)
    requires n.Canonical() && m.WellFormed() && n.Value() == m.Value() && m.Abs() == Reading(i, f)
    requires AllIn(f, 0, |f|, DIGITS) && (f != [] ==> f[|f| - 1] != '0')
    ensures n.Digits() == |f|
  {
    hide Reading, Magnitude, EndZeros;
    AbsNotNegative(n);
    AbsNotNegative(m);
    assert f != [] ==> f[|f| - 1] in DIGITS;
    DigitsRead(n, i, f);
  }
}
