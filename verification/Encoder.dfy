/** From code points back to bytes: UTF-8 encoding and the removal of escapes. */
module Encoder {
  import opened Utf8

  /** The length of the encoding of a code point, or zero if it has none. */
  function EncodedLength(cp: nat): nat {
    if cp <= 0x7F then 1 else if cp <= 0x7FF then 2 else if cp <= 0xFFFF then 3 else if cp <= 0x10FFFF then 4 else 0
  }

  function Encode(cp: nat): (s: seq<byte>)
    ensures |s| == EncodedLength(cp)
  {
    if cp <= 0x7F then [cp]
    else if cp <= 0x7FF then [0xC0 + cp / 64, 0x80 + cp % 64]
    else if cp <= 0xFFFF then [0xE0 + cp / 4096, 0x80 + cp / 64 % 64, 0x80 + cp % 64]
    else if cp <= 0x10FFFF then [0xF0 + cp / 262144, 0x80 + cp / 4096 % 64, 0x80 + cp / 64 % 64, 0x80 + cp % 64]
    else []
  }

  function EncodeAll(u: seq<nat>): seq<byte> {
    if u == [] then [] else Encode(u[0]) + EncodeAll(u[1..])
  }

  /** Whether bytes start with a backslash, an `x` and two hexadecimal digits, with something behind. */
  predicate IsEscape(t: seq<byte>) {
    |t| >= 5 && t[0] == 92 && t[1] == 120 && IsHexDigit(t[2]) && IsHexDigit(t[3])
  }

  /** Bytes up to the first zero byte with the bytes that escapes stand for in their place. */
  ghost function Unescaped(t: seq<byte>): seq<byte> {
    if t == [] || t[0] == 0 then t
    else if IsEscape(t) then [HexValue(t[2]) * 16 + HexValue(t[3])] + Unescaped(t[4..])
    else [t[0]] + Unescaped(t[1..])
  }

  /** The first place from `from` on, but before a zero byte, with a backslash and an `x`; or -1,
      with the zero byte at `z`. */
  method FindMark(t: seq<byte>, from: nat) returns (k: int, ghost z: nat)
    requires from < |t| && t[|t| - 1] == 0
    ensures from <= z < |t| && (forall i :: from <= i < z ==> t[i] != 0 && !(t[i] == 92 && t[i + 1] == 120))
    ensures if k == -1 then t[z] == 0 else k == z < |t| - 1 && t[k] == 92 && t[k + 1] == 120
  {
    k := from;
    while t[k] != 0 && !(t[k] == 92 && t[k + 1] == 120)
      invariant from <= k < |t|
      invariant forall i :: from <= i < k ==> t[i] != 0 && !(t[i] == 92 && t[i + 1] == 120)
      decreases |t| - k
    {
      k := k + 1;
    }
    z := k;
    if t[k] == 0 {
      k := -1;
    }
  }

  /** Bytes none of which starts an escape stay. */
  lemma {:induction false} PlainByte(t: seq<byte>, n: nat)
    requires n < |t| && t[n] != 0 && !IsEscape(t[n..])
    ensures Unescaped(t[n..]) == [t[n]] + Unescaped(t[n + 1..])
  {
    assert t[n..][1..] == t[n + 1..];
  }

  lemma {:induction false} PlainBytes(t: seq<byte>, n: nat)
    requires n <= |t| && forall i :: 0 <= i < n ==> t[i] != 0 && !IsEscape(t[i..])
    ensures Unescaped(t) == t[..n] + Unescaped(t[n..])
  {
    if n == 0 {
      assert t[0..] == t;
    } else {
      var u := Unescaped(t[n..]);
      PlainBytes(t, n - 1);
      PlainByte(t, n - 1);
      assert t[..n - 1] + ([t[n - 1]] + u) == t[..n] + u;
    }
  }

  /** The bytes up to place `p` are done, the others still have to be searched for escapes. */
  ghost predicate Searched(bytes: seq<byte>, p: nat, all: seq<byte>) {
    p < |bytes| && bytes[|bytes| - 1] == 0 && bytes[..p] + Unescaped(bytes[p..]) == all
  }

  /** Bytes that start no escape are passed over. */
  lemma {:induction false} PassOver(bytes: seq<byte>, p: nat, q: nat, all: seq<byte>)
    requires Searched(bytes, p, all) && p <= q < |bytes|
    requires forall i :: p <= i < q ==> bytes[i] != 0 && !IsEscape(bytes[i..])
    ensures Searched(bytes, q, all)
    decreases q
  {
    if p < q {
      PassOver(bytes, p, q - 1, all);
      PlainByte(bytes, q - 1);
      var u := Unescaped(bytes[q..]);
      assert bytes[..q - 1] + ([bytes[q - 1]] + u) == bytes[..q] + u;
    }
  }

  /** The bytes of an escape are replaced by one. */
  lemma {:induction false} Replaced(bytes: seq<byte>, k: nat, v: byte, all: seq<byte>)
    requires Searched(bytes, k, all) && IsEscape(bytes[k..])
      && v == HexValue(bytes[k + 2]) * 16 + HexValue(bytes[k + 3])
    ensures Searched(bytes[..k] + [v] + bytes[k + 4..], k + 1, all)
  {
    var r := bytes[..k] + [v] + bytes[k + 4..];
    assert bytes[k..][4..] == bytes[k + 4..];
    assert r[..k + 1] == bytes[..k] + [v] && r[k + 1..] == bytes[k + 4..];
  }

  /** What starts with a backslash and an `x` is either an escape, which is replaced, or passed over. */
  method Mark(bytes0: seq<byte>, idx: nat, ghost all: seq<byte>) returns (bytes: seq<byte>, p: nat)
    requires Searched(bytes0, idx, all) && idx + 5 <= |bytes0| && bytes0[idx] == 92 && bytes0[idx + 1] == 120
    ensures Searched(bytes, p, all) && |bytes| - p < |bytes0| - idx
  {
    bytes := bytes0;
    if !IsHexDigit(bytes[idx + 2]) {
      PassOver(bytes, idx, idx + 2, all);
      p := idx + 2;
    } else if !IsHexDigit(bytes[idx + 3]) {
      PassOver(bytes, idx, idx + 3, all);
      p := idx + 3;
    } else {
      var v := HexValue(bytes[idx + 2]) * 16 + HexValue(bytes[idx + 3]);
      Replaced(bytes, idx, v, all);
      bytes := bytes[..idx] + [v] + bytes[idx + 4..];
      p := idx + 1;
    }
  }

  /** Replaces the escapes in bytes that end with a zero byte. */
  method Unescape(bytes0: seq<byte>) returns (bytes: seq<byte>)
    requires bytes0 != [] && bytes0[|bytes0| - 1] == 0
    ensures bytes == Unescaped(bytes0)
  {
    bytes := bytes0;
    ghost var all := Unescaped(bytes0);
    var p: nat := 0;
    assert bytes[0..] == bytes;
    while true
      invariant Searched(bytes, p, all)
      decreases |bytes| - p
    {
      var idx;
      ghost var z;
      idx, z := FindMark(bytes, p);
      PassOver(bytes, p, z, all);
      if idx == -1 || idx > |bytes| - 5 {
        Finished(bytes, z, all);
        break;
      }
      bytes, p := Mark(bytes, idx, all);
    }
  }

  datatype Outcome = Done(bytes: seq<byte>) | OutOfRange

  /** What a text becomes in bytes; a code point without an encoding is an error. */
  ghost function BytesOf(u: seq<nat>): Outcome {
    if forall i :: 0 <= i < |u| ==> u[i] <= 0x10FFFF then Done(Unescaped(EncodeAll(u) + [0])) else OutOfRange
  }

  method StringToBytes(u: seq<nat>) returns (r: Outcome)
    ensures r == BytesOf(u)
  {
    for i := 0 to |u|
      invariant forall j :: 0 <= j < i ==> u[j] <= 0x10FFFF
    {
      if EncodedLength(u[i]) == 0 {
        return OutOfRange;
      }
    }
    var bytes := Unescape(EncodeAll(u) + [0]);
    r := Done(bytes);
  }

  /** Nothing more is replaced in front of a zero byte or of too few bytes for an escape. */
  lemma {:induction false} Finished(bytes: seq<byte>, z: nat, all: seq<byte>)
    requires Searched(bytes, z, all) && (bytes[z] == 0 || z > |bytes| - 5)
    ensures bytes == all
  {
    if bytes[z] != 0 {
      FewBytes(bytes[z..]);
    }
    assert bytes == bytes[..z] + bytes[z..];
  }

  lemma {:induction false} FewBytes(t: seq<byte>)
    requires |t| < 5
    ensures Unescaped(t) == t
  {
    if t != [] {
      FewBytes(t[1..]);
      assert t == [t[0]] + t[1..];
    }
  }

  /** A piece that decoding can produce. */
  ghost predicate Proper(p: Piece) {
    match p
    case Char(s) => s != [] && SequenceLength(s[0]) == |s| && s[0] != 0 && forall i :: 0 < i < |s| ==> IsTail(s[i])
    case Escape(b) => b >= 0x80
  }

  ghost predicate AllProper(ps: seq<Piece>) {
    forall i :: 0 <= i < |ps| ==> Proper(ps[i])
  }

  lemma {:induction false} PiecesAreProper(s: seq<byte>)
    requires forall i :: 0 <= i < |s| ==> s[i] != 0
    ensures AllProper(Pieces(s))
    decreases |s|
  {
    if s != [] {
      var ps, k := FirstPieces(s);
      assert forall i :: 0 <= i < |ps| ==> Proper(ps[i]);
      PiecesAreProper(s[k..]);
    }
  }

  /** A sequence that is the shortest one for its code point, which is in range. */
  ghost predicate WellFormed(p: Piece) {
    p.Char? ==> CodePoint(p.bytes) <= 0x10FFFF && EncodedLength(CodePoint(p.bytes)) == |p.bytes|
  }

  lemma {:induction false} CodePointOf(s: seq<byte>)
    requires 1 <= |s| <= 4
    ensures |s| == 1 ==> CodePoint(s) == HeadValue(s[0])
    ensures |s| == 2 ==> CodePoint(s) == HeadValue(s[0]) * 64 + s[1] % 64
    ensures |s| == 3 ==> CodePoint(s) == (HeadValue(s[0]) * 64 + s[1] % 64) * 64 + s[2] % 64
    ensures |s| == 4 ==> CodePoint(s) == ((HeadValue(s[0]) * 64 + s[1] % 64) * 64 + s[2] % 64) * 64 + s[3] % 64
  {
    if |s| > 1 {
      CodePointOf(s[..|s| - 1]);
    }
  }

  lemma Sixes(a: int, b: int, c: int, d: int)
    requires 0 <= a && 0 <= b < 64 && 0 <= c < 64 && 0 <= d < 64
    ensures var x := ((a * 64 + b) * 64 + c) * 64 + d;
      x % 64 == d && x / 64 % 64 == c && x / 4096 % 64 == b && x / 262144 == a
  {
    var x := ((a * 64 + b) * 64 + c) * 64 + d;
    assert x / 64 == (a * 64 + b) * 64 + c;
    assert x / 4096 == a * 64 + b;
  }

  lemma TailBytes(b: byte)
    requires IsTail(b)
    ensures b == 0x80 + b % 64
  {
  }

  lemma HeadBytes(b: byte)
    requires SequenceLength(b) != 0
    ensures b == HeadValue(b) + if b < 0x80 then 0 else if b < 0xE0 then 0xC0 else if b < 0xF0 then 0xE0 else 0xF0
  {
  }

  /** Encoding the code point of a well-formed sequence gives back the sequence. */
  lemma {:induction false} EncodeTwo(s: seq<byte>)
    requires Proper(Char(s)) && WellFormed(Char(s)) && |s| == 2
    ensures Encode(CodePoint(s)) == s
  {
    CodePointOf(s);
    HeadBytes(s[0]);
    TailBytes(s[1]);
    Sixes(0, 0, HeadValue(s[0]), s[1] % 64);
  }

  lemma {:induction false} EncodeThree(s: seq<byte>)
    requires Proper(Char(s)) && WellFormed(Char(s)) && |s| == 3
    ensures Encode(CodePoint(s)) == s
  {
    CodePointOf(s);
    HeadBytes(s[0]);
    TailBytes(s[1]);
    TailBytes(s[2]);
    Sixes(0, HeadValue(s[0]), s[1] % 64, s[2] % 64);
  }

  lemma {:induction false} EncodeFour(s: seq<byte>)
    requires Proper(Char(s)) && WellFormed(Char(s)) && |s| == 4
    ensures Encode(CodePoint(s)) == s
  {
    CodePointOf(s);
    HeadBytes(s[0]);
    TailBytes(s[1]);
    TailBytes(s[2]);
    TailBytes(s[3]);
    Sixes(HeadValue(s[0]), s[1] % 64, s[2] % 64, s[3] % 64);
  }

  lemma {:induction false} EncodeDecoded(s: seq<byte>)
    requires Proper(Char(s)) && WellFormed(Char(s))
    ensures Encode(CodePoint(s)) == s
  {
    if |s| == 2 {
      EncodeTwo(s);
    } else if |s| == 3 {
      EncodeThree(s);
    } else if |s| == 4 {
      EncodeFour(s);
    } else {
      CodePointOf(s);
      HeadBytes(s[0]);
    }
  }

  /** No sequence is shorter than the encoding of its code point. */
  lemma {:induction false} NotShorter(s: seq<byte>)
    requires Proper(Char(s))
    ensures EncodedLength(CodePoint(s)) <= |s|
  {
    CodePointRange(s, |s|);
  }
}
