/** UTF-8 sequences, and the escapes that stand for bytes outside of them. */
module Utf8 {
  type byte = b: int | 0 <= b < 256

  const BACKSLASH: byte := 92
  const LETTER_X: byte := 120

  /** The length of the sequence that a byte starts, or zero if it starts none. */
  function SequenceLength(b: byte): nat {
    if b < 0x80 then 1 else if 0xC0 <= b < 0xE0 then 2 else if 0xE0 <= b < 0xF0 then 3 else if 0xF0 <= b < 0xF8 then 4
      else 0
  }

  predicate IsTail(b: byte) {
    0x80 <= b < 0xC0
  }

  function HeadValue(b: byte): nat {
    if b < 0x80 then b else if b < 0xE0 then b % 32 else if b < 0xF0 then b % 16 else b % 8
  }

  /** The code point that a sequence of bytes stands for. */
  ghost function CodePoint(s: seq<byte>): nat {
    if s == [] then 0 else if |s| == 1 then HeadValue(s[0]) else CodePoint(s[..|s| - 1]) * 64 + s[|s| - 1] % 64
  }

  /** A part of a decoded text: a sequence that stands for a character, or a byte that has to be escaped. */
  datatype Piece = Char(bytes: seq<byte>) | Escape(invalid: byte)

  /** How many of the first `n` bytes are tail bytes in a row. */
  ghost function TailCount(s: seq<byte>, n: nat): (k: nat)
    ensures k <= n && k <= |s| && (forall i :: 0 <= i < k ==> IsTail(s[i]))
    ensures k < n ==> k == |s| || !IsTail(s[k])
  {
    if n == 0 || s == [] || !IsTail(s[0]) then 0 else 1 + TailCount(s[1..], n - 1)
  }

  ghost function Escapes(s: seq<byte>): (p: seq<Piece>)
    ensures |p| == |s|
  {
    seq(|s|, i requires 0 <= i < |s| => Escape(s[i]))
  }

  /** What bytes decode to: whole sequences become characters, all other bytes are escaped. */
  ghost function Pieces(s: seq<byte>): seq<Piece> {
    if s == [] then [] else
    var n := SequenceLength(s[0]);
    if n == 0 then [Escape(s[0])] + Pieces(s[1..]) else
    var k := TailCount(s[1..], n - 1);
    if k == n - 1 then [Char(s[..n])] + Pieces(s[n..])
    else Escapes(s[..1 + k]) + Pieces(s[1 + k..])
  }

  function HexDigit(v: int): (c: byte)
    requires 0 <= v < 16
    ensures IsHexDigit(c) && HexValue(c) == v
  {
    if v > 9 then 97 + v - 10 else 48 + v
  }

  predicate IsHexDigit(c: byte) {
    48 <= c <= 57 || 65 <= c <= 70 || 97 <= c <= 102
  }

  function HexValue(c: byte): (v: int)
    ensures IsHexDigit(c) ==> 0 <= v < 16
  {
    if 48 <= c <= 57 then c - 48 else if 65 <= c <= 90 then c + 32 + 10 - 97 else c + 10 - 97
  }

  /** The code points of an escape. */
  function EscapeUnits(b: byte): (u: seq<byte>)
    ensures |u| == 4
  {
    [BACKSLASH, LETTER_X, HexDigit(b / 16), HexDigit(b % 16)]
  }

  ghost function PieceUnits(p: Piece): seq<nat> {
    match p
    case Char(s) => [CodePoint(s)]
    case Escape(b) => EscapeUnits(b)
  }

  /** The code points of a decoded text. */
  ghost function Units(ps: seq<Piece>): seq<nat> {
    if ps == [] then [] else PieceUnits(ps[0]) + Units(ps[1..])
  }

  ghost function PieceBytes(p: Piece): seq<byte> {
    match p
    case Char(s) => s
    case Escape(b) => [b]
  }

  /** The bytes that pieces account for. */
  ghost function Bytes(ps: seq<Piece>): seq<byte> {
    if ps == [] then [] else PieceBytes(ps[0]) + Bytes(ps[1..])
  }

  lemma {:induction false} BytesConcat(a: seq<Piece>, b: seq<Piece>)
    ensures Bytes(a + b) == Bytes(a) + Bytes(b)
  {
    if a == [] {
      assert a + b == b;
    } else {
      assert (a + b)[1..] == a[1..] + b;
      BytesConcat(a[1..], b);
    }
  }

  lemma {:induction false} UnitsConcat(a: seq<Piece>, b: seq<Piece>)
    ensures Units(a + b) == Units(a) + Units(b)
  {
    if a == [] {
      assert a + b == b;
    } else {
      assert (a + b)[1..] == a[1..] + b;
      UnitsConcat(a[1..], b);
    }
  }

  lemma {:induction false} EscapesBytes(s: seq<byte>)
    ensures Bytes(Escapes(s)) == s
  {
    if s != [] {
      assert Escapes(s)[1..] == Escapes(s[1..]);
      EscapesBytes(s[1..]);
    }
  }

  /** The pieces at the front of a text are made of its first bytes. */
  lemma {:induction false} FirstPieces(s: seq<byte>) returns (ps: seq<Piece>, k: nat)
    requires s != []
    ensures 1 <= k <= |s| && Pieces(s) == ps + Pieces(s[k..]) && Bytes(ps) == s[..k]
    ensures forall i :: 0 < i < k ==> IsTail(s[i])
    ensures if ps == [Char(s[..k])] then SequenceLength(s[0]) == k
            else ps == Escapes(s[..k]) && SequenceLength(s[0]) != 1
  {
    var n := SequenceLength(s[0]);
    var tails := if n == 0 then 0 else TailCount(s[1..], n - 1);
    assert forall i :: 0 < i <= tails ==> s[i] == s[1..][i - 1];
    if n > 0 && tails == n - 1 {
      ps, k := [Char(s[..n])], n;
    } else {
      ps, k := Escapes(s[..1 + tails]), 1 + tails;
      EscapesBytes(s[..k]);
      assert n == 0 ==> ps == [Escape(s[0])];
    }
  }

  /** Decoding loses nothing: each byte is in exactly one piece, in order. */
  lemma {:induction false} NothingLost(s: seq<byte>)
    ensures Bytes(Pieces(s)) == s
    decreases |s|
  {
    if s != [] {
      var ps, k := FirstPieces(s);
      NothingLost(s[k..]);
      BytesConcat(ps, Pieces(s[k..]));
      assert s == s[..k] + s[k..];
    }
  }

  /** The bytes that are decoded: those before the first zero byte and the limit. */
  ghost function Effective(s: seq<byte>, size: nat): (e: seq<byte>)
    requires size <= |s|
    ensures |e| <= size && e == s[..|e|] && (forall i :: 0 <= i < |e| ==> e[i] != 0) && (|e| < size ==> s[|e|] == 0)
  {
    if size == 0 || s[0] == 0 then [] else [s[0]] + Effective(s[1..], size - 1)
  }

  /** A sequence that has started but is not complete: `n` is the length it should have. */
  ghost predicate Started(p: seq<byte>, n: nat) {
    p != [] && SequenceLength(p[0]) == n && |p| < n && forall i :: 0 < i < |p| ==> IsTail(p[i])
  }

  lemma {:induction false} TailCountIs(s: seq<byte>, n: nat, k: nat)
    requires k <= n && k <= |s| && (forall i :: 0 <= i < k ==> IsTail(s[i])) && (k < n ==> k == |s| || !IsTail(s[k]))
    ensures TailCount(s, n) == k
  {
    var r := TailCount(s, n);
    assert r < |s| && r < n ==> !IsTail(s[r]);
    assert k < |s| && k < n ==> !IsTail(s[k]);
  }

  /** The first piece of bytes that start with a complete sequence. */
  lemma {:induction false} WholeSequence(c: seq<byte>, rest: seq<byte>)
    requires c != [] && SequenceLength(c[0]) == |c| && forall i :: 0 < i < |c| ==> IsTail(c[i])
    ensures Pieces(c + rest) == [Char(c)] + Pieces(rest)
  {
    var s := c + rest;
    TailCountIs(s[1..], |c| - 1, |c| - 1);
    assert s[..|c|] == c && s[|c|..] == rest;
  }

  /** The first pieces of bytes that start with a sequence broken off. */
  lemma {:induction false} BrokenSequence(p: seq<byte>, n: nat, rest: seq<byte>)
    requires Started(p, n) && (rest == [] || !IsTail(rest[0]))
    ensures Pieces(p + rest) == Escapes(p) + Pieces(rest)
  {
    var s := p + rest;
    assert n >= 2;
    TailCountIs(s[1..], n - 1, |p| - 1);
    assert s[..|p|] == p && s[|p|..] == rest;
  }

  lemma {:induction false} InvalidByte(b: byte, rest: seq<byte>)
    requires SequenceLength(b) == 0
    ensures Pieces([b] + rest) == [Escape(b)] + Pieces(rest)
  {
    assert ([b] + rest)[1..] == rest;
  }

  /** A longer sequence has a larger code point range. */
  lemma {:induction false} CodePointRange(p: seq<byte>, n: nat)
    requires p != [] && SequenceLength(p[0]) == n && |p| <= n && forall i :: 0 < i < |p| ==> IsTail(p[i])
    ensures CodePoint(p) < if n == 1 then 0x80 else if n == 2 then (if |p| == 1 then 0x20 else 0x800)
      else if n == 3 then (if |p| == 1 then 0x10 else if |p| == 2 then 0x400 else 0x1_0000)
      else if |p| == 1 then 0x8 else if |p| == 2 then 0x200 else if |p| == 3 then 0x8000 else 0x20_0000
  {
    if |p| > 1 {
      CodePointRange(p[..|p| - 1], n);
    }
  }

  lemma {:induction false} CodePointStep(p: seq<byte>, b: byte)
    requires p != []
    ensures CodePoint(p + [b]) == CodePoint(p) * 64 + b % 64
  {
    assert (p + [b])[..|p|] == p;
  }

  /** What decoding has produced and what the bytes still to be decoded will produce. */
  ghost predicate Halfway(done: seq<nat>, rest: seq<byte>, all: seq<nat>) {
    done + Units(Pieces(rest)) == all
  }

  lemma {:induction false} HalfwayStep(done: seq<nat>, ps: seq<Piece>, s: seq<byte>, rest: seq<byte>, all: seq<nat>)
    requires Halfway(done, s, all) && Pieces(s) == ps + Pieces(rest)
    ensures Halfway(done + Units(ps), rest, all)
  {
    UnitsConcat(ps, Pieces(rest));
    assert done + (Units(ps) + Units(Pieces(rest))) == (done + Units(ps)) + Units(Pieces(rest));
  }
}
