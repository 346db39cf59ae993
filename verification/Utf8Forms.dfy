/** Decoding, encoding and escapes told byte by byte. */
module Utf8Forms {
  import opened Utf8
  import opened Encoder

  const UPPER_DIGITS := "0123456789ABCDEF"
  const LOWER_DIGITS := "0123456789abcdef"

  /** Whether a byte is the digit `v`, in either spelling. */
  ghost predicate Spelled(c: byte, v: int) {
    0 <= v < 16 && (c == UPPER_DIGITS[v] as int || c == LOWER_DIGITS[v] as int)
  }

  /** The value of a hexadecimal digit is its place in either table. */
  lemma {:induction false} DigitOfTable(v: int)
    requires 0 <= v < 16
    ensures HexValue(UPPER_DIGITS[v] as int) == v && HexValue(LOWER_DIGITS[v] as int) == v
    ensures HexDigit(v) == LOWER_DIGITS[v] as int
    ensures forall c :: Spelled(c, v) ==> IsHexDigit(c) && HexValue(c) == v
  {
  }

  /** Exactly the characters in the tables are hexadecimal digits. */
  lemma {:induction false} DigitInTable(c: byte)
    ensures IsHexDigit(c) <==> Spelled(c, HexValue(c))
  {
  }

  /** Whether a byte goes on with a sequence. */
  ghost predicate Follows(b: byte) {
    0x80 <= b < 0xC0
  }

  /** The code points of the escape of a byte. */
  ghost function Escaped(b: byte): seq<nat> {
    ['\\' as int, 'x' as int, LOWER_DIGITS[b / 16] as int, LOWER_DIGITS[b % 16] as int]
  }

  /** The text that bytes stand for: a byte of ASCII or a whole sequence is one code point, and a byte that starts
      neither is escaped. */
  ghost function Reference(s: seq<byte>): seq<nat>
    decreases |s|
  {
    if s == [] then []
    else if s[0] < 0x80 then [s[0] as nat] + Reference(s[1..])
    else if 0xC0 <= s[0] < 0xE0 && |s| >= 2 && Follows(s[1]) then
      [(s[0] as int - 0xC0) * 0x40 + (s[1] as int - 0x80)] + Reference(s[2..])
    else if 0xE0 <= s[0] < 0xF0 && |s| >= 3 && Follows(s[1]) && Follows(s[2]) then
      [(s[0] as int - 0xE0) * 0x1000 + (s[1] as int - 0x80) * 0x40 + (s[2] as int - 0x80)] + Reference(s[3..])
    else if 0xF0 <= s[0] < 0xF8 && |s| >= 4 && Follows(s[1]) && Follows(s[2]) && Follows(s[3]) then
      [(s[0] as int - 0xF0) * 0x4_0000 + (s[1] as int - 0x80) * 0x1000 + (s[2] as int - 0x80) * 0x40
        + (s[3] as int - 0x80)] + Reference(s[4..])
    else
      Escaped(s[0]) + Reference(s[1..])
  }

  lemma {:induction false} EscapedUnits(b: byte)
    ensures PieceUnits(Escape(b)) == Escaped(b)
  {
    DigitOfTable(b / 16);
    DigitOfTable(b % 16);
  }

  lemma {:induction false} CodePointForm(c: seq<byte>)
    requires c != [] && SequenceLength(c[0]) == |c| && forall i :: 0 < i < |c| ==> IsTail(c[i])
    ensures |c| == 1 ==> CodePoint(c) == c[0]
    ensures |c| == 2 ==> CodePoint(c) == (c[0] as int - 0xC0) * 0x40 + (c[1] as int - 0x80)
    ensures |c| == 3 ==>
      CodePoint(c) == (c[0] as int - 0xE0) * 0x1000 + (c[1] as int - 0x80) * 0x40 + (c[2] as int - 0x80)
    ensures |c| == 4 ==>
      CodePoint(c) == (c[0] as int - 0xF0) * 0x4_0000 + (c[1] as int - 0x80) * 0x1000 + (c[2] as int - 0x80) * 0x40
                      + (c[3] as int - 0x80)
  {
    hide CodePoint;
    CodePointOf(c);
    HeadBytes(c[0]);
    if |c| >= 2 { TailBytes(c[1]); }
    if |c| >= 3 { TailBytes(c[2]); }
    if |c| >= 4 { TailBytes(c[3]); }
  }

  /** The code point of a whole sequence in front. */
  lemma {:induction false} SequenceUnit(s: seq<byte>, k: nat)
    requires 1 <= k <= |s| && SequenceLength(s[0]) == k && forall i :: 0 < i < k ==> IsTail(s[i])
    ensures Reference(s) == [CodePoint(s[..k])] + Reference(s[k..])
  {
    hide CodePoint;
    CodePointForm(s[..k]);
  }

  /** Bytes that go on with a sequence are escaped one by one where none has started. */
  lemma {:induction false} TailsEscaped(s: seq<byte>, k: nat)
    requires k <= |s| && forall i :: 0 <= i < k ==> IsTail(s[i])
    ensures Reference(s) == Units(Escapes(s[..k])) + Reference(s[k..])
    decreases k
  {
    hide Reference, Escaped;
    if k == 0 {
      assert s[0..] == s;
    } else {
      FirstEscape(s, k);
      TailInFront(s);
      TailsEscaped(s[1..], k - 1);
    }
  }

  lemma TailInFront(s: seq<byte>)
    requires s != [] && IsTail(s[0])
    ensures Reference(s) == Escaped(s[0]) + Reference(s[1..])
  {
  }

  lemma {:induction false} FirstEscape(s: seq<byte>, k: nat)
    requires 1 <= k <= |s|
    ensures Units(Escapes(s[..k])) == Escaped(s[0]) + Units(Escapes(s[1..][..k - 1])) && s[1..][k - 1..] == s[k..]
  {
    assert Escapes(s[..k])[1..] == Escapes(s[1..][..k - 1]);
    EscapedUnits(s[0]);
  }

  /** A byte in front that starts no whole sequence, and the tails behind it, are escaped. */
  lemma {:induction false} BrokenUnits(s: seq<byte>, k: nat)
    requires 1 <= k <= |s| && SequenceLength(s[0]) != 1 && forall i :: 0 < i < k ==> IsTail(s[i])
    requires SequenceLength(s[0]) == 0 ==> k == 1
    requires SequenceLength(s[0]) > 1 ==> k < SequenceLength(s[0]) && (k == |s| || !IsTail(s[k]))
    ensures Reference(s) == Units(Escapes(s[..k])) + Reference(s[k..])
  {
    hide Reference, Escaped;
    FirstEscape(s, k);
    HeadEscaped(s, k);
    assert forall i :: 0 <= i < k - 1 ==> s[1..][i] == s[i + 1];
    TailsEscaped(s[1..], k - 1);
  }

  lemma HeadEscaped(s: seq<byte>, k: nat)
    requires 1 <= k <= |s| && SequenceLength(s[0]) != 1
    requires SequenceLength(s[0]) > 1 ==> k < SequenceLength(s[0]) && (k == |s| || !IsTail(s[k]))
    ensures Reference(s) == Escaped(s[0]) + Reference(s[1..])
  {
  }

  lemma {:induction false} BrokenOff(s: seq<byte>, k: nat)
    requires s != [] && SequenceLength(s[0]) > 1 && k == 1 + TailCount(s[1..], SequenceLength(s[0]) - 1)
    ensures k <= |s| && (forall i :: 0 < i < k ==> IsTail(s[i]))
    ensures k < SequenceLength(s[0]) ==> k == |s| || !IsTail(s[k])
  {
    assert forall i :: 0 < i < k ==> s[i] == s[1..][i - 1];
    assert k < |s| ==> s[k] == s[1..][k - 1];
  }

  /** What bytes decode to is the text they stand for. */
  lemma {:induction false} DecodingIsReference(s: seq<byte>)
    ensures Units(Pieces(s)) == Reference(s)
    decreases |s|
  {
    hide Reference;
    if s != [] {
      var n := SequenceLength(s[0]);
      if n == 0 {
        BrokenUnits(s, 1);
        assert Escapes(s[..1]) == [Escape(s[0])];
        DecodingIsReference(s[1..]);
        Front([Escape(s[0])], s[1..]);
      } else {
        var k := 1 + TailCount(s[1..], n - 1);
        if n > 1 { BrokenOff(s, k); }
        if k == n {
          SequenceUnit(s, k);
          OneUnit(s[..k]);
          DecodingIsReference(s[k..]);
          Front([Char(s[..k])], s[k..]);
        } else {
          BrokenUnits(s, k);
          DecodingIsReference(s[k..]);
          Front(Escapes(s[..k]), s[k..]);
        }
      }
    } else {
      NothingDecoded();
    }
  }

  lemma NothingDecoded()
    ensures Reference([]) == []
  {
  }

  lemma OneUnit(c: seq<byte>)
    ensures Units([Char(c)]) == [CodePoint(c)]
  {
    assert [Char(c)][1..] == [];
  }

  lemma {:induction false} Front(ps: seq<Piece>, rest: seq<byte>)
    ensures Units(ps + Pieces(rest)) == Units(ps) + Units(Pieces(rest))
  {
    UnitsConcat(ps, Pieces(rest));
  }

  /** An escape is replaced by the byte that its digits spell, in capital or small letters, if anything is behind it. */
  lemma {:induction false} EscapeReplaced(b: byte, hi: byte, lo: byte, rest: seq<byte>)
    requires Spelled(hi, b / 16) && Spelled(lo, b % 16)
    ensures rest != [] ==> Unescaped([92, 120, hi, lo] + rest) == [b] + Unescaped(rest)
    ensures rest == [] ==> Unescaped([92, 120, hi, lo] + rest) == [92, 120, hi, lo]
  {
    hide HexValue, IsHexDigit, Spelled;
    var t := [92, 120, hi, lo] + rest;
    DigitOfTable(b / 16);
    DigitOfTable(b % 16);
    assert t[4..] == rest;
    if rest == [] {
      FewBytes(t);
    } else {
      UnescapedInFront(t, b);
    }
  }

  lemma UnescapedInFront(t: seq<byte>, b: byte)
    requires IsEscape(t) && b == HexValue(t[2]) * 16 + HexValue(t[3])
    ensures Unescaped(t) == [b] + Unescaped(t[4..])
  {
  }

  /** Any other byte stays, and nothing behind a zero byte changes. */
  lemma {:induction false} OtherByteStays(b: byte, rest: seq<byte>)
    ensures b == 0 ==> Unescaped([b] + rest) == [b] + rest
    ensures b != 0 && b != 92 ==> Unescaped([b] + rest) == [b] + Unescaped(rest)
    ensures |rest| < 4 || rest[0] != 120 || (forall v :: !Spelled(rest[1], v)) || (forall v :: !Spelled(rest[2], v)) ==>
      Unescaped([b] + rest) == [b] + (if b == 0 then rest else Unescaped(rest))
  {
    hide Spelled, IsHexDigit;
    var t := [b] + rest;
    assert t[1..] == rest;
    if |rest| >= 4 {
      DigitInTable(rest[1]);
      DigitInTable(rest[2]);
    }
  }

  lemma SplitInSixes(x: nat)
    ensures x == (x / 64) * 64 + x % 64 && x == ((x / 4096) * 64 + x / 64 % 64) * 64 + x % 64
    ensures x == ((x / 262144 * 64 + x / 4096 % 64) * 64 + x / 64 % 64) * 64 + x % 64
  {
    assert x / 4096 == (x / 64) / 64;
    assert x / 262144 == (x / 4096) / 64;
  }

  lemma {:induction false} EncodedTwo(cp: nat, s: seq<byte>)
    requires 0x80 <= cp < 0x800 && s == [0xC0 + cp / 64, 0x80 + cp % 64]
    ensures SequenceLength(s[0]) == 2 && IsTail(s[1]) && CodePoint(s) == cp
  {
    hide CodePoint;
    SplitInSixes(cp);
    CodePointForm(s);
  }

  lemma {:induction false} EncodedThree(cp: nat, s: seq<byte>)
    requires 0x800 <= cp < 0x1_0000 && s == [0xE0 + cp / 4096, 0x80 + cp / 64 % 64, 0x80 + cp % 64]
    ensures SequenceLength(s[0]) == 3 && IsTail(s[1]) && IsTail(s[2]) && CodePoint(s) == cp
  {
    hide CodePoint;
    SplitInSixes(cp);
    CodePointForm(s);
  }

  lemma {:induction false} EncodedFour(cp: nat, s: seq<byte>)
    requires 0x1_0000 <= cp < 0x11_0000
      && s == [0xF0 + cp / 262144, 0x80 + cp / 4096 % 64, 0x80 + cp / 64 % 64, 0x80 + cp % 64]
    ensures SequenceLength(s[0]) == 4 && IsTail(s[1]) && IsTail(s[2]) && IsTail(s[3]) && CodePoint(s) == cp
  {
    hide CodePoint;
    SplitInSixes(cp);
    CodePointForm(s);
  }

  lemma {:induction false} EncodedSequence(cp: nat, s: seq<byte>)
    requires 0x80 <= cp < 0x11_0000 && s == Encode(cp)
    ensures s != [] && SequenceLength(s[0]) == |s| && (forall i :: 0 < i < |s| ==> IsTail(s[i])) && CodePoint(s) == cp
  {
    hide CodePoint, SequenceLength, IsTail;
    if cp < 0x800 {
      EncodedTwo(cp, s);
    } else if cp < 0x1_0000 {
      EncodedThree(cp, s);
    } else {
      EncodedFour(cp, s);
    }
  }

  /** The encoding of a code point is a sequence of the length that its range asks for and decodes to it; there is none
      beyond the last code point. */
  lemma {:induction false} EncodedForm(cp: nat)
    ensures cp < 0x80 ==> Encode(cp) == [cp]
    ensures 0x80 <= cp < 0x800 ==> |Encode(cp)| == 2 && Reference(Encode(cp)) == [cp]
    ensures 0x800 <= cp < 0x1_0000 ==> |Encode(cp)| == 3 && Reference(Encode(cp)) == [cp]
    ensures 0x1_0000 <= cp < 0x11_0000 ==> |Encode(cp)| == 4 && Reference(Encode(cp)) == [cp]
    ensures cp >= 0x11_0000 ==> Encode(cp) == []
  {
    if 0x80 <= cp < 0x11_0000 {
      OneSequence(cp, Encode(cp));
    }
  }

  lemma {:induction false} OneSequence(cp: nat, s: seq<byte>)
    requires 0x80 <= cp < 0x11_0000 && s == Encode(cp)
    ensures Reference(s) == [cp]
  {
    hide Encode, Reference, CodePoint;
    EncodedSequence(cp, s);
    SequenceUnit(s, |s|);
    NothingDecoded();
    assert s[..|s|] == s && s[|s|..] == [];
  }
}
