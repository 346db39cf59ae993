/** Decoding bytes and turning the text back into bytes. */
module ByteRoundTrip {
  import opened Utf8
  import opened Encoder

  ghost function PieceText(p: Piece): seq<byte> {
    match p
    case Char(s) => Encode(CodePoint(s))
    case Escape(b) => EscapeUnits(b)
  }

  /** The encoded text of pieces, escapes included. */
  ghost function Text(ps: seq<Piece>): seq<byte> {
    if ps == [] then [] else PieceText(ps[0]) + Text(ps[1..])
  }

  lemma {:induction false} EncodeConcat(a: seq<nat>, b: seq<nat>)
    ensures EncodeAll(a + b) == EncodeAll(a) + EncodeAll(b)
  {
    if a == [] {
      assert a + b == b;
    } else {
      assert (a + b)[1..] == a[1..] + b;
      EncodeConcat(a[1..], b);
    }
  }

  lemma {:induction false} EncodeAscii(s: seq<byte>)
    requires forall i :: 0 <= i < |s| ==> s[i] < 0x80
    ensures EncodeAll(s) == s
  {
    if s != [] {
      EncodeAscii(s[1..]);
    }
  }

  lemma {:induction false} TextIsEncoded(ps: seq<Piece>)
    ensures EncodeAll(Units(ps)) == Text(ps)
  {
    if ps != [] {
      TextIsEncoded(ps[1..]);
      EncodeConcat(PieceUnits(ps[0]), Units(ps[1..]));
      match ps[0]
      case Char(s) =>
        assert [CodePoint(s)][1..] == [];
      case Escape(b) =>
        EncodeAscii(EscapeUnits(b));
    }
  }

  ghost predicate InRange(ps: seq<Piece>) {
    forall i :: 0 <= i < |ps| && ps[i].Char? ==> CodePoint(ps[i].bytes) <= 0x10FFFF
  }

  /** A text that starts with an ASCII character other than a backslash starts with a character piece. */
  lemma {:induction false} HeadPiece(ps: seq<Piece>, c: byte)
    requires AllProper(ps) && InRange(ps) && (Text(ps) + [0])[0] == c && 0 < c < 0x80 && c != 92
    ensures ps != [] && ps[0].Char? && CodePoint(ps[0].bytes) == c && Text(ps) == [c] + Text(ps[1..])
  {
    if ps != [] && ps[0].Char? {
      assert Text(ps) == PieceText(ps[0]) + Text(ps[1..]);
    }
  }

  /** A character piece at the front that is a byte of ASCII, and the pieces behind it. */
  ghost predicate AsciiPiece(ps: seq<Piece>, c: byte) {
    ps != [] && ps[0].Char? && CodePoint(ps[0].bytes) == c < 0x80 && Text(ps) == [c] + Text(ps[1..])
  }

  /** An escape in a text that starts with a character is made of characters. */
  lemma {:induction false} EscapeOfChars(ps: seq<Piece>)
    requires AllProper(ps) && InRange(ps) && ps != [] && ps[0].Char? && IsEscape(Text(ps) + [0])
    ensures |ps| >= 4 && Text(ps)[4..] == Text(ps[4..]) && CodePoint(ps[0].bytes) == 92
    ensures forall i :: 0 <= i < 4 ==> ps[i].Char? && CodePoint(ps[i].bytes) == Text(ps)[i] < 0x80
  {
    var t, p1 := Text(ps), ps[1..];
    assert t == PieceText(ps[0]) + Text(p1);
    assert AsciiPiece(ps, t[0]);
    HeadPiece(p1, t[1]);
    assert AsciiPiece(p1, t[1]) && p1[0] == ps[1] && p1[1..] == ps[2..];
    HeadPiece(ps[2..], t[2]);
    assert AsciiPiece(ps[2..], t[2]) && ps[2..][0] == ps[2] && ps[2..][1..] == ps[3..];
    HeadPiece(ps[3..], t[3]);
    assert AsciiPiece(ps[3..], t[3]) && ps[3..][0] == ps[3] && ps[3..][1..] == ps[4..];
    FourInARow(t, Text(ps[4..]));
  }

  lemma {:induction false} FourInARow(t: seq<byte>, rest: seq<byte>)
    requires |t| >= 4 && t == [t[0]] + ([t[1]] + ([t[2]] + ([t[3]] + rest)))
    ensures t[4..] == rest
  {
  }

  /** Bytes that start with an ASCII character start with a piece of that character. */
  lemma {:induction false} HeadByte(ps: seq<Piece>, c: byte)
    requires AllProper(ps) && Bytes(ps) != [] && Bytes(ps)[0] == c < 0x80
    ensures ps != [] && ps[0] == Char([c]) && Bytes(ps) == [c] + Bytes(ps[1..]) && Text(ps) == [c] + Text(ps[1..])
  {
    assert ps != [];
    assert Proper(ps[0]);
    assert Bytes(ps) == PieceBytes(ps[0]) + Bytes(ps[1..]);
    if ps[0].Char? {
      assert ps[0].bytes == [c];
    }
  }

  /** A backslash, an `x` and two hexadecimal digits in the bytes. */
  ghost predicate LiteralAt(e: seq<byte>, i: int) {
    0 <= i && i + 4 <= |e| && e[i] == 92 && e[i + 1] == 120 && IsHexDigit(e[i + 2]) && IsHexDigit(e[i + 3])
  }

  ghost predicate HasLiteral(e: seq<byte>) {
    exists i :: LiteralAt(e, i)
  }

  /** Bytes of ASCII in front are in front of the text too. */
  lemma {:induction false} AsciiFront(ps: seq<Piece>, n: nat)
    requires AllProper(ps) && n <= |Bytes(ps)| && forall i :: 0 <= i < n ==> Bytes(ps)[i] < 0x80
    ensures n <= |Text(ps)| && Text(ps)[..n] == Bytes(ps)[..n]
    decreases n
  {
    hide Bytes, Text, Proper;
    if n > 0 {
      var c := Bytes(ps)[0];
      HeadByte(ps, c);
      var b, t := Bytes(ps[1..]), Text(ps[1..]);
      assert forall i :: 0 <= i < n - 1 ==> b[i] == ([c] + b)[i + 1];
      assert forall i :: 0 <= i < |ps| - 1 ==> ps[1..][i] == ps[i + 1];
      AsciiFront(ps[1..], n - 1);
      assert ([c] + t)[..n] == [c] + t[..n - 1] == [c] + b[..n - 1] == ([c] + b)[..n];
    }
  }

  lemma {:induction false} LiteralIsEscape(ps: seq<Piece>)
    requires AllProper(ps) && LiteralAt(Bytes(ps), 0)
    ensures IsEscape(Text(ps) + [0])
  {
    hide Bytes, Text, Proper;
    var b, t := Bytes(ps), Text(ps);
    AsciiFront(ps, 4);
    assert forall i :: 0 <= i < 4 ==> t[i] == t[..4][i] == b[..4][i] == b[i];
  }

  ghost predicate AllWellFormed(ps: seq<Piece>) {
    forall i :: 0 <= i < |ps| ==> WellFormed(ps[i])
  }

  /** Without literals and with shortest sequences, what comes after the first piece has none either. */
  lemma {:induction false} LiteralLater(ps: seq<Piece>)
    requires ps != [] && HasLiteral(Bytes(ps[1..]))
    ensures HasLiteral(Bytes(ps))
  {
    var i :| LiteralAt(Bytes(ps[1..]), i);
    var n := |PieceBytes(ps[0])|;
    var b := Bytes(ps);
    assert b == PieceBytes(ps[0]) + Bytes(ps[1..]);
    assert LiteralAt(b, i + n);
  }

  /** The text of a piece other than an escape is passed over unless it starts an escape. */
  lemma {:induction false} PassText(c: seq<byte>, rest: seq<byte>)
    requires c != [] && (forall i :: 0 <= i < |c| ==> c[i] != 0)
    requires !IsEscape(c + rest) && forall i :: 0 < i < |c| ==> c[i] >= 0x80
    ensures Unescaped(c + rest) == c + Unescaped(rest)
  {
    var t := c + rest;
    forall i | 0 <= i < |c|
      ensures t[i] != 0 && !IsEscape(t[i..])
    {
      assert t[i..][0] == c[i];
      if i == 0 { assert t[0..] == t; }
    }
    PlainBytes(t, |c|);
    assert t[|c|..] == rest && t[..|c|] == c;
  }

  lemma {:induction false} UnescapeEscape(b: byte, rest: seq<byte>)
    requires rest != []
    ensures Unescaped(EscapeUnits(b) + rest) == [b] + Unescaped(rest)
  {
    var t := EscapeUnits(b) + rest;
    assert IsEscape(t) && t[4..] == rest;
  }

  lemma {:induction false} EncodedBytes(cp: nat)
    requires 0 < cp <= 0x10FFFF
    ensures Encode(cp) != [] && (forall i :: 0 <= i < |Encode(cp)| ==> Encode(cp)[i] != 0)
    ensures forall i :: 0 < i < |Encode(cp)| ==> Encode(cp)[i] >= 0x80
    ensures |Encode(cp)| > 1 ==> Encode(cp)[0] >= 0x80
  {
  }

  lemma {:induction false} NotZero(s: seq<byte>)
    requires Proper(Char(s)) && WellFormed(Char(s))
    ensures CodePoint(s) > 0
  {
    EncodeDecoded(s);
  }

  /** An escape made of well-formed characters was a literal in the bytes. */
  lemma {:induction false} EscapeWasLiteral(ps: seq<Piece>)
    requires AllProper(ps) && AllWellFormed(ps) && ps != [] && ps[0].Char?
    ensures IsEscape(Text(ps) + [0]) ==> LiteralAt(Bytes(ps), 0)
  {
    if IsEscape(Text(ps) + [0]) {
      EscapeOfChars(ps);
      var t := Text(ps);
      forall i | 0 <= i < 4
        ensures ps[i] == Char([t[i]])
      {
        EncodeDecoded(ps[i].bytes);
      }
      FourBytes(ps, t);
    }
  }

  lemma {:induction false} FourBytes(ps: seq<Piece>, t: seq<byte>)
    requires |ps| >= 4 && |t| >= 4 && forall i :: 0 <= i < 4 ==> ps[i] == Char([t[i]])
    ensures |Bytes(ps)| >= 4 && forall i :: 0 <= i < 4 ==> Bytes(ps)[i] == t[i]
  {
    assert Bytes(ps) == [t[0]] + Bytes(ps[1..]);
    assert Bytes(ps[1..]) == [t[1]] + Bytes(ps[1..][1..]) && ps[1..][1..] == ps[2..];
    assert Bytes(ps[2..]) == [t[2]] + Bytes(ps[2..][1..]) && ps[2..][1..] == ps[3..];
    assert Bytes(ps[3..]) == [t[3]] + Bytes(ps[3..][1..]);
  }

  /** The text of a character that starts no escape is passed over. */
  lemma {:induction false} PassChar(ps: seq<Piece>)
    requires ps != [] && ps[0].Char? && 0 < CodePoint(ps[0].bytes) <= 0x10FFFF && !IsEscape(Text(ps) + [0])
    ensures Unescaped(Text(ps) + [0]) == Encode(CodePoint(ps[0].bytes)) + Unescaped(Text(ps[1..]) + [0])
  {
    var c := Encode(CodePoint(ps[0].bytes));
    EncodedBytes(CodePoint(ps[0].bytes));
    assert Text(ps) + [0] == c + (Text(ps[1..]) + [0]);
    PassText(c, Text(ps[1..]) + [0]);
  }

  lemma {:induction false} PassEscape(ps: seq<Piece>)
    requires ps != [] && ps[0].Escape?
    ensures Unescaped(Text(ps) + [0]) == [ps[0].invalid] + Unescaped(Text(ps[1..]) + [0])
  {
    assert Text(ps) + [0] == EscapeUnits(ps[0].invalid) + (Text(ps[1..]) + [0]);
    UnescapeEscape(ps[0].invalid, Text(ps[1..]) + [0]);
  }

  /** Well-formed sequences and escaped bytes come back as they were, unless the bytes held a literal. */
  lemma {:induction false} Restored(ps: seq<Piece>)
    requires AllProper(ps) && AllWellFormed(ps) && !HasLiteral(Bytes(ps))
    ensures Unescaped(Text(ps) + [0]) == Bytes(ps) + [0]
  {
    if ps != [] {
      if HasLiteral(Bytes(ps[1..])) { LiteralLater(ps); }
      Restored(ps[1..]);
      assert Bytes(ps) + [0] == PieceBytes(ps[0]) + (Bytes(ps[1..]) + [0]);
      if ps[0].Escape? {
        PassEscape(ps);
      } else {
        NotZero(ps[0].bytes);
        EncodeDecoded(ps[0].bytes);
        EscapeWasLiteral(ps);
        assert !LiteralAt(Bytes(ps), 0);
        PassChar(ps);
      }
    }
  }

  /** Where a literal is if it is not at the start. */
  lemma {:induction false} LiteralAfter(ps: seq<Piece>)
    requires AllProper(ps) && ps != [] && HasLiteral(Bytes(ps)) && (ps[0].Char? ==> !IsEscape(Text(ps) + [0]))
    requires ps[0].Char? ==> WellFormed(ps[0])
    ensures HasLiteral(Bytes(ps[1..]))
  {
    hide HexValue, Unescaped, Encode, CodePoint, IsHexDigit;
    var b, n := Bytes(ps), |PieceBytes(ps[0])|;
    var i :| LiteralAt(b, i);
    assert b == PieceBytes(ps[0]) + Bytes(ps[1..]);
    assert Proper(ps[0]);
    if i == 0 {
      LiteralIsEscape(ps);
    }
    assert forall k :: 0 < k < n ==> b[k] == PieceBytes(ps[0])[k] >= 0x80;
    assert LiteralAt(Bytes(ps[1..]), i - n);
  }

  /** Something that a round trip cannot restore: a longer sequence than needed, or a literal. */
  ghost predicate Lossy(ps: seq<Piece>) {
    !AllWellFormed(ps) || HasLiteral(Bytes(ps))
  }

  lemma {:induction false} LossyLater(ps: seq<Piece>)
    requires AllProper(ps) && ps != [] && Lossy(ps) && WellFormed(ps[0]) && (ps[0].Char? ==> !IsEscape(Text(ps) + [0]))
    ensures Lossy(ps[1..])
  {
    if AllWellFormed(ps) {
      LiteralAfter(ps);
    } else {
      var i :| 0 <= i < |ps| && !WellFormed(ps[i]);
      assert !WellFormed(ps[1..][i - 1]);
    }
  }

  lemma {:induction false} ManyBytes(ps: seq<Piece>, n: nat)
    requires AllProper(ps) && n <= |ps|
    ensures |Bytes(ps)| >= n + |Bytes(ps[n..])|
  {
    if n > 0 {
      assert Proper(ps[0]);
      ManyBytes(ps[1..], n - 1);
      assert ps[1..][n - 1..] == ps[n..];
    }
  }

  lemma {:induction false} TakenForEscape(ps: seq<Piece>)
    requires AllProper(ps) && InRange(ps) && ps != [] && ps[0].Char? && IsEscape(Text(ps) + [0])
    ensures |ps| >= 4 && |Unescaped(Text(ps) + [0])| == 1 + |Unescaped(Text(ps[4..]) + [0])|
    ensures |Bytes(ps)| >= 4 + |Bytes(ps[4..])|
  {
    var t := Text(ps) + [0];
    EscapeOfChars(ps);
    ManyBytes(ps, 4);
    assert t[4..] == Text(ps)[4..] + [0];
  }

  /** The bytes that text without zeros turns into are not more than the decoded ones, and fewer if
      something cannot be restored. */
  lemma {:induction false} Shrinks(ps: seq<Piece>)
    requires AllProper(ps) && InRange(ps) && forall i :: 0 <= i < |ps| && ps[i].Char? ==> CodePoint(ps[i].bytes) > 0
    ensures |Unescaped(Text(ps) + [0])| <= |Bytes(ps)| + if Lossy(ps) then 0 else 1
  {
    if ps != [] {
      if ps[0].Char? && IsEscape(Text(ps) + [0]) {
        TakenForEscape(ps);
        Shrinks(ps[4..]);
      } else {
        Shrinks(ps[1..]);
        if Lossy(ps) && WellFormed(ps[0]) { LossyLater(ps); }
        if ps[0].Escape? {
          PassEscape(ps);
        } else {
          PassChar(ps);
          NotShorter(ps[0].bytes);
        }
      }
    } else {
      assert !Lossy(ps);
    }
  }

  /** A zero code point ends the search for escapes and stays inside of the bytes. */
  lemma {:induction false} ZeroAfterEscape(ps: seq<Piece>, z: nat)
    requires AllProper(ps) && InRange(ps) && z < |ps| && ps[z].Char? && CodePoint(ps[z].bytes) == 0
    requires ps[0].Char? && IsEscape(Text(ps) + [0])
    ensures z >= 4 && |ps| >= 4 && AllProper(ps[4..]) && InRange(ps[4..])
    ensures exists v :: Unescaped(Text(ps) + [0]) == [v] + Unescaped(Text(ps[4..]) + [0])
  {
    var t := Text(ps) + [0];
    EscapeOfChars(ps);
    assert t[4..] == Text(ps[4..]) + [0];
    assert forall i :: 0 <= i < 4 ==> t[i] == Text(ps)[i];
    assert z >= 4;
  }

  lemma {:induction false} ZeroInFront(ps: seq<Piece>)
    requires ps != [] && ps[0].Char? && CodePoint(ps[0].bytes) == 0
    ensures |Unescaped(Text(ps) + [0])| >= 2 && Unescaped(Text(ps) + [0])[0] == 0
  {
    assert Text(ps) == [0] + Text(ps[1..]);
  }

  lemma {:induction false} ZeroStays(ps: seq<Piece>, z: nat) returns (j: nat)
    requires AllProper(ps) && InRange(ps) && z < |ps| && ps[z].Char? && CodePoint(ps[z].bytes) == 0
    ensures j + 1 < |Unescaped(Text(ps) + [0])| && Unescaped(Text(ps) + [0])[j] == 0
  {
    hide Encode, EscapeUnits, HexValue, IsHexDigit;
    var t := Text(ps) + [0];
    if ps[0].Char? && CodePoint(ps[0].bytes) == 0 {
      ZeroInFront(ps);
      j := 0;
    } else if ps[0].Char? && IsEscape(t) {
      ZeroAfterEscape(ps, z);
      j := ZeroStays(ps[4..], z - 4);
      j := j + 1;
    } else {
      j := ZeroStays(ps[1..], z - 1);
      var u, front := Unescaped(Text(ps[1..]) + [0]), [];
      if ps[0].Escape? {
        PassEscape(ps);
        front := [ps[0].invalid];
      } else {
        PassChar(ps);
        front := Encode(CodePoint(ps[0].bytes));
      }
      assert Unescaped(t) == front + u;
      j := j + |front|;
    }
  }

  lemma {:induction false} UnitsInRange(ps: seq<Piece>)
    ensures InRange(ps) <==> forall i :: 0 <= i < |Units(ps)| ==> Units(ps)[i] <= 0x10FFFF
  {
    if ps != [] {
      var rest, u := ps[1..], PieceUnits(ps[0]);
      UnitsInRange(rest);
      assert Units(ps) == u + Units(rest);
      assert forall i :: 0 <= i < |Units(rest)| ==> Units(ps)[|u| + i] == Units(rest)[i];
      assert forall i :: 0 <= i < |rest| ==> rest[i] == ps[i + 1];
      assert Units(ps)[0] == u[0];
      if InRange(rest) && (ps[0].Char? ==> CodePoint(ps[0].bytes) <= 0x10FFFF) {
        assert forall i :: 0 < i < |ps| ==> ps[i] == rest[i - 1];
      }
    }
  }

  /** Bytes come back from a text as they were, with a zero byte at the end, exactly if each sequence that
      was decoded is the shortest one for a code point that UTF-8 encodes, and the bytes hold no literal
      that reads as an escape. */
  lemma {:induction false} RoundTrip(e: seq<byte>)
    requires forall i :: 0 <= i < |e| ==> e[i] != 0
    ensures BytesOf(Units(Pieces(e))) == Done(e + [0]) <==> AllWellFormed(Pieces(e)) && !HasLiteral(e)
  {
    var ps := Pieces(e);
    NothingLost(e);
    PiecesAreProper(e);
    UnitsInRange(ps);
    TextIsEncoded(ps);
    if !Lossy(ps) {
      assert forall i :: 0 <= i < |ps| && ps[i].Char? ==> WellFormed(ps[i]);
      Restored(ps);
    } else if InRange(ps) {
      if z :| 0 <= z < |ps| && ps[z].Char? && CodePoint(ps[z].bytes) == 0 {
        var j := ZeroStays(ps, z);
      } else {
        Shrinks(ps);
      }
    }
  }
}
