/** The permissive decoder: code points in a buffer whose code units widen as needed. */
module Decoder {
  import opened Utf8
  import Utf8Forms
  import opened Chunks

  predicate IsRank(rank: int) {
    rank == 1 || rank == 2 || rank == 4
  }

  /** One more than the largest value that a code unit of `rank` bytes holds. */
  function UnitRange(rank: int): int {
    if rank == 1 then 0x100 else if rank == 2 then 0x1_0000 else 0x1_0000_0000
  }

  /** The buffer holds the units from `lo` to `hi` in `rank` bytes each, in ascending order of significance. */
  ghost predicate Stores(data: array<int>, rank: int, u: seq<nat>, lo: int, hi: int)
    reads data
  {
    && IsRank(rank) && 0 <= lo <= hi <= |u|
    && forall j {:trigger u[j]} :: lo <= j < hi ==> UnitStored(data, rank, j, u[j])
  }

  ghost predicate UnitStored(data: array<int>, rank: int, j: int, v: nat)
    reads data
    requires 0 <= j
  {
    && v < UnitRange(rank)
    && (rank == 1 ==> j < data.Length && data[j] == v)
    && (rank == 2 ==> 2 * j + 1 < data.Length && data[2 * j] == v % 256 && data[2 * j + 1] == v / 256)
    && (rank == 4 ==>
          && 4 * j + 3 < data.Length && data[4 * j] == v % 256 && data[4 * j + 1] == v / 256 % 256
          && data[4 * j + 2] == v / 65536 % 256 && data[4 * j + 3] == v / 16777216)
  }

  /** Widens the code units in place, the last one first. */
  method WidenOneToTwo(data: array<int>, count: nat, ghost u: seq<nat>)
    requires Stores(data, 1, u, 0, count) && count * 2 <= data.Length
    modifies data
    ensures Stores(data, 2, u, 0, count)
  {
    for i := count downto 0
      invariant Stores(data, 1, u, 0, i) && Stores(data, 2, u, i, count)
    {
      var v := data[i];
      assert v == u[i];
      data[2 * i], data[2 * i + 1] := v % 256, v / 256;
    }
  }

  method WidenOneToFour(data: array<int>, count: nat, ghost u: seq<nat>)
    requires Stores(data, 1, u, 0, count) && count * 4 <= data.Length
    modifies data
    ensures Stores(data, 4, u, 0, count)
  {
    for i := count downto 0
      invariant Stores(data, 1, u, 0, i) && Stores(data, 4, u, i, count)
    {
      var v := data[i];
      assert v == u[i];
      data[4 * i], data[4 * i + 1], data[4 * i + 2], data[4 * i + 3] := v % 256, v / 256 % 256, v / 65536 % 256,
        v / 16777216;
    }
  }

  method WidenTwoToFour(data: array<int>, count: nat, ghost u: seq<nat>)
    requires Stores(data, 2, u, 0, count) && count * 4 <= data.Length
    modifies data
    ensures Stores(data, 4, u, 0, count)
  {
    for i := count downto 0
      invariant Stores(data, 2, u, 0, i) && Stores(data, 4, u, i, count)
    {
      assert UnitStored(data, 2, i, u[i]);
      var v := data[2 * i] + 256 * data[2 * i + 1];
      data[4 * i], data[4 * i + 1], data[4 * i + 2], data[4 * i + 3] := v % 256, v / 256 % 256, v / 65536 % 256,
        v / 16777216;
    }
  }

  method StoreUnit(data: array<int>, rank: int, i: nat, v: nat, ghost u: seq<nat>)
    requires Stores(data, rank, u, 0, i) && |u| == i && (i + 1) * rank <= data.Length && v < UnitRange(rank)
    modifies data
    ensures Stores(data, rank, u + [v], 0, i + 1)
  {
    if rank == 1 {
      data[i] := v;
    } else if rank == 2 {
      data[2 * i], data[2 * i + 1] := v % 256, v / 256;
    } else {
      data[4 * i], data[4 * i + 1], data[4 * i + 2], data[4 * i + 3] := v % 256, v / 256 % 256, v / 65536 % 256,
        v / 16777216;
    }
  }

  /** The variables of the decoder while a sequence of which it has seen `p` is incomplete. */
  ghost predicate Pending(p: seq<byte>, charBytesLeft: nat, charBytesExpected: nat, tryRank: nat, cp: nat) {
    && Started(p, charBytesExpected) && charBytesLeft == charBytesExpected - |p|
    && tryRank == charBytesExpected - 2 <= 2 && cp == CodePoint(p)
  }

  /** The decoder has produced `u` and seen `p` of an incomplete sequence, with `rest` still to come. */
  ghost predicate DecodeState(u: seq<nat>, p: seq<byte>, rest: seq<byte>, left: nat, expected: nat, tryRank: nat,
                              cp: nat, all: seq<nat>) {
    if left == 0 then p == [] && Halfway(u, rest, all)
    else Pending(p, left, expected, tryRank, cp) && Halfway(u, p + rest, all)
  }

  lemma {:induction false} NextEscape(done: seq<nat>, bytes: seq<byte>, i: nat)
    requires i < |bytes|
    ensures done + Units(Escapes(bytes[i..])) == (done + PieceUnits(Escape(bytes[i]))) + Units(Escapes(bytes[i + 1..]))
  {
    assert Escapes(bytes[i..])[1..] == Escapes(bytes[i + 1..]);
  }

  lemma {:induction false} UnitsOfOne(p: Piece)
    ensures Units([p]) == PieceUnits(p)
  {
    assert Units([p]) == PieceUnits(p) + Units([p][1..]);
  }

  /** The head of a longer sequence. */
  lemma {:induction false} HeadStarts(head: byte)
    ensures 0xC0 <= head < 0xE0 ==> Pending([head], 1, 2, 0, head % 32)
    ensures 0xE0 <= head < 0xF0 ==> Pending([head], 2, 3, 1, head % 16)
    ensures 0xF0 <= head < 0xF8 ==> Pending([head], 3, 4, 2, head % 8)
  {
  }

  /** How many bytes of an unfinished sequence were seen. */
  function BacktrackSize(left: nat, expected: nat): int {
    if left > 0 then expected - left else 0
  }

  /** The bytes up to `k` are decoded, but for those of an unfinished sequence. */
  ghost predicate DecodedTo(u: seq<nat>, bytes: seq<byte>, e: seq<byte>, k: nat, left: nat, expected: nat,
                            tryRank: nat, cp: nat,
                            all: seq<nat>) {
    var n := BacktrackSize(left, expected);
    && k <= |e| <= |bytes| && e == bytes[..|e|] && 0 <= n <= k
    && DecodeState(u, bytes[k - n..k], e[k..], left, expected, tryRank, cp, all)
  }

  lemma {:induction false} Undecoded(u: seq<nat>, bytes: seq<byte>, e: seq<byte>, all: seq<nat>)
    requires |e| <= |bytes| && e == bytes[..|e|] && all == u + Units(Pieces(e))
    ensures DecodedTo(u, bytes, e, 0, 0, 0, 0, 0, all)
  {
    assert e[0..] == e;
  }

  /** The loop goes on exactly up to the end of what is to be decoded. */
  lemma {:induction false} BeforeEnd(bytes: seq<byte>, size: nat, k: nat)
    requires size <= |bytes| && k <= |Effective(bytes, size)|
    ensures k < |Effective(bytes, size)| <==> k < size && bytes[k] != 0
  {
  }

  lemma {:induction false} DecodedOn(u: seq<nat>, bytes: seq<byte>, e: seq<byte>, k: nat, n: nat, taken: bool,
                                     left: nat, expected: nat,
                                     tryRank: nat, cp: nat, p: seq<byte>, all: seq<nat>)
    requires n <= k < |e| <= |bytes| && e == bytes[..|e|] && (!taken ==> left == 0 && p == [])
    requires taken ==> p == if left == 0 then [] else bytes[k - n..k] + [bytes[k]]
    requires DecodeState(u, p, if taken then e[k + 1..] else [bytes[k]] + e[k + 1..], left, expected, tryRank, cp, all)
    ensures DecodedTo(u, bytes, e, if taken then k + 1 else k, left, expected, tryRank, cp, all)
  {
    NextByte(bytes, e, k, n);
    if taken {
      assert left > 0 ==> bytes[k + 1 - |p|..k + 1] == p;
    } else {
      assert bytes[k..k] == p;
    }
  }

  class Utf8Decoder {
    var buffer: array<int>
    var characterCount: nat
    var rank: int
    ghost var units: seq<nat>

    ghost predicate Valid()
      reads this, buffer
    {
      |units| == characterCount && Stores(buffer, rank, units, 0, characterCount)
    }

    constructor ()
      ensures Valid() && units == [] && fresh(buffer)
    {
      buffer := new int[0];
      characterCount, rank, units := 0, 1, [];
    }

    /** Appends a code unit; code units that are too narrow are widened first. */
    method PushBack(character: nat, newRank0: int)
      requires Valid() && IsRank(newRank0) && character < UnitRange(newRank0)
      modifies this, buffer
      ensures Valid() && (buffer == old(buffer) || fresh(buffer)) && units == old(units) + [character]
      ensures rank == if old(rank) > newRank0 then old(rank) else newRank0
    {
      hide PowerOfTwo;
      var newRank := if rank > newRank0 then rank else newRank0;
      buffer := Realloc(buffer, (characterCount + 1) * newRank);
      if newRank > rank {
        if newRank == 2 {
          WidenOneToTwo(buffer, characterCount, units);
        } else if rank == 1 {
          WidenOneToFour(buffer, characterCount, units);
        } else {
          WidenTwoToFour(buffer, characterCount, units);
        }
      }
      StoreUnit(buffer, newRank, characterCount, character, units);
      characterCount := characterCount + 1;
      rank := newRank;
      units := units + [character];
    }

    /** Appends the escape of a byte. */
    method EscapeInvalid(invalid: byte)
      requires Valid()
      modifies this, buffer
      ensures Valid() && (buffer == old(buffer) || fresh(buffer)) && units == old(units) + PieceUnits(Escape(invalid))
    {
      PushBack(92, 1);
      PushBack(120, 1);
      PushBack(HexDigit(invalid / 16), 1);
      PushBack(HexDigit(invalid % 16), 1);
    }

    /** Appends the escapes of bytes. */
    method EscapeAll(bytes: seq<byte>)
      requires Valid()
      modifies this, buffer
      ensures Valid() && (buffer == old(buffer) || fresh(buffer)) && units == old(units) + Units(Escapes(bytes))
    {
      for i := 0 to |bytes|
        invariant Valid() && (buffer == old(buffer) || fresh(buffer))
        invariant units + Units(Escapes(bytes[i..])) == old(units) + Units(Escapes(bytes))
      {
        NextEscape(units, bytes, i);
        EscapeInvalid(bytes[i]);
      }
      assert bytes[0..] == bytes;
    }

    /** Appends a code point, in as many bytes as the length of its sequence and its value need. */
    method PushCodePoint(cp: nat, tryRank: nat, ghost s: seq<byte>)
      requires Valid() && tryRank <= 2 && |s| == tryRank + 2 && SequenceLength(s[0]) == |s|
      requires (forall i :: 0 < i < |s| ==> IsTail(s[i])) && cp == CodePoint(s)
      modifies this, buffer
      ensures Valid() && (buffer == old(buffer) || fresh(buffer)) && units == old(units) + PieceUnits(Char(s))
    {
      CodePointRange(s, |s|);
      var cutoff := [0xFF, 0xFFFF, 0];
      var ranks := [[1, 2, 4], [2, 4, 4]];
      PushBack(cp, ranks[if cp > cutoff[tryRank] then 1 else 0][tryRank]);
    }

    method FinishSequence(cp: nat, tryRank: nat, ghost s: seq<byte>, ghost rest: seq<byte>, ghost all: seq<nat>)
      requires Valid() && Halfway(units, s + rest, all) && tryRank <= 2 && |s| == tryRank + 2
        && SequenceLength(s[0]) == |s|
      requires (forall i :: 0 < i < |s| ==> IsTail(s[i])) && cp == CodePoint(s)
      modifies this, buffer
      ensures Valid() && (buffer == old(buffer) || fresh(buffer)) && Halfway(units, rest, all)
    {
      WholeSequence(s, rest);
      HalfwayStep(units, [Char(s)], s + rest, rest, all);
      PushCodePoint(cp, tryRank, s);
      UnitsOfOne(Char(s));
    }

    method PushAscii(head: byte, ghost rest: seq<byte>, ghost all: seq<nat>)
      requires Valid() && Halfway(units, [head] + rest, all) && head < 0x80
      modifies this, buffer
      ensures Valid() && (buffer == old(buffer) || fresh(buffer)) && Halfway(units, rest, all)
    {
      WholeSequence([head], rest);
      HalfwayStep(units, [Char([head])], [head] + rest, rest, all);
      UnitsOfOne(Char([head]));
      PushBack(head, 1);
    }

    method EscapeHead(head: byte, ghost rest: seq<byte>, ghost all: seq<nat>)
      requires Valid() && Halfway(units, [head] + rest, all) && SequenceLength(head) == 0
      modifies this, buffer
      ensures Valid() && (buffer == old(buffer) || fresh(buffer)) && Halfway(units, rest, all)
    {
      InvalidByte(head, rest);
      HalfwayStep(units, [Escape(head)], [head] + rest, rest, all);
      UnitsOfOne(Escape(head));
      EscapeInvalid(head);
    }

    /** The first byte of a sequence, or one that belongs to none. */
    method DecodeHead(head: byte, ghost rest: seq<byte>, ghost all: seq<nat>)
      returns (charBytesLeft: nat, charBytesExpected: nat, tryRank: nat, cp: nat)
      requires Valid() && Halfway(units, [head] + rest, all)
      modifies this, buffer
      ensures Valid() && (buffer == old(buffer) || fresh(buffer))
      ensures charBytesLeft == 0 ==> Halfway(units, rest, all)
      ensures charBytesLeft > 0 ==>
        Halfway(units, [head] + rest, all) && Pending([head], charBytesLeft, charBytesExpected, tryRank, cp)
    {
      charBytesLeft, charBytesExpected, tryRank, cp := 0, 0, 0, 0;
      HeadStarts(head);
      if head < 0x80 {
        PushAscii(head, rest, all);
      } else if 0xC0 <= head < 0xE0 {
        charBytesLeft, charBytesExpected, tryRank, cp := 1, 2, 0, head % 32;
      } else if 0xE0 <= head < 0xF0 {
        charBytesLeft, charBytesExpected, tryRank, cp := 2, 3, 1, head % 16;
      } else if 0xF0 <= head < 0xF8 {
        charBytesLeft, charBytesExpected, tryRank, cp := 3, 4, 2, head % 8;
      } else {
        EscapeHead(head, rest, all);
      }
    }

    /** A tail byte of a sequence. */
    method DecodeTail(tail: byte, charBytesLeft0: nat, charBytesExpected: nat, tryRank: nat, cp0: nat,
                      ghost p: seq<byte>, ghost rest: seq<byte>, ghost all: seq<nat>)
      returns (charBytesLeft: nat, cp: nat)
      requires Valid() && IsTail(tail) && Halfway(units, p + ([tail] + rest), all)
      requires charBytesLeft0 > 0 && Pending(p, charBytesLeft0, charBytesExpected, tryRank, cp0)
      modifies this, buffer
      ensures Valid() && (buffer == old(buffer) || fresh(buffer)) && charBytesLeft == charBytesLeft0 - 1
      ensures charBytesLeft == 0 ==> Halfway(units, rest, all)
      ensures charBytesLeft > 0 ==> Halfway(units, (p + [tail]) + rest, all)
      ensures charBytesLeft > 0 ==> Pending(p + [tail], charBytesLeft, charBytesExpected, tryRank, cp)
    {
      ghost var s := p + [tail];
      assert p + ([tail] + rest) == s + rest;
      CodePointStep(p, tail);
      charBytesLeft := charBytesLeft0 - 1;
      cp := cp0 * 64 + tail % 64;
      if charBytesLeft == 0 {
        FinishSequence(cp, tryRank, s, rest, all);
      }
    }

    /** A sequence that is broken off by something else or by the end. */
    method Backtrack(p: seq<byte>, ghost n: nat, ghost rest: seq<byte>, ghost all: seq<nat>)
      requires Valid() && Started(p, n) && (rest == [] || !IsTail(rest[0])) && Halfway(units, p + rest, all)
      modifies this, buffer
      ensures Valid() && (buffer == old(buffer) || fresh(buffer)) && Halfway(units, rest, all)
    {
      BrokenSequence(p, n, rest);
      HalfwayStep(units, Escapes(p), p + rest, rest, all);
      EscapeAll(p);
    }

    /** One byte inside of a sequence: a tail byte is taken, any other one breaks the sequence off and stays. */
    method DecodeInside(b: byte, seen: seq<byte>, left0: nat, expected: nat, tryRank: nat, cp0: nat,
                        ghost rest: seq<byte>, ghost all: seq<nat>)
      returns (taken: bool, left: nat, cp: nat, ghost p: seq<byte>)
      requires Valid() && left0 > 0 && DecodeState(units, seen, [b] + rest, left0, expected, tryRank, cp0, all)
      modifies this, buffer
      ensures Valid() && (buffer == old(buffer) || fresh(buffer)) && (!taken ==> left == 0 && p == [])
      ensures taken ==> p == (if left == 0 then [] else seen + [b])
      ensures DecodeState(units, p, if taken then rest else [b] + rest, left, expected, tryRank, cp, all)
    {
      if 0x80 <= b < 0xC0 {
        left, cp := DecodeTail(b, left0, expected, tryRank, cp0, seen, rest, all);
        taken := true;
        p := if left == 0 then [] else seen + [b];
      } else {
        Backtrack(seen, expected, [b] + rest, all);
        taken, left, cp, p := false, 0, cp0, [];
      }
    }

    /** One byte; returns whether it is taken. */
    method DecodeByte(b: byte, seen: seq<byte>, left0: nat, expected0: nat, tryRank0: nat, cp0: nat,
                      ghost rest: seq<byte>, ghost all: seq<nat>)
      returns (taken: bool, left: nat, expected: nat, tryRank: nat, cp: nat, ghost p: seq<byte>)
      requires Valid() && DecodeState(units, seen, [b] + rest, left0, expected0, tryRank0, cp0, all)
      modifies this, buffer
      ensures Valid() && (buffer == old(buffer) || fresh(buffer))
      ensures !taken ==> left == 0 < left0 && p == []
      ensures taken ==> p == (if left == 0 then [] else seen + [b])
      ensures DecodeState(units, p, if taken then rest else [b] + rest, left, expected, tryRank, cp, all)
    {
      expected, tryRank := expected0, tryRank0;
      if left0 == 0 {
        left, expected, tryRank, cp := DecodeHead(b, rest, all);
        taken := true;
        p := if left == 0 then [] else [b];
      } else {
        taken, left, cp, p := DecodeInside(b, seen, left0, expected, tryRank, cp0, rest, all);
      }
    }

    /** Ends the decoding; an incomplete sequence is broken off. */
    method DecodeEnd(bytes: seq<byte>, k: nat, left: nat, expected: nat, ghost tryRank: nat, ghost cp: nat,
                     ghost e: seq<byte>, ghost all: seq<nat>)
      requires Valid() && k == |e| && DecodedTo(units, bytes, e, k, left, expected, tryRank, cp, all)
      modifies this, buffer
      ensures Valid() && (buffer == old(buffer) || fresh(buffer)) && units == all
    {
      if left > 0 {
        Backtrack(bytes[k - (expected - left)..k], expected, [], all);
      }
    }

    /** Decodes one byte, or puts back those of a sequence that it breaks. */
    method DecodeAt(bytes: seq<byte>, k: nat, left0: nat, expected0: nat, tryRank0: nat, cp0: nat,
                    ghost e: seq<byte>, ghost all: seq<nat>)
      returns (next: nat, left: nat, expected: nat, tryRank: nat, cp: nat)
      requires Valid() && DecodedTo(units, bytes, e, k, left0, expected0, tryRank0, cp0, all) && k < |e|
      modifies this, buffer
      ensures Valid() && (buffer == old(buffer) || fresh(buffer))
      ensures DecodedTo(units, bytes, e, next, left, expected, tryRank, cp, all)
      ensures next == k + 1 || (next == k && left == 0 < left0)
    {
      var backtrackSize := BacktrackSize(left0, expected0);
      var taken;
      ghost var p;
      NextByte(bytes, e, k, backtrackSize);
      taken, left, expected, tryRank, cp, p := DecodeByte(bytes[k], bytes[k - backtrackSize..k],
        left0, expected0, tryRank0, cp0, e[k + 1..], all);
      DecodedOn(units, bytes, e, k, backtrackSize, taken, left, expected, tryRank, cp, p, all);
      next := if taken then k + 1 else k;
    }

    /** Decodes the bytes before the first zero byte and the limit. */
    method DecodeBytes(bytes: seq<byte>, size: nat)
      requires Valid() && size <= |bytes|
      modifies this, buffer
      ensures Valid() && units == old(units) + Units(Pieces(Effective(bytes, size)))
      ensures forall n: nat :: n <= size && 0 !in bytes[..n] && (n < size ==> bytes[n] == 0) ==>
        units == old(units) + Utf8Forms.Reference(bytes[..n])
    {
      ghost var e := Effective(bytes, size);
      ghost var all := units + Units(Pieces(e));
      var byteCount: nat, charBytesLeft: nat, charBytesExpected: nat, tryRank: nat, cp: nat := 0, 0, 0, 0, 0;
      Undecoded(units, bytes, e, all);
      while byteCount < size && bytes[byteCount] != 0
        invariant Valid() && (buffer == old(buffer) || fresh(buffer))
        invariant DecodedTo(units, bytes, e, byteCount, charBytesLeft, charBytesExpected, tryRank, cp, all)
        decreases |e| - byteCount, charBytesLeft
      {
        BeforeEnd(bytes, size, byteCount);
        byteCount, charBytesLeft, charBytesExpected, tryRank, cp :=
          DecodeAt(bytes, byteCount, charBytesLeft, charBytesExpected, tryRank, cp, e, all);
      }
      BeforeEnd(bytes, size, byteCount);
      DecodeEnd(bytes, byteCount, charBytesLeft, charBytesExpected, tryRank, cp, e, all);
      Utf8Forms.DecodingIsReference(e);
      forall n: nat | n <= size && 0 !in bytes[..n] && (n < size ==> bytes[n] == 0) ensures bytes[..n] == e {
        EffectiveIs(bytes, size, n);
      }
    }

    /** The text in the buffer: its code units, put together from their bytes. */
    method ReadOut() returns (text: seq<nat>)
      requires Valid()
      ensures text == units
    {
      text := [];
      for i := 0 to characterCount
        invariant text == units[..i]
      {
        assert UnitStored(buffer, rank, i, units[i]);
        FourBytesOf(units[i]);
        var v := if rank == 1 then buffer[i] else if rank == 2 then buffer[2 * i] + 0x100 * buffer[2 * i + 1]
                 else buffer[4 * i] + 0x100 * buffer[4 * i + 1] + 0x1_0000 * buffer[4 * i + 2]
                      + 0x100_0000 * buffer[4 * i + 3];
        text := text + [v];
      }
    }
  }

  lemma FourBytesOf(v: nat)
    ensures v == v % 0x100 + 0x100 * (v / 0x100)
    ensures v == v % 0x100 + 0x100 * (v / 0x100 % 0x100) + 0x1_0000 * (v / 0x1_0000 % 0x100)
                 + 0x100_0000 * (v / 0x100_0000)
  {
    assert v / 0x1_0000 == (v / 0x100) / 0x100;
    assert v / 0x100_0000 == (v / 0x1_0000) / 0x100;
  }

  lemma {:induction false} EffectiveIs(s: seq<byte>, size: nat, n: nat)
    requires n <= size <= |s| && 0 !in s[..n] && (n < size ==> s[n] == 0)
    ensures s[..n] == Effective(s, size)
  {
    var e := Effective(s, size);
    assert forall i :: 0 <= i < n ==> s[i] in s[..n];
    assert forall i :: 0 <= i < |e| ==> s[i] == e[i] != 0;
  }

  lemma {:induction false} NextByte(bytes: seq<byte>, e: seq<byte>, k: nat, n: nat)
    requires n <= k < |e| <= |bytes| && e == bytes[..|e|]
    ensures e[k..] == [bytes[k]] + e[k + 1..]
    ensures bytes[k - n..k] + [bytes[k]] == bytes[k + 1 - (n + 1)..k + 1]
  {
  }
}
