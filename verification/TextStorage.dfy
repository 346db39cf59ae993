/** Characters kept in the bytes of leaves, four to a leaf. */
module TextStorage {
  import opened Leaves

  const BYTES_IN_LEAF := 4

  function Unit(j: nat): (u: int)
    requires j < BYTES_IN_LEAF
    ensures u >= 1
  {
    if j == 0 then 1 else if j == 1 then 0x100 else if j == 2 then 0x1_0000 else 0x100_0000
  }

  function ByteOf(v: int, j: nat): (b: int)
    requires j < BYTES_IN_LEAF
    ensures 0 <= b < 0x100
  {
    (v / Unit(j)) % 0x100
  }

  function WithByte(v: int, j: nat, c: int): int
    requires j < BYTES_IN_LEAF
  {
    v + (c - ByteOf(v, j)) * Unit(j)
  }

  lemma BytesOf(v: int, b0: int, b1: int, b2: int, b3: int, h: int)
    requires 0 <= b0 < 0x100 && 0 <= b1 < 0x100 && 0 <= b2 < 0x100 && 0 <= b3 < 0x100
    requires v == b0 + 0x100 * (b1 + 0x100 * (b2 + 0x100 * (b3 + 0x100 * h)))
    ensures ByteOf(v, 0) == b0 && ByteOf(v, 1) == b1 && ByteOf(v, 2) == b2 && ByteOf(v, 3) == b3
  {
    var w := b1 + 0x100 * (b2 + 0x100 * (b3 + 0x100 * h));
    var x := b2 + 0x100 * (b3 + 0x100 * h);
    var y := b3 + 0x100 * h;
    assert v / 0x100 == w && w / 0x100 == x && x / 0x100 == y;
    assert v / 0x1_0000 == x;
    assert v / 0x100_0000 == y;
  }

  lemma Bytes(v: int) returns (h: int)
    ensures v == ByteOf(v, 0) + 0x100 * (ByteOf(v, 1) + 0x100 * (ByteOf(v, 2) + 0x100 * (ByteOf(v, 3) + 0x100 * h)))
  {
    var w := v / 0x100;
    var x := w / 0x100;
    var y := x / 0x100;
    h := y / 0x100;
    BytesOf(v, v % 0x100, w % 0x100, x % 0x100, y % 0x100, h);
  }

  /** Replacing a byte changes no other byte. */
  lemma ByteReplaced(v: int, j: nat, c: int)
    requires j < BYTES_IN_LEAF && 0 <= c < 0x100
    ensures forall i: nat :: i < BYTES_IN_LEAF ==> ByteOf(WithByte(v, j, c), i) == if i == j then c else ByteOf(v, i)
  {
    hide ByteOf;
    var h := Bytes(v);
    var b0, b1, b2, b3 := ByteOf(v, 0), ByteOf(v, 1), ByteOf(v, 2), ByteOf(v, 3);
    BytesOf(WithByte(v, j, c), if j == 0 then c else b0, if j == 1 then c else b1,
      if j == 2 then c else b2, if j == 3 then c else b3, h);
  }

  /** A leaf with a byte replaced by a character up to '9' is a leaf, whatever its other bytes are. */
  lemma StillLeaf(v: int, j: nat, c: int)
    requires j < BYTES_IN_LEAF && 0 <= c <= '9' as int && 0 <= v < LEAF
    ensures 0 <= WithByte(v, j, c) < LEAF
  {
    hide ByteOf;
    var h := Bytes(v);
    var b0, b1, b2, b3 := ByteOf(v, 0), ByteOf(v, 1), ByteOf(v, 2), ByteOf(v, 3);
    assert v == b0 + 0x100 * b1 + 0x1_0000 * b2 + 0x100_0000 * b3 by { assert h == 0; }
    assert b3 <= 59;
    if j == 3 {
      assert WithByte(v, 3, c) == v + (c - b3) * 0x100_0000;
    } else if j == 2 {
      assert WithByte(v, 2, c) == v + (c - b2) * 0x1_0000;
    } else if j == 1 {
      assert WithByte(v, 1, c) == v + (c - b1) * 0x100;
    } else {
      assert WithByte(v, 0, c) == v + (c - b0);
    }
  }

  /** No character is beyond the digits. */
  ghost predicate Legible(t: string) {
    forall k :: 0 <= k < |t| ==> t[k] <= '9'
  }

  /** The character at a place, four of them to a leaf. */
  function CharacterAt(s: seq<int>, k: nat): int
    requires k < BYTES_IN_LEAF * |s|
  {
    ByteOf(s[k / BYTES_IN_LEAF], k % BYTES_IN_LEAF)
  }

  /** The storage starts with the text and a zero behind it. */
  ghost predicate Spells(s: seq<int>, t: string) {
    && |t| < BYTES_IN_LEAF * |s| && CharacterAt(s, |t|) == 0
    && forall k :: 0 <= k < |t| ==> CharacterAt(s, k) == t[k] as int
  }

  method WriteCharacter(data: array<int>, k: nat, c: int)
    requires k < BYTES_IN_LEAF * data.Length && 0 <= c <= '9' as int
    modifies data
    ensures forall i :: 0 <= i < BYTES_IN_LEAF * data.Length ==>
      CharacterAt(data[..], i) == if i == k then c else old(CharacterAt(data[..], i))
    ensures old(HoldsLeaves(data)) ==> HoldsLeaves(data)
  {
    hide ByteOf, WithByte;
    var i, j := k / BYTES_IN_LEAF, k % BYTES_IN_LEAF;
    ByteReplaced(data[i], j, c);
    if 0 <= data[i] < LEAF { StillLeaf(data[i], j, c); }
    data[i] := WithByte(data[i], j, c);
  }

  method WriteText(data: array<int>, t: string)
    requires |t| < BYTES_IN_LEAF * data.Length && Legible(t)
    modifies data
    ensures forall k :: 0 <= k < |t| ==> CharacterAt(data[..], k) == t[k] as int
    ensures old(HoldsLeaves(data)) ==> HoldsLeaves(data)
  {
    hide CharacterAt;
    for n := 0 to |t|
      invariant forall k :: 0 <= k < n ==> CharacterAt(data[..], k) == t[k] as int
      invariant old(HoldsLeaves(data)) ==> HoldsLeaves(data)
    {
      WriteCharacter(data, n, t[n] as int);
    }
  }

  /** Writes a text and ends it behind its first `n` characters. */
  method WriteEnded(data: array<int>, t: string, n: nat)
    requires n <= |t| < BYTES_IN_LEAF * data.Length && Legible(t)
    modifies data
    ensures Spells(data[..], t[..n])
    ensures old(HoldsLeaves(data)) ==> HoldsLeaves(data)
  {
    hide CharacterAt;
    WriteText(data, t);
    WriteCharacter(data, n, 0);
  }
}
