/** Growing zero-filled storage and elementary loops over leaves. */
module Chunks {
  import opened Leaves

  ghost predicate PowerOfTwo(n: nat) {
    n == 1 || (n > 0 && n % 2 == 0 && PowerOfTwo(n / 2))
  }

  /** Storage for at least `n` items with the old contents in front and zeros behind. */
  method Grow<T>(data: array<T>, n: nat, zero: T) returns (grown: array<T>)
    requires n >= 1
    ensures n <= grown.Length
    ensures n <= data.Length ==> grown == data
    ensures n > data.Length ==> fresh(grown) && data.Length < grown.Length < 2 * n && PowerOfTwo(grown.Length)
    ensures n > data.Length ==> forall i :: 0 <= i < grown.Length ==>
      grown[i] == if i < data.Length then data[i] else zero
  {
    grown := data;
    if n > data.Length {
      var capacity := 1;
      while capacity < n
        invariant 1 <= capacity < 2 * n && PowerOfTwo(capacity)
      {
        capacity := capacity * 2;
      }
      grown := new T[capacity](_ => zero);
      for i := 0 to data.Length
        invariant forall j :: 0 <= j < grown.Length ==> grown[j] == if j < i then data[j] else zero
      {
        grown[i] := data[i];
      }
    }
  }

  /** Storage for at least `n` leaves with the old contents in front and zeros behind. */
  method Realloc(data: array<int>, n: nat) returns (grown: array<int>)
    requires n >= 1
    ensures n <= grown.Length
    ensures n <= data.Length ==> grown == data
    ensures n > data.Length ==> fresh(grown) && data.Length < grown.Length < 2 * n && PowerOfTwo(grown.Length)
    ensures n > data.Length ==> forall i :: 0 <= i < grown.Length ==> grown[i] == if i < data.Length then data[i] else 0
  {
    grown := Grow(data, n, 0);
  }

  lemma {:induction false} Joined<T>(w: seq<T>, a: seq<T>, b: seq<T>)
    requires |a| + |b| <= |w| && forall i :: 0 <= i < |a| ==> w[i] == a[i]
    requires forall i :: |a| <= i < |a| + |b| ==> w[i] == b[i - |a|]
    ensures w[..|a|] == a && w[..|a| + |b|] == a + b
  {
  }

  /** The number of zero leaves in front. */
  method LeadingZeros(data: array<int>, off: int, size: int) returns (zeros: nat)
    requires size > 0 ==> 0 <= off && off + size <= data.Length
    ensures if size <= 0 then zeros == 0 else zeros <= size
    ensures forall i :: off <= i < off + zeros ==> data[i] == 0
    ensures zeros < size ==> data[off + zeros] != 0
  {
    zeros := 0;
    while zeros < size && data[off + zeros] == 0
      invariant if size <= 0 then zeros == 0 else zeros <= size
      invariant forall i :: off <= i < off + zeros ==> data[i] == 0
    {
      zeros := zeros + 1;
    }
  }

  /** Copies leaves between different arrays. */
  method CopyLeaves(dst: array<int>, dstOff: int, src: array<int>, srcOff: int, n: nat)
    requires n > 0 ==> 0 <= dstOff && dstOff + n <= dst.Length && 0 <= srcOff && srcOff + n <= src.Length
    requires dst != src
    modifies dst
    ensures forall i :: 0 <= i < dst.Length ==>
      dst[i] == if dstOff <= i < dstOff + n then src[srcOff + i - dstOff] else old(dst[i])
  {
    for k := 0 to n
      invariant forall i :: 0 <= i < dst.Length ==>
        dst[i] == if dstOff <= i < dstOff + k then src[srcOff + i - dstOff] else old(dst[i])
    {
      dst[dstOff + k] := src[srcOff + k];
    }
  }

  /** Moves items inside one array; the two places may overlap. */
  method Move<T>(data: array<T>, dst: nat, src: nat, n: nat)
    requires dst + n <= data.Length && src + n <= data.Length
    modifies data
    ensures forall i :: 0 <= i < data.Length ==>
      data[i] == if dst <= i < dst + n then old(data[src + i - dst]) else old(data[i])
  {
    if dst <= src {
      for k := 0 to n
        invariant forall i :: 0 <= i < data.Length ==>
          data[i] == if dst <= i < dst + k then old(data[src + i - dst]) else old(data[i])
      {
        data[dst + k] := data[src + k];
      }
    } else {
      for k := n downto 0
        invariant forall i :: 0 <= i < data.Length ==>
          data[i] == if dst + k <= i < dst + n then old(data[src + i - dst]) else old(data[i])
      {
        data[dst + k] := data[src + k];
      }
    }
  }

  /** Moves the first `n` leaves up by `k` places. */
  method ShiftUp(data: array<int>, n: nat, k: nat) returns (grown: array<int>)
    requires n <= data.Length && k > 0
    modifies data
    ensures (grown == data || fresh(grown)) && data.Length <= grown.Length && n + k <= grown.Length
    ensures grown == data <==> n + k <= data.Length
    ensures forall i :: k <= i < k + n ==> grown[i] == old(data[..n])[i - k]
    ensures forall i :: k + n <= i < grown.Length ==> grown[i] == if i < data.Length then old(data[i]) else 0
    ensures old(HoldsLeaves(data)) ==> HoldsLeaves(grown)
  {
    hide PowerOfTwo;
    ghost var o := data[..];
    grown := Realloc(data, n + k);
    ghost var w := grown[..];
    assert forall i :: 0 <= i < grown.Length ==> w[i] == if i < |o| then o[i] else 0;
    Move(grown, k, 0, n);
    assert forall i :: k <= i < k + n ==> grown[i] == w[i - k] == o[..n][i - k];
    assert forall i :: 0 <= i < grown.Length && (i < k || k + n <= i) ==> grown[i] == w[i];
  }

  /** Inserts a leaf in front of the first `n` leaves. */
  method InsertFront(data: array<int>, n: nat, leaf: int) returns (grown: array<int>)
    requires n <= data.Length
    modifies data
    ensures (grown == data || fresh(grown)) && data.Length <= grown.Length && n + 1 <= grown.Length
    ensures grown == data <==> n + 1 <= data.Length
    ensures grown[..n + 1] == [leaf] + old(data[..n])
    ensures forall i :: n < i < grown.Length ==> grown[i] == if i < data.Length then old(data[i]) else 0
  {
    ghost var s := data[..n];
    grown := ShiftUp(data, n, 1);
    grown[0] := leaf;
    Joined(grown[..], [leaf], s);
  }

  /** Sets leaves to zero. */
  method ClearLeaves(data: array<int>, off: nat, n: nat)
    requires off + n <= data.Length
    modifies data
    ensures forall i :: 0 <= i < data.Length ==> data[i] == if off <= i < off + n then 0 else old(data[i])
  {
    for k := 0 to n
      invariant forall i :: 0 <= i < data.Length ==> data[i] == if off <= i < off + k then 0 else old(data[i])
    {
      data[off + k] := 0;
    }
  }

  lemma {:induction false} ScaleStep(x: int, leaf: int, c: int, d: int, c2: int, p: int, r: int, v: int)
    requires r + c * p == leaf * v && d + c2 * LEAF == leaf * x + c
    ensures (d * p + r) + c2 * (LEAF * p) == leaf * (x * p + v)
  {
    assert (d + c2 * LEAF) * p == (leaf * x + c) * p;
    assert (leaf * x) * p == leaf * (x * p);
    assert leaf * (x * p + v) == leaf * (x * p) + leaf * v;
  }

  lemma ProductBound(x: int, y: int, b: int)
    requires 0 <= x <= b && 0 <= y <= b
    ensures 0 <= x * y <= b * b
  {
    MulMono(0, x, y);
    MulMono(x, b, y);
    MulMono(y, b, b);
  }

  /** One leaf of a product; fits 64 bits. */
  method ScaleLeaf(x: int, leaf: int, carrierIn: int) returns (y: int, carrier: int)
    requires 0 <= x < LEAF && 0 <= leaf < LEAF && 0 <= carrierIn < LEAF
    ensures 0 <= y < LEAF && 0 <= carrier < LEAF && y + carrier * LEAF == leaf * x + carrierIn
  {
    ProductBound(leaf, x, LEAF - 1);
    y := x * leaf + carrierIn;
    if y >= LEAF {
      carrier := y / LEAF;
      y := y % LEAF;
    } else {
      carrier := 0;
    }
  }

  /** The leaves of `r` are the last of the product of `leaf` and `v`, carrying `c`. */
  ghost predicate Scaled(r: seq<int>, v: seq<int>, i: int, leaf: int, c: int) {
    && 0 <= i <= |v| && |r| == |v| - i && IsLeaves(r) && 0 <= c < LEAF
    && Val(r) + c * Pow(|r|) == leaf * Val(v[i..])
  }

  lemma {:induction false} ScaledStep(r: seq<int>, v: seq<int>, i: int, leaf: int, c: int, x: int, c2: int)
    requires Scaled(r, v, i + 1, leaf, c) && 0 <= i < |v|
    requires 0 <= x < LEAF && 0 <= c2 < LEAF && x + c2 * LEAF == leaf * v[i] + c
    ensures Scaled([x] + r, v, i, leaf, c2)
  {
    assert v[i..] == [v[i]] + v[i + 1..];
    ValFront(x, r);
    ValFront(v[i], v[i + 1..]);
    ScaleStep(v[i], leaf, c, x, c2, Pow(|r|), Val(r), Val(v[i + 1..]));
  }

  ghost predicate Holds(data: array<int>, off: int, from: int, to: int, s: seq<int>, shift: int)
    reads data
  {
    forall j :: off + from <= j < off + to ==>
      0 <= j < data.Length && 0 <= j - off - shift < |s| && data[j] == s[j - off - shift]
  }

  /** Multiplies leaves by a single leaf, from the last one to the first; in place if the
      source and the destination coincide. */
  method ScaleLeaves(dst: array<int>, dstOff: int, src: array<int>, srcOff: int, n: nat, leaf: int, ghost v: seq<int>)
    returns (carrier: int, ghost r: seq<int>)
    requires 0 <= dstOff && dstOff + n <= dst.Length && 0 <= srcOff && srcOff + n <= src.Length
    requires dst != src || dstOff == srcOff
    requires |v| == n && Holds(src, srcOff, 0, n, v, 0) && IsLeaves(v) && 0 <= leaf < LEAF
    modifies dst
    ensures 0 <= carrier < LEAF && |r| == n && IsLeaves(r)
    ensures Holds(dst, dstOff, 0, n, r, 0)
    ensures forall i :: 0 <= i < dst.Length && (i < dstOff || i >= dstOff + n) ==> dst[i] == old(dst[i])
    ensures Val(r) + carrier * Pow(n) == leaf * Val(v)
  {
    carrier := 0;
    var i := n;
    r := [];
    while i > 0
      invariant Scaled(r, v, i, leaf, carrier)
      invariant Holds(src, srcOff, 0, i, v, 0)
      invariant Holds(dst, dstOff, i, n, r, i)
      invariant forall j :: 0 <= j < dst.Length && (j < dstOff + i || j >= dstOff + n) ==> dst[j] == old(dst[j])
    {
      i := i - 1;
      ghost var c := carrier;
      var x;
      x, carrier := ScaleLeaf(src[srcOff + i], leaf, carrier);
      dst[dstOff + i] := x;
      ScaledStep(r, v, i, leaf, c, x, carrier);
      r := [x] + r;
    }
    assert v[0..] == v;
  }

  lemma {:induction false} ValOfThree(h: seq<int>, m: seq<int>, t: seq<int>)
    ensures Val(h + m + t) == (Val(h) * Pow(|m|) + Val(m)) * Pow(|t|) + Val(t)
  {
    ValConcat(h + m, t);
    ValConcat(h, m);
  }

  lemma Shifted(x: int, y: int, z: int, p: int, t: int)
    ensures (x + z) * p + t == ((x + y) * p + t) + (z - y) * p
  {
    assert (x + z) * p == x * p + z * p;
    assert (x + y) * p == x * p + y * p;
    assert (z - y) * p == z * p - y * p;
  }

  /** Replacing the leaves [lo, hi) of a sequence changes its value by their difference in place. */
  lemma {:induction false} Patched(f: seq<int>, g: seq<int>, lo: nat, hi: nat)
    requires |f| == |g| && lo <= hi <= |f|
    requires forall i :: 0 <= i < |f| && (i < lo || hi <= i) ==> f[i] == g[i]
    ensures Val(g) == Val(f) + (Val(g[lo..hi]) - Val(f[lo..hi])) * Pow(|f| - hi)
  {
    var h, t := f[..lo], f[hi..];
    assert f == h + f[lo..hi] + t;
    assert g == h + g[lo..hi] + t;
    ValOfThree(h, f[lo..hi], t);
    ValOfThree(h, g[lo..hi], t);
    Shifted(Val(h) * Pow(hi - lo), Val(f[lo..hi]), Val(g[lo..hi]), Pow(|t|), Val(t));
  }
}
