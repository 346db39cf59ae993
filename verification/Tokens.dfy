/** Delimited reading, stated on the bytes alone. */
module Tokens {
  import opened Utf8

  /** What a delimited read asks for: bytes up to one in the set, or bytes as long as they are in the set. */
  datatype Query = Query(maxCount: nat, chars: seq<byte>, extractDelim: bool, isStopSet: bool)

  /** The members of a set written as a C string; the zero behind it is one of them. */
  function Members(chars: seq<byte>): seq<byte> {
    chars + [0]
  }

  predicate Ends(b: byte, q: Query) {
    (b in Members(q.chars)) == q.isStopSet
  }

  /** The number of bytes in front of the limit and of the first byte that ends the token. */
  ghost function Span(p: seq<byte>, q: Query): (k: nat)
    ensures k <= |p| && k <= q.maxCount
    ensures forall i :: 0 <= i < k ==> !Ends(p[i], q)
    ensures k < |p| && k < q.maxCount ==> Ends(p[k], q)
    decreases p
  {
    if p == [] || q.maxCount == 0 || Ends(p[0], q) then 0 else 1 + Span(p[1..], q.(maxCount := q.maxCount - 1))
  }

  /** The length of the token at the front of the bytes that are still to be read. */
  ghost function Token(p: seq<byte>, q: Query): (n: nat)
    ensures n <= |p| && n <= q.maxCount
  {
    var k := Span(p, q);
    if k < |p| && k < q.maxCount && q.isStopSet && q.extractDelim then k + 1 else k
  }

  /** Whether these bytes decide where the token ends, whatever follows them. */
  ghost predicate Complete(p: seq<byte>, q: Query) {
    Span(p, q) < |p| || Span(p, q) == q.maxCount
  }

  lemma {:induction false} SpanIs(p: seq<byte>, q: Query, k: nat)
    requires k <= |p| && k <= q.maxCount
    requires forall i :: 0 <= i < k ==> !Ends(p[i], q)
    requires k < |p| && k < q.maxCount ==> Ends(p[k], q)
    ensures Span(p, q) == k
  {
    var j := Span(p, q);
    assert j <= k;
  }

  /** More bytes behind do not change a token that is complete, and can only lengthen one that is not. */
  lemma {:induction false} Extended(p: seq<byte>, r: seq<byte>, q: Query)
    ensures Complete(p, q) ==> Complete(p + r, q) && Token(p + r, q) == Token(p, q)
    ensures !Complete(p, q) ==> Token(p, q) == |p| <= Token(p + r, q)
    ensures !Complete(p, q) ==> forall i :: 0 <= i < |p| ==> !Ends(p[i], q)
  {
    var k, s := Span(p, q), p + r;
    assert forall i :: 0 <= i < |p| ==> s[i] == p[i];
    if Complete(p, q) {
      SpanIs(s, q, k);
    } else if Span(s, q) < |p| {
      SpanIs(p, q, Span(s, q));
    }
  }

  /** Whether `k` bytes are in front of the limit and of the first byte that ends the token: one in a stop set, or one
      that is not in the set of those to read. Zero is in every set. */
  ghost predicate Delimits(p: seq<byte>, q: Query, k: nat) {
    && k <= |p| && k <= q.maxCount
    && (q.isStopSet ==>
      && (forall i :: 0 <= i < k ==> p[i] != 0 && p[i] !in q.chars)
      && (k < |p| && k < q.maxCount ==> p[k] == 0 || p[k] in q.chars))
    && (!q.isStopSet ==>
      && (forall i :: 0 <= i < k ==> p[i] == 0 || p[i] in q.chars)
      && (k < |p| && k < q.maxCount ==> p[k] != 0 && p[k] !in q.chars))
  }

  lemma EndsByMembers(b: byte, q: Query)
    ensures q.isStopSet ==> (Ends(b, q) <==> b == 0 || b in q.chars)
    ensures !q.isStopSet ==> (Ends(b, q) <==> b != 0 && b !in q.chars)
  {
  }

  /** A token goes up to the byte that ends it, and takes that byte in exactly if there is one below the limit and it is
      to be extracted; it is decided once that byte or the limit is reached. */
  lemma {:induction false} TokenByMembers(p: seq<byte>, q: Query, k: nat)
    ensures Delimits(p, q, k) <==> k == Span(p, q)
    ensures Delimits(p, q, k) ==>
      Token(p, q) == if q.isStopSet && q.extractDelim && k < |p| && k < q.maxCount then k + 1 else k
    ensures Delimits(p, q, k) ==> (Complete(p, q) <==> k < |p| || k == q.maxCount)
  {
    hide Ends, Span;
    forall i | 0 <= i < |p|
      ensures q.isStopSet ==> (Ends(p[i], q) <==> p[i] == 0 || p[i] in q.chars)
      ensures !q.isStopSet ==> (Ends(p[i], q) <==> p[i] != 0 && p[i] !in q.chars)
    {
      EndsByMembers(p[i], q);
    }
    if Delimits(p, q, k) { SpanIs(p, q, k); }
  }

  /** Whether `n` bytes are the token at the front of the bytes: those in front of the limit and of the byte that ends
      it, and that byte if it is to be extracted. */
  ghost predicate IsToken(p: seq<byte>, q: Query, n: int) {
    exists k: nat :: Delimits(p, q, k) &&
      n == if q.isStopSet && q.extractDelim && k < |p| && k < q.maxCount then k + 1 else k
  }

  lemma {:induction false} TokenIsToken(p: seq<byte>, q: Query)
    ensures IsToken(p, q, Token(p, q))
  {
    hide Delimits, Span, Ends;
    TokenByMembers(p, q, Span(p, q));
    assert Delimits(p, q, Span(p, q));
  }
}
