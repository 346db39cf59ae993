/** Whole runs of a buffered stream against the stream without a buffer that it stands for. */
module StreamRuns {
  import opened Utf8
  import opened Tokens
  import opened Streams

  datatype Command =
    | ReadToken(q: Query)
    | PeekNext
    | Get(size: nat)
    | Put(data: seq<byte>)
    | FlushNow
    | Buffering(on: bool)
    | BufferSize(bytes: int)

  /** What a command gives back: a token is the number of its bytes and its text; a peek tells whether the stream is
      good. */
  datatype Reply =
    | Token(n: int, text: seq<nat>)
    | Count(n: int)
    | Next(c: int, good: bool)
    | Data(data: seq<byte>)
    | Done

  /** A stream without a buffer: what can still be read and what was written. */
  datatype Plain = Plain(unread: seq<byte>, written: seq<byte>)

  predicate Proper(c: Command) {
    && (c.ReadToken? ==> c.q.maxCount >= 1 && (c.q.isStopSet || !c.q.extractDelim))
    && (c.BufferSize? ==> c.bytes > 0)
  }

  /** What a command does to the stream without a buffer. Buffering itself does nothing to it. */
  ghost predicate Step(a: Plain, c: Command, r: Reply, b: Plain) {
    match c
    case ReadToken(q) =>
      var n := Tokens.Token(a.unread, q);
      r == Reply.Token(n, Decoded(a.unread[..n])) && b == a.(unread := a.unread[n..])
    case PeekNext => b == a && r.Next?
      && (r.good ==> r.c == if a.unread == [] then INVALID_CHARACTER else Character(a.unread[0]))
    case Get(size) => r.Data? && |r.data| <= size && Delivered(a.unread, b.unread, |r.data|, r.data)
      && b.written == a.written
      && (size > 0 && a.unread != [] ==> r.data != [])
    case Put(data) => r == Count(|data|) && b == a.(written := a.written + data)
    case _ => r == Done && b == a
  }

  ghost predicate Run(a: Plain, cs: seq<Command>, rs: seq<Reply>, b: Plain)
    decreases |cs|
  {
    if cs == [] then rs == [] && b == a else
    rs != [] && exists m :: Step(a, cs[0], rs[0], m) && Run(m, cs[1..], rs[1..], b)
  }

  function AllPut(cs: seq<Command>): seq<byte> {
    if cs == [] then [] else PutBy(cs[0]) + AllPut(cs[1..])
  }

  function PutBy(c: Command): seq<byte> {
    if c.Put? then c.data else []
  }

  /** What was put came behind what was written before, and the first `k` of the unread bytes were read. */
  ghost predicate After(a: Plain, put: seq<byte>, k: nat, b: Plain) {
    b.written == a.written + put && k <= |a.unread| && b.unread == a.unread[k..]
  }

  /** A device that never fails and has no bytes only at its end, delivering in portions as it likes. */
  ghost predicate Reliable(s: BufferedStream)
    reads s, s.cache
  {
    s.Valid() && s.ioBufferSize > 0 && NeverDry(s.answers) && NeverFails(s.answers)
  }

  ghost function Seen(s: BufferedStream): Plain
    reads s, s.cache
    requires s.cachedBytes <= s.cache.Length
  {
    Plain(s.Unread(), s.Accepted())
  }

  method PerformRead(s: BufferedStream, q: Query) returns (ghost r: Reply)
    requires Reliable(s) && Proper(ReadToken(q))
    modifies s, s.cache
    ensures Reliable(s) && (s.cache == old(s.cache) || fresh(s.cache))
    ensures Step(old(Seen(s)), ReadToken(q), r, Seen(s))
  {
    hide IsToken, Delimits, Span, Complete, Ends, Decoded;
    ghost var before := s.answers;
    var n, text, ended := s.SemanticRead(q);
    LaterAgain(before, s.answers);
    r := Reply.Token(n, text.units);
  }

  method PerformPeek(s: BufferedStream) returns (ghost r: Reply)
    requires Reliable(s)
    modifies s, s.cache
    ensures Reliable(s) && (s.cache == old(s.cache) || fresh(s.cache))
    ensures Step(old(Seen(s)), PeekNext, r, Seen(s))
  {
    ghost var before := s.answers;
    var good := s.Good();
    var p := s.Peek();
    LaterAgain(before, s.answers);
    r := Next(p, good);
  }

  method GetInto(s: BufferedStream, buffer: array<byte>, size: nat) returns (n: nat)
    requires Reliable(s) && size == buffer.Length && buffer != s.cache
    modifies s, s.cache, buffer
    ensures Reliable(s) && s.cache == old(s.cache) && n <= size
    ensures Delivered(old(s.Unread()), s.Unread(), n, buffer[..n]) && s.Accepted() == old(s.Accepted())
    ensures size > 0 && old(s.Unread()) != [] ==> n > 0
  {
    LaterAgain(s.answers, s.answers);
    LaterAgain(s.answers, Rest(s.answers));
    FirstAnswer(s.answers);
    n := s.Input(buffer, size);
  }

  method PerformGet(s: BufferedStream, size: nat) returns (ghost r: Reply)
    requires Reliable(s)
    modifies s, s.cache
    ensures Reliable(s) && (s.cache == old(s.cache) || fresh(s.cache))
    ensures Step(old(Seen(s)), Get(size), r, Seen(s))
  {
    ghost var a := Seen(s);
    var buffer := new byte[size];
    var n := GetInto(s, buffer, size);
    r := Data(buffer[..n]);
    GetStep(a, size, buffer[..n], Seen(s));
  }

  lemma FirstAnswer(answers: seq<int>)
    requires NeverDry(answers) && NeverFails(answers)
    ensures answers != [] ==> answers[0] > 0
  {
    assert answers != [] ==> answers[0] != 0;
  }

  lemma {:induction false} GetStep(a: Plain, size: nat, data: seq<byte>, b: Plain)
    requires |data| <= size && Delivered(a.unread, b.unread, |data|, data) && b.written == a.written
    requires size > 0 && a.unread != [] ==> data != []
    ensures Step(a, Get(size), Data(data), b)
  {
  }

  /** Every command does to the buffered stream just what it does to the one without a buffer. */
  method Perform(s: BufferedStream, c: Command) returns (ghost r: Reply)
    requires Reliable(s) && Proper(c)
    modifies s, s.cache
    ensures Reliable(s) && (s.cache == old(s.cache) || fresh(s.cache))
    ensures Step(old(Seen(s)), c, r, Seen(s))
  {
    r := Done;
    match c
    case ReadToken(q) => r := PerformRead(s, q);
    case PeekNext => r := PerformPeek(s);
    case Get(size) => r := PerformGet(s, size);
    case Put(data) =>
      var n := s.Output(data);
      r := Count(n);
    case FlushNow => s.Flush();
    case Buffering(on) => s.SetBufferedIO(on);
    case BufferSize(bytes) => s.SetIoBufferSize(bytes);
  }

  method PerformAll(s: BufferedStream, cs: seq<Command>) returns (ghost rs: seq<Reply>)
    requires Reliable(s) && forall i :: 0 <= i < |cs| ==> Proper(cs[i])
    modifies s, s.cache
    ensures Reliable(s) && (s.cache == old(s.cache) || fresh(s.cache))
    ensures Run(old(Seen(s)), cs, rs, Seen(s))
  {
    ghost var a := Seen(s);
    rs := [];
    for i := 0 to |cs|
      invariant Reliable(s) && (s.cache == old(s.cache) || fresh(s.cache))
      invariant Run(a, cs[..i], rs, Seen(s))
    {
      ghost var m := Seen(s);
      ghost var r := Perform(s, cs[i]);
      OneMore(a, cs[..i], rs, m, cs[i], r, Seen(s));
      assert cs[..i + 1] == cs[..i] + [cs[i]];
      rs := rs + [r];
    }
    assert cs[..|cs|] == cs;
  }

  lemma {:induction false} OneMore(a: Plain, cs: seq<Command>, rs: seq<Reply>, m: Plain, c: Command, r: Reply, b: Plain)
    requires Run(a, cs, rs, m) && Step(m, c, r, b)
    ensures Run(a, cs + [c], rs + [r], b)
    decreases |cs|
  {
    if cs == [] {
      assert Run(b, [], [], b);
      assert ([] + [c])[1..] == [] && ([] + [r])[1..] == [];
    } else {
      var n :| Step(a, cs[0], rs[0], n) && Run(n, cs[1..], rs[1..], m);
      OneMore(n, cs[1..], rs[1..], m, c, r, b);
      var cs2, rs2 := cs + [c], rs + [r];
      assert cs2[0] == cs[0] && rs2[0] == rs[0] && cs2[1..] == cs[1..] + [c] && rs2[1..] == rs[1..] + [r];
      assert Step(a, cs2[0], rs2[0], n) && Run(n, cs2[1..], rs2[1..], b);
    }
  }

  lemma {:induction false} StepConserves(a: Plain, c: Command, r: Reply, b: Plain) returns (k: nat)
    requires Step(a, c, r, b)
    ensures After(a, PutBy(c), k, b)
  {
    k := |a.unread| - |b.unread|;
  }

  lemma {:induction false} Chained(a: Plain, m: Plain, b: Plain, x: seq<byte>, y: seq<byte>, i: nat, j: nat)
    requires After(a, x, i, m) && After(m, y, j, b)
    ensures After(a, x + y, i + j, b)
  {
    assert a.unread[i..][j..] == a.unread[i + j..];
    assert a.written + x + y == a.written + (x + y);
  }

  /** Nothing is lost, added or reordered: output is all that was put, and what is unread is a rest of what was. */
  lemma {:induction false} Conserved(a: Plain, cs: seq<Command>, rs: seq<Reply>, b: Plain) returns (k: nat)
    requires Run(a, cs, rs, b)
    ensures After(a, AllPut(cs), k, b)
    decreases |cs|
  {
    if cs == [] {
      k := 0;
    } else {
      var m :| Step(a, cs[0], rs[0], m) && Run(m, cs[1..], rs[1..], b);
      var i := StepConserves(a, cs[0], rs[0], m);
      var j := Conserved(m, cs[1..], rs[1..], b);
      k := i + j;
      Chained(a, m, b, PutBy(cs[0]), AllPut(cs[1..]), i, j);
    }
  }

  /** Replies that agree; peeks do as far as both streams are good. */
  predicate Agree(r: Reply, r2: Reply) {
    r == r2 || (r.Next? && r2.Next? && (r.good && r2.good ==> r.c == r2.c))
  }

  lemma {:induction false} StepDetermined(a: Plain, c: Command, r: Reply, b: Plain, r2: Reply, b2: Plain)
    requires Step(a, c, r, b) && Step(a, c, r2, b2) && !c.Get?
    ensures Agree(r, r2) && b == b2
  {
  }

  /** However bytes are buffered and delivered, the replies agree and the same is left. */
  lemma {:induction false} BufferingIsInvisible(a: Plain, cs: seq<Command>, rs: seq<Reply>, b: Plain, rs2: seq<Reply>,
                                                b2: Plain)
    requires Run(a, cs, rs, b) && Run(a, cs, rs2, b2)
    requires forall i :: 0 <= i < |cs| ==> !cs[i].Get?
    ensures |rs| == |rs2| == |cs| && b == b2
    ensures forall i :: 0 <= i < |cs| ==> Agree(rs[i], rs2[i])
    decreases |cs|
  {
    if cs != [] {
      var m :| Step(a, cs[0], rs[0], m) && Run(m, cs[1..], rs[1..], b);
      var n :| Step(a, cs[0], rs2[0], n) && Run(n, cs[1..], rs2[1..], b2);
      StepDetermined(a, cs[0], rs[0], m, rs2[0], n);
      BufferingIsInvisible(m, cs[1..], rs[1..], b, rs2[1..], b2);
      forall i | 0 <= i < |cs| ensures Agree(rs[i], rs2[i]) {
        if i > 0 {
          assert Agree(rs[1..][i - 1], rs2[1..][i - 1]);
        }
      }
    }
  }

  /** Two streams over the same bytes, however they buffer them and however their devices deliver them, answer alike. */
  method PerformTwice(s: BufferedStream, s2: BufferedStream, cs: seq<Command>)
    returns (ghost rs: seq<Reply>, ghost rs2: seq<Reply>)
    requires s != s2 && s.cache != s2.cache && Reliable(s) && Reliable(s2) && Seen(s) == Seen(s2)
    requires forall i :: 0 <= i < |cs| ==> Proper(cs[i]) && !cs[i].Get?
    modifies s, s.cache, s2, s2.cache
    ensures Reliable(s) && Reliable(s2) && Seen(s) == Seen(s2)
    ensures |rs| == |rs2| == |cs| && forall i :: 0 <= i < |cs| ==> Agree(rs[i], rs2[i])
  {
    ghost var a := Seen(s);
    rs := PerformAll(s, cs);
    rs2 := PerformAll(s2, cs);
    BufferingIsInvisible(a, cs, rs, Seen(s), rs2, Seen(s2));
  }
}
