/** A stream whose only cache holds either bytes read ahead or bytes not yet written. */
module Streams {
  import opened Utf8
  import opened Decoder
  import opened Tokens
  import Chunks

  datatype CacheContent = Read | Write

  const INVALID_CHARACTER := -256

  /** A byte as a signed character. */
  function Character(b: byte): (c: int)
    ensures c != INVALID_CHARACTER && -128 <= c < 128 && (c - b as int) % 256 == 0
  {
    if b < 128 then b else b - 256
  }

  /** A source that never answers "nothing now" while it still has bytes. */
  ghost predicate NeverDry(answers: seq<int>) {
    forall i :: 0 <= i < |answers| ==> answers[i] != 0
  }

  ghost predicate NeverFails(answers: seq<int>) {
    forall i :: 0 <= i < |answers| ==> answers[i] >= 0
  }

  function Rest(answers: seq<int>): seq<int> {
    if answers == [] then [] else answers[1..]
  }

  /** `later` is what is left of `answers` after some of them were given. */
  ghost predicate Later(answers: seq<int>, later: seq<int>) {
    |later| <= |answers| && later == answers[|answers| - |later|..]
  }

  /** The text that bytes stand for. */
  ghost function Decoded(s: seq<byte>): seq<nat> {
    Units(Pieces(Effective(s, |s|)))
  }

  /** Of what was unread `n` bytes became a text and the others are still unread. */
  ghost predicate Consumed(before: seq<byte>, after: seq<byte>, n: nat, units: seq<nat>) {
    n <= |before| && after == before[n..] && units == Decoded(before[..n])
  }

  /** The length of the longest common front. */
  ghost function Common(p: seq<byte>, u: seq<byte>): (k: nat)
    ensures k <= |p| && k <= |u| && p[..k] == u[..k]
    ensures k < |p| && k < |u| ==> p[k] != u[k]
  {
    if p == [] || u == [] || p[0] != u[0] then 0 else 1 + Common(p[1..], u[1..])
  }

  ghost predicate Matched(p: seq<byte>, u: seq<byte>, k: nat, after: seq<byte>) {
    k <= Common(p, u) && after == u[k..]
  }

  lemma {:induction false} MatchedStep(p: seq<byte>, u: seq<byte>, k: nat, after: seq<byte>)
    requires Matched(p, u, k, after) && k < |p|
    ensures if after != [] && after[0] == p[k] then Matched(p, u, k + 1, after[1..]) else k == Common(p, u)
  {
    var c := Common(p, u);
    if k < c {
      assert p[..c][k] == u[..c][k];
    }
  }

  /** Of what was unread `n` bytes were delivered and the others are still unread. */
  ghost predicate Delivered(before: seq<byte>, after: seq<byte>, n: nat, data: seq<byte>) {
    n <= |before| && data == before[..n] && after == before[n..]
  }

  /**
    * What a read of a token may do: fail and leave everything unread; consume just the token; or consume what there
    * was when the device had no more.
    */
  ghost predicate Outcome(q: Query, before: seq<byte>, after: seq<byte>, nRead: int, units: seq<nat>, ended: bool) {
    if nRead < 0 then
      after == before && units == [] && !ended
    else
      && Consumed(before, after, nRead, units)
      && nRead <= Token(before, q)
      && (ended || (nRead == Token(before, q) && Complete(before, q)))
  }

  lemma {:induction false} ConsumedFront(s: seq<byte>, t: seq<byte>, n: nat)
    requires n <= |s|
    ensures Consumed(s + t, s[n..] + t, n, Decoded(s[..n]))
  {
    assert (s + t)[..n] == s[..n] && (s + t)[n..] == s[n..] + t;
  }

  /** The first place of a byte, or -1. */
  method FindByte(s: seq<byte>, b: byte) returns (p: int)
    ensures -1 <= p < |s|
    ensures p >= 0 ==> s[p] == b
    ensures forall i :: 0 <= i < (if p < 0 then |s| else p) ==> s[i] != b
  {
    p := 0;
    while p < |s| && s[p] != b
      invariant 0 <= p <= |s|
      invariant forall i :: 0 <= i < p ==> s[i] != b
    {
      p := p + 1;
    }
    if p == |s| {
      p := -1;
    }
  }

  /** The first byte that is a member: the least of the first places of the members. */
  method FindFirstOf(s: seq<byte>, members: seq<byte>) returns (p: int)
    ensures -1 <= p < |s|
    ensures p >= 0 ==> s[p] in members
    ensures forall i :: 0 <= i < (if p < 0 then |s| else p) ==> s[i] !in members
  {
    p := -1;
    var smallestIndex := |s| + 1;
    for i := 0 to |members|
      invariant smallestIndex == if p < 0 then |s| + 1 else p
      invariant -1 <= p < |s|
      invariant p >= 0 ==> s[p] in members
      invariant forall m, j :: 0 <= m < i && 0 <= j < (if p < 0 then |s| else p) ==> s[j] != members[m]
    {
      var index := FindByte(s, members[i]);
      if index < 0 || index >= smallestIndex {
        continue;
      }
      smallestIndex, p := index, index;
    }
  }

  /** The first byte that is not a member. */
  method FindFirstOtherThan(s: seq<byte>, members: seq<byte>) returns (p: int)
    ensures -1 <= p < |s|
    ensures p >= 0 ==> s[p] !in members
    ensures forall i :: 0 <= i < (if p < 0 then |s| else p) ==> s[i] in members
  {
    for i := 0 to |s|
      invariant forall j :: 0 <= j < i ==> s[j] in members
    {
      var q := FindByte(members, s[i]);
      if q >= 0 {
        continue;
      }
      return i;
    }
    p := -1;
  }

  /** The first byte that ends the token, or -1. */
  method FindDelim(s: seq<byte>, q: Query) returns (p: int)
    ensures -1 <= p < |s|
    ensures p >= 0 ==> Ends(s[p], q)
    ensures forall i :: 0 <= i < (if p < 0 then |s| else p) ==> !Ends(s[i], q)
  {
    if q.isStopSet {
      p := FindFirstOf(s, Members(q.chars));
    } else {
      p := FindFirstOtherThan(s, Members(q.chars));
    }
  }

  class BufferedStream {
    var bufferedIO: bool
    var ioBufferSize: int
    var valid: bool
    var failed: bool
    var cache: array<byte>
    var cachedBytes: nat
    var cacheContent: CacheContent
    // The device underneath: what it will still deliver and in which portions, and what it was given.
    var source: seq<byte>
    var answers: seq<int>
    var sink: seq<byte>

    ghost predicate Valid()
      reads this, cache
    {
      cachedBytes <= cache.Length && (bufferedIO || Unwritten() == [])
    }

    ghost function Cached(): seq<byte>
      reads this, cache
      requires cachedBytes <= cache.Length
    {
      cache[..cachedBytes]
    }

    ghost function ReadAhead(): seq<byte>
      reads this, cache
      requires cachedBytes <= cache.Length
    {
      if cacheContent == Read then Cached() else []
    }

    /** The bytes that are still to be read. */
    ghost function Unread(): seq<byte>
      reads this, cache
      requires cachedBytes <= cache.Length
    {
      ReadAhead() + source
    }

    ghost function Unwritten(): seq<byte>
      reads this, cache
      requires cachedBytes <= cache.Length
    {
      if cacheContent == Write then Cached() else []
    }

    /** All bytes the stream has accepted for writing, in order. */
    ghost function Accepted(): seq<byte>
      reads this, cache
      requires cachedBytes <= cache.Length
    {
      sink + Unwritten()
    }

    /** Nothing is left to be written and these bytes are left to be read. */
    ghost predicate Reading(unread: seq<byte>)
      reads this, cache
    {
      Valid() && Unwritten() == [] && Unread() == unread && (cachedBytes > 0 ==> cacheContent == Read)
    }

    predicate Good()
      reads this
    {
      valid && !failed
    }

    /** No write that is longer than this is ever kept in the cache. */
    function LargestWrite(): int
      reads this
    {
      if ioBufferSize > cache.Length then ioBufferSize else cache.Length
    }

    /** An empty cache that is still marked as holding bytes to write. */
    predicate Stranded()
      reads this
    {
      cacheContent == Write && cachedBytes == 0
    }

    constructor (source: seq<byte>, answers: seq<int>)
      ensures Valid() && fresh(cache) && Good()
      ensures Unread() == source && this.answers == answers && Accepted() == []
    {
      bufferedIO, ioBufferSize, valid, failed := true, 1024, true, false;
      cache, cachedBytes, cacheContent := new byte[1](_ => 0), 0, Read;
      this.source, this.answers, sink := source, answers, [];
    }

    /** The device delivers the next bytes, as many as it likes of those asked for, or none, or fails. */
    method DoRead(buffer: array<byte>, off: nat, size: nat) returns (nRead: int)
      requires off + size <= buffer.Length
      modifies `source, `answers, buffer
      ensures answers == Rest(old(answers)) && nRead <= size
      ensures nRead < 0 ==> old(answers) != [] && old(answers[0]) < 0 && source == old(source)
      ensures nRead >= 0 ==> nRead <= |old(source)| && source == old(source[nRead..])
      ensures nRead >= 0 ==> buffer[off..off + nRead] == old(source[..nRead])
      ensures nRead == 0 < size && old(source) != [] ==> old(answers) != [] && old(answers[0]) == 0
      ensures forall i :: 0 <= i < off ==> buffer[i] == old(buffer[i])
    {
      nRead := size;
      if answers != [] {
        nRead := if answers[0] < size then answers[0] else size;
        answers := answers[1..];
      }
      if nRead > |source| {
        nRead := |source|;
      }
      if nRead < 0 {
        return;
      }
      forall i | 0 <= i < nRead {
        buffer[off + i] := source[i];
      }
      source := source[nRead..];
    }

    method DoWrite(data: seq<byte>) returns (written: int)
      modifies `sink
      ensures sink == old(sink) + data && written == |data|
    {
      sink := sink + data;
      written := |data|;
    }

    method Flush()
      requires Valid()
      modifies `sink, `cachedBytes, `cacheContent
      ensures Valid() && Unwritten() == [] && cacheContent == (if old(cachedBytes) > 0 then Read else old(cacheContent))
      ensures Accepted() == old(Accepted()) && Unread() == old(Unread())
    {
      if cacheContent == Write && cachedBytes > 0 {
        var _ := DoWrite(cache[..cachedBytes]);
        cachedBytes := 0;
        cacheContent := Read;
      }
    }

    method FlushWriteBuffer()
      requires Valid()
      modifies `sink, `cachedBytes, `cacheContent
      ensures Reading(old(Unread())) && Accepted() == old(Accepted()) && Stranded() == old(Stranded())
    {
      if cacheContent != Write || cachedBytes == 0 {
        return;
      }
      Flush();
    }

    /** Whether these bytes wait to be written, unless they fill the cache to its end and so were written. */
    ghost predicate Keeps(s: seq<byte>)
      reads this, cache
      requires cachedBytes <= cache.Length
    {
      Unwritten() == s || (Unwritten() == [] && |s| == cache.Length)
    }

    /** Writes through the cache: the order of the bytes accepted is kept, whatever is written at once and whatever
        later. What fits the larger of the buffer size and the cache, with what waits already or else alone, waits. */
    method Output(data: seq<byte>) returns (written: int)
      requires Valid()
      modifies this, cache
      ensures Valid() && (cache == old(cache) || fresh(cache)) && written == |data|
      ensures Accepted() == old(Accepted()) + data && Unread() == old(Unread())
      ensures bufferedIO == old(bufferedIO) && ioBufferSize == old(ioBufferSize) && valid == old(valid)
        && failed == old(failed)
      ensures answers == old(answers)
      ensures old(Unwritten()) != [] && |data| > old(LargestWrite()) ==> Stranded()
      ensures data == [] ==> Unwritten() == old(Unwritten())
      ensures data != [] && (!bufferedIO || old(ReadAhead()) != []) ==> Unwritten() == []
      ensures data != [] && bufferedIO && old(ReadAhead()) == [] ==>
        var max := if ioBufferSize > old(cache.Length) then ioBufferSize else old(cache.Length);
        if |old(Unwritten())| + |data| <= max then Keeps(old(Unwritten()) + data)
        else if |data| <= max then Keeps(data) else Unwritten() == []
    {
      if |data| == 0 {
        return 0;
      }
      if !bufferedIO || (cacheContent == Read && cachedBytes > 0) {
        written := DoWrite(data);
        return;
      }
      var maxWrite := if LargestWrite() - cachedBytes > 0 then LargestWrite() - cachedBytes else 0;
      if |data| > maxWrite && cachedBytes > 0 {
        var _ := DoWrite(cache[..cachedBytes]);
        maxWrite := maxWrite + cachedBytes;
        cachedBytes := 0;
      }
      if |data| > maxWrite {
        assert cachedBytes == 0;
        written := DoWrite(data);
        return;
      }
      written := Append(data);
    }

    method Append(data: seq<byte>) returns (written: int)
      requires Valid() && data != [] && bufferedIO && (cacheContent == Read ==> cachedBytes == 0)
      modifies `sink, `cachedBytes, `cacheContent, `cache, cache
      ensures Valid() && (cache == old(cache) || fresh(cache)) && written == |data|
      ensures Accepted() == old(Accepted()) + data && Unread() == old(Unread())
      ensures Keeps(old(Cached()) + data)
    {
      ghost var before := Cached();
      AppendBytes(data);
      cacheContent := Write;
      assert sink + (before + data) == sink + before + data;
      if cachedBytes == cache.Length {
        var _ := DoWrite(cache[..cachedBytes]);
        cachedBytes := 0;
        cacheContent := Read;
      }
      written := |data|;
    }

    method AppendBytes(data: seq<byte>)
      requires cachedBytes <= cache.Length && data != []
      modifies `cache, `cachedBytes, cache
      ensures (cache == old(cache) || fresh(cache)) && cachedBytes == old(cachedBytes) + |data| <= cache.Length
      ensures Cached() == old(Cached()) + data
    {
      ghost var s := Cached();
      var n := cachedBytes;
      cache := Chunks.Grow(cache, cachedBytes + |data|, 0);
      assert cache[..n] == s;
      forall i | n <= i < n + |data| {
        cache[i] := data[i - n];
      }
      Chunks.Joined(cache[..], s, data);
      cachedBytes := cachedBytes + |data|;
    }

    method SetBufferedIO(buffered: bool)
      requires Valid()
      modifies `sink, `cachedBytes, `cacheContent, `bufferedIO
      ensures Valid() && bufferedIO == buffered && Unwritten() == []
      ensures Accepted() == old(Accepted()) && Unread() == old(Unread())
    {
      FlushWriteBuffer();
      bufferedIO := buffered;
    }

    method SetIoBufferSize(size: int)
      requires Valid()
      modifies `sink, `cachedBytes, `cacheContent, `ioBufferSize
      ensures Valid() && ioBufferSize == size && Unwritten() == []
      ensures Accepted() == old(Accepted()) && Unread() == old(Unread())
    {
      FlushWriteBuffer();
      ioBufferSize := size;
    }

    /** Reads one byte ahead; a failing device is asked again. */
    method FetchOne() returns (nRead: nat)
      requires 1 <= cache.Length
      modifies `source, `answers, cache
      ensures nRead <= 1 && nRead <= |old(source)| && Later(old(answers), answers)
      ensures source == old(source[nRead..]) && cache[..nRead] == old(source[..nRead])
      ensures NeverDry(old(answers)) && old(source) != [] ==> nRead == 1
    {
      var n := -1;
      while n < 0
        invariant -1 <= n <= 1 || n < 0
        invariant n <= |old(source)| && Later(old(answers), answers)
        invariant source == if n < 0 then old(source) else old(source[n..])
        invariant n >= 0 ==> cache[..n] == old(source[..n])
        invariant NeverDry(old(answers)) && old(source) != [] ==> n != 0
        decreases |answers| + if n < 0 then 1 else 0
      {
        LaterAgain(old(answers), answers);
        n := DoRead(cache, 0, 1);
      }
      nRead := n;
    }

    /** The next character without taking it. */
    method Peek() returns (c: int)
      requires Valid()
      modifies `sink, `cachedBytes, `cacheContent, `source, `answers, `cache, cache
      ensures Valid() && (cache == old(cache) || fresh(cache)) && Later(old(answers), answers)
      ensures Accepted() == old(Accepted()) && Unwritten() == [] && Unread() == old(Unread())
      ensures c == if cachedBytes > 0 then Character(Unread()[0]) else INVALID_CHARACTER
      ensures cachedBytes > 0 ==> -128 <= c < 128 && (c - Unread()[0] as int) % 256 == 0
      ensures cachedBytes > 0 ==> cacheContent == Read
      ensures Good() && NeverDry(old(answers)) && Unread() != [] ==> cachedBytes > 0
    {
      FlushWriteBuffer();
      if cachedBytes == 0 && Good() {
        cache := Chunks.Grow(cache, 1, 0);
        var nRead := FetchOne();
        if nRead > 0 {
          cachedBytes := 1;
          cacheContent := Read;
        }
      }
      c := if cachedBytes > 0 then Character(cache[0]) else INVALID_CHARACTER;
    }

    /** Drops `n` bytes from the front of the cache. */
    method Drop(n: nat)
      requires n <= cachedBytes <= cache.Length
      modifies `cachedBytes, cache
      ensures cachedBytes == old(cachedBytes) - n && Cached() == old(Cached())[n..]
    {
      cachedBytes := cachedBytes - n;
      Chunks.Move(cache, 0, n, cachedBytes);
    }

    /** Takes `n` bytes from the front of the cache and decodes them. */
    method Take(n: nat) returns (message: Utf8Decoder)
      requires n <= cachedBytes <= cache.Length && (cachedBytes > 0 ==> cacheContent == Read)
      modifies `cachedBytes, cache
      ensures fresh(message) && message.Valid() && cachedBytes == old(cachedBytes) - n && |ReadAhead()| == cachedBytes
      ensures Consumed(old(Unread()), Unread(), n, message.units)
    {
      ghost var s := Cached();
      ConsumedFront(s, source, n);
      assert Unread() == s + source;
      message := Decode(n);
      Drop(n);
    }

    method Decode(n: nat) returns (message: Utf8Decoder)
      requires n <= cachedBytes <= cache.Length
      ensures fresh(message) && message.Valid() && message.units == Decoded(Cached()[..n])
    {
      assert cache[..n] == Cached()[..n];
      message := new Utf8Decoder();
      message.DecodeBytes(cache[..n], n);
    }

    /** Whether the cache already holds a whole token, and how long it is. */
    method TokenInCache(q: Query) returns (found: bool, cached: nat)
      requires cachedBytes <= cache.Length && (cachedBytes > 0 ==> cacheContent == Read)
      requires q.maxCount >= 1 && (q.isStopSet || !q.extractDelim)
      ensures found == Complete(ReadAhead(), q)
      ensures found ==> cached == Token(ReadAhead(), q)
    {
      found, cached := false, 0;
      var toReadFromCache: nat := if cachedBytes < q.maxCount then cachedBytes else q.maxCount;
      var p := FindDelim(cache[..toReadFromCache], q);
      if p >= 0 {
        cached := p + if q.isStopSet && q.extractDelim then 1 else 0;
      } else {
        cached := toReadFromCache;
      }
      found := cached == q.maxCount || p >= 0;
      assert Cached() == ReadAhead();
      SpanIs(Cached(), q, if p >= 0 then p else toReadFromCache);
    }

    /** How many bytes are asked for at a time: without buffering only one. */
    ghost function ChunkSize(): int
      reads this
    {
      if bufferedIO then ioBufferSize else 1
    }

    /** Asks the device for more bytes behind those in the cache. */
    method FetchMore(q: Query) returns (nRead: int, ghost n: nat)
      requires cachedBytes <= cache.Length && cachedBytes < q.maxCount && (bufferedIO ==> ioBufferSize > 0)
      modifies `source, `answers, `cache, cache
      ensures (cache == old(cache) || fresh(cache)) && answers == Rest(old(answers))
      ensures n == (if nRead < 0 then 0 else nRead) <= |old(source)| && source == old(source)[n..]
      ensures cachedBytes + n <= cache.Length && cachedBytes + n <= q.maxCount && nRead <= ChunkSize()
      ensures cache[..cachedBytes + n] == old(Cached()) + old(source)[..n]
      ensures nRead < 0 ==> old(answers) != [] && old(answers[0]) < 0
      ensures nRead == 0 && old(source) != [] ==> old(answers) != [] && old(answers[0]) == 0
    {
      ghost var before := Cached();
      var reqReadSize := if bufferedIO then ioBufferSize else 1;
      var readSize := if reqReadSize < q.maxCount - cachedBytes then reqReadSize else q.maxCount - cachedBytes;
      cache := Chunks.Grow(cache, cachedBytes + readSize, 0);
      assert cache[..cachedBytes] == before;
      nRead := DoRead(cache, cachedBytes, readSize);
      n := if nRead < 0 then 0 else nRead;
      assert cache[..cachedBytes] == before;
      assert cache[..cachedBytes + n] == cache[..cachedBytes] + cache[cachedBytes..cachedBytes + n];
    }

    /** Puts one more chunk into the cache and looks for the end of the token in it. */
    method ReadChunk(q: Query, ghost unread: seq<byte>) returns (nRead: int, p: int)
      requires Reading(unread) && !Complete(ReadAhead(), q) && (bufferedIO ==> ioBufferSize > 0)
      modifies `source, `answers, `cache, `cachedBytes, `cacheContent, cache
      ensures Reading(unread) && (cache == old(cache) || fresh(cache)) && answers == Rest(old(answers))
      ensures nRead <= 0 ==> ReadAhead() == old(ReadAhead())
      ensures nRead < 0 ==> old(answers) != [] && old(answers[0]) < 0
      ensures nRead == 0 && source != [] ==> old(answers) != [] && old(answers[0]) == 0
      ensures nRead > 0 ==> cachedBytes == |ReadAhead()| == old(cachedBytes) + nRead <= q.maxCount && -1 <= p < nRead
      ensures nRead > 0 ==> Span(ReadAhead(), q) == old(cachedBytes) + if p < 0 then nRead else p
      ensures nRead <= ChunkSize()
    {
      hide Span, NeverFails, Delimits, IsToken, Ends, Token;
      ghost var s, d, n := ReadAhead(), source, 0;
      p := -1;
      assert s == Cached();
      nRead, n := FetchMore(q);
      ChunkBehind(s, d, n);
      if nRead > 0 {
        p := LookForEnd(q, nRead, s);
      } else {
        assert Cached() == s;
      }
    }

    /** Takes `n` bytes that were put behind the cached ones into the cache. */
    method LookForEnd(q: Query, n: nat, ghost s: seq<byte>) returns (p: int)
      requires cachedBytes == |s| && |s| + n <= cache.Length && |s| + n <= q.maxCount && n > 0
      requires cache[..|s|] == s && !Complete(s, q)
      modifies `cachedBytes, `cacheContent
      ensures cacheContent == Read && cachedBytes == |s| + n && -1 <= p < n
      ensures Span(Cached(), q) == |s| + if p < 0 then n else p
    {
      var chunk := cache[cachedBytes..cachedBytes + n];
      p := FindDelim(chunk, q);
      assert cache[..|s| + n] == s + chunk;
      Grown(s, chunk, q, p);
      cachedBytes := cachedBytes + n;
      cacheContent := Read;
    }

    /** Whether the cache holds a whole token of `n` bytes, or no more could be read. */
    ghost predicate Filled(q: Query, unread: seq<byte>, n: int, byDelim: bool)
      reads this, cache
    {
      && Reading(unread)
      && (n >= 0 ==> (byDelim || n > 0) == Complete(ReadAhead(), q))
      && (n >= 0 && byDelim ==> n == Token(ReadAhead(), q))
      && (n > 0 && !byDelim ==> n == cachedBytes == Token(ReadAhead(), q))
    }

    /** Reads ahead until the cache holds a whole token, or the device has nothing now or fails. */
    method Fill(q: Query, ghost unread: seq<byte>) returns (nRead: int, byDelim: bool)
      requires Reading(unread) && !Complete(ReadAhead(), q) && (bufferedIO ==> ioBufferSize > 0)
      requires q.isStopSet || !q.extractDelim
      modifies `source, `answers, `cache, `cachedBytes, `cacheContent, cache
      ensures Filled(q, unread, nRead, byDelim) && (cache == old(cache) || fresh(cache)) && Later(old(answers), answers)
      ensures nRead < 0 ==> |answers| < |old(answers)| && !NeverFails(old(answers))
      ensures nRead == 0 && !byDelim && NeverDry(old(answers)) ==> source == []
      ensures byDelim ==> cachedBytes - nRead <= ChunkSize()
    {
      hide NeverFails, NeverDry;
      byDelim := false;
      while true
        invariant Reading(unread) && (cache == old(cache) || fresh(cache)) && Later(old(answers), answers)
        invariant !Complete(ReadAhead(), q) && !byDelim
        decreases q.maxCount - cachedBytes
      {
        LaterAgain(old(answers), answers);
        var p := -1;
        nRead, p := ReadChunk(q, unread);
        if nRead <= 0 {
          break;
        }
        byDelim := p >= 0;
        if byDelim {
          nRead := cachedBytes - nRead + p + if q.isStopSet && q.extractDelim then 1 else 0;
          break;
        }
        if cachedBytes >= q.maxCount {
          nRead := q.maxCount;
          break;
        }
      }
    }

    /** Takes what was read: the token, or all there is if the device had nothing more. */
    method Settle(q: Query, found: nat, byDelim: bool, ghost unread: seq<byte>)
      returns (nRead: nat, message: Utf8Decoder, ghost ended: bool)
      requires Filled(q, unread, found, byDelim) && (byDelim ==> cachedBytes - found <= ChunkSize())
      requires ChunkSize() >= 1
      modifies `cachedBytes, `valid, cache
      ensures Valid() && Unwritten() == [] && fresh(message) && message.Valid()
      ensures Outcome(q, unread, Unread(), nRead, message.units, ended)
      ensures ended == (found == 0 && !byDelim)
      ensures if ended then !valid && ReadAhead() == [] else valid == (nRead > 0 || !q.isStopSet)
      ensures ended && source == [] ==> !Complete(unread, q)
      ensures |ReadAhead()| <= ChunkSize()
    {
      ended := found == 0 && !byDelim;
      valid := found != 0 || (byDelim && !q.isStopSet);
      nRead := if byDelim then found else cachedBytes;
      assert Cached() == ReadAhead();
      EndOfRead(ReadAhead(), source, q, nRead, ended, unread);
      message := Take(nRead);
    }

    method TakeToken(q: Query, n: nat, ghost unread: seq<byte>) returns (message: Utf8Decoder)
      requires Reading(unread) && Complete(ReadAhead(), q) && n == Token(ReadAhead(), q)
      modifies `cachedBytes, cache
      ensures Valid() && Unwritten() == [] && fresh(message) && message.Valid()
      ensures Outcome(q, unread, Unread(), n, message.units, false)
    {
      EndOfRead(ReadAhead(), source, q, n, false, unread);
      assert Cached() == ReadAhead();
      message := Take(n);
    }

    /** Reads a token that the cache does not hold yet. */
    method ReadOn(q: Query, ghost unread: seq<byte>) returns (nRead: int, message: Utf8Decoder, ghost ended: bool)
      requires Reading(unread) && !Complete(ReadAhead(), q) && (bufferedIO ==> ioBufferSize > 0)
      requires q.isStopSet || !q.extractDelim
      modifies `source, `answers, `cache, `cachedBytes, `cacheContent, `valid, cache
      ensures Valid() && (cache == old(cache) || fresh(cache)) && Later(old(answers), answers)
      ensures Unwritten() == [] && fresh(message) && message.Valid()
      ensures Outcome(q, unread, Unread(), nRead, message.units, ended)
      ensures nRead < 0 ==> |answers| < |old(answers)| && !NeverFails(old(answers)) && valid == old(valid)
      ensures nRead >= 0 ==> valid == (!ended && (nRead > 0 || !q.isStopSet))
      ensures ended ==> ReadAhead() == [] && (NeverDry(old(answers)) ==> Unread() == [] && !Complete(unread, q))
      ensures nRead >= 0 ==> |ReadAhead()| <= ChunkSize()
    {
      hide NeverFails, IsToken, Span, Stranded, Keeps, LargestWrite;
      var byDelim: bool;
      nRead, byDelim := Fill(q, unread);
      if nRead < 0 {
        ended := false;
        message := new Utf8Decoder();
      } else {
        nRead, message, ended := Settle(q, nRead, byDelim, unread);
      }
    }

    /**
      * Reads a token. On a failed read nothing is consumed; otherwise the front of the unread bytes is, and how
      * much of it depends on the unread bytes alone unless the device says that it has nothing now.
      */
    method SemanticRead(q: Query) returns (nRead: int, message: Utf8Decoder, ghost ended: bool)
      requires Valid() && q.maxCount >= 1 && (q.isStopSet || !q.extractDelim) && (bufferedIO ==> ioBufferSize > 0)
      modifies `sink, `source, `answers, `cache, `cachedBytes, `cacheContent, `valid, cache
      ensures Valid() && (cache == old(cache) || fresh(cache)) && Later(old(answers), answers)
      ensures Accepted() == old(Accepted()) && Unwritten() == [] && fresh(message) && message.Valid()
      ensures Outcome(q, old(Unread()), Unread(), nRead, message.units, ended)
      ensures nRead < 0 ==> |answers| < |old(answers)| && !NeverFails(old(answers)) && valid == old(valid)
      ensures nRead >= 0 ==>
        valid == if Complete(old(ReadAhead()), q) then old(valid) else !ended && (nRead > 0 || !q.isStopSet)
      ensures ended ==> ReadAhead() == [] && (NeverDry(old(answers)) ==> Unread() == [] && !Complete(old(Unread()), q))
      ensures nRead >= 0 && NeverDry(old(answers)) ==> nRead == Token(old(Unread()), q)
      ensures nRead >= 0 && NeverDry(old(answers)) ==> IsToken(old(Unread()), q, nRead)
      ensures nRead >= 0 && old(ReadAhead()) == [] ==> |ReadAhead()| <= if bufferedIO then ioBufferSize else 1
    {
      hide NeverFails, IsToken, Span, Stranded, Keeps, LargestWrite;
      TokenIsToken(Unread(), q);
      FlushWriteBuffer();
      ghost var unread := Unread();
      var found, cached := TokenInCache(q);
      if found {
        nRead, ended := cached, false;
        message := TakeToken(q, cached, unread);
      } else {
        nRead, message, ended := ReadOn(q, unread);
      }
    }

    /**
      * Reads a token that the unread bytes decide, from a valid stream whose device neither fails nor runs dry.
      * Whether the stream is valid afterwards depends on what was read ahead exactly if the token is empty and up
      * to a byte of a stop set.
      */
    method ReadDecided(q: Query) returns (n: int)
      requires Valid() && valid && q.maxCount >= 1 && (q.isStopSet || !q.extractDelim)
      requires bufferedIO ==> ioBufferSize > 0
      requires NeverDry(answers) && NeverFails(answers) && Complete(Unread(), q)
      modifies `sink, `source, `answers, `cache, `cachedBytes, `cacheContent, `valid, cache
      ensures Valid() && n == Token(old(Unread()), q) && Unread() == old(Unread())[n..]
      ensures n > 0 || !q.isStopSet ==> valid
      ensures n == 0 && q.isStopSet ==> valid == (old(ReadAhead()) != [])
    {
      ghost var ahead, unread := ReadAhead(), Unread();
      ghost var ended;
      var message;
      n, message, ended := SemanticRead(q);
      if n == 0 && q.isStopSet && ahead != [] {
        assert unread[0] == ahead[0];
        SpanIs(ahead, q, 0);
      }
    }

    /** With a delimiter in front a stream stays valid after the empty token if it was peeked at before. */
    method PeekThenRead(q: Query) returns (n: int)
      requires Valid() && Good() && q.maxCount >= 1 && q.isStopSet && !q.extractDelim
      requires bufferedIO ==> ioBufferSize > 0
      requires NeverDry(answers) && NeverFails(answers) && Unread() != [] && Ends(Unread()[0], q)
      modifies `sink, `source, `answers, `cache, `cachedBytes, `cacheContent, `valid, cache
      ensures Valid() && n == 0 && Unread() == old(Unread()) && valid
    {
      SpanIs(Unread(), q, 0);
      var _ := Peek();
      n := ReadDecided(q);
    }

    /** Without a look ahead the same read of the same bytes leaves the stream invalid. */
    method ReadUnpeeked(q: Query) returns (n: int)
      requires Valid() && Good() && q.maxCount >= 1 && q.isStopSet && !q.extractDelim
      requires bufferedIO ==> ioBufferSize > 0
      requires NeverDry(answers) && NeverFails(answers) && Unread() != [] && Ends(Unread()[0], q) && ReadAhead() == []
      modifies `sink, `source, `answers, `cache, `cachedBytes, `cacheContent, `valid, cache
      ensures Valid() && n == 0 && Unread() == old(Unread()) && !valid
    {
      SpanIs(Unread(), q, 0);
      n := ReadDecided(q);
    }

    /** Asks again as long as reads fail; an interrupted read goes on where it stopped. */
    method ReadRetry(q: Query) returns (nRead: int, message: Utf8Decoder)
      requires Valid() && q.maxCount >= 1 && (q.isStopSet || !q.extractDelim) && (bufferedIO ==> ioBufferSize > 0)
      modifies `sink, `source, `answers, `cache, `cachedBytes, `cacheContent, `valid, cache
      ensures Valid() && (cache == old(cache) || fresh(cache)) && Later(old(answers), answers)
      ensures Accepted() == old(Accepted()) && fresh(message) && message.Valid()
      ensures old(Good()) == (nRead >= 0)
      ensures nRead < 0 ==> Unread() == old(Unread()) && message.units == []
      ensures nRead >= 0 ==> Consumed(old(Unread()), Unread(), nRead, message.units) && nRead <= Token(old(Unread()), q)
      ensures nRead >= 0 && NeverDry(old(answers)) ==> nRead == Token(old(Unread()), q)
    {
      nRead := -1;
      message := new Utf8Decoder();
      LaterAgain(old(answers), answers);
      while Good() && nRead < 0
        invariant Valid() && (cache == old(cache) || fresh(cache)) && Later(old(answers), answers)
        invariant Accepted() == old(Accepted()) && fresh(message) && message.Valid()
          && (nRead < 0 ==> Good() == old(Good()))
        invariant nRead >= 0 ==> old(Good()) && Consumed(old(Unread()), Unread(), nRead, message.units)
        invariant nRead >= 0 ==> nRead <= Token(old(Unread()), q)
        invariant nRead >= 0 && NeverDry(old(answers)) ==> nRead == Token(old(Unread()), q)
        invariant nRead < 0 ==> Unread() == old(Unread()) && message.units == []
        decreases |answers| + if nRead < 0 then 1 else 0
      {
        ghost var before := answers;
        LaterAgain(old(answers), answers);
        ghost var ended;
        nRead, message, ended := SemanticRead(q);
        LaterYet(old(answers), before, answers);
      }
    }

    /** Copies what was read ahead to the caller's buffer. */
    method CopyCached(buffer: array<byte>, size: nat) returns (n: nat)
      requires cachedBytes <= cache.Length && (cachedBytes > 0 ==> cacheContent == Read)
      requires size <= buffer.Length && buffer != cache
      modifies `cachedBytes, cache, buffer
      ensures n == (if |old(ReadAhead())| > size then size else |old(ReadAhead())|)
        && cachedBytes == |old(ReadAhead())| - n
      ensures cachedBytes == 0 ==> Unread() == source
      ensures |ReadAhead()| == cachedBytes && Delivered(old(Unread()), Unread(), n, buffer[..n])
    {
      ghost var s := Cached();
      ConsumedFront(s, source, if cachedBytes > size then size else cachedBytes);
      assert Unread() == s + source;
      n := if cachedBytes > size then size else cachedBytes;
      forall i | 0 <= i < n {
        buffer[i] := cache[i];
      }
      assert buffer[..n] == s[..n];
      Drop(n);
    }

    /** Reads the rest of what the caller wants from the device. */
    method InputRest(buffer: array<byte>, n: nat, size: nat, ghost unread: seq<byte>) returns (nRead: int)
      requires n < size <= buffer.Length && buffer != cache && cachedBytes == 0
      requires Delivered(unread, source, n, buffer[..n])
      modifies `source, `answers, `valid, buffer
      ensures n <= nRead <= size || nRead < 0 == n
      ensures answers == Rest(old(answers))
      ensures nRead >= 0 ==> Delivered(unread, source, nRead, buffer[..nRead])
      ensures nRead < 0 ==> source == unread && old(answers) != [] && old(answers[0]) < 0
      ensures nRead == 0 && unread != [] ==> old(answers) != [] && old(answers[0]) == 0
    {
      ghost var front := buffer[..n];
      nRead := n;
      var physRead := DoRead(buffer, n, size - n);
      assert buffer[..n] == front;
      if physRead >= 0 {
        nRead := n + physRead;
        assert buffer[..nRead] == front + buffer[n..nRead];
        DeliveredMore(unread, n, physRead);
      } else if n == 0 {
        nRead := physRead;
      }
      if physRead == 0 {
        valid := false;
      }
    }

    /** Reads into the caller's buffer: first what was read ahead, then what the device delivers. */
    method Input(buffer: array<byte>, size: nat) returns (nRead: int)
      requires Valid() && size <= buffer.Length && buffer != cache
      modifies `sink, `source, `answers, `cachedBytes, `cacheContent, `valid, cache, buffer
      ensures Valid() && cache == old(cache) && Accepted() == old(Accepted()) && Unwritten() == []
      ensures nRead <= size && (answers == old(answers) || answers == Rest(old(answers)))
      ensures nRead >= 0 ==> Delivered(old(Unread()), Unread(), nRead, buffer[..nRead])
      ensures nRead < 0 ==> Unread() == old(Unread()) && old(answers) != [] && old(answers[0]) < 0
      ensures nRead == 0 && size > 0 && old(Unread()) != [] ==> old(answers) != [] && old(answers[0]) == 0
      ensures size > 0 && old(ReadAhead()) != [] ==> nRead > 0
      ensures size <= |old(ReadAhead())| ==> nRead == size && valid == old(valid) && answers == old(answers)
    {
      FlushWriteBuffer();
      ghost var unread := Unread();
      nRead := CopyCached(buffer, size);
      if nRead < size {
        nRead := InputRest(buffer, nRead, size, unread);
      }
    }

    /** Makes room in front of the cached bytes. */
    method MakeRoom(n: nat)
      requires cachedBytes <= cache.Length && n > 0
      modifies `cache, cache
      ensures (cache == old(cache) || fresh(cache)) && n + cachedBytes <= cache.Length
      ensures forall i :: n <= i < n + cachedBytes ==> cache[i] == old(Cached())[i - n]
    {
      ghost var s := Cached();
      cache := Chunks.Grow(cache, cachedBytes + n, 0);
      assert cache[..cachedBytes] == s;
      Chunks.Move(cache, n, 0, cachedBytes);
    }

    method Prepend(data: seq<byte>)
      requires cachedBytes <= cache.Length && data != []
      modifies `cache, `cachedBytes, cache
      ensures (cache == old(cache) || fresh(cache)) && cachedBytes == old(cachedBytes) + |data| <= cache.Length
      ensures Cached() == data + old(Cached())
    {
      ghost var s := Cached();
      MakeRoom(|data|);
      forall i | 0 <= i < |data| {
        cache[i] := data[i];
      }
      Chunks.Joined(cache[..], data, s);
      cachedBytes := cachedBytes + |data|;
    }

    /**
      * Puts bytes back in front of the unread ones. In a stranded cache they would be taken for bytes to write
      * instead; an assertion of the program forbids that case.
      */
    method PutBack(data: seq<byte>)
      requires Valid() && data != []
      modifies `sink, `cache, `cachedBytes, `cacheContent, cache
      ensures cache == old(cache) || fresh(cache)
      ensures cachedBytes <= cache.Length && !Stranded()
      ensures !old(Stranded()) ==>
        Valid() && Unwritten() == [] && Unread() == data + old(Unread()) && Accepted() == old(Accepted())
      ensures old(Stranded()) ==> Unread() == old(Unread()) && Accepted() == old(Accepted()) + data
    {
      FlushWriteBuffer();
      ghost var s, t := ReadAhead(), source;
      assert Cached() == s;
      Prepend(data);
      assert data + s + t == data + (s + t);
    }

    /** Putting a byte back after a large write that followed a small one: the byte becomes output. */
    method PutBackAfterLargeWrite(data: seq<byte>, back: byte)
      requires Valid() && Unwritten() != [] && |data| > LargestWrite()
      modifies this, cache
      ensures cachedBytes <= cache.Length && Unread() == old(Unread()) && Accepted() == old(Accepted()) + data + [back]
    {
      var _ := Output(data);
      PutBack([back]);
    }

    /** Takes the next byte if it is the expected one; otherwise the stream fails. */
    method ExpectOne(b: byte, dummy: array<byte>) returns (taken: bool)
      requires Valid() && Good() && dummy.Length == 1 && dummy != cache
      modifies `sink, `source, `answers, `cache, `cachedBytes, `cacheContent, `valid, `failed, cache, dummy
      ensures Valid() && (cache == old(cache) || fresh(cache)) && dummy != cache && Accepted() == old(Accepted())
      ensures Later(old(answers), answers) && taken == Good()
      ensures taken ==> old(Unread()) != [] && old(Unread())[0] == b && Unread() == old(Unread())[1..]
      ensures !taken ==> Unread() == old(Unread())
      ensures !taken && NeverDry(old(answers)) ==> Unread() == [] || Unread()[0] != b
    {
      taken := false;
      var extracted := Peek();
      if extracted == INVALID_CHARACTER || extracted != Character(b) {
        failed := true;
        return;
      }
      var _ := Input(dummy, 1);
      taken := true;
    }

    /** The first `k` expected bytes were taken; if the stream failed then at the first byte that differs. */
    ghost predicate Expecting(pattern: seq<byte>, k: nat, unread: seq<byte>, before: seq<int>)
      reads this, cache
    {
      && Valid() && k <= |pattern| && Matched(pattern, unread, k, Unread()) && Later(before, answers)
      && (!Good() ==> k < |pattern| && (NeverDry(before) ==> k == Common(pattern, unread)))
    }

    method ExpectNext(pattern: seq<byte>, i: nat, dummy: array<byte>, ghost unread: seq<byte>, ghost before: seq<int>)
      returns (next: nat)
      requires Expecting(pattern, i, unread, before) && Good() && i < |pattern| && dummy.Length == 1 && dummy != cache
      modifies `sink, `source, `answers, `cache, `cachedBytes, `cacheContent, `valid, `failed, cache, dummy
      ensures (cache == old(cache) || fresh(cache)) && dummy != cache
      ensures Expecting(pattern, next, unread, before) && (if Good() then next == i + 1 else next == i)
      ensures Accepted() == old(Accepted())
    {
      ghost var now := answers;
      LaterAgain(before, now);
      MatchedStep(pattern, unread, i, Unread());
      var taken := ExpectOne(pattern[i], dummy);
      LaterYet(before, now, answers);
      next := if taken then i + 1 else i;
    }

    /** Takes the expected bytes from the front of the unread ones, up to the first that differs. */
    method Expect(pattern: seq<byte>) returns (ghost k: nat)
      requires Valid()
      modifies `sink, `source, `answers, `cache, `cachedBytes, `cacheContent, `valid, `failed, cache
      ensures Valid() && Accepted() == old(Accepted()) && Matched(pattern, old(Unread()), k, Unread())
      ensures old(Good()) ==> Good() == (k == |pattern|)
      ensures if old(Good()) then NeverDry(old(answers)) ==> k == Common(pattern, old(Unread())) else k == 0
    {
      k := 0;
      if !Good() {
        return;
      }
      var i := 0;
      ghost var unread, before := Unread(), answers;
      LaterAgain(before, before);
      assert Expecting(pattern, 0, unread, before);
      var dummy := new byte[1](_ => 0);
      while Good() && i < |pattern|
        invariant dummy.Length == 1 && dummy != cache && fresh(dummy) && (cache == old(cache) || fresh(cache))
        invariant 0 <= i && Expecting(pattern, i, unread, before) && Accepted() == old(Accepted())
        decreases |pattern| - i, Good()
      {
        i := ExpectNext(pattern, i, dummy, unread, before);
      }
      k := i;
    }
  }

  lemma {:induction false} DeliveredMore(before: seq<byte>, n: nat, m: nat)
    requires n + m <= |before|
    ensures Delivered(before, before[n..][m..], n + m, before[..n] + before[n..][..m])
  {
  }

  lemma {:induction false} LaterYet(answers: seq<int>, later: seq<int>, latest: seq<int>)
    requires Later(answers, later) && Later(later, latest)
    ensures Later(answers, latest)
  {
    var k := |answers| - |later|;
    assert latest == answers[k..][|later| - |latest|..] == answers[|answers| - |latest|..];
  }

  lemma {:induction false} LaterAgain(answers: seq<int>, later: seq<int>)
    requires Later(answers, later)
    ensures Later(answers, Rest(later))
    ensures NeverDry(answers) ==> NeverDry(later)
    ensures NeverFails(answers) ==> NeverFails(later)
  {
    var k := |answers| - |later|;
    assert forall i :: 0 <= i < |later| ==> later[i] == answers[k + i];
    assert later != [] ==> answers[k..][1..] == answers[k + 1..];
  }

  lemma {:induction false} EndOfRead(s: seq<byte>, s0: seq<byte>, q: Query, n: nat, ended: bool, unread: seq<byte>)
    requires unread == s + s0 && Complete(s, q) == !ended && n == if ended then |s| else Token(s, q)
    ensures n <= |s| && n <= Token(unread, q)
    ensures !ended ==> n == Token(unread, q) && Complete(unread, q)
    ensures ended && s0 == [] ==> !Complete(unread, q)
  {
    Extended(s, s0, q);
    assert s0 == [] ==> unread == s;
  }

  lemma {:induction false} ChunkBehind(s: seq<byte>, d: seq<byte>, n: nat)
    requires n <= |d|
    ensures s + d == (s + d[..n]) + d[n..] && (s + d[..n])[..|s|] == s
  {
  }

  /** A chunk read behind bytes that do not end the token. */
  lemma {:induction false} Grown(s: seq<byte>, d: seq<byte>, q: Query, p: int)
    requires !Complete(s, q) && -1 <= p < |d| && |s| + |d| <= q.maxCount
    requires p >= 0 ==> Ends(d[p], q)
    requires forall i :: 0 <= i < (if p < 0 then |d| else p) ==> !Ends(d[i], q)
    ensures Span(s + d, q) == |s| + if p < 0 then |d| else p
  {
    Extended(s, d, q);
    SpanIs(s + d, q, |s| + if p < 0 then |d| else p);
  }
}
