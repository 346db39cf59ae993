/** The re-entrant read/write lock as steps that threads take in any order. */
module ReadWriteLocks {
  type Thread = int

  datatype Mode = Reading | Writing

  datatype LockInfo = LockInfo(count: int, firstLockRead: bool)

  /** Where a thread is in the code of the lock. */
  datatype Place =
    | Outside
    | LookedUp(mode: Mode)   // it has a reference to its entry
    | Asking(mode: Mode)     // it waits for the plain lock
    | Counting(mode: Mode)   // it is about to raise its count
    | Leaving                // its entry is gone, it is about to give up the plain lock

  /** The part of a run that an atomic section or an unprotected access of one thread makes up. */
  datatype Action = LookUp(mode: Mode) | Check | Acquire | Count | StartUnlock | FinishUnlock

  /**
    * The entries of the lock, the holders of the plain lock that it is built on, and where the threads are. The
    * nesting of a thread is its history: the modes of the acquisitions it has not undone, the outermost first.
    */
  datatype State = State(
    lockInfo: map<Thread, LockInfo>,
    readers: multiset<Thread>,
    writers: multiset<Thread>,
    places: map<Thread, Place>,
    nestings: map<Thread, seq<Mode>>)
  {
    function Place(t: Thread): Place {
      if t in places then places[t] else Outside
    }

    function Nesting(t: Thread): seq<Mode> {
      if t in nestings then nestings[t] else []
    }

    function At(t: Thread, p: Place): State {
      this.(places := places[t := p])
    }
  }

  const UNLOCKED := State(map[], multiset{}, multiset{}, map[], map[])

  function Inner(n: seq<Mode>): seq<Mode> {
    if n == [] then [] else n[..|n| - 1]
  }

  predicate CanAcquire(s: State, mode: Mode) {
    s.writers == multiset{} && (mode == Writing ==> s.readers == multiset{})
  }

  predicate Enabled(s: State, t: Thread, a: Action) {
    match a
    case LookUp(_) => s.Place(t) == Outside
    case Check => s.Place(t).LookedUp? && t in s.lockInfo
    case Acquire => s.Place(t).Asking? && CanAcquire(s, s.Place(t).mode)
    case Count => s.Place(t).Counting? && t in s.lockInfo
    case StartUnlock => s.Place(t) == Outside && t in s.lockInfo
    case FinishUnlock => s.Place(t) == Leaving
  }

  function Do(s: State, t: Thread, a: Action): State
    requires Enabled(s, t, a)
  {
    match a
    case LookUp(mode) =>
      s.(lockInfo := if t in s.lockInfo then s.lockInfo else s.lockInfo[t := LockInfo(0, false)]).At(t, LookedUp(mode))
    case Check =>
      var info, mode := s.lockInfo[t], s.Place(t).mode;
      if info.count != 0 then s.At(t, Counting(mode))
      else if mode == Reading then s.(lockInfo := s.lockInfo[t := info.(firstLockRead := true)]).At(t, Asking(Reading))
      else s.At(t, Asking(Writing))
    case Acquire =>
      (if s.Place(t).mode == Reading then s.(readers := s.readers + multiset{t})
       else s.(writers := s.writers + multiset{t})).At(t, Counting(s.Place(t).mode))
    case Count =>
      var info := s.lockInfo[t];
      s.(lockInfo := s.lockInfo[t := info.(count := info.count + 1)],
         nestings := s.nestings[t := s.Nesting(t) + [s.Place(t).mode]]).At(t, Outside)
    case StartUnlock =>
      var info, inner := s.lockInfo[t], Inner(s.Nesting(t));
      if info.count - 1 == 0 then s.(lockInfo := s.lockInfo - {t}, nestings := s.nestings[t := inner]).At(t, Leaving)
      else s.(lockInfo := s.lockInfo[t := info.(count := info.count - 1)], nestings := s.nestings[t := inner])
    case FinishUnlock =>
      (if t in s.writers then s.(writers := s.writers - multiset{t})
       else s.(readers := s.readers - multiset{t})).At(t, Outside)
  }

  /** The lock itself. Each method is a part of its code that no other thread gets in between of. */
  class ReadWriteLock {
    var lockInfo: map<Thread, LockInfo>
    var readers: multiset<Thread>
    var writers: multiset<Thread>
    ghost var places: map<Thread, Place>
    ghost var nestings: map<Thread, seq<Mode>>

    ghost function Snapshot(): State
      reads this
    {
      State(lockInfo, readers, writers, places, nestings)
    }

    constructor ()
      ensures Snapshot() == UNLOCKED
    {
      lockInfo, readers, writers, places, nestings := map[], multiset{}, multiset{}, map[], map[];
    }

    /** Under the mutex: finds or makes the entry of the thread. */
    method FindEntry(t: Thread, ghost mode: Mode)
      requires Enabled(Snapshot(), t, LookUp(mode))
      modifies this
      ensures Snapshot() == Do(old(Snapshot()), t, LookUp(mode))
    {
      if t !in lockInfo {
        lockInfo := lockInfo[t := LockInfo(0, false)];
      }
      places := places[t := LookedUp(mode)];
    }

    /** Whether the plain lock has to be taken. */
    method AskToRead(t: Thread) returns (ask: bool)
      requires Enabled(Snapshot(), t, Check) && Snapshot().Place(t) == LookedUp(Reading)
      modifies this
      ensures Snapshot() == Do(old(Snapshot()), t, Check) && ask == Snapshot().Place(t).Asking?
    {
      ask := lockInfo[t].count == 0;
      if ask {
        lockInfo := lockInfo[t := lockInfo[t].(firstLockRead := true)];
      }
      places := places[t := if ask then Asking(Reading) else Counting(Reading)];
    }

    method AskToWrite(t: Thread) returns (ask: bool)
      requires Enabled(Snapshot(), t, Check) && Snapshot().Place(t) == LookedUp(Writing)
      modifies this
      ensures Snapshot() == Do(old(Snapshot()), t, Check) && ask == Snapshot().Place(t).Asking?
    {
      ask := lockInfo[t].count == 0;
      places := places[t := if ask then Asking(Writing) else Counting(Writing)];
    }

    /** The plain lock, when it lets the thread in. */
    method TakePlainLock(t: Thread, mode: Mode)
      requires Enabled(Snapshot(), t, Acquire) && Snapshot().Place(t) == Asking(mode)
      modifies this
      ensures Snapshot() == Do(old(Snapshot()), t, Acquire)
    {
      if mode == Reading {
        readers := readers + multiset{t};
      } else {
        writers := writers + multiset{t};
      }
      places := places[t := Counting(mode)];
    }

    method RaiseCount(t: Thread)
      requires Enabled(Snapshot(), t, Count)
      modifies this
      ensures Snapshot() == Do(old(Snapshot()), t, Count)
    {
      lockInfo := lockInfo[t := lockInfo[t].(count := lockInfo[t].count + 1)];
      nestings := nestings[t := Snapshot().Nesting(t) + [Snapshot().Place(t).mode]];
      places := places[t := Outside];
    }

    /** Under the mutex: lowers the count and erases the entry with the last. Without an entry it fails and changes
        nothing. */
    method LowerCount(t: Thread) returns (found: bool, last: bool)
      requires Snapshot().Place(t) == Outside
      modifies this
      ensures found == Enabled(old(Snapshot()), t, StartUnlock)
      ensures Snapshot() == if found then Do(old(Snapshot()), t, StartUnlock) else old(Snapshot())
      ensures last == (Snapshot().Place(t) == Leaving)
    {
      found, last := t in lockInfo, false;
      if found {
        var count := lockInfo[t].count - 1;
        lockInfo := lockInfo[t := lockInfo[t].(count := count)];
        nestings := nestings[t := Inner(Snapshot().Nesting(t))];
        if count == 0 {
          last := true;
          lockInfo := lockInfo - {t};
          places := places[t := Leaving];
        }
      }
    }

    method GiveUpPlainLock(t: Thread)
      requires Enabled(Snapshot(), t, FinishUnlock)
      modifies this
      ensures Snapshot() == Do(old(Snapshot()), t, FinishUnlock)
    {
      if t in writers {
        writers := writers - multiset{t};
      } else {
        readers := readers - multiset{t};
      }
      places := places[t := Outside];
    }
  }

  datatype Event = Event(thread: Thread, action: Action)

  ghost predicate Run(s: State, es: seq<Event>, f: State)
    decreases |es|
  {
    if es == [] then f == s else
    Enabled(s, es[0].thread, es[0].action) && Run(Do(s, es[0].thread, es[0].action), es[1..], f)
  }

  /** How often the thread has taken the plain lock in each mode. */
  predicate Holds(s: State, t: Thread, reading: nat, writing: nat) {
    s.readers[t] == reading && s.writers[t] == writing
  }

  predicate HoldsOnce(s: State, t: Thread, mode: Mode) {
    Holds(s, t, if mode == Reading then 1 else 0, if mode == Writing then 1 else 0)
  }

  predicate HasEntry(s: State, t: Thread, count: int, firstLockRead: bool) {
    t in s.lockInfo && s.lockInfo[t] == LockInfo(count, firstLockRead)
  }

  /**
    * What is always true of a thread. While it is inside acquisitions, its count is their number and it holds the
    * plain lock once, in the mode of the outermost; otherwise it holds the plain lock only on its way in or out.
    */
  predicate ThreadInv(s: State, t: Thread) {
    var n := s.Nesting(t);
    if n != [] then
      && HasEntry(s, t, |n|, n[0] == Reading)
      && HoldsOnce(s, t, n[0])
      && (s.Place(t).Outside? || s.Place(t).LookedUp? || s.Place(t).Counting?)
    else
      match s.Place(t)
      case Outside => t !in s.lockInfo && Holds(s, t, 0, 0)
      case LookedUp(_) => HasEntry(s, t, 0, false) && Holds(s, t, 0, 0)
      case Asking(mode) => HasEntry(s, t, 0, mode == Reading) && Holds(s, t, 0, 0)
      case Counting(mode) => HasEntry(s, t, 0, mode == Reading) && HoldsOnce(s, t, mode)
      case Leaving => t !in s.lockInfo && (HoldsOnce(s, t, Reading) || HoldsOnce(s, t, Writing))
  }

  /** The plain lock has readers or one writer. */
  ghost predicate PlainInv(s: State) {
    |s.writers| <= 1 && (s.writers == multiset{} || s.readers == multiset{})
  }

  ghost predicate Inv(s: State) {
    PlainInv(s) && forall t :: ThreadInv(s, t)
  }

  lemma {:induction false} OwnEntry(s: State, t: Thread, a: Action)
    requires ThreadInv(s, t) && PlainInv(s) && Enabled(s, t, a) && (a.LookUp? || a.Check?)
    ensures ThreadInv(Do(s, t, a), t)
  {
  }

  lemma {:induction false} OwnAcquire(s: State, t: Thread, a: Action)
    requires ThreadInv(s, t) && PlainInv(s) && Enabled(s, t, a) && a.Acquire?
    ensures ThreadInv(Do(s, t, a), t)
  {
  }

  lemma {:induction false} OwnCount(s: State, t: Thread, a: Action)
    requires ThreadInv(s, t) && PlainInv(s) && Enabled(s, t, a) && a.Count?
    ensures ThreadInv(Do(s, t, a), t)
  {
  }

  lemma {:induction false} OwnStartUnlock(s: State, t: Thread, a: Action)
    requires ThreadInv(s, t) && PlainInv(s) && Enabled(s, t, a) && a.StartUnlock?
    ensures ThreadInv(Do(s, t, a), t)
  {
  }

  lemma {:induction false} OwnFinishUnlock(s: State, t: Thread, a: Action)
    requires ThreadInv(s, t) && PlainInv(s) && Enabled(s, t, a) && a.FinishUnlock?
    ensures ThreadInv(Do(s, t, a), t)
  {
  }

  lemma {:induction false} OwnStep(s: State, t: Thread, a: Action)
    requires ThreadInv(s, t) && PlainInv(s) && Enabled(s, t, a)
    ensures ThreadInv(Do(s, t, a), t)
  {
    match a
    case LookUp(_) => OwnEntry(s, t, a);
    case Check => OwnEntry(s, t, a);
    case Acquire => OwnAcquire(s, t, a);
    case Count => OwnCount(s, t, a);
    case StartUnlock => OwnStartUnlock(s, t, a);
    case FinishUnlock => OwnFinishUnlock(s, t, a);
  }

  /** What a step of another thread leaves as it was. */
  ghost predicate Untouched(s: State, f: State, u: Thread) {
    && f.Nesting(u) == s.Nesting(u) && f.Place(u) == s.Place(u)
    && f.readers[u] == s.readers[u] && f.writers[u] == s.writers[u]
    && (u in f.lockInfo <==> u in s.lockInfo) && (u in s.lockInfo ==> f.lockInfo[u] == s.lockInfo[u])
  }

  lemma {:induction false} OthersLookUp(s: State, t: Thread, a: Action, u: Thread)
    requires Enabled(s, t, a) && u != t && (a.LookUp? || a.Check?)
    ensures Untouched(s, Do(s, t, a), u)
  {
  }

  lemma {:induction false} OthersAcquire(s: State, t: Thread, a: Action, u: Thread)
    requires Enabled(s, t, a) && u != t && a.Acquire?
    ensures Untouched(s, Do(s, t, a), u)
  {
  }

  lemma {:induction false} OthersCount(s: State, t: Thread, a: Action, u: Thread)
    requires Enabled(s, t, a) && u != t && a.Count?
    ensures Untouched(s, Do(s, t, a), u)
  {
  }

  lemma {:induction false} OthersStartUnlock(s: State, t: Thread, a: Action, u: Thread)
    requires Enabled(s, t, a) && u != t && a.StartUnlock?
    ensures Untouched(s, Do(s, t, a), u)
  {
  }

  lemma OneLess(m: multiset<Thread>, t: Thread, u: Thread)
    requires u != t
    ensures (m - multiset{t})[u] == m[u]
  {
  }

  lemma {:induction false} OthersFinishUnlock(s: State, t: Thread, a: Action, u: Thread)
    requires Enabled(s, t, a) && u != t && a.FinishUnlock?
    ensures Untouched(s, Do(s, t, a), u)
  {
    if t in s.writers { OneLess(s.writers, t, u); } else { OneLess(s.readers, t, u); }
  }

  lemma {:induction false} UntouchedByOthers(s: State, t: Thread, a: Action, u: Thread)
    requires Enabled(s, t, a) && u != t
    ensures Untouched(s, Do(s, t, a), u)
  {
    match a
    case LookUp(_) => OthersLookUp(s, t, a, u);
    case Check => OthersLookUp(s, t, a, u);
    case Acquire => OthersAcquire(s, t, a, u);
    case Count => OthersCount(s, t, a, u);
    case StartUnlock => OthersStartUnlock(s, t, a, u);
    case FinishUnlock => OthersFinishUnlock(s, t, a, u);
  }

  lemma {:induction false} OthersStep(s: State, t: Thread, a: Action, u: Thread)
    requires ThreadInv(s, u) && Enabled(s, t, a) && u != t
    ensures ThreadInv(Do(s, t, a), u)
  {
    UntouchedByOthers(s, t, a, u);
  }

  lemma {:induction false} PlainStep(s: State, t: Thread, a: Action)
    requires ThreadInv(s, t) && PlainInv(s) && Enabled(s, t, a)
    ensures PlainInv(Do(s, t, a))
  {
  }

  /** No step of any thread breaks the lock. */
  lemma {:induction false} StepKeepsInv(s: State, t: Thread, a: Action)
    requires Inv(s) && Enabled(s, t, a)
    ensures Inv(Do(s, t, a))
  {
    var f := Do(s, t, a);
    assert ThreadInv(s, t);
    PlainStep(s, t, a);
    forall u ensures ThreadInv(f, u) {
      assert ThreadInv(s, u);
      if u == t {
        OwnStep(s, t, a);
      } else {
        OthersStep(s, t, a, u);
      }
    }
  }

  /** Whatever threads do, in whatever order, the lock stays intact. */
  lemma {:induction false} RunKeepsInv(s: State, es: seq<Event>, f: State)
    requires Inv(s) && Run(s, es, f)
    ensures Inv(f)
    decreases |es|
  {
    if es != [] {
      StepKeepsInv(s, es[0].thread, es[0].action);
      RunKeepsInv(Do(s, es[0].thread, es[0].action), es[1..], f);
    }
  }

  lemma {:induction false} UnlockedIsIntact()
    ensures Inv(UNLOCKED)
  {
    forall t ensures ThreadInv(UNLOCKED, t) {
    }
  }

  lemma {:induction false} Reached(es: seq<Event>, s: State, t: Thread)
    requires Run(UNLOCKED, es, s)
    ensures PlainInv(s) && ThreadInv(s, t)
  {
    UnlockedIsIntact();
    RunKeepsInv(UNLOCKED, es, s);
  }

  /** A thread inside acquisitions holds the plain lock in the mode of the outermost; if that is
      writing, it is alone. */
  lemma {:induction false} Exclusion(es: seq<Event>, s: State, t: Thread, u: Thread)
    requires Run(UNLOCKED, es, s) && s.Nesting(t) != [] && u != t
    ensures HoldsOnce(s, t, s.Nesting(t)[0]) && HasEntry(s, t, |s.Nesting(t)|, s.Nesting(t)[0] == Reading)
    ensures s.Nesting(t)[0] == Writing ==> s.Nesting(u) == [] && Holds(s, u, 0, 0)
  {
    Reached(es, s, t);
    Reached(es, s, u);
    if s.Nesting(t)[0] == Writing {
      Alone(s, t, u);
    }
  }

  lemma {:induction false} Alone(s: State, t: Thread, u: Thread)
    requires PlainInv(s) && s.writers[t] > 0 && u != t
    ensures s.readers[u] == 0 && s.writers[u] == 0
  {
    var others := s.writers - multiset{t};
    assert others + multiset{t} == s.writers;
    assert |others| == 0 && others[u] == s.writers[u];
  }

  /** The plain lock is only taken by a thread that does not have it, and only given up by one that has it once. */
  lemma {:induction false} NoReentry(es: seq<Event>, s: State, t: Thread)
    requires Run(UNLOCKED, es, s)
    ensures Enabled(s, t, Acquire) ==> Holds(s, t, 0, 0) && s.Nesting(t) == []
    ensures Enabled(s, t, FinishUnlock) ==> Holds(s, t, 1, 0) || Holds(s, t, 0, 1)
    ensures Enabled(s, t, FinishUnlock) ==> Holds(Do(s, t, FinishUnlock), t, 0, 0)
  {
    Reached(es, s, t);
  }

  /** A thread outside of the code has an entry exactly while it is inside acquisitions: unlocking
      finds it just then. */
  lemma {:induction false} EntryErased(es: seq<Event>, s: State, t: Thread)
    requires Run(UNLOCKED, es, s) && s.Place(t) == Outside
    ensures t in s.lockInfo <==> s.Nesting(t) != []
    ensures Enabled(s, t, StartUnlock) <==> s.Nesting(t) != []
    ensures s.Nesting(t) == [] ==> Holds(s, t, 0, 0)
  {
    Reached(es, s, t);
  }

  lemma {:induction false} SomeOf(m: multiset<Thread>) returns (u: Thread)
    requires m != multiset{}
    ensures u in m
  {
    assert exists v :: v in m by {
      assert (forall v :: v !in m) ==> m == multiset{};
    }
    u :| u in m;
  }

  /** Only waiting for the plain lock can stop a thread, and then another thread has it in a way that
      excludes this one. */
  lemma {:induction false} OnlyOthersBlock(es: seq<Event>, s: State, t: Thread) returns (u: Thread)
    requires Run(UNLOCKED, es, s)
    ensures s.Place(t).LookedUp? ==> Enabled(s, t, Check)
    ensures s.Place(t).Counting? ==> Enabled(s, t, Count)
    ensures s.Place(t).Asking? && !Enabled(s, t, Acquire) ==>
      u != t && (s.writers[u] > 0 || (s.Place(t).mode == Writing && s.readers[u] > 0))
  {
    Reached(es, s, t);
    u := 0;
    if s.writers != multiset{} {
      u := SomeOf(s.writers);
    } else if s.readers != multiset{} {
      u := SomeOf(s.readers);
    }
  }

  /** The assertion in the write path fails exactly for a thread whose outermost acquisition is for reading. */
  lemma {:induction false} WriteInsideRead(es: seq<Event>, s: State, t: Thread)
    requires Run(UNLOCKED, es, s) && s.Place(t) == LookedUp(Writing)
    ensures t in s.lockInfo && (s.lockInfo[t].firstLockRead <==> s.Nesting(t) != [] && s.Nesting(t)[0] == Reading)
  {
    Reached(es, s, t);
  }

  lemma {:induction false} OneMore(s: State, es: seq<Event>, m: State, t: Thread, a: Action)
    requires Run(s, es, m) && Enabled(m, t, a)
    ensures Run(s, es + [Event(t, a)], Do(m, t, a))
    decreases |es|
  {
    if es == [] {
      assert (es + [Event(t, a)])[1..] == [];
    } else {
      OneMore(Do(s, es[0].thread, es[0].action), es[1..], m, t, a);
      assert (es + [Event(t, a)])[1..] == es[1..] + [Event(t, a)];
    }
  }

  lemma {:induction false} AskFor(s0: State, es: seq<Event>, s: State, t: Thread, mode: Mode)
    returns (more: seq<Event>, f: State)
    requires Run(s0, es, s) && s.Place(t) == Outside && t !in s.lockInfo
    ensures Run(s0, more, f) && f.writers == s.writers && f.readers == s.readers && f.nestings == s.nestings
    ensures f.places == s.places[t := Asking(mode)] && f.lockInfo == s.lockInfo[t := LockInfo(0, mode == Reading)]
    ensures more == es + [Event(t, LookUp(mode)), Event(t, Check)]
  {
    hide Run;
    OneMore(s0, es, s, t, LookUp(mode));
    more, f := es + [Event(t, LookUp(mode))], Do(s, t, LookUp(mode));
    OneMore(s0, more, f, t, Check);
    more, f := more + [Event(t, Check)], Do(f, t, Check);
  }

  /** The events of an acquisition that takes the plain lock. */
  ghost function Acquisition(t: Thread, mode: Mode): seq<Event> {
    [Event(t, LookUp(mode)), Event(t, Check), Event(t, Acquire), Event(t, Count)]
  }

  lemma {:induction false} TakeIt(s0: State, es: seq<Event>, s: State, t: Thread, mode: Mode) returns (f: State)
    requires Run(s0, es, s) && s.Place(t) == Asking(mode) && CanAcquire(s, mode)
    ensures Run(s0, es + [Event(t, Acquire)], f)
    ensures f.writers == (if mode == Writing then s.writers + multiset{t} else s.writers)
    ensures f.readers == (if mode == Reading then s.readers + multiset{t} else s.readers)
    ensures f.nestings == s.nestings && f.lockInfo == s.lockInfo && f.places == s.places[t := Counting(mode)]
  {
    hide Run;
    OneMore(s0, es, s, t, Acquire);
    f := Do(s, t, Acquire);
  }

  lemma {:induction false} CountIt(s0: State, es: seq<Event>, s: State, t: Thread, mode: Mode) returns (f: State)
    requires Run(s0, es, s) && s.Place(t) == Counting(mode) && t in s.lockInfo
    ensures Run(s0, es + [Event(t, Count)], f) && f.writers == s.writers && f.readers == s.readers
    ensures f.nestings == s.nestings[t := s.Nesting(t) + [mode]] && f.places == s.places[t := Outside]
    ensures f.lockInfo == s.lockInfo[t := s.lockInfo[t].(count := s.lockInfo[t].count + 1)]
  {
    hide Run;
    OneMore(s0, es, s, t, Count);
    f := Do(s, t, Count);
  }

  /** A thread that is outside gets a lock that is free for it at once, in the mode it asks for. */
  lemma {:induction false} Enter(s0: State, es: seq<Event>, s: State, t: Thread, mode: Mode)
    returns (more: seq<Event>, f: State)
    requires Run(s0, es, s) && s.Place(t) == Outside && t !in s.lockInfo
    requires s.writers == multiset{} && (mode == Reading || s.readers == multiset{})
    ensures more == es + Acquisition(t, mode) && Run(s0, more, f)
    ensures f.writers == (if mode == Writing then s.writers + multiset{t} else s.writers)
    ensures f.readers == (if mode == Reading then s.readers + multiset{t} else s.readers)
    ensures f.nestings == s.nestings[t := s.Nesting(t) + [mode]] && f.places == s.places[t := Outside]
    ensures f.lockInfo == s.lockInfo[t := LockInfo(1, mode == Reading)]
  {
    hide Run, Do;
    more, f := AskFor(s0, es, s, t, mode);
    f := TakeIt(s0, more, f, t, mode);
    more := more + [Event(t, Acquire)];
    f := CountIt(s0, more, f, t, mode);
    more := more + [Event(t, Count)];
    assert more == es + Acquisition(t, mode);
  }

  /** The events of an acquisition inside another. */
  ghost function InnerAcquisition(t: Thread, mode: Mode): seq<Event> {
    [Event(t, LookUp(mode)), Event(t, Check), Event(t, Count)]
  }

  lemma {:induction false} Reenter(s0: State, es: seq<Event>, s: State, t: Thread, mode: Mode)
    returns (more: seq<Event>, f: State)
    requires Run(s0, es, s) && s.Place(t) == Outside && t in s.lockInfo && s.lockInfo[t].count != 0
    ensures more == es + InnerAcquisition(t, mode) && Run(s0, more, f)
    ensures f.writers == s.writers && f.readers == s.readers && f.Place(t) == Outside
    ensures f.nestings == s.nestings[t := s.Nesting(t) + [mode]]
  {
    hide Run;
    OneMore(s0, es, s, t, LookUp(mode));
    more, f := es + [Event(t, LookUp(mode))], Do(s, t, LookUp(mode));
    OneMore(s0, more, f, t, Check);
    more, f := more + [Event(t, Check)], Do(f, t, Check);
    f := CountIt(s0, more, f, t, mode);
    more := more + [Event(t, Count)];
    assert more == es + InnerAcquisition(t, mode);
  }

  /** Without that assertion a thread can be inside a write acquisition while another thread reads. */
  lemma {:induction false} WriterAmongReaders(t: Thread, u: Thread) returns (es: seq<Event>, s: State)
    requires t != u
    ensures Run(UNLOCKED, es, s) && s.Nesting(t) == [Reading, Writing] && s.Nesting(u) == [Reading]
  {
    assert Run(UNLOCKED, [], UNLOCKED);
    hide Run;
    es, s := Enter(UNLOCKED, [], UNLOCKED, t, Reading);
    es, s := Enter(UNLOCKED, es, s, u, Reading);
    es, s := Reenter(UNLOCKED, es, s, t, Writing);
  }

  lemma {:induction false} RunOn(s: State, es: seq<Event>, m: State, more: seq<Event>, f: State)
    requires Run(s, es, m) && Run(m, more, f)
    ensures Run(s, es + more, f)
    decreases |es|
  {
    if es == [] {
      assert es + more == more;
    } else {
      assert (es + more)[1..] == es[1..] + more;
      RunOn(Do(s, es[0].thread, es[0].action), es[1..], m, more, f);
    }
  }

  /** Whether a run from here on brings `u` inside a read acquisition while `t` is inside the same ones as now. */
  ghost predicate Joins(s: State, t: Thread, u: Thread) {
    exists more, f :: Run(s, more, f) && f.Nesting(u) == [Reading] && f.Nesting(t) == s.Nesting(t)
  }

  /**
    * Another thread can come in to read beside a thread inside acquisitions exactly if the outermost of these is
    * for reading, whatever the inner ones are for.
    */
  lemma {:induction false} ReadersJoin(es: seq<Event>, s: State, t: Thread, u: Thread)
    requires Run(UNLOCKED, es, s) && t != u && s.Nesting(t) != []
    requires s.Place(u) == Outside && s.Nesting(u) == []
    ensures Joins(s, t, u) <==> s.Nesting(t)[0] == Reading
  {
    if s.Nesting(t)[0] == Reading {
      Reached(es, s, t);
      Reached(es, s, u);
      assert Run(s, [], s);
      var more, f := Enter(s, [], s, u, Reading);
      assert f.Nesting(u) == [Reading] && f.Nesting(t) == s.Nesting(t);
    } else if Joins(s, t, u) {
      var more, f :| Run(s, more, f) && f.Nesting(u) == [Reading] && f.Nesting(t) == s.Nesting(t);
      RunOn(UNLOCKED, es, s, more, f);
      Exclusion(es + more, f, t, u);
    }
  }

  function Times(es: seq<Event>, t: Thread, a: Action): nat {
    if es == [] then 0 else (if es[0] == Event(t, a) then 1 else 0) + Times(es[1..], t, a)
  }

  lemma {:induction false} HoldsAcquire(s: State, u: Thread, t: Thread)
    requires ThreadInv(s, u) && Enabled(s, u, Acquire)
    ensures var f := Do(s, u, Acquire);
      s.readers[t] + s.writers[t] + (if t == u then 1 else 0) == f.readers[t] + f.writers[t]
  {
  }

  lemma {:induction false} HoldsFinish(s: State, u: Thread, t: Thread)
    requires ThreadInv(s, u) && Enabled(s, u, FinishUnlock)
    ensures var f := Do(s, u, FinishUnlock);
      s.readers[t] + s.writers[t] == f.readers[t] + f.writers[t] + (if t == u then 1 else 0)
  {
  }

  lemma {:induction false} HoldsStep(s: State, e: Event, t: Thread)
    requires ThreadInv(s, e.thread) && Enabled(s, e.thread, e.action)
    ensures var f := Do(s, e.thread, e.action);
      s.readers[t] + s.writers[t] + Times([e], t, Acquire) == f.readers[t] + f.writers[t] + Times([e], t, FinishUnlock)
  {
    if e.action.Acquire? {
      HoldsAcquire(s, e.thread, t);
    } else if e.action.FinishUnlock? {
      HoldsFinish(s, e.thread, t);
    }
  }

  lemma {:induction false} NestingStep(s: State, e: Event, t: Thread)
    requires ThreadInv(s, e.thread) && Enabled(s, e.thread, e.action)
    ensures var f := Do(s, e.thread, e.action);
      |s.Nesting(t)| + Times([e], t, Count) == |f.Nesting(t)| + Times([e], t, StartUnlock)
  {
    if e.thread != t {
      assert Do(s, e.thread, e.action).Nesting(t) == s.Nesting(t);
    }
  }

  /** The plain lock is given up as often as it was taken, but for the one time a thread still has it. */
  lemma {:induction false} Balanced(s: State, es: seq<Event>, f: State, t: Thread)
    requires Inv(s) && Run(s, es, f)
    ensures s.readers[t] + s.writers[t] + Times(es, t, Acquire)
      == f.readers[t] + f.writers[t] + Times(es, t, FinishUnlock)
    ensures |s.Nesting(t)| + Times(es, t, Count) == |f.Nesting(t)| + Times(es, t, StartUnlock)
    decreases |es|
  {
    if es != [] {
      var e := es[0];
      assert ThreadInv(s, e.thread);
      StepKeepsInv(s, e.thread, e.action);
      HoldsStep(s, e, t);
      NestingStep(s, e, t);
      assert forall a :: Times(es, t, a) == Times([e], t, a) + Times(es[1..], t, a) by {
        forall a ensures Times(es, t, a) == Times([e], t, a) + Times(es[1..], t, a) {
          assert [e][1..] == [];
        }
      }
      Balanced(Do(s, e.thread, e.action), es[1..], f, t);
    }
  }

  /** The requests of a thread after one more event: asking for the lock adds one, and unlocking takes back the last. */
  ghost function NextRequests(n: seq<Mode>, e: Event, t: Thread): seq<Mode> {
    if e.thread != t then n
    else if e.action.LookUp? then n + [e.action.mode]
    else if e.action.StartUnlock? && n != [] then n[..|n| - 1]
    else n
  }

  ghost function RequestsAfter(n: seq<Mode>, es: seq<Event>, t: Thread): seq<Mode>
    decreases |es|
  {
    if es == [] then n else RequestsAfter(NextRequests(n, es[0], t), es[1..], t)
  }

  /** What a thread has asked for and not taken back, the outermost request first, told from the events alone. */
  ghost function Requests(es: seq<Event>, t: Thread): seq<Mode> {
    RequestsAfter([], es, t)
  }

  /** The request a thread is in the middle of. */
  ghost function Pending(s: State, t: Thread): seq<Mode> {
    match s.Place(t)
    case LookedUp(mode) => [mode]
    case Asking(mode) => [mode]
    case Counting(mode) => [mode]
    case _ => []
  }

  lemma {:induction false} RequestStep(s: State, e: Event, t: Thread)
    requires Enabled(s, e.thread, e.action)
    ensures var f := Do(s, e.thread, e.action);
      f.Nesting(t) + Pending(f, t) == NextRequests(s.Nesting(t) + Pending(s, t), e, t)
  {
    hide Do, CanAcquire;
    if e.thread != t {
      UntouchedByOthers(s, e.thread, e.action, t);
    } else {
      match e.action
      case LookUp(mode) => RequestMade(s, t, mode);
      case Check => RequestKept(s, t);
      case Acquire => RequestTaken(s, t, e.action);
      case Count => RequestTaken(s, t, e.action);
      case StartUnlock => RequestTakenBack(s, t, e.action);
      case FinishUnlock => RequestTakenBack(s, t, e.action);
    }
  }

  lemma {:induction false} RequestMade(s: State, t: Thread, mode: Mode)
    requires Enabled(s, t, LookUp(mode))
    ensures var f := Do(s, t, LookUp(mode));
      f.Nesting(t) + Pending(f, t) == NextRequests(s.Nesting(t) + Pending(s, t), Event(t, LookUp(mode)), t)
  {
    hide CanAcquire;
    var f := Do(s, t, LookUp(mode));
    assert f.Nesting(t) == s.Nesting(t) && Pending(f, t) == [mode] && Pending(s, t) == [];
    assert s.Nesting(t) + [] == s.Nesting(t);
  }

  lemma {:induction false} RequestKept(s: State, t: Thread)
    requires Enabled(s, t, Check)
    ensures var f := Do(s, t, Check);
      f.Nesting(t) + Pending(f, t) == NextRequests(s.Nesting(t) + Pending(s, t), Event(t, Check), t)
  {
    hide CanAcquire;
    var f := Do(s, t, Check);
    assert f.Nesting(t) == s.Nesting(t) && Pending(f, t) == Pending(s, t);
  }

  lemma {:induction false} RequestTaken(s: State, t: Thread, a: Action)
    requires Enabled(s, t, a) && (a.Acquire? || a.Count?)
    ensures var f := Do(s, t, a);
      f.Nesting(t) + Pending(f, t) == NextRequests(s.Nesting(t) + Pending(s, t), Event(t, a), t)
  {
    hide CanAcquire;
  }

  lemma {:induction false} RequestTakenBack(s: State, t: Thread, a: Action)
    requires Enabled(s, t, a) && (a.StartUnlock? || a.FinishUnlock?)
    ensures var f := Do(s, t, a);
      f.Nesting(t) + Pending(f, t) == NextRequests(s.Nesting(t) + Pending(s, t), Event(t, a), t)
  {
    hide CanAcquire;
    assert s.Nesting(t) + [] == s.Nesting(t);
  }

  lemma {:induction false} RunOfRequests(s: State, es: seq<Event>, f: State, t: Thread)
    requires Run(s, es, f)
    ensures RequestsAfter(s.Nesting(t) + Pending(s, t), es, t) == f.Nesting(t) + Pending(f, t)
    decreases |es|
  {
    hide Pending, NextRequests, Do;
    if es != [] {
      RequestStep(s, es[0], t);
      RunOfRequests(Do(s, es[0].thread, es[0].action), es[1..], f, t);
    }
  }

  /** The acquisitions of a thread are what it asked for, mode by mode. */
  lemma {:induction false} NestingIsRequests(es: seq<Event>, s: State, t: Thread)
    requires Run(UNLOCKED, es, s)
    ensures Requests(es, t) == s.Nesting(t) + Pending(s, t)
    ensures s.Place(t) == Outside || s.Place(t) == Leaving ==> s.Nesting(t) == Requests(es, t)
  {
    RunOfRequests(UNLOCKED, es, s, t);
  }

  /** A thread that asked for the lock, got it and has not unlocked as often holds the plain lock once, in the mode it
      first asked for; if that is writing, no other thread has the plain lock in any way. */
  lemma {:induction false} HeldAsRequested(es: seq<Event>, s: State, t: Thread, u: Thread)
    requires Run(UNLOCKED, es, s) && s.Place(t) == Outside && Requests(es, t) != [] && u != t
    ensures Requests(es, t)[0] == Writing ==> s.writers[t] == 1 && s.readers[t] == 0
    ensures Requests(es, t)[0] == Writing ==> s.writers[u] == 0 && s.readers[u] == 0
    ensures Requests(es, t)[0] == Reading ==> s.writers[t] == 0 && s.readers[t] == 1 && s.writers[u] == 0
  {
    NestingIsRequests(es, s, t);
    Exclusion(es, s, t, u);
    Reached(es, s, t);
    assert Requests(es, t)[0] == Reading ==> t in s.readers && s.writers == multiset{};
  }

  /** Two threads that first asked for writing are never both inside, nor one of them and one that reads. */
  lemma {:induction false} WritersExclude(es: seq<Event>, s: State, t: Thread, u: Thread)
    requires Run(UNLOCKED, es, s) && t != u && s.Place(t) == Outside && s.Place(u) == Outside
    requires Requests(es, t) != [] && Requests(es, t)[0] == Writing
    ensures Requests(es, u) == []
  {
    NestingIsRequests(es, s, t);
    NestingIsRequests(es, s, u);
    Exclusion(es, s, t, u);
  }

  /** What a thread asks for it gets: in an intact lock that is free for it, its request is its first acquisition. */
  lemma {:induction false} FreeLockIsTaken(es: seq<Event>, s: State, t: Thread, mode: Mode) returns (f: State)
    requires Run(UNLOCKED, es, s) && s.Place(t) == Outside && s.Nesting(t) == []
    requires s.writers == multiset{} && (mode == Reading || s.readers == multiset{})
    ensures Run(UNLOCKED, es + Acquisition(t, mode), f) && f.Place(t) == Outside && f.Nesting(t) == [mode]
    ensures f.writers[t] == (if mode == Writing then 1 else 0) && f.readers[t] == (if mode == Reading then 1 else 0)
  {
    hide Run;
    Reached(es, s, t);
    var more;
    more, f := Enter(UNLOCKED, es, s, t, mode);
  }

  /** A thread inside acquisitions comes in again at once, in any mode, and keeps its hold of the plain lock. */
  lemma {:induction false} ReentersAtOnce(es: seq<Event>, s: State, t: Thread, mode: Mode) returns (f: State)
    requires Run(UNLOCKED, es, s) && s.Place(t) == Outside && s.Nesting(t) != []
    ensures Run(UNLOCKED, es + InnerAcquisition(t, mode), f)
    ensures f.Place(t) == Outside && f.Nesting(t) == s.Nesting(t) + [mode]
    ensures f.writers == s.writers && f.readers == s.readers
  {
    hide Run;
    Reached(es, s, t);
    var more;
    more, f := Reenter(UNLOCKED, es, s, t, mode);
  }
}
