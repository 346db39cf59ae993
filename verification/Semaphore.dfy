/** The counting semaphore as steps that threads take in any order. */
module Semaphores {
  type Thread = int

  /**
    * The count and the threads inside a wait: those that sleep in the condition variable, and those that it has
    * woken and that still have to get the mutex back. What was signalled and how many waits were completed is
    * history.
    */
  datatype State = State(count: int, asleep: set<Thread>, woken: set<Thread>, signals: nat, completed: nat)

  datatype Action =
    | Wait                      // enters a wait, or goes on with it after it was woken
    | WakeUp                    // a sleeping thread wakes on its own or because its time is over
    | Signal(wakes: set<Thread>) // the threads that the condition variable chooses to wake
    | Reset(value: int)

  predicate Enabled(s: State, t: Thread, a: Action) {
    match a
    case Wait => t !in s.asleep
    case WakeUp => t in s.asleep
    case Signal(wakes) => t !in s.asleep && t !in s.woken && wakes <= s.asleep && (s.asleep != {} ==> wakes != {})
    case Reset(_) => t !in s.asleep && t !in s.woken
  }

  function Do(s: State, t: Thread, a: Action): State
    requires Enabled(s, t, a)
  {
    match a
    case Wait =>
      if s.count == 0 then s.(asleep := s.asleep + {t}, woken := s.woken - {t})
      else s.(count := s.count - 1, woken := s.woken - {t}, completed := s.completed + 1)
    case WakeUp => s.(asleep := s.asleep - {t}, woken := s.woken + {t})
    case Signal(wakes) =>
      s.(count := s.count + 1, asleep := s.asleep - wakes, woken := s.woken + wakes, signals := s.signals + 1)
    case Reset(value) =>
      if value > 0 then s.(count := value, asleep := {}, woken := s.woken + s.asleep) else s.(count := value)
  }

  function Initial(value: int): State {
    State(value, {}, {}, 0, 0)
  }

  /** The semaphore itself. Each method is a part of its code under the mutex. */
  class Semaphore {
    var count: int
    var asleep: set<Thread>
    var woken: set<Thread>
    ghost var signals: nat
    ghost var completed: nat

    ghost function Snapshot(): State
      reads this
    {
      State(count, asleep, woken, signals, completed)
    }

    constructor (value: int)
      ensures Snapshot() == Initial(value)
    {
      count, asleep, woken, signals, completed := value, {}, {}, 0, 0;
    }

    /** One turn of the waiting loop: the thread passes or goes to sleep, which gives up the mutex. */
    method TryPass(t: Thread) returns (passed: bool)
      requires Enabled(Snapshot(), t, Wait)
      modifies this
      ensures Snapshot() == Do(old(Snapshot()), t, Wait) && passed == (t !in asleep)
    {
      woken := woken - {t};
      passed := count != 0;
      if passed {
        count := count - 1;
        completed := completed + 1;
      } else {
        asleep := asleep + {t};
      }
    }

    /** The condition variable lets a thread go on that was not signalled. */
    method WakeSpuriously(t: Thread)
      requires Enabled(Snapshot(), t, WakeUp)
      modifies this
      ensures Snapshot() == Do(old(Snapshot()), t, WakeUp)
    {
      asleep, woken := asleep - {t}, woken + {t};
    }

    method SignalOne(t: Thread, wakes: set<Thread>)
      requires Enabled(Snapshot(), t, Signal(wakes))
      modifies this
      ensures Snapshot() == Do(old(Snapshot()), t, Signal(wakes))
    {
      count := count + 1;
      asleep, woken := asleep - wakes, woken + wakes;
      signals := signals + 1;
    }

    method ResetTo(t: Thread, value: int)
      requires Enabled(Snapshot(), t, Reset(value))
      modifies this
      ensures Snapshot() == Do(old(Snapshot()), t, Reset(value))
    {
      count := value;
      if count > 0 {
        asleep, woken := {}, woken + asleep;
      }
    }
  }

  datatype Event = Event(thread: Thread, action: Action)

  ghost predicate Run(s: State, es: seq<Event>, f: State)
    decreases |es|
  {
    if es == [] then f == s else
    Enabled(s, es[0].thread, es[0].action) && Run(Do(s, es[0].thread, es[0].action), es[1..], f)
  }

  /** While threads sleep there are no more permits than woken threads that will ask for them. */
  predicate NoLostWakeup(s: State) {
    s.asleep != {} ==> s.count <= |s.woken|
  }

  ghost predicate Inv(s: State) {
    s.asleep !! s.woken && NoLostWakeup(s)
  }

  lemma {:induction false} Smaller(a: set<Thread>, b: set<Thread>)
    requires a <= b
    ensures |a| <= |b| && (a != b ==> |a| < |b|)
  {
    assert b == a + (b - a);
  }

  lemma {:induction false} SomeOf(m: set<Thread>) returns (t: Thread)
    requires m != {}
    ensures t in m
  {
    assert exists v :: v in m by {
      assert (forall v :: v !in m) ==> m == {};
    }
    t :| t in m;
  }

  lemma {:induction false} StepKeepsInv(s: State, t: Thread, a: Action)
    requires Inv(s) && Enabled(s, t, a)
    ensures Inv(Do(s, t, a))
  {
    var f := Do(s, t, a);
    match a
    case Wait =>
      if t in s.woken {
        assert s.woken == f.woken + {t};
      } else {
        assert f.woken == s.woken;
      }
    case WakeUp => Smaller(s.woken, f.woken);
    case Signal(wakes) =>
      Smaller(s.woken, f.woken);
      if s.asleep != {} {
        var u := SomeOf(wakes);
        assert u !in s.woken && u in f.woken;
      }
    case Reset(_) =>
  }

  /** No mix of barging, spurious and timed-out wake-ups, signals and resets loses a wake-up. */
  lemma {:induction false} RunKeepsInv(s: State, es: seq<Event>, f: State)
    requires Inv(s) && Run(s, es, f)
    ensures Inv(f)
    decreases |es|
  {
    if es != [] {
      StepKeepsInv(s, es[0].thread, es[0].action);
      RunKeepsInv(Do(s, es[0].thread, es[0].action), es[1..], f);
    }
  }

  ghost predicate NoReset(es: seq<Event>) {
    forall i :: 0 <= i < |es| ==> !es[i].action.Reset?
  }

  /** Permits are conserved: those used and those left are the initial ones and the signalled ones. */
  lemma {:induction false} Conserved(s: State, es: seq<Event>, f: State)
    requires Run(s, es, f) && NoReset(es)
    ensures f.completed + f.count - f.signals == s.completed + s.count - s.signals
    decreases |es|
  {
    if es != [] {
      assert !es[0].action.Reset?;
      assert forall i :: 0 <= i < |es| - 1 ==> es[1..][i] == es[i + 1];
      Conserved(Do(s, es[0].thread, es[0].action), es[1..], f);
    }
  }

  /** From its construction on: waits completed and permits left, threads asleep and threads woken. */
  lemma {:induction false} Reached(value: int, es: seq<Event>, f: State)
    requires Run(Initial(value), es, f)
    ensures NoLostWakeup(f) && f.asleep !! f.woken
    ensures NoReset(es) ==> f.completed + f.count == value + f.signals
    ensures f.woken == {} && f.asleep != {} ==> f.count <= 0
  {
    RunKeepsInv(Initial(value), es, f);
    if NoReset(es) {
      Conserved(Initial(value), es, f);
    }
  }

  /** Values that are not negative, at the start and at resets, keep the count so; then only a zero
      count puts to sleep. */
  lemma {:induction false} CountStaysPositive(s: State, es: seq<Event>, f: State)
    requires Run(s, es, f) && s.count >= 0
    requires forall i :: 0 <= i < |es| && es[i].action.Reset? ==> es[i].action.value >= 0
    ensures f.count >= 0
    decreases |es|
  {
    if es != [] {
      assert es[0].action.Reset? ==> es[0].action.value >= 0;
      assert forall i :: 0 <= i < |es| - 1 ==> es[1..][i] == es[i + 1];
      CountStaysPositive(Do(s, es[0].thread, es[0].action), es[1..], f);
    }
  }

  /** A negative count stops nobody: waiting only takes it further down. */
  lemma {:induction false} NegativeCount(s: State, t: Thread)
    requires s.count < 0 && Enabled(s, t, Wait)
    ensures Do(s, t, Wait).completed == s.completed + 1 && Do(s, t, Wait).count < s.count
  {
  }

  /** No run completes more waits than it was given permits. */
  ghost predicate KeepsToPermits(value: int) {
    forall es: seq<Event>, f: State :: Run(Initial(value), es, f) && NoReset(es) ==> f.completed <= value + f.signals
  }

  /** A semaphore keeps to its permits in all runs exactly if it does not start below zero. */
  lemma {:induction false} PermitsBound(value: int)
    ensures KeepsToPermits(value) <==> value >= 0
  {
    if value >= 0 {
      forall es: seq<Event>, f: State | Run(Initial(value), es, f) && NoReset(es)
        ensures f.completed <= value + f.signals
      {
        Reached(value, es, f);
        assert forall i :: 0 <= i < |es| ==> !es[i].action.Reset?;
        CountStaysPositive(Initial(value), es, f);
      }
    } else {
      var es, f := [Event(0, Wait)], Do(Initial(value), 0, Wait);
      NegativeCount(Initial(value), 0);
      assert es[1..] == [] && Run(Initial(value), es, f) && NoReset(es);
    }
  }

  /** Once the woken threads have run, all permits that a sleeping thread could use are used. */
  lemma {:induction false} Drained(s: State) returns (es: seq<Event>, f: State)
    requires Inv(s) && s.count >= 0
    ensures Run(s, es, f) && f.woken == {} && |es| == |s.woken|
    ensures f.completed - s.completed == if s.count <= |s.woken| then s.count else |s.woken|
    ensures f.count == 0 || f.asleep == {}
    decreases |s.woken|
  {
    if s.woken == {} {
      es, f := [], s;
    } else {
      var t := SomeOf(s.woken);
      var m := Do(s, t, Wait);
      assert s.woken == m.woken + {t};
      StepKeepsInv(s, t, Wait);
      es, f := Drained(m);
      assert ([Event(t, Wait)] + es)[1..] == es;
      es := [Event(t, Wait)] + es;
    }
  }

  /** How many of the events signal. */
  ghost function Signals(es: seq<Event>): nat {
    if es == [] then 0 else (if es[0].action.Signal? then 1 else 0) + Signals(es[1..])
  }

  /** How many of the events are waits that find a count other than zero. */
  ghost function Passes(s: State, es: seq<Event>): nat
    decreases |es|
  {
    if es == [] || !Enabled(s, es[0].thread, es[0].action) then 0 else
    (if es[0].action.Wait? && s.count != 0 then 1 else 0) + Passes(Do(s, es[0].thread, es[0].action), es[1..])
  }

  /** Without resets the count changes by the signals less the waits that pass. */
  lemma {:induction false} CountOfEvents(s: State, es: seq<Event>, f: State)
    requires Run(s, es, f) && NoReset(es)
    ensures f.count == s.count + Signals(es) - Passes(s, es)
    ensures f.completed == s.completed + Passes(s, es) && f.signals == s.signals + Signals(es)
    decreases |es|
  {
    if es != [] {
      assert !es[0].action.Reset?;
      assert forall i :: 0 <= i < |es| - 1 ==> es[1..][i] == es[i + 1];
      CountOfEvents(Do(s, es[0].thread, es[0].action), es[1..], f);
    }
  }

  lemma {:induction false} SplitRun(s: State, a: seq<Event>, b: seq<Event>, f: State) returns (m: State)
    requires Run(s, a + b, f)
    ensures Run(s, a, m) && Run(m, b, f)
    decreases |a|
  {
    if a == [] {
      assert a + b == b;
      m := s;
    } else {
      assert (a + b)[1..] == a[1..] + b;
      m := SplitRun(Do(s, a[0].thread, a[0].action), a[1..], b, f);
    }
  }

  /** After a reset the count is its value and the signals less the waits that pass since; a value above zero wakes all
      that slept, and any other one nobody. */
  lemma {:induction false} CountSinceReset(s: State, before: seq<Event>, t: Thread, value: int, since: seq<Event>,
                                           f: State)
    returns (k: State, m: State)
    requires Run(s, before + ([Event(t, Reset(value))] + since), f) && NoReset(since)
    ensures Run(s, before, k) && Run(m, since, f)
    ensures f.count == value + Signals(since) - Passes(m, since)
    ensures m.count == value && m.completed == k.completed && m.signals == k.signals
    ensures m.asleep == (if value > 0 then {} else k.asleep)
    ensures m.woken == (if value > 0 then k.woken + k.asleep else k.woken)
  {
    var reset := [Event(t, Reset(value))] + since;
    k := SplitRun(s, before, reset, f);
    m := Do(k, t, Reset(value));
    assert reset[1..] == since;
    CountOfEvents(m, since, f);
  }
}
