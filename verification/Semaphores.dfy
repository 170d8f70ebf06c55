/** `threads/semaphore.cc`: semaphores under every interleaving.  A thread that
    finds the value zero queues up and sleeps; `V` wakes the head of the queue,
    and the woken thread checks again, so another may get in before it. */
module Semaphores {
  type Thread = nat

  /** `woken` are the threads taken off the queue that have not checked again;
      `downs` and `ups` count the completed `P`s and the `V`s. */
  datatype Sem = Sem(initial: nat, value: int, queue: seq<Thread>, woken: set<Thread>, downs: nat, ups: nat)

  function NewSem(initial: nat): Sem { Sem(initial, initial, [], {}, 0, 0) }

  /** One pass of `thread` through the loop of `P`, interrupts off: it gets in or goes to sleep. */
  function TryP(s: Sem, thread: Thread): Sem {
    var s := s.(woken := s.woken - {thread});
    if s.value == 0 then s.(queue := s.queue + [thread]) else s.(value := s.value - 1, downs := s.downs + 1)
  }

  predicate GetsIn(s: Sem) { s.value != 0 }

  function DoV(s: Sem): Sem {
    var s := s.(value := s.value + 1, ups := s.ups + 1);
    if s.queue == [] then s else s.(queue := s.queue[1..], woken := s.woken + {s.queue[0]})
  }

  /** A queued thread sleeps: it cannot try. */
  predicate CanTry(s: Sem, thread: Thread) { thread !in s.queue }

  ghost predicate SemOk(s: Sem) {
    && s.value == s.initial + s.ups - s.downs && s.value >= 0
    && (forall i, j {:trigger s.queue[i], s.queue[j]} :: 0 <= i < j < |s.queue| ==> s.queue[i] != s.queue[j])
    && (forall t {:trigger t in s.woken} :: t in s.woken ==> t !in s.queue)
    && (s.queue != [] ==> s.value <= |s.woken|)
  }

  lemma NewSemOk(initial: nat)
    ensures SemOk(NewSem(initial))
  {
  }

  lemma NeverNegative(s: Sem)
    requires SemOk(s)
    ensures s.value >= 0
  {
  }

  lemma CountIn(a: set<Thread>, t: Thread)
    ensures |a - {t}| == |a| - (if t in a then 1 else 0)
    ensures |a + {t}| == |a| + (if t in a then 0 else 1)
  {
    if t in a { assert a == (a - {t}) + {t}; assert a + {t} == a; } else { assert a - {t} == a; }
  }

  lemma TryKeeps(s: Sem, t: Thread)
    requires SemOk(s) && CanTry(s, t)
    ensures SemOk(TryP(s, t))
    ensures TryP(s, t).value == s.value - (if GetsIn(s) then 1 else 0) && (t in TryP(s, t).queue <==> !GetsIn(s))
    ensures t !in TryP(s, t).woken
  {
    CountIn(s.woken, t);
    var q := TryP(s, t).queue;
    assert forall x :: x in q <==> x in s.queue || (x == t && !GetsIn(s));
  }

  lemma VKeeps(s: Sem)
    requires SemOk(s)
    ensures SemOk(DoV(s)) && DoV(s).value == s.value + 1
    ensures if s.queue == [] then DoV(s).queue == [] && DoV(s).woken == s.woken
            else s.queue == [s.queue[0]] + DoV(s).queue && s.queue[0] !in s.woken && DoV(s).woken == s.woken + {s.queue[0]}
    ensures forall t :: t in DoV(s).queue || t in DoV(s).woken <==> t in s.queue || t in s.woken
  {
    if s.queue != [] {
      var h := s.queue[0];
      CountIn(s.woken, h);
      assert s.queue == [h] + s.queue[1..];
      assert forall i :: 0 <= i < |s.queue[1..]| ==> s.queue[1..][i] == s.queue[i + 1];
    }
  }

  // -------------------------------------------------------------------------- runs

  datatype Event = Try(thread: Thread) | Up

  predicate Enabled(s: Sem, e: Event) { e.Try? ==> CanTry(s, e.thread) }

  function Step(s: Sem, e: Event): Sem { if e.Try? then TryP(s, e.thread) else DoV(s) }

  function After(s: Sem, events: seq<Event>): Sem {
    if events == [] then s else Step(After(s, events[..|events| - 1]), events[|events| - 1])
  }

  /** Each event is possible when it comes. */
  ghost predicate IsRun(s: Sem, events: seq<Event>) {
    forall i {:trigger events[i]} :: 0 <= i < |events| ==> Enabled(After(s, events[..i]), events[i])
  }

  lemma {:induction false} RunKeeps(s: Sem, events: seq<Event>)
    requires SemOk(s) && IsRun(s, events)
    ensures SemOk(After(s, events)) && After(s, events).initial == s.initial
  {
    if events != [] {
      var n := |events| - 1;
      var front := events[..n];
      forall i {:trigger front[i]} | 0 <= i < n ensures Enabled(After(s, front[..i]), front[i]) {
        assert front[i] == events[i] && front[..i] == events[..i];
      }
      RunKeeps(s, front);
      assert Enabled(After(s, front), events[n]);
      if events[n].Try? { TryKeeps(After(s, front), events[n].thread); } else { VKeeps(After(s, front)); }
    }
  }

  /** How often `V` occurs in a run, and how often a `P` completes. */
  function Ups(events: seq<Event>): nat {
    if events == [] then 0 else Ups(events[..|events| - 1]) + if events[|events| - 1].Up? then 1 else 0
  }

  function Completed(s: Sem, events: seq<Event>): nat {
    if events == [] then 0 else
      var front, e := events[..|events| - 1], events[|events| - 1];
      Completed(s, front) + if e.Try? && GetsIn(After(s, front)) then 1 else 0
  }

  lemma {:induction false} CountsAreCounts(initial: nat, events: seq<Event>)
    ensures var s := After(NewSem(initial), events); s.ups == Ups(events) && s.downs == Completed(NewSem(initial), events)
  {
    if events != [] { CountsAreCounts(initial, events[..|events| - 1]); }
  }

  /** In every run of a new semaphore the value is the initial one plus the `V`s less the
      completed `P`s, never negative, and no wake-up is lost: while a thread is queued, at
      least `value` others have been woken and are about to check again. */
  lemma SemaphoreIsSafe(initial: nat, events: seq<Event>)
    requires IsRun(NewSem(initial), events)
    ensures var s := After(NewSem(initial), events);
      && 0 <= s.value == initial + Ups(events) - Completed(NewSem(initial), events)
      && (s.queue != [] ==> s.value <= |s.woken|)
      && (s.queue != [] && s.woken == {} ==> s.value == 0)
  {
    NewSemOk(initial);
    RunKeeps(NewSem(initial), events);
    CountsAreCounts(initial, events);
  }

  /** Waiting threads are woken in the order in which they queued up. */
  lemma {:induction false} WakesInOrder(s: Sem, ups: nat)
    requires ups <= |s.queue|
    ensures After(s, seq(ups, _ => Up)).queue == s.queue[ups..]
    ensures After(s, seq(ups, _ => Up)).woken == s.woken + set i | 0 <= i < ups :: s.queue[i]
  {
    if ups > 0 {
      var e := seq(ups, _ => Up);
      assert e[..|e| - 1] == seq(ups - 1, _ => Up);
      WakesInOrder(s, ups - 1);
      assert s.queue[ups - 1..][0] == s.queue[ups - 1] && s.queue[ups - 1..][1..] == s.queue[ups..];
    } else {
      assert seq(0, _ => Up) == [];
    }
  }

  // -------------------------------------------------------------------------- the class

  class Semaphore {
    var value: int
    var queue: seq<Thread>
    /** The abstract semaphore with its history. */
    ghost var history: Sem

    ghost predicate Valid()
      reads this
    {
      SemOk(history) && history.value == value && history.queue == queue
    }

    constructor (initialValue: nat)
      ensures Valid() && history == NewSem(initialValue)
    {
      value, queue, history := initialValue, [], NewSem(initialValue);
    }

    /** `P` from its start, or from a wake-up, up to its end or to the next sleep. */
    method P(currentThread: Thread) returns (sleeps: bool)
      requires Valid() && currentThread !in queue
      modifies this
      ensures Valid() && history == TryP(old(history), currentThread)
      ensures sleeps <==> old(value) == 0
    {
      TryKeeps(history, currentThread);
      history := TryP(history, currentThread);
      if value == 0 {
        queue := queue + [currentThread];
        return true;
      }
      value := value - 1;
      return false;
    }

    /** `V`, whole: the woken thread, if any, goes to the ready list. */
    method V() returns (woken: set<Thread>)
      requires Valid()
      modifies this
      ensures Valid() && history == DoV(old(history))
      ensures woken == if old(queue) == [] then {} else {old(queue)[0]}
    {
      VKeeps(history);
      history := DoV(history);
      woken := {};
      if queue != [] {
        woken := {queue[0]};
        queue := queue[1..];
      }
      value := value + 1;
    }
  }
}
