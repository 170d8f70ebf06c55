/** `threads/lock.cc`: a lock over a semaphore, under every interleaving of
    threads.  A context switch may fall between any two steps, in particular
    between the end of `P` and the assignment of the owner. */
module Locks {
  import opened Options
  import opened Semaphores

  // ------------------------------------------------------------------------- the lock

  /** Where a thread is: not in the lock's code, in `P`, past `P` with the owner not yet
      set, holding the lock, or in `Release` with the owner reset and `V` to come. */
  datatype Phase = Outside | Trying | Passed | Holding | Leaving

  datatype Lock = Lock(sem: Sem, owner: Option<Thread>, phase: map<Thread, Phase>)

  function NewLock(): Lock { Lock(NewSem(1), None, map[]) }

  function PhaseOf(l: Lock, t: Thread): Phase { if t in l.phase then l.phase[t] else Outside }

  function Move(l: Lock, t: Thread, p: Phase): Lock { l.(phase := l.phase[t := p]) }

  predicate IsHeldBy(l: Lock, t: Thread) { l.owner == Some(t) }

  datatype LockEvent =
    | CallAcquire(t: Thread)
    | TryLock(t: Thread)
    | SetOwner(t: Thread)
    | CallRelease(t: Thread)
    | Unlock(t: Thread)

  /** What a thread can do next; the two calls are its own decision. */
  predicate CanDo(l: Lock, e: LockEvent) {
    match e
    case CallAcquire(t) => PhaseOf(l, t) in {Outside, Holding}
    case TryLock(t) => PhaseOf(l, t) == Trying && CanTry(l.sem, t)
    case SetOwner(t) => PhaseOf(l, t) == Passed
    case CallRelease(t) => PhaseOf(l, t) in {Outside, Holding}
    case Unlock(t) => PhaseOf(l, t) == Leaving
  }

  /** The assertions at the start of `Acquire` and `Release`. */
  predicate AssertionHolds(l: Lock, e: LockEvent) {
    match e
    case CallAcquire(t) => !IsHeldBy(l, t)
    case CallRelease(t) => IsHeldBy(l, t)
    case _ => true
  }

  function Do(l: Lock, e: LockEvent): Lock {
    match e
    case CallAcquire(t) => Move(l, t, Trying)
    case TryLock(t) => Move(l.(sem := TryP(l.sem, t)), t, if GetsIn(l.sem) then Passed else Trying)
    case SetOwner(t) => Move(l.(owner := Some(t)), t, Holding)
    case CallRelease(t) => Move(l.(owner := None), t, Leaving)
    case Unlock(t) => Move(l.(sem := DoV(l.sem)), t, Outside)
  }

  /** Between the end of `P` in `Acquire` and the start of `V` in `Release`. */
  predicate InSection(l: Lock, t: Thread) { PhaseOf(l, t) in {Passed, Holding, Leaving} }

  /** `h` is the only thread there; the value is one when there is none. */
  ghost predicate SectionIs(l: Lock, h: Option<Thread>) {
    l.sem.value == (if h.None? then 1 else 0) && forall t: Thread {:trigger InSection(l, t)} :: InSection(l, t) <==> h == Some(t)
  }

  ghost predicate OwnerOk(l: Lock) {
    forall t: Thread {:trigger PhaseOf(l, t)} :: l.owner == Some(t) <==> PhaseOf(l, t) == Holding
  }

  ghost predicate QueueOk(l: Lock) {
    forall t: Thread {:trigger PhaseOf(l, t)} :: t in l.sem.queue || t in l.sem.woken ==> PhaseOf(l, t) == Trying
  }

  ghost predicate LockOk(l: Lock) {
    SemOk(l.sem) && OwnerOk(l) && QueueOk(l) && exists h :: SectionIs(l, h)
  }

  lemma Moved(l: Lock, l': Lock, t: Thread)
    requires l'.phase == l.phase[t := PhaseOf(l', t)]
    ensures forall u: Thread {:trigger PhaseOf(l', u)} {:trigger InSection(l', u)} :: u != t ==> PhaseOf(l', u) == PhaseOf(l, u) && InSection(l', u) == InSection(l, u)
  {
  }

  lemma OwnerStep(l: Lock, e: LockEvent)
    requires OwnerOk(l) && CanDo(l, e) && AssertionHolds(l, e) && (e.SetOwner? ==> l.owner.None?)
    ensures OwnerOk(Do(l, e))
  {
    Moved(l, Do(l, e), e.t);
    assert l.owner == Some(e.t) <==> PhaseOf(l, e.t) == Holding;
  }

  lemma QueueStep(l: Lock, e: LockEvent)
    requires SemOk(l.sem) && QueueOk(l) && CanDo(l, e) && AssertionHolds(l, e)
    ensures SemOk(Do(l, e).sem) && QueueOk(Do(l, e))
  {
    Moved(l, Do(l, e), e.t);
    if e.TryLock? { TryKeeps(l.sem, e.t); } else if e.Unlock? { VKeeps(l.sem); }
  }

  lemma SectionStep(l: Lock, e: LockEvent, h: Option<Thread>) returns (h': Option<Thread>)
    requires SemOk(l.sem) && OwnerOk(l) && CanDo(l, e) && AssertionHolds(l, e) && SectionIs(l, h)
    ensures SectionIs(Do(l, e), h')
  {
    var l' := Do(l, e);
    Moved(l, l', e.t);
    assert InSection(l, e.t) <==> h == Some(e.t);
    if e.TryLock? { TryKeeps(l.sem, e.t); } else if e.Unlock? { VKeeps(l.sem); }
    h' := if e.TryLock? && GetsIn(l.sem) then Some(e.t) else if e.Unlock? then None else h;
    forall t: Thread {:trigger InSection(l', t)} ensures InSection(l', t) <==> h' == Some(t) {
      assert InSection(l, t) <==> h == Some(t);
    }
  }

  lemma LockStep(l: Lock, e: LockEvent)
    requires LockOk(l) && CanDo(l, e) && AssertionHolds(l, e)
    ensures LockOk(Do(l, e))
  {
    var h :| SectionIs(l, h);
    if e.SetOwner? && l.owner.Some? {
      assert PhaseOf(l, l.owner.value) == Holding;
      assert InSection(l, l.owner.value) && InSection(l, e.t);
    }
    OwnerStep(l, e);
    QueueStep(l, e);
    var h' := SectionStep(l, e, h);
  }

  function AfterAll(l: Lock, events: seq<LockEvent>): Lock {
    if events == [] then l else Do(AfterAll(l, events[..|events| - 1]), events[|events| - 1])
  }

  /** Each event is possible when it comes, and no assertion stopped the kernel. */
  ghost predicate IsLockRun(l: Lock, events: seq<LockEvent>) {
    forall i {:trigger events[i]} :: 0 <= i < |events| ==>
      CanDo(AfterAll(l, events[..i]), events[i]) && AssertionHolds(AfterAll(l, events[..i]), events[i])
  }

  lemma FrontIsRun(l: Lock, events: seq<LockEvent>)
    requires IsLockRun(l, events) && events != []
    ensures var front, e := events[..|events| - 1], events[|events| - 1];
      IsLockRun(l, front) && CanDo(AfterAll(l, front), e) && AssertionHolds(AfterAll(l, front), e)
  {
    var n := |events| - 1;
    var front := events[..n];
    forall i {:trigger front[i]} | 0 <= i < n
      ensures CanDo(AfterAll(l, front[..i]), front[i]) && AssertionHolds(AfterAll(l, front[..i]), front[i])
    {
      assert front[i] == events[i] && front[..i] == events[..i];
    }
    assert CanDo(AfterAll(l, front), events[n]);
  }

  lemma {:induction false} LockRun(l: Lock, events: seq<LockEvent>)
    requires LockOk(l) && IsLockRun(l, events)
    ensures LockOk(AfterAll(l, events))
  {
    if events != [] {
      var n := |events| - 1;
      var front := events[..n];
      FrontIsRun(l, events);
      LockRun(l, front);
      LockStep(AfterAll(l, front), events[n]);
    }
  }

  lemma NewLockOk()
    ensures LockOk(NewLock())
  {
    hide SemOk;
    NewSemOk(1);
    var l := NewLock();
    assert forall t: Thread {:trigger PhaseOf(l, t)} :: PhaseOf(l, t) == Outside;
    assert SectionIs(l, None);
  }

  /** In every run at most one thread is between the end of `P` and the start of `V`, the
      owner is nobody or that thread, and while others are queued with nobody there, one of
      them has been woken. */
  lemma MutualExclusion(events: seq<LockEvent>, t: Thread, u: Thread)
    requires IsLockRun(NewLock(), events)
    ensures var l := AfterAll(NewLock(), events);
      && (InSection(l, t) && InSection(l, u) ==> t == u)
      && (l.owner.Some? ==> InSection(l, l.owner.value))
      && (InSection(l, t) && l.owner.Some? ==> l.owner.value == t)
      && (l.sem.queue != [] && (forall w: Thread {:trigger InSection(l, w)} :: !InSection(l, w)) ==> l.sem.woken != {})
  {
    hide AfterAll, IsLockRun, LockOk, InSection, NewLock;
    NewLockOk();
    LockRun(NewLock(), events);
    AtMostOne(AfterAll(NewLock(), events), t, u);
  }

  lemma AtMostOne(l: Lock, t: Thread, u: Thread)
    requires LockOk(l)
    ensures InSection(l, t) && InSection(l, u) ==> t == u
    ensures l.owner.Some? ==> InSection(l, l.owner.value)
    ensures InSection(l, t) && l.owner.Some? ==> l.owner.value == t
    ensures l.sem.queue != [] && (forall w: Thread {:trigger InSection(l, w)} :: !InSection(l, w)) ==> l.sem.woken != {}
  {
    var h :| SectionIs(l, h);
    if l.owner.Some? { assert PhaseOf(l, l.owner.value) == Holding && InSection(l, l.owner.value); }
    if h.Some? { assert InSection(l, h.value); }
  }

  /** The phase of `t` as the last of its own steps left it, if no assertion failed: it holds the
      lock from the assignment of the owner until it calls `Release`. */
  function Holds(events: seq<LockEvent>, t: Thread): bool {
    if events == [] then false else
      var e := events[|events| - 1];
      if e.t != t || e.TryLock? then Holds(events[..|events| - 1], t) else e.SetOwner?
  }

  lemma {:induction false} HoldingPhase(events: seq<LockEvent>, t: Thread)
    requires IsLockRun(NewLock(), events)
    ensures Holds(events, t) <==> PhaseOf(AfterAll(NewLock(), events), t) == Holding
  {
    if events != [] {
      var n := |events| - 1;
      var front, e := events[..n], events[n];
      FrontIsRun(NewLock(), events);
      HoldingPhase(front, t);
      Moved(AfterAll(NewLock(), front), AfterAll(NewLock(), events), e.t);
    }
  }

  /** In every run `IsHeldByCurrentThread` answers truly, whatever other threads did in between:
      it is true of a thread exactly from the end of its `Acquire` to its call of `Release`.
      So the assertion of `Acquire` fails exactly for a thread that has the lock already, and that
      of `Release` exactly for one that has not. */
  lemma AssertionsAreExact(events: seq<LockEvent>, t: Thread)
    requires IsLockRun(NewLock(), events)
    ensures var l := AfterAll(NewLock(), events);
      && (IsHeldBy(l, t) <==> Holds(events, t))
      && (AssertionHolds(l, CallAcquire(t)) <==> !Holds(events, t)) && (AssertionHolds(l, CallRelease(t)) <==> Holds(events, t))
  {
    hide AfterAll, IsLockRun, LockOk, NewLock, Holds, PhaseOf;
    NewLockOk();
    LockRun(NewLock(), events);
    HoldingPhase(events, t);
    OwnerIsHolder(AfterAll(NewLock(), events), t);
  }

  lemma OwnerIsHolder(l: Lock, t: Thread)
    requires LockOk(l)
    ensures l.owner == Some(t) <==> PhaseOf(l, t) == Holding
  {
  }
}
