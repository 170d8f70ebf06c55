/** `filesys/synch_disk.cc`: synchronous disk access over an asynchronous disk.
    Threads come and go through a lock, the disk interrupts when a request is
    done, and a semaphore passes that on; every interleaving is considered. */
module SynchDisks {
  import opened Options
  import opened Semaphores
  import opened Locks

  /** What the thread that holds the lock has done: nothing yet, issued its request, or
      got past the semaphore. */
  datatype Stage = Fresh | Waiting | Done

  /** `active` is the disk's busy flag.  Requests are numbered in the order they were
      issued; `ticket` is the number of a thread's latest request and `completed`
      counts the interrupts. */
  datatype SynchDisk = SynchDisk(
    lock: Lock, sem: Sem, active: bool, stage: map<Thread, Stage>, issued: nat, completed: nat, ticket: map<Thread, nat>)

  function NewSynchDisk(): SynchDisk { SynchDisk(NewLock(), NewSem(0), false, map[], 0, 0, map[]) }

  function StageOf(d: SynchDisk, t: Thread): Stage { if t in d.stage then d.stage[t] else Fresh }

  function TicketOf(d: SynchDisk, t: Thread): nat { if t in d.ticket then d.ticket[t] else 0 }

  datatype DiskEvent = OnLock(e: LockEvent) | Request(t: Thread) | Wait(t: Thread) | Interrupt

  /** The program of `ReadSector` and `WriteSector`, and the disk that interrupts only when busy. */
  predicate CanStep(d: SynchDisk, e: DiskEvent) {
    match e
    case OnLock(CallAcquire(t)) => PhaseOf(d.lock, t) == Outside
    case OnLock(CallRelease(t)) => PhaseOf(d.lock, t) == Holding && StageOf(d, t) == Done
    case OnLock(e) => CanDo(d.lock, e)
    case Request(t) => PhaseOf(d.lock, t) == Holding && StageOf(d, t) == Fresh
    case Wait(t) => PhaseOf(d.lock, t) == Holding && StageOf(d, t) == Waiting && CanTry(d.sem, t)
    case Interrupt => d.active
  }

  /** The assertions of the lock, and the disk's that only one request is under way. */
  predicate NoAssertionFails(d: SynchDisk, e: DiskEvent) {
    match e
    case OnLock(e) => AssertionHolds(d.lock, e)
    case Request(_) => !d.active
    case _ => true
  }

  function StepDisk(d: SynchDisk, e: DiskEvent): SynchDisk {
    match e
    case OnLock(e) => d.(lock := Do(d.lock, e), stage := if e.SetOwner? then d.stage[e.t := Fresh] else d.stage)
    case Request(t) => d.(active := true, issued := d.issued + 1, ticket := d.ticket[t := d.issued + 1], stage := d.stage[t := Waiting])
    case Wait(t) => d.(sem := TryP(d.sem, t), stage := d.stage[t := if GetsIn(d.sem) then Done else Waiting])
    case Interrupt => d.(active := false, completed := d.completed + 1, sem := DoV(d.sem))
  }

  predicate OwnerWaits(d: SynchDisk) { d.lock.owner.Some? && StageOf(d, d.lock.owner.value) == Waiting }

  /** While the owner waits, either its request is under way or the semaphore is up for it;
      otherwise the disk is idle and the semaphore down with nobody at it. */
  ghost predicate DiskOk(d: SynchDisk) {
    && LockOk(d.lock) && SemOk(d.sem) && d.issued == d.completed + (if d.active then 1 else 0)
    && d.sem.value + (if d.active then 1 else 0) == (if OwnerWaits(d) then 1 else 0)
    && (forall t: Thread {:trigger t in d.sem.queue} {:trigger t in d.sem.woken} ::
         t in d.sem.queue || t in d.sem.woken ==> OwnerWaits(d) && d.lock.owner == Some(t))
    && (d.lock.owner.Some? && StageOf(d, d.lock.owner.value) != Fresh ==> TicketOf(d, d.lock.owner.value) == d.issued > 0)
  }

  lemma NewSynchDiskOk()
    ensures DiskOk(NewSynchDisk())
  {
    hide SemOk, LockOk;
    NewLockOk();
    NewSemOk(0);
  }

  /** The owner is whoever holds the lock. */
  lemma OwnerHolds(l: Lock, t: Thread)
    requires LockOk(l)
    ensures PhaseOf(l, t) == Holding <==> l.owner == Some(t)
    ensures PhaseOf(l, t) == Passed ==> l.owner.None?
  {
    AtMostOne(l, t, t);
    if l.owner.Some? { AtMostOne(l, t, l.owner.value); }
  }

  /** No assertion ever fails: a thread that may go on always can. */
  lemma AssertionsHold(d: SynchDisk, e: DiskEvent)
    requires DiskOk(d) && CanStep(d, e)
    ensures NoAssertionFails(d, e)
  {
    hide SemOk, LockOk;
    NeverNegative(d.sem);
    if e.OnLock? { OwnerHolds(d.lock, e.e.t); } else if e.Request? { OwnerHolds(d.lock, e.t); }
  }

  lemma LockEventKeeps(d: SynchDisk, e: LockEvent)
    requires DiskOk(d) && CanStep(d, OnLock(e))
    ensures DiskOk(StepDisk(d, OnLock(e)))
  {
    hide SemOk, LockOk;
    AssertionsHold(d, OnLock(e));
    OwnerHolds(d.lock, e.t);
    LockStep(d.lock, e);
  }

  lemma RequestKeeps(d: SynchDisk, t: Thread)
    requires DiskOk(d) && CanStep(d, Request(t))
    ensures DiskOk(StepDisk(d, Request(t)))
  {
    hide SemOk, LockOk;
    AssertionsHold(d, Request(t));
    OwnerHolds(d.lock, t);
  }

  lemma WaitKeeps(d: SynchDisk, t: Thread)
    requires DiskOk(d) && CanStep(d, Wait(t))
    ensures DiskOk(StepDisk(d, Wait(t)))
  {
    hide SemOk, LockOk;
    OwnerHolds(d.lock, t);
    TryKeeps(d.sem, t);
  }

  lemma InterruptKeeps(d: SynchDisk)
    requires DiskOk(d) && CanStep(d, Interrupt)
    ensures DiskOk(StepDisk(d, Interrupt))
  {
    hide SemOk, LockOk;
    VKeeps(d.sem);
  }

  lemma StepKeeps(d: SynchDisk, e: DiskEvent)
    requires DiskOk(d) && CanStep(d, e)
    ensures DiskOk(StepDisk(d, e))
  {
    hide DiskOk, StepDisk;
    match e
    case OnLock(e) => LockEventKeeps(d, e);
    case Request(t) => RequestKeeps(d, t);
    case Wait(t) => WaitKeeps(d, t);
    case Interrupt => InterruptKeeps(d);
  }

  function AfterSteps(d: SynchDisk, events: seq<DiskEvent>): SynchDisk {
    if events == [] then d else StepDisk(AfterSteps(d, events[..|events| - 1]), events[|events| - 1])
  }

  ghost predicate IsDiskRun(d: SynchDisk, events: seq<DiskEvent>) {
    forall i {:trigger events[i]} :: 0 <= i < |events| ==> CanStep(AfterSteps(d, events[..i]), events[i])
  }

  lemma FrontIsDiskRun(d: SynchDisk, events: seq<DiskEvent>)
    requires IsDiskRun(d, events) && events != []
    ensures var n := |events| - 1; IsDiskRun(d, events[..n]) && CanStep(AfterSteps(d, events[..n]), events[n])
  {
    var n := |events| - 1;
    var front := events[..n];
    forall i {:trigger front[i]} | 0 <= i < n ensures CanStep(AfterSteps(d, front[..i]), front[i]) {
      assert front[i] == events[i] && front[..i] == events[..i];
    }
    assert CanStep(AfterSteps(d, front), events[n]);
  }

  lemma {:induction false} RunKeeps(d: SynchDisk, events: seq<DiskEvent>)
    requires DiskOk(d) && IsDiskRun(d, events)
    ensures DiskOk(AfterSteps(d, events))
  {
    hide DiskOk, IsDiskRun;
    if events != [] {
      var n := |events| - 1;
      FrontIsDiskRun(d, events);
      RunKeeps(d, events[..n]);
      StepKeeps(AfterSteps(d, events[..n]), events[n]);
    }
  }

  // ----------------------------------------------------- requests, counted from the events

  function RequestsIn(events: seq<DiskEvent>): nat {
    if events == [] then 0 else RequestsIn(events[..|events| - 1]) + if events[|events| - 1].Request? then 1 else 0
  }

  function InterruptsIn(events: seq<DiskEvent>): nat {
    if events == [] then 0 else InterruptsIn(events[..|events| - 1]) + if events[|events| - 1].Interrupt? then 1 else 0
  }

  /** The number of the latest request of `t` among all requests, 0 if it made none. */
  function LastRequest(events: seq<DiskEvent>, t: Thread): nat {
    if events == [] then 0
    else if events[|events| - 1] == Request(t) then RequestsIn(events)
    else LastRequest(events[..|events| - 1], t)
  }

  /** `t` has made a request since it last got the lock. */
  function HasRequested(events: seq<DiskEvent>, t: Thread): bool {
    if events == [] then false
    else if events[|events| - 1] == Request(t) then true
    else if events[|events| - 1] == OnLock(SetOwner(t)) then false
    else HasRequested(events[..|events| - 1], t)
  }

  lemma {:induction false} CountsMatch(events: seq<DiskEvent>, t: Thread)
    requires IsDiskRun(NewSynchDisk(), events)
    ensures var d := AfterSteps(NewSynchDisk(), events);
      && d.issued == RequestsIn(events) && d.completed == InterruptsIn(events) && TicketOf(d, t) == LastRequest(events, t)
      && (StageOf(d, t) != Fresh <==> HasRequested(events, t))
  {
    hide IsDiskRun, Do, CanDo, TryP, DoV;
    if events != [] {
      FrontIsDiskRun(NewSynchDisk(), events);
      CountsMatch(events[..|events| - 1], t);
    }
  }

  /** In every run from the start: at most one request is under way, the disk being busy while one
      is; no assertion of disk or lock fails at the next step; and a thread about to release the lock
      and return has made its request since it got the lock, no request came after it, and there
      have been as many interrupts as requests, so that its own is among them. */
  lemma SynchDiskIsSafe(events: seq<DiskEvent>, next: DiskEvent)
    requires IsDiskRun(NewSynchDisk(), events) && CanStep(AfterSteps(NewSynchDisk(), events), next)
    ensures var d := AfterSteps(NewSynchDisk(), events);
      && InterruptsIn(events) <= RequestsIn(events) <= InterruptsIn(events) + 1
      && (d.active <==> RequestsIn(events) == InterruptsIn(events) + 1)
      && NoAssertionFails(d, next)
      && (next.OnLock? && next.e.CallRelease? ==>
           HasRequested(events, next.e.t) && 0 < LastRequest(events, next.e.t) == RequestsIn(events) == InterruptsIn(events))
  {
    hide AfterSteps, IsDiskRun, NewSynchDisk, SemOk, LockOk, RequestsIn, InterruptsIn, LastRequest, HasRequested;
    NewSynchDiskOk();
    RunKeeps(NewSynchDisk(), events);
    CountsMatch(events, 0);
    var d := AfterSteps(NewSynchDisk(), events);
    AssertionsHold(d, next);
    NeverNegative(d.sem);
    if next.OnLock? {
      CountsMatch(events, next.e.t);
      OwnerHolds(d.lock, next.e.t);
    }
  }

  /** No thread waits in vain: while one sleeps at the semaphore, its request is under way,
      and the interrupt wakes it. */
  lemma SleeperIsServed(d: SynchDisk, t: Thread)
    requires DiskOk(d) && t in d.sem.queue && d.sem.woken == {}
    ensures d.active && TicketOf(d, t) == d.issued
    ensures var d' := StepDisk(d, Interrupt); t in d'.sem.woken && GetsIn(d'.sem)
  {
    var q := d.sem.queue;
    assert q[0] in q;
  }
}
