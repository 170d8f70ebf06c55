/** `machine/interrupt.cc`: the simulated clock and the queue of pending
    interrupts. */
module Interrupts {
  import opened Lists

  const SYSTEM_TICK: nat := 10
  const USER_TICK: nat := 1

  datatype IntType = TimerInt | DiskInt | ConsoleWriteInt | ConsoleReadInt | NetworkSendInt | NetworkRecvInt
  datatype MachineStatus = IdleMode | SystemMode | UserMode

  /** An interrupt to come: which handler, when and from what device. */
  datatype Pending = Pending(handler: nat, when: nat, kind: IntType)
  type Queue = seq<Entry<Pending>>

  /** What a handler asks `Schedule` for: how far from now is asserted positive. */
  type Delay = d: nat | d > 0 witness 1
  datatype Request = Request(handler: nat, fromNow: Delay, kind: IntType)

  /** What a handler does to this module: its requests, and whether it calls `YieldOnReturn`. */
  datatype Reaction = Reaction(requests: seq<Request>, asks: bool)
  type Handlers = (nat, Pending) -> Reaction

  /** A handler that was called: when it was due, what the clock showed, and whether it
      asked for the interrupted thread to yield. */
  datatype Firing = Firing(when: nat, at: nat, asks: bool)

  // --------------------------------------------------------------------- the queue

  ghost predicate QueueOk(q: Queue) {
    Sorted(q, true) && forall i {:trigger q[i]} :: 0 <= i < |q| ==> q[i].key == q[i].item.when
  }

  /** Every entry is due after `time`. */
  ghost predicate After(q: Queue, time: int) { forall i {:trigger q[i]} :: 0 <= i < |q| ==> time < q[i].key }

  ghost predicate NotBefore(q: Queue, time: int) { After(q, time - 1) }

  function EntryOf(now: nat, r: Request): Entry<Pending> {
    Entry(Pending(r.handler, now + r.fromNow, r.kind), now + r.fromNow)
  }

  function Scheduled(q: Queue, now: nat, requests: seq<Request>): Queue {
    if requests == [] then q
    else Insert(Scheduled(q, now, requests[..|requests| - 1]), EntryOf(now, requests[|requests| - 1]), true)
  }

  /** The entries that the requests made at `now` stand for: each due as far from now as asked. */
  ghost function EntriesOf(now: nat, requests: seq<Request>): multiset<Entry<Pending>> {
    if requests == [] then multiset{} else
      var r := requests[|requests| - 1];
      EntriesOf(now, requests[..|requests| - 1]) + multiset{Entry(Pending(r.handler, now + r.fromNow, r.kind), now + r.fromNow)}
  }

  /** A handler's requests put exactly their entries into the queue. */
  lemma {:induction false} ScheduledAdds(q: Queue, now: nat, requests: seq<Request>)
    ensures multiset(Scheduled(q, now, requests)) == multiset(q) + EntriesOf(now, requests)
  {
    if requests != [] {
      var n := |requests| - 1;
      ScheduledAdds(q, now, requests[..n]);
      InsertKeeps(Scheduled(q, now, requests[..n]), EntryOf(now, requests[n]), true);
    }
  }

  /** How many entries are due at `now`. */
  ghost function Due(q: Queue, now: nat): nat { Place(q, now, true) }

  /** A later entry goes in without touching those due. */
  lemma InsertLater(q: Queue, e: Entry<Pending>, now: nat)
    requires QueueOk(q) && e.key == e.item.when > now
    ensures QueueOk(Insert(q, e, true)) && Due(Insert(q, e, true), now) == Due(q, now)
    ensures forall t: int {:trigger After(q, t)} :: After(q, t) && t < e.key ==> After(Insert(q, e, true), t)
  {
    InsertSorted(q, e, true);
    var p, d := Place(q, e.key, true), Due(q, now);
    var r := Insert(q, e, true);
    PlaceIs(r, now, true, d);
  }

  lemma {:induction false} ScheduledKeeps(q: Queue, now: nat, requests: seq<Request>)
    requires QueueOk(q)
    ensures QueueOk(Scheduled(q, now, requests)) && Due(Scheduled(q, now, requests), now) == Due(q, now)
    ensures forall t: int {:trigger After(q, t)} :: After(q, t) && t <= now ==> After(Scheduled(q, now, requests), t)
  {
    if requests != [] {
      var n := |requests| - 1;
      ScheduledKeeps(q, now, requests[..n]);
      InsertLater(Scheduled(q, now, requests[..n]), EntryOf(now, requests[n]), now);
    }
  }

  lemma PopDue(q: Queue, now: nat)
    requires QueueOk(q) && q != []
    ensures QueueOk(q[1..]) && (q[0].key <= now ==> Due(q[1..], now) + 1 == Due(q, now)) && NotBefore(q[1..], q[0].key)
    ensures q[0].key > now ==> Due(q, now) == 0 && After(q, now)
  {
    var r := q[1..];
    if q[0].key <= now { PlaceIs(q, now, true, Due(r, now) + 1); }
  }

  /** Nothing is due exactly when every entry is later. */
  lemma NoneDue(q: Queue, now: nat)
    requires QueueOk(q)
    ensures Due(q, now) == 0 <==> After(q, now)
  {
    if After(q, now) { PlaceIs(q, now, true, 0); }
  }

  /** The queue after `CheckIfDue` popped the head and put it back. */
  function PutBack(q: Queue): Queue
    requires q != []
  {
    Insert(q[1..], q[0], true)
  }

  /** Putting the head back keeps the entries and the order of times. */
  lemma PutBackKeeps(q: Queue, now: nat)
    requires QueueOk(q) && q != []
    ensures QueueOk(PutBack(q)) && multiset(PutBack(q)) == multiset(q) && Due(PutBack(q), now) == Due(q, now)
    ensures |PutBack(q)| == |q|
    ensures forall t: int {:trigger After(q, t)} :: After(q, t) ==> After(PutBack(q), t)
  {
    hide Insert, Sorted, Place, InsertAt;
    assert q == [q[0]] + q[1..];
    InsertKeeps(q[1..], q[0], true);
    PutBackSorted(q);
    PutBackDue(q, now);
  }

  lemma PutBackSorted(q: Queue)
    requires QueueOk(q) && q != []
    ensures QueueOk(PutBack(q))
    ensures forall t: int {:trigger After(q, t)} :: After(q, t) ==> After(PutBack(q), t)
  {
    PopDue(q, 0);
    InsertSorted(q[1..], q[0], true);
  }

  lemma PutBackDue(q: Queue, now: nat)
    requires QueueOk(q) && q != [] && QueueOk(PutBack(q))
    ensures Due(PutBack(q), now) == Due(q, now)
  {
    hide InsertAt;
    PopDue(q, now);
    var r, e := q[1..], q[0];
    if e.key <= now {
      var d := Due(r, now);
      assert d < |r| ==> r[d].key > now;
      assert Place(r, e.key, true) <= d;
      PlaceIs(PutBack(q), now, true, d + 1);
    } else {
      PlaceIs(PutBack(q), now, true, 0);
    }
  }

  /** But it goes behind entries of the same time: a look at a queue whose first two
      entries are different and due together changes their order, and only then. */
  lemma PutBackReorders(q: Queue)
    requires QueueOk(q) && q != [] && (|q| > 1 ==> q[1] != q[0])
    ensures PutBack(q) == q <==> |q| == 1 || q[1].key > q[0].key
  {
    var r := q[1..];
    if |q| == 1 || q[1].key > q[0].key {
      PlaceIs(r, q[0].key, true, 0);
      assert PutBack(q) == q;
    } else {
      assert PutBack(q)[0] == q[1];
    }
  }

  // ------------------------------------------------------------------------- history

  /** Every handler was called at its time or later, in order of due times and of the clock. */
  ghost predicate InOrder(fired: seq<Firing>) {
    && (forall i {:trigger fired[i]} :: 0 <= i < |fired| ==> fired[i].when <= fired[i].at)
    && (forall i, j {:trigger fired[i], fired[j]} :: 0 <= i < j < |fired| ==> fired[i].when <= fired[j].when && fired[i].at <= fired[j].at)
  }

  /** The history is in order, the clock is not behind it, and what is pending comes later. */
  ghost predicate HistoryOk(fired: seq<Firing>, q: Queue, now: nat) {
    InOrder(fired) && (fired != [] ==> var f := fired[|fired| - 1]; f.at <= now && NotBefore(q, f.when))
  }

  lemma LaterClock(fired: seq<Firing>, q: Queue, now: nat, now': nat)
    requires HistoryOk(fired, q, now) && now <= now'
    ensures HistoryOk(fired, q, now')
  {
  }

  lemma FireNext(fired: seq<Firing>, q: Queue, now: nat, now': nat, r: Reaction)
    requires QueueOk(q) && q != [] && HistoryOk(fired, q, now) && now <= now' && q[0].key <= now'
    ensures q[0].key == q[0].item.when
    ensures QueueOk(Scheduled(q[1..], now', r.requests))
    ensures HistoryOk(fired + [Firing(q[0].item.when, now', r.asks)], Scheduled(q[1..], now', r.requests), now')
    ensures Due(Scheduled(q[1..], now', r.requests), now') + 1 == Due(q, now')
  {
    PopDue(q, now');
    ScheduledKeeps(q[1..], now', r.requests);
    assert After(q[1..], q[0].key - 1);
    var f := fired + [Firing(q[0].item.when, now', r.asks)];
    assert fired != [] ==> fired[|fired| - 1].when <= q[0].key;
    assert InOrder(f);
  }

  /** Some handler called since the first `from` asked for a yield. */
  ghost predicate Asked(fired: seq<Firing>, from: nat) { exists i {:trigger fired[i]} :: from <= i < |fired| && fired[i].asks }

  lemma AskedMore(fired: seq<Firing>, from: nat, f: Firing)
    requires from <= |fired|
    ensures Asked(fired + [f], from) <==> Asked(fired, from) || f.asks
  {
    var g := fired + [f];
    assert g[|fired|] == f;
    if Asked(fired, from) {
      var i :| from <= i < |fired| && fired[i].asks;
      assert g[i].asks;
    }
  }

  // ------------------------------------------------------------- what an idle drain leaves

  ghost predicate LastIsTimer(q: Queue) { q != [] && q[|q| - 1].item.kind == TimerInt }

  /** The handlers of all entries but the last, called in turn, schedule nothing. */
  ghost predicate QuietBeforeLast(q: Queue, handlers: Handlers, calls: nat) {
    forall i {:trigger q[i]} :: 0 <= i < |q| - 1 ==> handlers(calls + i, q[i].item).requests == []
  }

  /** Everything pending is due, a timer comes last, and nothing else is going to be scheduled. */
  ghost predicate LeavesTimer(q: Queue, now: nat, handlers: Handlers, calls: nat) {
    LastIsTimer(q) && Due(q, now) == |q| && QuietBeforeLast(q, handlers, calls)
  }

  lemma QuietTail(q: Queue, handlers: Handlers, calls: nat)
    requires |q| > 1
    ensures QuietBeforeLast(q, handlers, calls) <==>
      handlers(calls, q[0].item).requests == [] && QuietBeforeLast(q[1..], handlers, calls + 1)
  {
    var r := q[1..];
    forall i {:trigger r[i]} | 0 <= i < |r| - 1 ensures r[i] == q[i + 1] && calls + 1 + i == calls + (i + 1) {}
    if handlers(calls, q[0].item).requests == [] && QuietBeforeLast(r, handlers, calls + 1) {
      forall i {:trigger q[i]} | 0 <= i < |q| - 1 ensures handlers(calls + i, q[i].item).requests == [] {
        if i > 0 { assert r[i - 1] == q[i]; }
      }
    }
    if QuietBeforeLast(q, handlers, calls) {
      assert q[0] == q[0];
    }
  }

  lemma {:induction false} ScheduledLength(q: Queue, now: nat, requests: seq<Request>)
    ensures |Scheduled(q, now, requests)| == |q| + |requests|
  {
    if requests != [] { ScheduledLength(q, now, requests[..|requests| - 1]); }
  }

  /** Calling the handler of a due head does not change what the drain is going to leave. */
  lemma LeavesAfterCall(q: Queue, now: nat, handlers: Handlers, calls: nat)
    requires QueueOk(q) && q != [] && q[0].key <= now && !(|q| == 1 && q[0].item.kind == TimerInt)
    ensures var q' := Scheduled(q[1..], now, handlers(calls, q[0].item).requests);
      && (LeavesTimer(q, now, handlers, calls) <==> LeavesTimer(q', now, handlers, calls + 1))
      && (LeavesTimer(q, now, handlers, calls) ==> q'[|q'| - 1] == q[|q| - 1])
  {
    var r, requests := q[1..], handlers(calls, q[0].item).requests;
    PopDue(q, now);
    ScheduledKeeps(r, now, requests);
    ScheduledLength(r, now, requests);
    if |q| > 1 {
      QuietTail(q, handlers, calls);
      assert r[|r| - 1] == q[|q| - 1];
    }
  }

  // ----------------------------------------------------------------------- the machine

  class Interrupt {
    /** What the `n`th handler called does: anything, as the devices and the kernel decide. */
    const handlers: Handlers
    var pending: Queue
    var status: MachineStatus
    var totalTicks: nat
    var idleTicks: nat
    var systemTicks: nat
    var userTicks: nat
    var calls: nat
    var yieldOnReturn: bool
    ghost var fired: seq<Firing>

    ghost predicate Valid()
      reads this
    {
      QueueOk(pending) && HistoryOk(fired, pending, totalTicks) && totalTicks == idleTicks + systemTicks + userTicks
    }

    constructor (handlers: Handlers)
      ensures Valid() && pending == [] && fired == [] && totalTicks == 0 && status == SystemMode
      ensures this.handlers == handlers && calls == 0 && !yieldOnReturn
    {
      this.handlers := handlers;
      yieldOnReturn := false;
      pending, status, calls, fired := [], SystemMode, 0, [];
      totalTicks, idleTicks, systemTicks, userTicks := 0, 0, 0, 0;
    }

    method Schedule(handler: nat, fromNow: Delay, kind: IntType)
      requires Valid()
      modifies this`pending
      ensures Valid() && pending == Scheduled(old(pending), totalTicks, [Request(handler, fromNow, kind)])
      ensures multiset(pending) == multiset(old(pending)) + multiset{Entry(Pending(handler, totalTicks + fromNow, kind), totalTicks + fromNow)}
    {
      ghost var r := [Request(handler, fromNow, kind)];
      assert r[..0] == [];
      var when := totalTicks + fromNow;
      var toOccur := Pending(handler, when, kind);
      ScheduledKeeps(pending, totalTicks, r);
      if fired != [] { assert After(pending, fired[|fired| - 1].when - 1); }
      InsertKeeps(pending, Entry(toOccur, when), true);
      pending := Insert(pending, Entry(toOccur, when), true);
    }

    /** Call a handler: it runs in system mode, schedules what it likes and may ask for a yield. */
    method Call(toOccur: Pending)
      modifies this`pending, this`calls, this`yieldOnReturn
      ensures calls == old(calls) + 1
      ensures pending == Scheduled(old(pending), totalTicks, handlers(old(calls), toOccur).requests)
      ensures multiset(pending) == multiset(old(pending)) + EntriesOf(totalTicks, handlers(old(calls), toOccur).requests)
      ensures yieldOnReturn <==> old(yieldOnReturn) || handlers(old(calls), toOccur).asks
    {
      var reaction := handlers(calls, toOccur);
      var requests := reaction.requests;
      yieldOnReturn := yieldOnReturn || reaction.asks;
      calls := calls + 1;
      for i := 0 to |requests|
        invariant calls == old(calls) + 1 && (yieldOnReturn <==> old(yieldOnReturn) || reaction.asks)
        invariant pending == Scheduled(old(pending), totalTicks, requests[..i])
      {
        assert requests[..i + 1][..i] == requests[..i];
        pending := Insert(pending, EntryOf(totalTicks, requests[i]), true);
      }
      assert requests[..|requests|] == requests;
      ScheduledAdds(old(pending), totalTicks, requests);
    }

    /** The head of the queue would be the time-slice interrupt alone, with nothing else to do. */
    ghost predicate OnlyTimer()
      reads this
    {
      |pending| == 1 && pending[0].item.kind == TimerInt
    }

    /** Fire the next interrupt if it is due, or, with `advanceClock`, if there is one at all;
        an idle machine does not fire a timer with nothing behind it. */
    method CheckIfDue(advanceClock: bool) returns (fire: bool)
      requires Valid()
      modifies this
      ensures Valid() && status == old(status) && systemTicks == old(systemTicks) && userTicks == old(userTicks)
      ensures fire <==> && old(pending) != [] && (advanceClock || Due(old(pending), old(totalTicks)) > 0)
                        && !(old(status) == IdleMode && old(OnlyTimer()))
      ensures totalTicks == if advanceClock && old(pending) != [] && old(totalTicks) < old(pending)[0].key then old(pending)[0].key else old(totalTicks)
      ensures fire ==> Due(pending, totalTicks) + 1 == Due(old(pending), totalTicks)
      ensures fire ==> var r := handlers(old(calls), old(pending)[0].item);
        && calls == old(calls) + 1 && pending == Scheduled(old(pending)[1..], totalTicks, r.requests)
        && (yieldOnReturn <==> old(yieldOnReturn) || r.asks)
        && fired == old(fired) + [Firing(old(pending)[0].item.when, totalTicks, r.asks)]
      ensures !fire ==> calls == old(calls) && yieldOnReturn == old(yieldOnReturn)
      ensures !fire ==> fired == old(fired) && pending == if old(pending) == [] then [] else PutBack(old(pending))
    {
      hide Insert, Scheduled, EntriesOf, QueueOk, HistoryOk, Due, PutBack;
      NoneDue(pending, totalTicks);
      if pending == [] {
        return false;
      }
      ghost var q := pending;
      PopDue(q, totalTicks);
      PutBackKeeps(q, totalTicks);
      var head := pending[0];
      var toOccur, when := head.item, head.key;
      pending := pending[1..];
      if advanceClock && when > totalTicks {
        idleTicks := idleTicks + (when - totalTicks);
        totalTicks := when;
      } else if when > totalTicks {
        Reinsert(head, q);
        return false;
      }
      LaterClock(fired, q, old(totalTicks), totalTicks);
      if status == IdleMode && toOccur.kind == TimerInt && pending == [] {
        Reinsert(head, q);
        return false;
      }
      ghost var reaction := handlers(calls, toOccur);
      FireNext(fired, q, old(totalTicks), totalTicks, reaction);
      var was := status;
      status := SystemMode;
      Call(toOccur);
      status := was;
      fired := fired + [Firing(toOccur.when, totalTicks, reaction.asks)];
      return true;
    }

    /** Put the popped head back. */
    method Reinsert(head: Entry<Pending>, ghost q: Queue)
      requires q != [] && head == q[0] && QueueOk(q) && pending == q[1..] && HistoryOk(fired, q, totalTicks)
      modifies this`pending
      ensures pending == PutBack(q) && QueueOk(pending) && HistoryOk(fired, pending, totalTicks)
    {
      PutBackKeeps(q, totalTicks);
      if fired != [] { assert After(q, fired[|fired| - 1].when - 1); }
      pending := Insert(pending, head, true);
    }

    /** Time goes on by one tick and everything due is fired; nothing overdue is left.  The
        interrupted thread is to yield exactly if a handler asked for it. */
    method OneTick() returns (asks: bool)
      requires Valid() && status != IdleMode
      modifies this
      ensures Valid() && After(pending, totalTicks) && status == old(status) && idleTicks == old(idleTicks)
      ensures totalTicks == old(totalTicks) + if status == SystemMode then 10 else 1
      ensures systemTicks == old(systemTicks) + if status == SystemMode then 10 else 0
      ensures old(fired) <= fired && forall i :: |old(fired)| <= i < |fired| ==> fired[i].at == totalTicks
      ensures !yieldOnReturn && (asks <==> old(yieldOnReturn) || Asked(fired, |old(fired)|))
    {
      if status == SystemMode {
        totalTicks := totalTicks + SYSTEM_TICK;
        systemTicks := systemTicks + SYSTEM_TICK;
      } else {
        totalTicks := totalTicks + USER_TICK;
        userTicks := userTicks + USER_TICK;
      }
      Drain();
      NoneDue(pending, totalTicks);
      asks := yieldOnReturn;
      yieldOnReturn := false;
    }

    /** The loop around `CheckIfDue(false)`: each call fires one of those due, and handlers
        only schedule later ones.  On an idle machine a due entry is left behind exactly if
        everything pending was due, a timer last, and the handlers before it scheduled nothing. */
    method Drain()
      requires Valid()
      modifies this
      ensures Valid() && status == old(status) && totalTicks == old(totalTicks)
      ensures idleTicks == old(idleTicks) && systemTicks == old(systemTicks) && userTicks == old(userTicks)
      ensures Due(pending, totalTicks) == 0 || OnlyTimer()
      ensures Due(pending, totalTicks) > 0 <==> status == IdleMode && LeavesTimer(old(pending), totalTicks, handlers, old(calls))
      ensures Due(pending, totalTicks) > 0 ==> old(pending) != [] && pending == [old(pending)[|old(pending)| - 1]]
      ensures old(fired) <= fired && forall i :: |old(fired)| <= i < |fired| ==> fired[i].at == totalTicks
      ensures yieldOnReturn <==> old(yieldOnReturn) || Asked(fired, |old(fired)|)
    {
      hide QueueOk, HistoryOk, Due, Scheduled, Asked, LeavesTimer, PutBack;
      var more := true;
      AskedNone(fired);
      LastNeeded(pending, totalTicks, handlers, calls);
      while more
        invariant Valid() && status == old(status) && totalTicks == old(totalTicks)
        invariant idleTicks == old(idleTicks) && systemTicks == old(systemTicks) && userTicks == old(userTicks)
        invariant !more ==> Due(pending, totalTicks) == 0 || (status == IdleMode && OnlyTimer())
        invariant more && status == IdleMode ==> SameLeft(pending, calls, old(pending), old(calls))
        invariant !more ==> (Due(pending, totalTicks) > 0 <==> status == IdleMode && LeavesTimer(old(pending), totalTicks, handlers, old(calls)))
        invariant !more && Due(pending, totalTicks) > 0 ==> old(pending) != [] && pending == [old(pending)[|old(pending)| - 1]]
        invariant old(fired) <= fired && forall i :: |old(fired)| <= i < |fired| ==> fired[i].at == totalTicks
        invariant yieldOnReturn <==> old(yieldOnReturn) || Asked(fired, |old(fired)|)
        decreases Due(pending, totalTicks), more
      {
        more := DrainOne(|old(fired)|);
      }
    }

    static lemma LastNeeded(q: Queue, now: nat, handlers: Handlers, calls: nat)
      ensures LeavesTimer(q, now, handlers, calls) ==> q != []
    {
    }

    static lemma AskedNone(fired: seq<Firing>)
      ensures !Asked(fired, |fired|)
    {
    }

    /** A drain that starts with `q` leaves the same as one that starts with `q0`. */
    ghost predicate SameLeft(q: Queue, calls: nat, q0: Queue, calls0: nat)
      reads this`totalTicks
    {
      && (LeavesTimer(q, totalTicks, handlers, calls) <==> LeavesTimer(q0, totalTicks, handlers, calls0))
      && (LeavesTimer(q, totalTicks, handlers, calls) ==> q != [] && q0 != [] && q[|q| - 1] == q0[|q0| - 1])
    }

    /** One round of the drain. */
    method DrainOne(ghost from: nat) returns (more: bool)
      requires Valid() && from <= |fired|
      modifies this
      ensures Valid() && status == old(status) && totalTicks == old(totalTicks)
      ensures idleTicks == old(idleTicks) && systemTicks == old(systemTicks) && userTicks == old(userTicks)
      ensures more ==> Due(pending, totalTicks) + 1 == Due(old(pending), totalTicks)
      ensures more ==> |fired| == |old(fired)| + 1 && old(fired) <= fired && fired[|old(fired)|].at == totalTicks
      ensures more && status == IdleMode ==> SameLeft(pending, calls, old(pending), old(calls))
      ensures more && old(yieldOnReturn) ==> yieldOnReturn
      ensures more ==> (yieldOnReturn && !old(yieldOnReturn) ==> Asked(fired, from)) && (Asked(fired, from) <==> Asked(old(fired), from) || fired[|old(fired)|].asks)
      ensures more && fired[|old(fired)|].asks ==> yieldOnReturn
      ensures !more ==> fired == old(fired) && yieldOnReturn == old(yieldOnReturn)
      ensures !more ==> Due(pending, totalTicks) == Due(old(pending), totalTicks) && |pending| == |old(pending)| && (|pending| == 1 ==> pending == old(pending))
      ensures !more ==> Due(pending, totalTicks) == 0 || (status == IdleMode && OnlyTimer())
      ensures !more ==> (Due(pending, totalTicks) > 0 <==> status == IdleMode && LeavesTimer(old(pending), totalTicks, handlers, old(calls)))
    {
      hide QueueOk, HistoryOk, Scheduled, Asked, PutBack;
      ghost var q, f := pending, fired;
      StopsOnTimer(q, totalTicks, handlers, calls);
      if q != [] {
        PopDue(q, totalTicks);
        PutBackKeeps(q, totalTicks);
        if q[0].key <= totalTicks && !OnlyTimer() { LeavesAfterCall(q, totalTicks, handlers, calls); }
      }
      more := CheckIfDue(false);
      if more { AskedMore(f, from, fired[|f|]); } else if |q| == 1 { PutBackOnly(q); }
    }

    static lemma StopsOnTimer(q: Queue, now: nat, handlers: Handlers, calls: nat)
      requires QueueOk(q)
      ensures Due(q, now) == 0 ==> !LeavesTimer(q, now, handlers, calls)
      ensures |q| == 1 && q[0].item.kind == TimerInt ==> (LeavesTimer(q, now, handlers, calls) <==> Due(q, now) > 0)
    {
    }

    static lemma PutBackOnly(q: Queue)
      requires |q| == 1
      ensures PutBack(q) == q
    {
    }

    /** Nothing is ready: go on to the next interrupt.  The machine halts exactly when
        there is none, or just the timer, or the console is waited for.  Otherwise it leaves
        nothing due, except for a lone timer in exactly the case stated for `Drain`. */
    method Idle(consoleRunning: bool) returns (halt: bool)
      requires Valid()
      modifies this
      ensures Valid() && old(fired) <= fired
      ensures halt <==> consoleRunning || old(pending) == [] || old(OnlyTimer())
      ensures !halt ==> status == SystemMode && fired != old(fired) && !yieldOnReturn
      ensures !halt ==> totalTicks == if old(totalTicks) < old(pending)[0].key then old(pending)[0].key else old(totalTicks)
      ensures !halt ==> After(pending, totalTicks) || OnlyTimer()
      ensures !halt ==> (After(pending, totalTicks) <==> !LeavesTimer(old(pending), totalTicks, handlers, old(calls)))
      ensures !halt && !After(pending, totalTicks) ==> pending == [old(pending)[|old(pending)| - 1]]
      ensures systemTicks == old(systemTicks) && userTicks == old(userTicks)
    {
      hide QueueOk, HistoryOk, Due, Scheduled, LeavesTimer, PutBack;
      ghost var q := pending;
      status := IdleMode;
      if !consoleRunning {
        ghost var was := calls;
        var fire := CheckIfDue(true);
        if fire {
          LeavesAfterCall(q, totalTicks, handlers, was);
          Drain();
          NoneDue(pending, totalTicks);
          yieldOnReturn := false;
          status := SystemMode;
          return false;
        }
      }
      return true;
    }
  }

  // ------------------------------------------------------------------------- instances

  /** A disk and a timer interrupt due together: the idle machine fires the first and leaves
      the timer, which is due, in the queue. */
  method LeftTimer() returns (i: Interrupt, halt: bool)
    ensures fresh(i) && i.Valid() && !halt && i.totalTicks == 10
    ensures i.pending == [Entry(Pending(1, 10, TimerInt), 10)] && Due(i.pending, i.totalTicks) == 1
  {
    i := new Interrupt((_, _) => Reaction([], false));
    i.Schedule(0, 10, DiskInt);
    i.Schedule(1, 10, TimerInt);
    assert i.pending == [Entry(Pending(0, 10, DiskInt), 10), Entry(Pending(1, 10, TimerInt), 10)];
    PlaceIs(i.pending, 10, true, 2);
    halt := i.Idle(false);
  }

  /** Two interrupts due together: a look at the queue before their time changes their order. */
  method Reordered() returns (i: Interrupt, fire: bool)
    ensures fresh(i) && i.Valid() && !fire && i.totalTicks == 0
    ensures i.pending == [Entry(Pending(1, 10, DiskInt), 10), Entry(Pending(0, 10, DiskInt), 10)]
  {
    i := new Interrupt((_, _) => Reaction([], false));
    i.Schedule(0, 10, DiskInt);
    i.Schedule(1, 10, DiskInt);
    fire := i.CheckIfDue(false);
  }
}
