/** `threads/scheduler.cc` and the switching of `threads/thread.cc`: which thread
    runs, which are ready and which wait, under every interleaving. */
module Schedulers {
  import opened Lists
  import opened Options
  import opened Semaphores

  datatype Status = JustCreated | Running | Ready | Blocked

  /** The processor runs a thread, or idles on the stack of the one that went to sleep last. */
  datatype Cpu = Busy(t: Thread) | Idling(t: Thread)

  /** `finished` are threads waiting to be destroyed.  `since` is the time of a thread's
      latest insertion into the ready list, by a count of insertions. */
  datatype Kernel = Kernel(
    cpu: Cpu, ready: seq<Entry<Thread>>, status: map<Thread, Status>, priority: map<Thread, int>,
    sems: map<nat, Sem>, finished: set<Thread>, since: map<Thread, nat>, insertions: nat)

  // --------------------------------------------------------------------- the routines

  function PriorityOf(k: Kernel, t: Thread): int { if t in k.priority then k.priority[t] else 0 }

  function ReadyToRun(k: Kernel, t: Thread): Kernel {
    k.(status := k.status[t := Ready], ready := Insert(k.ready, Entry(t, PriorityOf(k, t)), false),
       since := k.since[t := k.insertions], insertions := k.insertions + 1)
  }

  /** Take the head off the ready list. */
  function FindNextToRun(k: Kernel): (Option<Thread>, Kernel) {
    if k.ready == [] then (None, k) else (Some(k.ready[0].item), k.(ready := k.ready[1..]))
  }

  function Run(k: Kernel, next: Thread): Kernel {
    k.(cpu := Busy(next), status := k.status[next := Running])
  }

  function Yield(k: Kernel): Kernel {
    var (next, k1) := FindNextToRun(k);
    if next.None? then k else Run(ReadyToRun(k1, k.cpu.t), next.value)
  }

  /** `Sleep`: blocked, and on to the next thread or to idling. */
  function Sleep(k: Kernel): Kernel { Dispatch(k.(status := k.status[k.cpu.t := Blocked], cpu := Idling(k.cpu.t))) }

  /** One look of the idle loop at the ready list. */
  function Dispatch(k: Kernel): Kernel {
    var (next, k1) := FindNextToRun(k);
    if next.None? then k else Run(k1, next.value)
  }

  /** One pass through the loop of `P`. */
  function DoP(k: Kernel, s: nat): Kernel
    requires s in k.sems
  {
    var k1 := k.(sems := k.sems[s := TryP(k.sems[s], k.cpu.t)]);
    if GetsIn(k.sems[s]) then k1 else Sleep(k1)
  }

  function DoUp(k: Kernel, s: nat): Kernel
    requires s in k.sems
  {
    var k1 := k.(sems := k.sems[s := DoV(k.sems[s])]);
    if k.sems[s].queue == [] then k1 else ReadyToRun(k1, k.sems[s].queue[0])
  }

  /** `ModifyPriority`: move a ready thread to the place of its new priority. */
  function ModifyPriority(k: Kernel, t: Thread): Kernel {
    if Position(k.ready, t) == |k.ready| then k
    else k.(ready := Insert(RemoveItem(k.ready, t), Entry(t, PriorityOf(k, t)), false),
            since := k.since[t := k.insertions], insertions := k.insertions + 1)
  }

  /** `SetPriority` and `ModifyPriority`, as `Acquire` and `Release` call them. */
  function ChangePriority(k: Kernel, t: Thread, p: int): Kernel {
    ModifyPriority(k.(priority := k.priority[t := p]), t)
  }

  function Finish(k: Kernel): Kernel { Sleep(k.(finished := k.finished + {k.cpu.t})) }

  function Create(k: Kernel, t: Thread, p: int): Kernel {
    k.(status := k.status[t := JustCreated], priority := k.priority[t := p])
  }

  // ----------------------------------------------------------------------- the ready list

  /** `t` is on the list. */
  ghost predicate Holds(ready: seq<Entry<Thread>>, t: Thread) {
    exists i {:trigger ready[i]} :: 0 <= i < |ready| && ready[i].item == t
  }

  ghost predicate Once(ready: seq<Entry<Thread>>) {
    forall i, j {:trigger ready[i], ready[j]} :: 0 <= i < j < |ready| ==> ready[i].item != ready[j].item
  }

  /** Every key is the thread's current priority. */
  ghost predicate KeysOk(ready: seq<Entry<Thread>>, priority: map<Thread, int>) {
    forall i {:trigger ready[i]} :: 0 <= i < |ready| ==> ready[i].item in priority && ready[i].key == priority[ready[i].item]
  }

  /** Threads of one priority stand in the order in which they were inserted. */
  ghost predicate OrderOk(ready: seq<Entry<Thread>>, since: map<Thread, nat>, n: nat) {
    && (forall i {:trigger ready[i]} :: 0 <= i < |ready| ==> ready[i].item in since && since[ready[i].item] < n)
    && (forall i, j {:trigger ready[i], ready[j]} :: 0 <= i < j < |ready| && ready[i].key == ready[j].key ==>
         since[ready[i].item] < since[ready[j].item])
  }

  ghost predicate ReadyOk(ready: seq<Entry<Thread>>, priority: map<Thread, int>, since: map<Thread, nat>, n: nat) {
    Sorted(ready, false) && Once(ready) && KeysOk(ready, priority) && OrderOk(ready, since, n)
  }

  lemma InsertHolds(ready: seq<Entry<Thread>>, e: Entry<Thread>, t: Thread)
    ensures Holds(Insert(ready, e, false), t) <==> Holds(ready, t) || t == e.item
  {
    var p, r := Place(ready, e.key, false), Insert(ready, e, false);
    assert r[p] == e;
    if Holds(ready, t) {
      var i :| 0 <= i < |ready| && ready[i].item == t;
      assert r[if i < p then i else i + 1] == ready[i];
    }
  }

  lemma InsertReady(ready: seq<Entry<Thread>>, priority: map<Thread, int>, since: map<Thread, nat>, n: nat, t: Thread)
    requires ReadyOk(ready, priority, since, n) && !Holds(ready, t) && t in priority
    ensures ReadyOk(Insert(ready, Entry(t, priority[t]), false), priority, since[t := n], n + 1)
  {
    var e := Entry(t, priority[t]);
    InsertSorted(ready, e, false);
    InsertOnce(ready, e);
    InsertOrder(ready, e, since, n);
    var p, r := Place(ready, e.key, false), Insert(ready, e, false);
    assert KeysOk(r, priority);
  }

  lemma InsertOnce(ready: seq<Entry<Thread>>, e: Entry<Thread>)
    requires Once(ready) && !Holds(ready, e.item)
    ensures Once(Insert(ready, e, false))
  {
  }

  lemma InsertOrder(ready: seq<Entry<Thread>>, e: Entry<Thread>, since: map<Thread, nat>, n: nat)
    requires Sorted(ready, false) && OrderOk(ready, since, n) && !Holds(ready, e.item)
    ensures OrderOk(Insert(ready, e, false), since[e.item := n], n + 1)
  {
    var p, r := Place(ready, e.key, false), Insert(ready, e, false);
    forall i, j {:trigger r[i], r[j]} | 0 <= i < j < |r| && r[i].key == r[j].key
      ensures r[i].item in since[e.item := n] && r[j].item in since[e.item := n] && since[e.item := n][r[i].item] < since[e.item := n][r[j].item]
    {
    }
  }

  lemma TailReady(ready: seq<Entry<Thread>>, priority: map<Thread, int>, since: map<Thread, nat>, n: nat, t: Thread)
    requires ReadyOk(ready, priority, since, n) && ready != []
    ensures ReadyOk(ready[1..], priority, since, n)
    ensures Holds(ready[1..], t) <==> Holds(ready, t) && t != ready[0].item
  {
    var r := ready[1..];
    assert forall i {:trigger r[i]} :: 0 <= i < |r| ==> r[i] == ready[i + 1];
    if Holds(ready, t) && t != ready[0].item {
      var i :| 0 <= i < |ready| && ready[i].item == t;
      assert r[i - 1].item == t;
    }
  }

  lemma RemoveHolds(ready: seq<Entry<Thread>>, t: Thread, u: Thread)
    requires Once(ready)
    ensures Holds(RemoveItem(ready, t), u) <==> Holds(ready, u) && u != t
    ensures Position(ready, t) == |ready| <==> !Holds(ready, t)
  {
    var q, r := Position(ready, t), RemoveItem(ready, t);
    if Holds(ready, u) && u != t {
      var i :| 0 <= i < |ready| && ready[i].item == u;
      if q < |ready| { assert r[if i < q then i else i - 1] == ready[i]; }
    }
    if q < |ready| && Holds(r, u) {
      var i :| 0 <= i < |r| && r[i].item == u;
      assert r[i] == ready[if i < q then i else i + 1];
    }
  }

  lemma RemoveReady(ready: seq<Entry<Thread>>, priority: map<Thread, int>, since: map<Thread, nat>, n: nat, t: Thread, p: int)
    requires ReadyOk(ready, priority, since, n)
    ensures ReadyOk(RemoveItem(ready, t), priority[t := p], since, n)
  {
    RemoveKeeps(ready, t, false);
    RemoveHolds(ready, t, t);
    var q, r := Position(ready, t), RemoveItem(ready, t);
    forall i {:trigger r[i]} | 0 <= i < |r| ensures r[i] == ready[if q < |ready| && i >= q then i + 1 else i] && r[i].item != t {
      assert Holds(r, r[i].item);
    }
    RemoveOrder(ready, since, n, t);
  }

  lemma RemoveOrder(ready: seq<Entry<Thread>>, since: map<Thread, nat>, n: nat, t: Thread)
    requires OrderOk(ready, since, n) && Once(ready)
    ensures OrderOk(RemoveItem(ready, t), since, n) && Once(RemoveItem(ready, t))
  {
    var q, r := Position(ready, t), RemoveItem(ready, t);
    assert forall i {:trigger r[i]} :: 0 <= i < |r| ==> r[i] == ready[if q < |ready| && i >= q then i + 1 else i];
  }

  /** The head: of the greatest priority, and of those the one that has waited longest. */
  lemma NextToRun(k: Kernel, t: Thread)
    requires ReadyOk(k.ready, k.priority, k.since, k.insertions) && Holds(k.ready, t)
    ensures FindNextToRun(k).0.Some?
    ensures var next := FindNextToRun(k).0.value;
      && next in k.priority && t in k.priority && next in k.since && t in k.since
      && k.priority[t] <= k.priority[next]
      && (k.priority[t] == k.priority[next] && t != next ==> k.since[next] < k.since[t])
  {
    var i :| 0 <= i < |k.ready| && k.ready[i].item == t;
    assert k.ready[0].key >= k.ready[i].key;
  }

  // ------------------------------------------------------------------------ the invariant

  /** A thread's status says where it is, and it is nowhere else. */
  ghost predicate StatusOk(k: Kernel, t: Thread) {
    && (t in k.status <==> t in k.priority)
    && (t in k.status && k.status[t] == Running <==> k.cpu == Busy(t))
    && (t in k.status && k.status[t] == Ready <==> Holds(k.ready, t))
    && (t in k.status && k.status[t] == Blocked <==> t in k.finished || Waits(k, t))
    && !(t in k.finished && Waits(k, t))
  }

  /** `t` is in the queue of some semaphore. */
  ghost predicate Waits(k: Kernel, t: Thread) { exists s {:trigger k.sems[s]} :: s in k.sems && t in k.sems[s].queue }

  ghost predicate QueuesOk(k: Kernel) {
    && (forall s {:trigger k.sems[s]} :: s in k.sems ==> SemOk(k.sems[s]))
    && (forall s, r, t: Thread {:trigger t in k.sems[s].queue, t in k.sems[r].queue} ::
         s in k.sems && r in k.sems && t in k.sems[s].queue && t in k.sems[r].queue ==> s == r)
  }

  ghost predicate KernelOk(k: Kernel) {
    && k.cpu.t in k.status && k.cpu.t in k.priority && QueuesOk(k) && ReadyOk(k.ready, k.priority, k.since, k.insertions)
    && forall t: Thread {:trigger StatusOk(k, t)} :: StatusOk(k, t)
  }

  // ----------------------------------------------------------------- each routine keeps it

  /** `Yield` with nobody ready changes nothing; otherwise the head of the ready list runs and the
      yielding thread is ready. */
  lemma YieldKeeps(k: Kernel)
    requires KernelOk(k) && k.cpu.Busy?
    ensures KernelOk(Yield(k))
    ensures if k.ready == [] then Yield(k) == k else Yield(k).cpu == Busy(k.ready[0].item) && Holds(Yield(k).ready, k.cpu.t)
  {
    var t, k' := k.cpu.t, Yield(k);
    assert StatusOk(k, t);
    if k.ready != [] {
      var h, rest := k.ready[0].item, k.ready[1..];
      assert Holds(k.ready, h) && StatusOk(k, h);
      TailReady(k.ready, k.priority, k.since, k.insertions, t);
      InsertReady(rest, k.priority, k.since, k.insertions, t);
      InsertHolds(rest, Entry(t, k.priority[t]), t);
      forall u: Thread {:trigger StatusOk(k', u)} ensures StatusOk(k', u) {
        assert StatusOk(k, u);
        TailReady(k.ready, k.priority, k.since, k.insertions, u);
        InsertHolds(rest, Entry(t, k.priority[t]), u);
        assert Waits(k', u) == Waits(k, u);
      }
    }
  }

  lemma DispatchKeeps(k: Kernel)
    requires KernelOk(k) && k.cpu.Idling?
    ensures KernelOk(Dispatch(k)) && Dispatch(k).sems == k.sems && Dispatch(k).finished == k.finished
    ensures Dispatch(k).cpu == if k.ready == [] then k.cpu else Busy(k.ready[0].item)
  {
    var k' := Dispatch(k);
    if k.ready != [] {
      var h := k.ready[0].item;
      assert Holds(k.ready, h) && StatusOk(k, h);
      TailReady(k.ready, k.priority, k.since, k.insertions, h);
      forall u: Thread {:trigger StatusOk(k', u)} ensures StatusOk(k', u) {
        assert StatusOk(k, u);
        TailReady(k.ready, k.priority, k.since, k.insertions, u);
        assert Waits(k', u) == Waits(k, u);
      }
    }
  }

  /** Queueing up, blocked, with the processor given up. */
  function Queued(k: Kernel, s: nat): Kernel
    requires s in k.sems
  {
    k.(sems := k.sems[s := TryP(k.sems[s], k.cpu.t)], status := k.status[k.cpu.t := Blocked], cpu := Idling(k.cpu.t))
  }

  lemma TryQueues(k: Kernel, k': Kernel, s: nat, t: Thread)
    requires QueuesOk(k) && s in k.sems && k'.sems == k.sems[s := TryP(k.sems[s], t)] && !Waits(k, t)
    ensures QueuesOk(k')
    ensures forall u: Thread {:trigger Waits(k', u)} :: Waits(k', u) <==> Waits(k, u) || (u == t && !GetsIn(k.sems[s]))
  {
    assert t !in k.sems[s].queue;
    TryKeeps(k.sems[s], t);
    var q, q' := k.sems[s].queue, k'.sems[s].queue;
    assert forall u :: u in q' <==> u in q || (u == t && !GetsIn(k.sems[s]));
    forall u: Thread {:trigger Waits(k', u)} ensures Waits(k', u) <==> Waits(k, u) || (u == t && !GetsIn(k.sems[s])) {
      if Waits(k, u) {
        var r :| r in k.sems && u in k.sems[r].queue;
        assert u in k'.sems[r].queue;
      }
      if u == t && !GetsIn(k.sems[s]) { assert u in k'.sems[s].queue; }
    }
    forall a, b, u: Thread {:trigger u in k'.sems[a].queue, u in k'.sems[b].queue} |
      a in k'.sems && b in k'.sems && u in k'.sems[a].queue && u in k'.sems[b].queue
      ensures a == b
    {
      if u == t { assert u !in k.sems[a].queue && u !in k.sems[b].queue; } else { assert u in k.sems[a].queue && u in k.sems[b].queue; }
    }
  }

  /** A thread that gets in takes one off the value and runs on; one that does not is last in the semaphore's queue, and
      the head of the ready list runs, or the processor idles. */
  lemma PKeeps(k: Kernel, s: nat)
    requires KernelOk(k) && k.cpu.Busy? && s in k.sems
    ensures KernelOk(DoP(k, s)) && s in DoP(k, s).sems
    ensures if GetsIn(k.sems[s]) then DoP(k, s).cpu == k.cpu && DoP(k, s).ready == k.ready && DoP(k, s).sems[s].queue == k.sems[s].queue
            else && DoP(k, s).sems[s].queue == k.sems[s].queue + [k.cpu.t]
                 && DoP(k, s).cpu == if k.ready == [] then Idling(k.cpu.t) else Busy(k.ready[0].item)
    ensures DoP(k, s).sems[s].value == k.sems[s].value - (if k.sems[s].value > 0 then 1 else 0)
    ensures DoP(k, s).sems == k.sems[s := DoP(k, s).sems[s]] && DoP(k, s).priority == k.priority && DoP(k, s).finished == k.finished
  {
    var t := k.cpu.t;
    assert StatusOk(k, t);
    NeverNegative(k.sems[s]);
    var k1 := if GetsIn(k.sems[s]) then k.(sems := k.sems[s := TryP(k.sems[s], t)]) else Queued(k, s);
    TryQueues(k, k1, s, t);
    forall u: Thread {:trigger StatusOk(k1, u)} ensures StatusOk(k1, u) {
      assert StatusOk(k, u);
      assert Waits(k1, u) <==> Waits(k, u) || (u == t && !GetsIn(k.sems[s]));
    }
    assert KernelOk(k1);
    if !GetsIn(k.sems[s]) { DispatchKeeps(k1); }
  }

  lemma UpQueues(k: Kernel, k': Kernel, s: nat)
    requires QueuesOk(k) && s in k.sems && k'.sems == k.sems[s := DoV(k.sems[s])]
    ensures QueuesOk(k')
    ensures var q := k.sems[s].queue; forall u: Thread {:trigger Waits(k', u)} :: Waits(k', u) <==> Waits(k, u) && (q == [] || u != q[0])
  {
    VKeeps(k.sems[s]);
    var q, q' := k.sems[s].queue, k'.sems[s].queue;
    assert q != [] ==> q == [q[0]] + q';
    assert q != [] ==> q[0] !in q';
    forall u: Thread {:trigger Waits(k', u)} ensures Waits(k', u) <==> Waits(k, u) && (q == [] || u != q[0]) {
      if Waits(k, u) && (q == [] || u != q[0]) {
        var r :| r in k.sems && u in k.sems[r].queue;
        assert u in k'.sems[r].queue;
      }
      if Waits(k', u) {
        var r :| r in k'.sems && u in k'.sems[r].queue;
        assert u in k.sems[r].queue;
      }
    }
    assert forall a, u: Thread {:trigger u in k'.sems[a].queue} :: a in k'.sems && u in k'.sems[a].queue ==> u in k.sems[a].queue;
  }

  /** `V`, by a thread or by an interrupt handler, also while the processor idles: the value goes
      up by one, and the head of the semaphore's queue, and no other thread, goes from there to the ready list. */
  lemma UpKeeps(k: Kernel, s: nat)
    requires KernelOk(k) && s in k.sems
    ensures KernelOk(DoUp(k, s)) && DoUp(k, s).cpu == k.cpu && s in DoUp(k, s).sems
    ensures DoUp(k, s).sems[s].value == k.sems[s].value + 1 && DoUp(k, s).sems[s].ups == k.sems[s].ups + 1
    ensures DoUp(k, s).sems == k.sems[s := DoUp(k, s).sems[s]] && DoUp(k, s).priority == k.priority && DoUp(k, s).finished == k.finished
    ensures var q := k.sems[s].queue; forall u: Thread {:trigger Holds(DoUp(k, s).ready, u)} {:trigger Waits(DoUp(k, s), u)} ::
      && (Holds(DoUp(k, s).ready, u) <==> Holds(k.ready, u) || (q != [] && u == q[0]))
      && (Waits(DoUp(k, s), u) <==> Waits(k, u) && (q == [] || u != q[0]))
  {
    var q := k.sems[s].queue;
    if q != [] { assert q[0] in k.sems[s].queue && Waits(k, q[0]) && StatusOk(k, q[0]); }
    var k' := DoUp(k, s);
    UpQueues(k, k', s);
    if q != [] { InsertReady(k.ready, k.priority, k.since, k.insertions, q[0]); }
    forall u: Thread {:trigger StatusOk(k', u)} {:trigger Holds(k'.ready, u)} {:trigger Waits(k', u)}
      ensures StatusOk(k', u) && (Holds(k'.ready, u) <==> Holds(k.ready, u) || (q != [] && u == q[0]))
    {
      assert StatusOk(k, u);
      assert Waits(k', u) <==> Waits(k, u) && (q == [] || u != q[0]);
      if q != [] { InsertHolds(k.ready, Entry(q[0], k.priority[q[0]]), u); }
    }
  }

  /** The thread gets the priority, and nobody else another one; the same threads are ready; and
      if it is one of them, it stands behind those of its priority or more and before the others. */
  lemma PriorityKeeps(k: Kernel, t: Thread, p: int)
    requires KernelOk(k) && t in k.status
    ensures KernelOk(ChangePriority(k, t, p))
    ensures ChangePriority(k, t, p).priority == k.priority[t := p]
    ensures var k' := ChangePriority(k, t, p); k'.status == k.status && k'.cpu == k.cpu && k'.sems == k.sems && k'.finished == k.finished
    ensures forall u: Thread {:trigger Holds(ChangePriority(k, t, p).ready, u)} :: Holds(ChangePriority(k, t, p).ready, u) <==> Holds(k.ready, u)
    ensures forall i {:trigger ChangePriority(k, t, p).ready[i]} ::
      0 <= i < |ChangePriority(k, t, p).ready| && ChangePriority(k, t, p).ready[i].item == t ==> StandsAt(ChangePriority(k, t, p).ready, i, p)
  {
    var k' := ChangePriority(k, t, p);
    var rest, priority := RemoveItem(k.ready, t), k.priority[t := p];
    assert StatusOk(k, t);
    RemoveReady(k.ready, k.priority, k.since, k.insertions, t, p);
    RemoveHolds(k.ready, t, t);
    InsertReady(rest, priority, k.since, k.insertions, t);
    forall u: Thread {:trigger StatusOk(k', u)} {:trigger Holds(k'.ready, u)} ensures StatusOk(k', u) && (Holds(k'.ready, u) <==> Holds(k.ready, u)) {
      assert StatusOk(k, u);
      RemoveHolds(k.ready, t, u);
      InsertHolds(rest, Entry(t, p), u);
      assert Waits(k', u) == Waits(k, u);
    }
    InsertStands(rest, Entry(t, p));
    forall i {:trigger k'.ready[i]} | 0 <= i < |k'.ready| && k'.ready[i].item == t ensures StandsAt(k'.ready, i, p) {
      assert Holds(k'.ready, t);
    }
  }

  /** Before position `i` there are keys of at least `p`, behind it smaller ones, and `p` is there. */
  ghost predicate StandsAt(ready: seq<Entry<Thread>>, i: nat, p: int)
    requires i < |ready|
  {
    && ready[i].key == p
    && (forall j {:trigger ready[j]} :: 0 <= j < i ==> ready[j].key >= p)
    && (forall j {:trigger ready[j]} :: i < j < |ready| ==> ready[j].key < p)
  }

  lemma InsertStands(ready: seq<Entry<Thread>>, e: Entry<Thread>)
    requires Sorted(ready, false) && !Holds(ready, e.item)
    ensures var r := Insert(ready, e, false);
      forall i {:trigger r[i]} :: 0 <= i < |r| && r[i].item == e.item ==> StandsAt(r, i, e.key)
  {
    var p, r := Place(ready, e.key, false), Insert(ready, e, false);
    forall i {:trigger r[i]} | 0 <= i < |r| && r[i].item == e.item ensures StandsAt(r, i, e.key) {
      assert i == p;
    }
  }

  /** A finished thread is nowhere but among the finished; the next one runs, or the processor idles. */
  lemma FinishKeeps(k: Kernel)
    requires KernelOk(k) && k.cpu.Busy?
    ensures KernelOk(Finish(k)) && Finish(k).finished == k.finished + {k.cpu.t}
    ensures !Holds(Finish(k).ready, k.cpu.t) && !Waits(Finish(k), k.cpu.t)
    ensures Finish(k).cpu == if k.ready == [] then Idling(k.cpu.t) else Busy(k.ready[0].item)
  {
    var t := k.cpu.t;
    var k1 := k.(finished := k.finished + {t}, status := k.status[t := Blocked], cpu := Idling(t));
    assert StatusOk(k, t);
    forall u: Thread {:trigger StatusOk(k1, u)} ensures StatusOk(k1, u) {
      assert StatusOk(k, u);
      assert Waits(k1, u) == Waits(k, u);
    }
    DispatchKeeps(k1);
    assert StatusOk(Finish(k), t);
  }

  /** A new thread has its priority and is in no list; nothing else changes. */
  lemma CreateKeeps(k: Kernel, t: Thread, p: int)
    requires KernelOk(k) && t !in k.status
    ensures KernelOk(Create(k, t, p)) && Create(k, t, p).priority == k.priority[t := p]
    ensures Create(k, t, p) == k.(status := k.status[t := JustCreated], priority := Create(k, t, p).priority)
  {
    var k' := Create(k, t, p);
    assert StatusOk(k, t);
    forall u: Thread {:trigger StatusOk(k', u)} ensures StatusOk(k', u) {
      assert StatusOk(k, u);
      assert Waits(k', u) == Waits(k, u);
    }
    assert forall i {:trigger k.ready[i]} :: 0 <= i < |k.ready| ==> Holds(k.ready, k.ready[i].item);
  }

  /** A forked thread, and no other, comes to the ready list. */
  lemma ForkKeeps(k: Kernel, t: Thread)
    requires KernelOk(k) && t in k.status && k.status[t] == JustCreated
    ensures KernelOk(ReadyToRun(k, t)) && !Holds(k.ready, t)
    ensures forall u: Thread {:trigger Holds(ReadyToRun(k, t).ready, u)} :: Holds(ReadyToRun(k, t).ready, u) <==> Holds(k.ready, u) || u == t
  {
    assert StatusOk(k, t);
    var k' := ReadyToRun(k, t);
    InsertReady(k.ready, k.priority, k.since, k.insertions, t);
    forall u: Thread {:trigger StatusOk(k', u)} {:trigger Holds(k'.ready, u)}
      ensures StatusOk(k', u) && (Holds(k'.ready, u) <==> Holds(k.ready, u) || u == t)
    {
      assert StatusOk(k, u);
      InsertHolds(k.ready, Entry(t, k.priority[t]), u);
      assert Waits(k', u) == Waits(k, u);
    }
  }

  lemma NewSemKeeps(k: Kernel, s: nat, initial: nat)
    requires KernelOk(k) && s !in k.sems
    ensures KernelOk(k.(sems := k.sems[s := NewSem(initial)]))
  {
    var k' := k.(sems := k.sems[s := NewSem(initial)]);
    NewSemOk(initial);
    forall u: Thread {:trigger StatusOk(k', u)} ensures StatusOk(k', u) {
      assert StatusOk(k, u);
      if Waits(k, u) {
        var r :| r in k.sems && u in k.sems[r].queue;
        assert u in k'.sems[r].queue;
      }
    }
  }

  // ----------------------------------------------------------------------------- runs

  /** Steps of the running thread; then a `V` by an interrupt handler, and a look of
      the idle loop at the ready list. */
  datatype Event =
    | YieldEvent | PEvent(s: nat) | VEvent(s: nat) | PriorityEvent(t: Thread, p: int) | FinishEvent
    | CreateEvent(t: Thread, p: int) | ForkEvent(t: Thread) | NewSemEvent(s: nat, initial: nat)
    | HandlerV(s: nat) | IdleLook

  predicate Can(k: Kernel, e: Event) {
    && (e.IdleLook? ==> k.cpu.Idling?) && (!e.IdleLook? && !e.HandlerV? ==> k.cpu.Busy?)
    && match e
       case PEvent(s) => s in k.sems
       case VEvent(s) => s in k.sems
       case HandlerV(s) => s in k.sems
       case PriorityEvent(t, _) => t in k.status
       case CreateEvent(t, _) => t !in k.status
       case ForkEvent(t) => t in k.status && k.status[t] == JustCreated
       case NewSemEvent(s, _) => s !in k.sems
       case _ => true
  }

  function Next(k: Kernel, e: Event): Kernel
    requires Can(k, e)
  {
    match e
    case YieldEvent => Yield(k)
    case PEvent(s) => DoP(k, s)
    case VEvent(s) => DoUp(k, s)
    case HandlerV(s) => DoUp(k, s)
    case PriorityEvent(t, p) => ChangePriority(k, t, p)
    case FinishEvent => Finish(k)
    case CreateEvent(t, p) => Create(k, t, p)
    case ForkEvent(t) => ReadyToRun(k, t)
    case NewSemEvent(s, initial) => k.(sems := k.sems[s := NewSem(initial)])
    case IdleLook => Dispatch(k)
  }

  lemma NextKeeps(k: Kernel, e: Event)
    requires KernelOk(k) && Can(k, e)
    ensures KernelOk(Next(k, e))
  {
    hide KernelOk;
    match e
    case YieldEvent => YieldKeeps(k);
    case PEvent(s) => PKeeps(k, s);
    case VEvent(s) => UpKeeps(k, s);
    case HandlerV(s) => UpKeeps(k, s);
    case PriorityEvent(t, p) => PriorityKeeps(k, t, p);
    case FinishEvent => FinishKeeps(k);
    case CreateEvent(t, p) => CreateKeeps(k, t, p);
    case ForkEvent(t) => ForkKeeps(k, t);
    case NewSemEvent(s, initial) => NewSemKeeps(k, s, initial);
    case IdleLook => DispatchKeeps(k);
  }

  /** The kernel with only the main thread. */
  function Boot(main: Thread, p: int): Kernel {
    Kernel(Busy(main), [], map[main := Running], map[main := p], map[], {}, map[], 0)
  }

  lemma BootOk(main: Thread, p: int)
    ensures KernelOk(Boot(main, p))
  {
  }

  /** A run as the sequence of its states. */
  ghost predicate IsKernelRun(states: seq<Kernel>, events: seq<Event>) {
    && |states| == |events| + 1
    && forall i {:trigger events[i]} :: 0 <= i < |events| ==>
      Can(states[i], events[i]) && states[i + 1] == Next(states[i], events[i])
  }

  lemma {:induction false} RunStaysOk(states: seq<Kernel>, events: seq<Event>, i: nat)
    requires IsKernelRun(states, events) && KernelOk(states[0]) && i < |states|
    ensures KernelOk(states[i])
  {
    hide KernelOk;
    if i > 0 {
      RunStaysOk(states, events, i - 1);
      assert Can(states[i - 1], events[i - 1]);
      NextKeeps(states[i - 1], events[i - 1]);
    }
  }

  function Bit(b: bool): nat { if b then 1 else 0 }

  /** In every run each thread is in exactly one place: running, ready, waiting at one
      semaphore, finished, or created and not yet forked; it is there once; and a ready
      thread's key is its current priority. */
  lemma OnePlace(states: seq<Kernel>, events: seq<Event>, i: nat, main: Thread, p: int, t: Thread)
    requires IsKernelRun(states, events) && states[0] == Boot(main, p) && i < |states| && t in states[i].status
    ensures var k := states[i];
      && Bit(k.cpu == Busy(t)) + Bit(Holds(k.ready, t)) + Bit(Waits(k, t)) + Bit(t in k.finished) + Bit(k.status[t] == JustCreated) == 1
      && Once(k.ready) && KeysOk(k.ready, k.priority) && QueuesOk(k)
  {
    BootOk(main, p);
    RunStaysOk(states, events, i);
    assert StatusOk(states[i], t);
  }

  // ------------------------------------------- what a run shows: values, priorities, order

  /** What an event does to the value of semaphore `s`: it is created with its initial value, a
      V adds one, and a P takes one off unless its thread is queued afterwards. */
  function ValueChange(k: Kernel, e: Event, k': Kernel, s: nat): int {
    match e
    case NewSemEvent(r, initial) => if r == s then initial else 0
    case VEvent(r) => if r == s then 1 else 0
    case HandlerV(r) => if r == s then 1 else 0
    case PEvent(r) => if r == s && s in k'.sems && k.cpu.t !in k'.sems[s].queue then -1 else 0
    case _ => 0
  }

  function ValueFrom(states: seq<Kernel>, events: seq<Event>, i: nat, s: nat): int
    requires |states| == |events| + 1 && i <= |events|
  {
    if i == 0 then 0 else ValueFrom(states, events, i - 1, s) + ValueChange(states[i - 1], events[i - 1], states[i], s)
  }

  lemma ValueStep(k: Kernel, e: Event, s: nat)
    requires KernelOk(k) && Can(k, e)
    ensures s in Next(k, e).sems <==> s in k.sems || (e.NewSemEvent? && e.s == s)
    ensures s in Next(k, e).sems ==>
      Next(k, e).sems[s].value == (if s in k.sems then k.sems[s].value else 0) + ValueChange(k, e, Next(k, e), s)
    ensures s !in Next(k, e).sems ==> ValueChange(k, e, Next(k, e), s) == 0
  {
    match e
    case PEvent(r) =>
      PKeeps(k, r);
      NeverNegative(k.sems[r]);
      NotQueued(k, r);
    case VEvent(r) => UpKeeps(k, r);
    case HandlerV(r) => UpKeeps(k, r);
    case _ =>
  }

  lemma NotQueued(k: Kernel, s: nat)
    requires KernelOk(k) && k.cpu.Busy? && s in k.sems
    ensures k.cpu.t !in k.sems[s].queue
  {
    assert StatusOk(k, k.cpu.t);
    assert k.cpu.t in k.sems[s].queue ==> Waits(k, k.cpu.t);
  }

  /** In every run a semaphore's value is its initial value plus the Vs on it less the Ps that
      got in, and never negative. */
  lemma {:induction false} SemaphoreCounts(states: seq<Kernel>, events: seq<Event>, i: nat, main: Thread, p: int, s: nat)
    requires IsKernelRun(states, events) && states[0] == Boot(main, p) && i < |states|
    ensures s in states[i].sems ==> 0 <= states[i].sems[s].value == ValueFrom(states, events, i, s)
    ensures s !in states[i].sems ==> ValueFrom(states, events, i, s) == 0
  {
    hide Next, ValueChange, KernelOk;
    BootOk(main, p);
    RunStaysOk(states, events, i);
    if s in states[i].sems { ValueNotNegative(states[i], s); }
    if i > 0 {
      SemaphoreCounts(states, events, i - 1, main, p, s);
      RunStaysOk(states, events, i - 1);
      assert Can(states[i - 1], events[i - 1]);
      ValueStep(states[i - 1], events[i - 1], s);
    }
  }

  lemma ValueNotNegative(k: Kernel, s: nat)
    requires KernelOk(k) && s in k.sems
    ensures k.sems[s].value >= 0
  {
    NeverNegative(k.sems[s]);
  }

  /** The priority that the events gave to `t` last, at its creation or by a change; `p` if they
      gave it none, as for the main thread. */
  function PriorityFrom(events: seq<Event>, i: nat, p: int, t: Thread): int
    requires i <= |events|
  {
    if i == 0 then p else
      match events[i - 1]
      case CreateEvent(u, q) => if u == t then q else PriorityFrom(events, i - 1, p, t)
      case PriorityEvent(u, q) => if u == t then q else PriorityFrom(events, i - 1, p, t)
      case _ => PriorityFrom(events, i - 1, p, t)
  }

  lemma PriorityStep(k: Kernel, e: Event)
    requires KernelOk(k) && Can(k, e)
    ensures Next(k, e).priority ==
      match e
      case CreateEvent(t, p) => k.priority[t := p]
      case PriorityEvent(t, p) => k.priority[t := p]
      case _ => k.priority
  {
    match e
    case CreateEvent(t, p) => CreateKeeps(k, t, p);
    case PriorityEvent(t, p) => PriorityKeeps(k, t, p);
    case _ =>
  }

  /** In every run a thread has the priority that it was given last. */
  lemma {:induction false} PrioritiesFollow(states: seq<Kernel>, events: seq<Event>, i: nat, main: Thread, p: int, t: Thread)
    requires IsKernelRun(states, events) && states[0] == Boot(main, p) && i < |states| && t in states[i].priority
    ensures states[i].priority[t] == PriorityFrom(events, i, p, t)
  {
    hide Next, KernelOk;
    if i > 0 {
      BootOk(main, p);
      RunStaysOk(states, events, i - 1);
      assert Can(states[i - 1], events[i - 1]);
      PriorityStep(states[i - 1], events[i - 1]);
      if t in states[i - 1].priority { PrioritiesFollow(states, events, i - 1, main, p, t); }
    }
  }

  /** `t` comes to the ready list with event `e`, or is moved there by a change of its priority. */
  ghost predicate Enters(k: Kernel, e: Event, k': Kernel, t: Thread) {
    Holds(k'.ready, t) && (!Holds(k.ready, t) || (e.PriorityEvent? && e.t == t))
  }

  /** The latest event, up to the `i`th, with which `t` came to the ready list. */
  ghost function Entered(states: seq<Kernel>, events: seq<Event>, i: nat, t: Thread): nat
    requires |states| == |events| + 1 && i <= |events|
  {
    if i == 0 then 0
    else if Enters(states[i - 1], events[i - 1], states[i], t) then i
    else Entered(states, events, i - 1, t)
  }

  ghost predicate SinceOk(k: Kernel, e: Event, k': Kernel, t: Thread) {
    && k.insertions <= k'.insertions
    && (Holds(k'.ready, t) ==> t in k'.since)
    && (Enters(k, e, k', t) ==> k'.since[t] == k.insertions && k'.insertions == k.insertions + 1)
    && (Holds(k'.ready, t) && !Enters(k, e, k', t) ==> t in k.since && k'.since[t] == k.since[t])
  }

  lemma HeldHasSince(k: Kernel, t: Thread)
    requires KernelOk(k) && Holds(k.ready, t)
    ensures t in k.since
  {
  }

  lemma PopSince(k: Kernel, e: Event, t: Thread)
    requires KernelOk(k) && k.ready != [] && !(e.PriorityEvent?)
    ensures forall k': Kernel {:trigger SinceOk(k, e, k', t)} ::
      k'.ready == k.ready[1..] && k'.since == k.since && k'.insertions == k.insertions ==> SinceOk(k, e, k', t)
  {
    TailReady(k.ready, k.priority, k.since, k.insertions, t);
    if Holds(k.ready, t) { HeldHasSince(k, t); }
  }

  lemma SinceStep(k: Kernel, e: Event, t: Thread)
    requires KernelOk(k) && Can(k, e)
    ensures SinceOk(k, e, Next(k, e), t)
  {
    hide KernelOk, Insert, RemoveItem;
    if Holds(k.ready, t) { HeldHasSince(k, t); }
    match e
    case YieldEvent => YieldSince(k, t);
    case PEvent(s) => if k.ready != [] { PopSince(k, e, t); }
    case VEvent(s) => UpSince(k, s, e, t);
    case HandlerV(s) => UpSince(k, s, e, t);
    case PriorityEvent(u, p) =>
      PriorityKeeps(k, u, p);
      PriorityPlace(k, u);
    case FinishEvent => if k.ready != [] { PopSince(k, e, t); }
    case ForkEvent(u) => ForkKeeps(k, u);
    case IdleLook => if k.ready != [] { PopSince(k, e, t); }
    case _ =>
  }

  lemma UpSince(k: Kernel, s: nat, e: Event, t: Thread)
    requires KernelOk(k) && s in k.sems && !e.PriorityEvent?
    ensures SinceOk(k, e, DoUp(k, s), t)
  {
    UpKeeps(k, s);
    var q := k.sems[s].queue;
    if Holds(k.ready, t) { HeldHasSince(k, t); }
    if q != [] { assert q[0] in k.sems[s].queue && Waits(k, q[0]) && StatusOk(k, q[0]); }
  }

  lemma PriorityPlace(k: Kernel, t: Thread)
    requires KernelOk(k)
    ensures Position(k.ready, t) == |k.ready| <==> !Holds(k.ready, t)
  {
    RemoveHolds(k.ready, t, t);
  }

  lemma YieldSince(k: Kernel, t: Thread)
    requires KernelOk(k) && k.cpu.Busy?
    ensures SinceOk(k, YieldEvent, Yield(k), t)
  {
    var c := k.cpu.t;
    assert StatusOk(k, c);
    if Holds(k.ready, t) { HeldHasSince(k, t); }
    if k.ready != [] {
      TailReady(k.ready, k.priority, k.since, k.insertions, t);
      InsertHolds(k.ready[1..], Entry(c, PriorityOf(k, c)), t);
    }
  }

  lemma {:induction false} InsertionsGrow(states: seq<Kernel>, events: seq<Event>, i: nat, j: nat, main: Thread, p: int)
    requires IsKernelRun(states, events) && states[0] == Boot(main, p) && i <= j < |states|
    ensures states[i].insertions <= states[j].insertions
  {
    hide Next, KernelOk;
    if i < j {
      InsertionsGrow(states, events, i, j - 1, main, p);
      BootOk(main, p);
      RunStaysOk(states, events, j - 1);
      assert Can(states[j - 1], events[j - 1]);
      SinceStep(states[j - 1], events[j - 1], main);
    }
  }

  /** The kernel's stamps are the order in which the run put the threads on the list. */
  lemma {:induction false} SinceIsEntered(states: seq<Kernel>, events: seq<Event>, i: nat, main: Thread, p: int, t: Thread)
    requires IsKernelRun(states, events) && states[0] == Boot(main, p) && i < |states| && Holds(states[i].ready, t)
    ensures var n := Entered(states, events, i, t); 0 < n <= i && t in states[i].since && states[i].since[t] == states[n - 1].insertions
  {
    hide Next, KernelOk, Holds;
    if i == 0 {
      NobodyReady(main, p, t);
    } else {
      BootOk(main, p);
      RunStaysOk(states, events, i - 1);
      assert Can(states[i - 1], events[i - 1]);
      SinceStep(states[i - 1], events[i - 1], t);
      if !Enters(states[i - 1], events[i - 1], states[i], t) { SinceIsEntered(states, events, i - 1, main, p, t); }
    }
  }

  lemma NobodyReady(main: Thread, p: int, t: Thread)
    ensures !Holds(Boot(main, p).ready, t)
  {
  }

  /** In every run `FindNextToRun` takes a ready thread whose priority, as the events gave it, is
      greatest, and of several such the one that came to the list first, as the run shows it. */
  lemma NextIsFirst(states: seq<Kernel>, events: seq<Event>, i: nat, main: Thread, p: int, t: Thread)
    requires IsKernelRun(states, events) && states[0] == Boot(main, p) && i < |states| && Holds(states[i].ready, t)
    ensures FindNextToRun(states[i]).0.Some?
    ensures var next := FindNextToRun(states[i]).0.value;
      && Holds(states[i].ready, next)
      && PriorityFrom(events, i, p, t) <= PriorityFrom(events, i, p, next)
      && (PriorityFrom(events, i, p, t) == PriorityFrom(events, i, p, next) && t != next ==>
           Entered(states, events, i, next) < Entered(states, events, i, t))
  {
    hide Next, KernelOk, PriorityFrom, Entered, Can;
    BootOk(main, p);
    RunStaysOk(states, events, i);
    NextOfKernel(states[i], t);
    var next := FindNextToRun(states[i]).0.value;
    PrioritiesFollow(states, events, i, main, p, t);
    PrioritiesFollow(states, events, i, main, p, next);
    SinceIsEntered(states, events, i, main, p, t);
    SinceIsEntered(states, events, i, main, p, next);
    var m, n := Entered(states, events, i, next), Entered(states, events, i, t);
    if n <= m { InsertionsGrow(states, events, n - 1, m - 1, main, p); }
  }

  lemma NextOfKernel(k: Kernel, t: Thread)
    requires KernelOk(k) && Holds(k.ready, t)
    ensures FindNextToRun(k).0.Some?
    ensures var next := FindNextToRun(k).0.value;
      && Holds(k.ready, next) && next in k.priority && t in k.priority && next in k.since && t in k.since
      && k.priority[t] <= k.priority[next]
      && (k.priority[t] == k.priority[next] && t != next ==> k.since[next] < k.since[t])
  {
    NextToRun(k, t);
    assert k.ready[0].item == FindNextToRun(k).0.value;
  }
}
