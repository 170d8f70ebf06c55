/** The scheduler as it is in memory: a linked ready list, the current thread and
    the fields of the threads.  Each routine does what `Schedulers` says. */
module Processors {
  import opened Lists
  import opened Options
  import opened Semaphores
  import S = Schedulers

  class Scheduler {
    const readyList: List<Thread>
    var currentThread: Thread
    /** Whether the current thread is asleep in the idle loop. */
    var idle: bool
    var status: map<Thread, S.Status>
    var priority: map<Thread, int>
    /** The parts of the kernel that these routines do not touch, and the count of insertions. */
    ghost var others: S.Kernel

    ghost predicate Valid()
      reads this, readyList, readyList.nodes
    {
      readyList.Valid()
    }

    ghost function State(): S.Kernel
      reads this, readyList, readyList.nodes
    {
      others.(cpu := if idle then S.Idling(currentThread) else S.Busy(currentThread), ready := readyList.Contents(),
              status := status, priority := priority)
    }

    constructor (main: Thread, p: int)
      ensures Valid() && State() == S.Boot(main, p) && fresh(readyList) && fresh(readyList.nodes)
    {
      readyList := new List();
      currentThread, idle, status, priority := main, false, map[main := S.Running], map[main := p];
      others := S.Boot(main, p);
    }

    method ReadyToRun(thread: Thread)
      requires Valid() && thread in priority
      modifies this`status, this`others, readyList, readyList.nodes
      ensures Valid() && State() == S.ReadyToRun(old(State()), thread)
      ensures fresh(set n | n in readyList.nodes && n !in old(readyList.nodes))
    {
      status := status[thread := S.Ready];
      readyList.SortedInsertInverted(thread, priority[thread]);
      others := others.(since := others.since[thread := others.insertions], insertions := others.insertions + 1);
    }

    method FindNextToRun() returns (next: Option<Thread>)
      requires Valid()
      modifies readyList
      ensures Valid() && (next, State()) == S.FindNextToRun(old(State()))
      ensures forall i {:trigger readyList.nodes[i]} :: 0 <= i < |readyList.nodes| ==> readyList.nodes[i] in old(readyList.nodes)
    {
      var head := readyList.SortedPop();
      if head == [] {
        return None;
      }
      assert old(State()).ready == head + readyList.Contents();
      assert old(State()).ready[1..] == readyList.Contents();
      return Some(head[0].item);
    }

    method Run(nextThread: Thread)
      requires Valid()
      modifies this`currentThread, this`idle, this`status
      ensures Valid() && State() == S.Run(old(State()), nextThread)
    {
      currentThread, idle := nextThread, false;
      status := status[currentThread := S.Running];
    }

    method Yield()
      requires Valid() && !idle && currentThread in priority
      modifies this, readyList, readyList.nodes
      ensures Valid() && State() == S.Yield(old(State()))
    {
      var nextThread := FindNextToRun();
      if nextThread.Some? {
        ReadyToRun(currentThread);
        Run(nextThread.value);
      }
    }

    /** `Sleep` up to the first look at the ready list. */
    method Sleep()
      requires Valid()
      modifies this, readyList
      ensures Valid() && State() == S.Sleep(old(State()))
    {
      status := status[currentThread := S.Blocked];
      idle := true;
      Dispatch();
    }

    /** One look at the ready list from the loop of `Sleep`. */
    method Dispatch()
      requires Valid()
      modifies this, readyList
      ensures Valid() && State() == S.Dispatch(old(State()))
    {
      var nextThread := FindNextToRun();
      if nextThread.Some? {
        Run(nextThread.value);
      }
    }

    method SetPriority(thread: Thread, newPriority: int)
      requires Valid() && thread in priority
      modifies this, readyList, readyList.nodes
      ensures Valid() && State() == S.ChangePriority(old(State()), thread, newPriority)
      ensures priority == old(priority)[thread := newPriority]
    {
      priority := priority[thread := newPriority];
      ModifyPriority(thread);
    }

    method ModifyPriority(thread: Thread)
      requires Valid() && thread in priority
      modifies this`others, readyList, readyList.nodes
      ensures Valid() && State() == S.ModifyPriority(old(State()), thread) && priority == old(priority)
    {
      hide Position, RemoveItem, Insert;
      HasIsPosition(readyList.Contents(), thread);
      var has := readyList.Has(thread);
      if has {
        Reinsert(thread);
        others := others.(since := others.since[thread := others.insertions], insertions := others.insertions + 1);
      }
    }

    method Reinsert(thread: Thread)
      requires Valid() && thread in priority
      modifies readyList, readyList.nodes
      ensures Valid()
      ensures readyList.Contents() == Insert(RemoveItem(old(readyList.Contents()), thread), Entry(thread, priority[thread]), false)
    {
      hide Position, RemoveItem, Insert;
      readyList.Remove(thread);
      readyList.SortedInsertInverted(thread, priority[thread]);
    }
  }

  lemma HasIsPosition(s: seq<Entry<Thread>>, t: Thread)
    ensures (exists e :: e in s && e.item == t) <==> Position(s, t) < |s|
  {
    var p := Position(s, t);
    if p < |s| { assert s[p] in s; }
  }
}
