/** Page replacement: the victim is the frame used least recently in the whole run. */
module Lru {
  import opened Bitmaps
  import Blocks
  import Executables
  import opened Options
  import opened Paging
  import opened ProcessMemory

  /** One past the last position of `f` in the record of uses; 0 if it was never used. */
  function Latest(touched: seq<nat>, f: nat): (n: nat)
    ensures n <= |touched|
  {
    if touched == [] then 0
    else if touched[|touched| - 1] == f then |touched|
    else Latest(touched[..|touched| - 1], f)
  }

  lemma LatestAfter(touched: seq<nat>, g: nat, f: nat)
    ensures Latest(touched + [g], f) == if f == g then |touched| + 1 else Latest(touched, f)
  {
    assert (touched + [g])[..|touched|] == touched;
  }

  /** Until the counter wraps, use counters order the frames as the record of uses does. */
  ghost predicate LruInv(vm: Vm) {
    vm.lookups < UINT_MAX ==>
      && vm.references == vm.lookups
      && (forall f {:trigger vm.core[f]} :: 0 <= f < |vm.core| ==>
            vm.core[f].lastUse <= vm.references && (vm.core[f].lastUse == 0 <==> Latest(vm.touched, f) == 0))
      && (forall f, g {:trigger vm.core[f], vm.core[g]} ::
            0 <= f < |vm.core| && 0 <= g < |vm.core| && Latest(vm.touched, f) < Latest(vm.touched, g) ==>
              vm.core[f].lastUse < vm.core[g].lastUse)
  }

  ghost predicate SameRecord(a: Vm, b: Vm) {
    a.core == b.core && a.references == b.references && a.lookups == b.lookups && a.touched == b.touched
  }

  /** `b` is `a` after one counted search, with frame `f` used. */
  ghost predicate Uses(a: Vm, b: Vm, f: nat) {
    && |a.core| == |b.core| && f < |a.core|
    && b.lookups == a.lookups + 1 && b.references == Bump(a.references) && b.touched == a.touched + [f]
    && b.core[f].lastUse == b.references
    && forall g :: 0 <= g < |a.core| && g != f ==> b.core[g] == a.core[g]
  }

  lemma UseKeeps(a: Vm, b: Vm, f: nat)
    requires LruInv(a) && Uses(a, b, f)
    ensures LruInv(b)
  {
    forall g: nat ensures Latest(b.touched, g) == if f == g then |a.touched| + 1 else Latest(a.touched, g) {
      LatestAfter(a.touched, f, g);
    }
    if b.lookups < UINT_MAX {
      forall g, h {:trigger b.core[g], b.core[h]} | 0 <= g < |b.core| && 0 <= h < |b.core|
        && Latest(b.touched, g) < Latest(b.touched, h) ensures b.core[g].lastUse < b.core[h].lastUse
      {
        assert a.core[g].lastUse <= a.references && a.core[h].lastUse <= a.references;
      }
    }
  }

  /** While fewer than 2^32 - 1 searches were counted, no frame was used longer ago than the victim. */
  lemma VictimIsLeastRecent(vm: Vm, g: nat)
    requires Shape(vm) && LruInv(vm) && vm.lookups < UINT_MAX && g < NUM_PHYS_PAGES
    ensures PickVictim(vm).1 < NUM_PHYS_PAGES
    ensures Latest(vm.touched, PickVictim(vm).1) <= Latest(vm.touched, g)
  {
    var victim := PickVictim(vm).1;
    assert vm.core[victim].lastUse <= vm.core[g].lastUse <= vm.references;
  }

  /** When the counter has come to its end, the choice starts all counters afresh and takes frame 0. */
  lemma WrapRestarts(vm: Vm)
    requires Shape(vm) && vm.references == 0xffff_ffff
    ensures PickVictim(vm).1 == 0 && PickVictim(vm).0.references == 0
    ensures forall f {:trigger PickVictim(vm).0.core[f]} :: 0 <= f < NUM_PHYS_PAGES ==> PickVictim(vm).0.core[f] == vm.core[f].(lastUse := 0)
  {
    FirstOfEqual(ResetCounters(vm).core);
  }

  lemma {:induction false} FirstOfEqual(core: seq<CoreEntry>)
    requires forall f :: 0 <= f < |core| ==> core[f].lastUse == 0
    ensures Scan(core).0 == 0
  {
    if |core| > 1 { FirstOfEqual(core[..|core| - 1]); }
  }

  lemma RecordKeeps(a: Vm, b: Vm)
    requires LruInv(a) && SameRecord(a, b)
    ensures LruInv(b)
  {
  }

  /** A miss counts a search and uses no frame. */
  lemma MissKeeps(a: Vm, b: Vm)
    requires LruInv(a) && a.core == b.core && a.touched == b.touched
    requires b.lookups == a.lookups + 1 && b.references == Bump(a.references)
    ensures LruInv(b)
  {
    if b.lookups < UINT_MAX {
      assert forall f :: 0 <= f < |b.core| ==> a.core[f].lastUse <= a.references;
    }
  }

  lemma EvacuateRecord(vm: Vm)
    requires Inv(vm) && (forall f :: 0 <= f < NUM_PHYS_PAGES ==> vm.marked[f])
    ensures SameRecord(ResetCounters(vm), EvacuatePage(vm).0)
  {
    var (picked, victim) := PickVictim(vm);
    CountersKeep(vm, picked);
    FlushedAll(picked, TLB_SIZE, Some(victim));
  }

  lemma ResetLru(vm: Vm)
    requires LruInv(vm)
    ensures LruInv(ResetCounters(vm))
  {
  }

  lemma FaultKeeps(vm: Vm, v: nat)
    requires Inv(vm) && LruInv(vm) && vm.current.Some? && IsPage(vm, vm.current.value, v) && !Mapped(vm, v)
    ensures LruInv(HandleFault(vm, v))
  {
    var c := vm.current.value;
    var e := Pte(vm, c, v).(valid := true);
    var vm1 := SetEntry(vm, c, v, e);
    FlagsKeep(vm, c, v, e);
    if e.InMemory() {
      RecordKeeps(vm, Install(vm1, v));
    } else {
      var (vm2, f) := ObtainFrame(vm1);
      RecordKeeps(vm, vm1);
      ObtainLru(vm1);
      FaultLoads(vm1, v);
      var vm3 := LoadPage(vm2, v, f);
      UseKeeps(vm2, vm3, f);
      RecordKeeps(vm3, Install(vm3, v));
    }
  }

  lemma ObtainLru(vm: Vm)
    requires Inv(vm) && LruInv(vm)
    ensures LruInv(ObtainFrame(vm).0)
  {
    if FirstClear(vm.marked) == NUM_PHYS_PAGES {
      EvacuateRecord(vm);
      ResetLru(vm);
      RecordKeeps(ResetCounters(vm), EvacuatePage(vm).0);
    } else {
      RecordKeeps(vm, ObtainFrame(vm).0);
    }
  }

  lemma TranslateKeeps(vm: Vm, addr: nat, size: nat, writing: bool)
    requires Inv(vm) && LruInv(vm)
    ensures LruInv(Translate(vm, addr, size, writing).0)
  {
    if !Misaligned(addr, size) {
      var i := Lookup(vm.tlb, Blocks.Index(Executables.PAGE_SIZE, addr));
      assert i < |vm.tlb| ==> SlotOk(vm, vm.tlb[i]);
      var counted := CountSearch(vm, i);
      if i == |vm.tlb| { MissKeeps(vm, counted); } else { UseKeeps(vm, counted, vm.tlb[i].physicalPage); }
      RecordKeeps(counted, Translate(vm, addr, size, writing).0);
    }
  }

  lemma ExecKeeps(vm: Vm, s: Step)
    requires Inv(vm) && LruInv(vm) && Enabled(vm, s)
    ensures LruInv(Exec(vm, s).0)
  {
    match s
    case Read(addr, size) =>
      AccessKeeps(vm, addr, size, false);
    case Write(addr, size, value) =>
      AccessKeeps(vm, addr, size, true);
      var (t, e, i) := Translate(vm, addr, size, true);
      TranslateTables(vm, addr, size, true);
      if e == NoException { RecordKeeps(t, Exec(vm, s).0); }
    case SwitchTo(next, dead) =>
      SavedIsEmpty(vm);
      if vm.current.Some? { FlushedAll(vm, TLB_SIZE, None); }
      RecordKeeps(vm, Exec(vm, s).0);
    case Create(id, exe) =>
      RecordKeeps(vm, Exec(vm, s).0);
  }

  lemma AccessKeeps(vm: Vm, addr: nat, size: nat, writing: bool)
    requires Inv(vm) && LruInv(vm) && CanAccess(vm, addr, size)
    ensures var (t, e, i) := Translate(vm, addr, size, writing); var v := Blocks.Index(Executables.PAGE_SIZE, addr);
            && LruInv(t) && CanAccess(t, addr, size)
            && (e == PageFault ==> LruInv(HandleFault(t, v)))
  {
    var (t, e, i) := Translate(vm, addr, size, writing);
    TranslateTables(vm, addr, size, writing);
    TranslateKeeps(vm, addr, size, writing);
    if e == PageFault { FaultKeeps(t, Blocks.Index(Executables.PAGE_SIZE, addr)); }
  }

  lemma {:induction false} RunKeeps(vm: Vm, steps: seq<Step>)
    requires Inv(vm) && LruInv(vm) && IsRun(vm, steps)
    ensures LruInv(Final(vm, steps))
    decreases |steps|
  {
    if steps != [] {
      ExecKeeps(vm, steps[0]);
      RunKeeps(Exec(vm, steps[0]).0, steps[1..]);
    }
  }

  /** Page `v` of the current process is out of memory. */
  predicate IsOut(vm: Vm, v: nat) {
    vm.current.Some? && IsPage(vm, vm.current.value, v) && !Pte(vm, vm.current.value, v).InMemory()
  }

  /** The handler gives the page that is out of memory the frame that it obtained. */
  lemma FrameTaken(vm: Vm, v: nat)
    requires Inv(vm) && IsOut(vm, v) && !Mapped(vm, v)
    ensures var c := vm.current.value; var vm1 := SetEntry(vm, c, v, Pte(vm, c, v).(valid := true));
      && Inv(vm1) && vm1.marked == vm.marked && IsPage(HandleFault(vm, v), c, v)
      && Pte(HandleFault(vm, v), c, v).physicalPage == ObtainFrame(vm1).1
  {
    hide Owners, TlbOk, CleanOk, SameViews, ObtainFrame, Install;
    var c := vm.current.value;
    var e := Pte(vm, c, v).(valid := true);
    var vm1 := SetEntry(vm, c, v, e);
    FlagsKeep(vm, c, v, e);
    FaultLoads(vm1, v);
    var (vm2, f) := ObtainFrame(vm1);
    LoadTables(vm2, v, f);
    InstallLeaves(LoadPage(vm2, v, f), v);
  }

  // ------------------------------------------------------- the record, from the run alone

  predicate IsAccess(s: Step) { s.Read? || s.Write? }

  function PageOf(s: Step): nat
    requires IsAccess(s)
  {
    Blocks.Index(Executables.PAGE_SIZE, s.addr)
  }

  /** The frame that the running process's entry for page `v` names. */
  function FrameOf(vm: Vm, c: SpaceId, v: nat): nat { if IsPage(vm, c, v) then Pte(vm, c, v).physicalPage else 0 }

  /** The use of a frame in one step: the frame of the page, when the access goes through, or when
      it faults on a page that is out of memory and so is loaded. */
  function UsedBy(vm: Vm, s: Step): seq<nat>
    requires Inv(vm) && Enabled(vm, s)
  {
    if !IsAccess(s) then [] else
      var (w, out) := Exec(vm, s);
      if out.Value? || out.Done? || (out.Faulted? && IsOut(vm, PageOf(s))) then [FrameOf(w, vm.current.value, PageOf(s))] else []
  }

  /** How often the step counts a reference: once for the search of the TLB, which a misaligned
      access does not come to, and once for a load. */
  function CountedBy(vm: Vm, s: Step): nat
    requires Inv(vm) && Enabled(vm, s)
  {
    if !IsAccess(s) || Exec(vm, s).1.Fatal? then 0
    else if Exec(vm, s).1.Faulted? && IsOut(vm, PageOf(s)) then 2 else 1
  }

  /** The uses of frames in a run, in order. */
  function UsesOf(vm: Vm, steps: seq<Step>): seq<nat>
    requires Inv(vm) && IsRun(vm, steps)
    decreases |steps|
  {
    if steps == [] then [] else UsedBy(vm, steps[0]) + UsesOf(Exec(vm, steps[0]).0, steps[1..])
  }

  function CountedIn(vm: Vm, steps: seq<Step>): nat
    requires Inv(vm) && IsRun(vm, steps)
    decreases |steps|
  {
    if steps == [] then 0 else CountedBy(vm, steps[0]) + CountedIn(Exec(vm, steps[0]).0, steps[1..])
  }

  lemma ObtainRecord(vm: Vm)
    requires Inv(vm)
    ensures ObtainFrame(vm).0.touched == vm.touched && ObtainFrame(vm).0.lookups == vm.lookups
  {
    if FirstClear(vm.marked) == NUM_PHYS_PAGES { EvacuateRecord(vm); }
  }

  lemma FaultRecord(vm: Vm, v: nat)
    requires Inv(vm) && vm.current.Some? && IsPage(vm, vm.current.value, v) && !Mapped(vm, v)
    ensures var w := HandleFault(vm, v);
      if IsOut(vm, v) then w.touched == vm.touched + [FrameOf(w, vm.current.value, v)] && w.lookups == vm.lookups + 1
      else w.touched == vm.touched && w.lookups == vm.lookups
  {
    hide Owners, TlbOk, CleanOk, SameViews, ObtainFrame;
    var c := vm.current.value;
    var e := Pte(vm, c, v).(valid := true);
    var vm1 := SetEntry(vm, c, v, e);
    FlagsKeep(vm, c, v, e);
    if IsOut(vm, v) {
      FrameTaken(vm, v);
      ObtainRecord(vm1);
      FaultLoads(vm1, v);
    }
  }

  /** A translation that succeeds uses the frame of its page; one that does not uses none. */
  lemma TranslateRecord(vm: Vm, addr: nat, size: nat, writing: bool)
    requires Inv(vm) && CanAccess(vm, addr, size)
    ensures var (t, e, i) := Translate(vm, addr, size, writing); var c, v := vm.current.value, Blocks.Index(Executables.PAGE_SIZE, addr);
      && t.current == vm.current && t.lookups == vm.lookups + (if e == AddressError then 0 else 1)
      && t.touched == vm.touched + (if e == NoException then [FrameOf(t, c, v)] else [])
      && t.spaces == vm.spaces
  {
    hide Owners, CleanOk, SameViews;
    if !Misaligned(addr, size) {
      var i := Lookup(vm.tlb, Blocks.Index(Executables.PAGE_SIZE, addr));
      assert i < |vm.tlb| ==> SlotOk(vm, vm.tlb[i]);
    }
  }

  lemma AccessRecord(vm: Vm, s: Step)
    requires Inv(vm) && Enabled(vm, s) && IsAccess(s)
    ensures Exec(vm, s).0.touched == vm.touched + UsedBy(vm, s) && Exec(vm, s).0.lookups == vm.lookups + CountedBy(vm, s)
  {
    hide Owners, TlbOk, CleanOk, SameViews, HandleFault, Translate;
    var (t, e, i) := Translate(vm, s.addr, s.size, s.Write?);
    TranslateRecord(vm, s.addr, s.size, s.Write?);
    TranslateTables(vm, s.addr, s.size, s.Write?);
    if e == PageFault {
      FaultRecord(t, PageOf(s));
    } else if e == NoException && s.Write? {
      AlignedFits(s.addr, s.size);
      SlotCanStore(t, i, s.addr, s.size, s.value);
    }
  }

  lemma SlotCanStore(t: Vm, i: nat, addr: nat, size: nat, value: int)
    requires Inv(t) && i < TLB_SIZE && t.tlb[i].valid && Blocks.Offset(Executables.PAGE_SIZE, addr) + size <= Executables.PAGE_SIZE
    requires t.tlb[i].dirty
    ensures CanStore(t, i, Blocks.Offset(Executables.PAGE_SIZE, addr), Encode(value, size))
    ensures var w := Store(t, i, Blocks.Offset(Executables.PAGE_SIZE, addr), Encode(value, size));
      w.spaces == t.spaces && w.touched == t.touched && w.lookups == t.lookups
  {
    assert SlotOk(t, t.tlb[i]);
  }

  lemma ExecRecord(vm: Vm, s: Step)
    requires Inv(vm) && Enabled(vm, s)
    ensures Exec(vm, s).0.touched == vm.touched + UsedBy(vm, s) && Exec(vm, s).0.lookups == vm.lookups + CountedBy(vm, s)
  {
    hide Owners, TlbOk, CleanOk, SameViews, ReadMem, WriteMem;
    match s
    case Read(_, _) => AccessRecord(vm, s);
    case Write(_, _, _) => AccessRecord(vm, s);
    case SwitchTo(next, dead) =>
      SavedIsEmpty(vm);
      if vm.current.Some? { FlushedAll(vm, TLB_SIZE, None); }
    case Create(id, exe) =>
  }

  /** What the kernel's counters go by is the record of the run. */
  lemma {:induction false} RunRecord(vm: Vm, steps: seq<Step>)
    requires Inv(vm) && IsRun(vm, steps)
    ensures Final(vm, steps).touched == vm.touched + UsesOf(vm, steps)
    ensures Final(vm, steps).lookups == vm.lookups + CountedIn(vm, steps)
    decreases |steps|
  {
    hide Inv, Exec, UsedBy, CountedBy;
    if steps != [] {
      ExecRecord(vm, steps[0]);
      RunRecord(Exec(vm, steps[0]).0, steps[1..]);
    }
  }

  lemma FaultTakesLeastRecent(vm: Vm, v: nat, g: nat)
    requires Inv(vm) && LruInv(vm) && vm.lookups < UINT_MAX && g < NUM_PHYS_PAGES
    requires IsOut(vm, v) && !Mapped(vm, v) && FirstClear(vm.marked) == NUM_PHYS_PAGES
    ensures IsPage(HandleFault(vm, v), vm.current.value, v)
    ensures Latest(vm.touched, Pte(HandleFault(vm, v), vm.current.value, v).physicalPage) <= Latest(vm.touched, g)
  {
    hide Owners, TlbOk, CleanOk, SameViews;
    FrameTaken(vm, v);
    var c := vm.current.value;
    VictimIsLeastRecent(SetEntry(vm, c, v, Pte(vm, c, v).(valid := true)), g);
  }

  /** When an access in any run faults on a page that is out of memory, and no frame is clear,
      the frame in which the handler leaves the page was used in that run no later than any other
      frame: a use is an access that went through or a load, as the run shows them. */
  lemma EvictsLeastRecent(boot: Vm, steps: seq<Step>, s: Step, g: nat)
    requires Boot(boot) && Inv(boot) && IsRun(boot, steps) && CountedIn(boot, steps) + 1 < UINT_MAX && g < NUM_PHYS_PAGES
    requires var vm := Final(boot, steps);
      && IsAccess(s) && Enabled(vm, s) && Exec(vm, s).1 == Faulted && IsOut(vm, PageOf(s))
      && FirstClear(vm.marked) == NUM_PHYS_PAGES
    ensures var vm := Final(boot, steps);
      && IsPage(Exec(vm, s).0, vm.current.value, PageOf(s))
      && Latest(UsesOf(boot, steps), Pte(Exec(vm, s).0, vm.current.value, PageOf(s)).physicalPage) <= Latest(UsesOf(boot, steps), g)
  {
    hide Inv, Exec, HandleFault, UsesOf, CountedIn, Final, IsRun, Translate, Latest;
    var vm := Final(boot, steps);
    var t := Translate(vm, s.addr, s.size, s.Write?).0;
    RunKeeps(boot, steps);
    RunRecord(boot, steps);
    FaultStep(vm, s);
    assert boot.touched + UsesOf(boot, steps) == UsesOf(boot, steps);
    FaultTakesLeastRecent(t, PageOf(s), g);
  }

  lemma FaultStep(vm: Vm, s: Step)
    requires Inv(vm) && LruInv(vm) && IsAccess(s) && Enabled(vm, s) && Exec(vm, s).1 == Faulted && IsOut(vm, PageOf(s))
    ensures var t := Translate(vm, s.addr, s.size, s.Write?).0;
      && Inv(t) && LruInv(t) && IsOut(t, PageOf(s)) && !Mapped(t, PageOf(s)) && t.current == vm.current
      && t.touched == vm.touched && t.lookups == vm.lookups + 1 && t.marked == vm.marked
      && Exec(vm, s).0 == HandleFault(t, PageOf(s))
  {
    hide Owners, TlbOk, CleanOk, SameViews, HandleFault, Translate;
    AccessKeeps(vm, s.addr, s.size, s.Write?);
    TranslateRecord(vm, s.addr, s.size, s.Write?);
    TranslateTables(vm, s.addr, s.size, s.Write?);
    TranslateMarks(vm, s.addr, s.size, s.Write?);
  }

  lemma TranslateMarks(vm: Vm, addr: nat, size: nat, writing: bool)
    requires Inv(vm)
    ensures Translate(vm, addr, size, writing).0.marked == vm.marked
  {
  }
}
