/** Demand-paged memory as a value: the whole virtual-memory state of the kernel,
    and every operation of the MMU and of the paging code as a function on it. */
module Paging {
  import opened Blocks
  import opened Bitmaps
  import opened Bytes
  import opened Executables
  import opened Options

  const INT_MAX: nat := 0x7fff_ffff
  const UINT_MAX: nat := 0xffff_ffff

  /** Any number of frames below the out-of-memory mark; 16 in this build. */
  type FrameCount = n: Pos | n < INT_MAX witness 16
  const NUM_PHYS_PAGES: FrameCount

  /** Any number of TLB slots; 8 in this build. */
  type SlotCount = n: Pos | true witness 8
  const TLB_SIZE: SlotCount

  type SpaceId = int
  type Page = seq<Byte>

  /** A translation, in a page table or in the TLB. */
  datatype Entry = Entry(virtualPage: nat, physicalPage: nat, valid: bool, readOnly: bool, use: bool, dirty: bool)
  {
    predicate InMemory() { physicalPage != INT_MAX }
  }

  datatype CoreEntry = CoreEntry(spaceId: SpaceId, virtualPage: nat, lastUse: nat)

  datatype Space = Space(exe: Executable, pageTable: seq<Entry>, swap: seq<Byte>, numFaults: nat)

  /** `lookups` counts the increments of the reference counter and `touched` lists
      the frames in the order of their TLB hits and loads; both only record the run. */
  datatype Vm = Vm(
    frames: seq<Page>, tlb: seq<Entry>, marked: seq<bool>, core: seq<CoreEntry>,
    spaces: map<SpaceId, Space>, current: Option<SpaceId>, references: nat,
    lookups: nat, touched: seq<nat>)

  // ---------------------------------------------------------------- invariant

  ghost predicate Shape(vm: Vm) {
    && |vm.frames| == |vm.marked| == |vm.core| == NUM_PHYS_PAGES
    && |vm.tlb| == TLB_SIZE
    && (forall f :: 0 <= f < |vm.frames| ==> |vm.frames[f]| == PAGE_SIZE)
    && (vm.current.Some? ==> vm.current.value in vm.spaces)
  }

  ghost predicate SpaceOk(s: Space) {
    forall v :: 0 <= v < |s.pageTable| ==>
         && s.pageTable[v].virtualPage == v && !s.pageTable[v].readOnly
         && (s.pageTable[v].InMemory() ==> s.pageTable[v].physicalPage < NUM_PHYS_PAGES)
  }

  ghost predicate TablesOk(vm: Vm) { forall id :: id in vm.spaces ==> SpaceOk(vm.spaces[id]) }

  predicate IsPage(vm: Vm, id: SpaceId, v: nat) { id in vm.spaces && v < |vm.spaces[id].pageTable| }

  function Pte(vm: Vm, id: SpaceId, v: nat): Entry
    requires IsPage(vm, id, v)
  {
    vm.spaces[id].pageTable[v]
  }

  /** The core map names the page that is in frame `f`. */
  predicate Owned(vm: Vm, f: nat)
    requires f < |vm.core|
  {
    IsPage(vm, vm.core[f].spaceId, vm.core[f].virtualPage)
    && Pte(vm, vm.core[f].spaceId, vm.core[f].virtualPage).physicalPage == f
  }

  /** Every resident page owns its frame, and every marked frame but `hole` is owned;
      `hole` is a frame just taken that holds no page yet. */
  ghost predicate Owners(vm: Vm, hole: nat)
    requires Shape(vm) && TablesOk(vm)
  {
    && (forall id, v: nat {:trigger Pte(vm, id, v)} :: IsPage(vm, id, v) && Pte(vm, id, v).InMemory() ==>
          var f := Pte(vm, id, v).physicalPage;
          f != hole && vm.marked[f] && vm.core[f].spaceId == id && vm.core[f].virtualPage == v)
    && (forall f :: 0 <= f < NUM_PHYS_PAGES && f != hole && vm.marked[f] ==> Owned(vm, f))
    && (hole < NUM_PHYS_PAGES ==> vm.marked[hole])
  }

  /** A valid TLB slot translates a resident page of the current process and knows of every write to it. */
  ghost predicate SlotOk(vm: Vm, e: Entry) {
    e.valid ==>
      && vm.current.Some? && IsPage(vm, vm.current.value, e.virtualPage)
      && Pte(vm, vm.current.value, e.virtualPage).physicalPage == e.physicalPage < NUM_PHYS_PAGES
      && !e.readOnly
      && (Pte(vm, vm.current.value, e.virtualPage).dirty ==> e.dirty)
  }

  ghost predicate TlbOk(vm: Vm) {
    && (forall i :: 0 <= i < |vm.tlb| ==> SlotOk(vm, vm.tlb[i]))
    && (forall i, j :: 0 <= i < j < |vm.tlb| && vm.tlb[i].valid && vm.tlb[j].valid ==>
          vm.tlb[i].virtualPage != vm.tlb[j].virtualPage)
  }

  ghost predicate DirtyInTlb(vm: Vm, id: SpaceId, v: nat) {
    vm.current == Some(id)
    && exists i :: 0 <= i < |vm.tlb| && vm.tlb[i].valid && vm.tlb[i].virtualPage == v && vm.tlb[i].dirty
  }

  /** A resident page that is clean in both tables equals the executable's page. */
  ghost predicate CleanOk(vm: Vm)
    requires Shape(vm) && TablesOk(vm)
  {
    forall id, v: nat {:trigger Pte(vm, id, v)} ::
      IsPage(vm, id, v) && Pte(vm, id, v).InMemory() && !Pte(vm, id, v).dirty && !DirtyInTlb(vm, id, v) ==>
        vm.frames[Pte(vm, id, v).physicalPage] == LoadedPage(vm.spaces[id].exe, v)
  }

  ghost predicate InvHole(vm: Vm, hole: nat) {
    Shape(vm) && TablesOk(vm) && Owners(vm, hole) && TlbOk(vm) && CleanOk(vm)
  }

  ghost predicate Inv(vm: Vm) { InvHole(vm, NUM_PHYS_PAGES) }

  // ------------------------------------------------------------------- memory

  /** The content of page `v` of process `id`, wherever it lives: its frame, or
      the swap file if it is dirty, or the executable. */
  function PageView(vm: Vm, id: SpaceId, v: nat): Page
    requires IsPage(vm, id, v) && (Pte(vm, id, v).InMemory() ==> Pte(vm, id, v).physicalPage < |vm.frames|)
  {
    var e := Pte(vm, id, v);
    if e.InMemory() then vm.frames[e.physicalPage]
    else if e.dirty then Block(vm.spaces[id].swap, PAGE_SIZE, v)
    else LoadedPage(vm.spaces[id].exe, v)
  }

  ghost predicate SameView(a: Vm, b: Vm, id: SpaceId, v: nat)
    requires Shape(a) && TablesOk(a) && Shape(b) && TablesOk(b) && IsPage(a, id, v)
  {
    assert SpaceOk(a.spaces[id]);
    IsPage(b, id, v) && (assert SpaceOk(b.spaces[id]); PageView(b, id, v) == PageView(a, id, v))
  }

  /** No process can tell `a` from `b`. */
  ghost predicate SameViews(a: Vm, b: Vm)
    requires Shape(a) && TablesOk(a) && Shape(b) && TablesOk(b)
  {
    && a.spaces.Keys == b.spaces.Keys
    && (forall id {:trigger b.spaces[id]} :: id in a.spaces ==> |a.spaces[id].pageTable| == |b.spaces[id].pageTable|)
    && (forall id, v: nat {:trigger SameView(a, b, id, v)} :: IsPage(a, id, v) ==> SameView(a, b, id, v))
  }

  lemma SameViewsTransitive(a: Vm, b: Vm, c: Vm)
    requires Shape(a) && TablesOk(a) && Shape(b) && TablesOk(b) && Shape(c) && TablesOk(c)
    requires SameViews(a, b) && SameViews(b, c)
    ensures SameViews(a, c)
  {
    forall id, v: nat {:trigger SameView(a, c, id, v)} | IsPage(a, id, v) ensures SameView(a, c, id, v) {
      assert SameView(a, b, id, v) && SameView(b, c, id, v);
    }
    forall id | id in a.spaces ensures |a.spaces[id].pageTable| == |c.spaces[id].pageTable| {
      assert |b.spaces[id].pageTable| == |a.spaces[id].pageTable|;
    }
  }

  // ---------------------------------------------------------- paging operations

  function SetEntry(vm: Vm, id: SpaceId, v: nat, e: Entry): Vm
    requires IsPage(vm, id, v)
  {
    vm.(spaces := vm.spaces[id := vm.spaces[id].(pageTable := vm.spaces[id].pageTable[v := e])])
  }

  /** Invalidate slot `i` and copy it, with its newer use and dirty bits, to the page table. */
  function WriteBack(vm: Vm, i: nat): Vm
    requires i < |vm.tlb| && vm.current.Some? && IsPage(vm, vm.current.value, vm.tlb[i].virtualPage)
  {
    var e := vm.tlb[i].(valid := false);
    SetEntry(vm.(tlb := vm.tlb[i := e]), vm.current.value, e.virtualPage, e)
  }

  lemma SetEntryTables(vm: Vm, id: SpaceId, v: nat, e: Entry)
    requires IsPage(vm, id, v)
    ensures var w := SetEntry(vm, id, v, e);
            && w.spaces.Keys == vm.spaces.Keys
            && (forall j, u: nat {:trigger IsPage(w, j, u)} :: IsPage(w, j, u) == IsPage(vm, j, u))
            && (forall j, u: nat {:trigger Pte(w, j, u)} :: IsPage(w, j, u) ==>
                  Pte(w, j, u) == if j == id && u == v then e else Pte(vm, j, u))
            && (forall j {:trigger w.spaces[j]} :: j in w.spaces ==>
                  w.spaces[j].exe == vm.spaces[j].exe && w.spaces[j].swap == vm.spaces[j].swap
                  && |w.spaces[j].pageTable| == |vm.spaces[j].pageTable|)
  {
  }

  lemma SetEntryTablesOk(vm: Vm, id: SpaceId, v: nat, e: Entry)
    requires TablesOk(vm) && IsPage(vm, id, v)
    requires e.virtualPage == v && !e.readOnly && (e.InMemory() ==> e.physicalPage < NUM_PHYS_PAGES)
    ensures TablesOk(SetEntry(vm, id, v, e))
  {
    assert SpaceOk(vm.spaces[id]);
  }

  /** Changing flag bits of one entry touches no ownership. */
  lemma SetEntryOwners(vm: Vm, id: SpaceId, v: nat, e: Entry, hole: nat)
    requires Shape(vm) && TablesOk(vm) && Owners(vm, hole) && IsPage(vm, id, v)
    requires Shape(SetEntry(vm, id, v, e)) && TablesOk(SetEntry(vm, id, v, e))
    requires e.physicalPage == Pte(vm, id, v).physicalPage
    ensures Owners(SetEntry(vm, id, v, e), hole)
  {
    var w := SetEntry(vm, id, v, e);
    SetEntryTables(vm, id, v, e);
    forall f | 0 <= f < NUM_PHYS_PAGES && f != hole && w.marked[f] ensures Owned(w, f) {
      assert Owned(vm, f);
    }
  }

  /** Ownership is a matter of page tables, bitmap and the core map's names. */
  lemma OwnersDepend(a: Vm, b: Vm, hole: nat)
    requires Shape(a) && TablesOk(a) && Shape(b) && TablesOk(b) && Owners(a, hole)
    requires a.spaces == b.spaces && a.marked == b.marked
    requires forall f :: 0 <= f < NUM_PHYS_PAGES ==>
      b.core[f].spaceId == a.core[f].spaceId && b.core[f].virtualPage == a.core[f].virtualPage
    ensures Owners(b, hole)
  {
    forall f | 0 <= f < NUM_PHYS_PAGES && f != hole && b.marked[f] ensures Owned(b, f) {
      assert Owned(a, f);
    }
    assert forall id, v: nat {:trigger Pte(b, id, v)} :: IsPage(b, id, v) ==> Pte(b, id, v) == Pte(a, id, v);
  }

  lemma WriteBackOwners(vm: Vm, i: nat, hole: nat)
    requires InvHole(vm, hole) && i < TLB_SIZE && vm.tlb[i].valid
    ensures var w := WriteBack(vm, i); Shape(w) && TablesOk(w) && Owners(w, hole)
  {
    var c, e := vm.current.value, vm.tlb[i].(valid := false);
    var vm1 := vm.(tlb := vm.tlb[i := e]);
    assert SlotOk(vm, vm.tlb[i]);
    OwnersDepend(vm, vm1, hole);
    SetEntryTablesOk(vm1, c, e.virtualPage, e);
    SetEntryOwners(vm1, c, e.virtualPage, e, hole);
  }

  lemma WriteBackTlb(vm: Vm, i: nat, hole: nat)
    requires InvHole(vm, hole) && i < TLB_SIZE && vm.tlb[i].valid
    ensures TlbOk(WriteBack(vm, i))
  {
    var w := WriteBack(vm, i);
    var e := vm.tlb[i].(valid := false);
    SetEntryTables(vm.(tlb := vm.tlb[i := e]), vm.current.value, e.virtualPage, e);
    forall j | 0 <= j < TLB_SIZE ensures SlotOk(w, w.tlb[j]) {
      assert SlotOk(vm, vm.tlb[j]);
    }
  }

  lemma WriteBackClean(vm: Vm, i: nat, hole: nat)
    requires InvHole(vm, hole) && i < TLB_SIZE && vm.tlb[i].valid
    requires var w := WriteBack(vm, i); Shape(w) && TablesOk(w)
    ensures CleanOk(WriteBack(vm, i))
  {
    var w := WriteBack(vm, i);
    var e := vm.tlb[i].(valid := false);
    assert SlotOk(vm, vm.tlb[i]);
    SetEntryTables(vm.(tlb := vm.tlb[i := e]), vm.current.value, e.virtualPage, e);
    forall id, v: nat {:trigger Pte(w, id, v)} |
      IsPage(w, id, v) && Pte(w, id, v).InMemory() && !Pte(w, id, v).dirty && !DirtyInTlb(w, id, v)
      ensures w.frames[Pte(w, id, v).physicalPage] == LoadedPage(w.spaces[id].exe, v)
    {
      assert IsPage(vm, id, v) && Pte(vm, id, v).InMemory() && !Pte(vm, id, v).dirty;
      assert forall k :: 0 <= k < |vm.tlb| ==> k == i || w.tlb[k] == vm.tlb[k];
    }
  }

  lemma WriteBackViews(vm: Vm, i: nat, hole: nat)
    requires InvHole(vm, hole) && i < TLB_SIZE && vm.tlb[i].valid
    requires var w := WriteBack(vm, i); Shape(w) && TablesOk(w)
    ensures SameViews(vm, WriteBack(vm, i))
  {
    var w := WriteBack(vm, i);
    var e := vm.tlb[i].(valid := false);
    assert SlotOk(vm, vm.tlb[i]);
    SetEntryTables(vm.(tlb := vm.tlb[i := e]), vm.current.value, e.virtualPage, e);
    forall id, v: nat | IsPage(vm, id, v) ensures SameView(vm, w, id, v) {
      assert IsPage(w, id, v) && Pte(w, id, v).physicalPage == Pte(vm, id, v).physicalPage;
    }
  }

  lemma WriteBackKeeps(vm: Vm, i: nat, hole: nat)
    requires InvHole(vm, hole) && i < TLB_SIZE && vm.tlb[i].valid
    ensures var w := WriteBack(vm, i); InvHole(w, hole) && SameViews(vm, w)
  {
    WriteBackOwners(vm, i, hole);
    WriteBackTlb(vm, i, hole);
    WriteBackClean(vm, i, hole);
    WriteBackViews(vm, i, hole);
  }

  predicate Selected(e: Entry, only: Option<nat>) { e.valid && (only.Some? ==> e.physicalPage == only.value) }

  /** Write back slot `i` if it is selected. */
  function FlushSlot(vm: Vm, i: nat, only: Option<nat>): (w: Vm)
    requires Inv(vm) && i < TLB_SIZE
    ensures Inv(w) && SameViews(vm, w)
  {
    if Selected(vm.tlb[i], only) then FlushOne(vm, i); WriteBack(vm, i) else SameViewsReflexive(vm); vm
  }

  /** Write back the selected slots below `n`: all of them on a context switch,
      those of one frame when it is evacuated. */
  function Flush(vm: Vm, n: nat, only: Option<nat>): (w: Vm)
    requires Inv(vm) && n <= TLB_SIZE
    ensures Inv(w) && SameViews(vm, w)
  {
    if n == 0 then
      SameViewsReflexive(vm);
      vm
    else
      var u := Flush(vm, n - 1, only);
      SameViewsTransitive(vm, u, FlushSlot(u, n - 1, only));
      FlushSlot(u, n - 1, only)
  }

  /** The slots below `n` are no longer selected, those above and the rest are as they were. */
  ghost predicate Flushed(vm: Vm, w: Vm, n: nat, only: Option<nat>) {
    && w == vm.(tlb := w.tlb, spaces := w.spaces) && |w.tlb| == |vm.tlb|
    && (forall i {:trigger w.tlb[i]} :: 0 <= i < |w.tlb| ==> if i < n then !Selected(w.tlb[i], only) else w.tlb[i] == vm.tlb[i])
  }

  lemma FlushedNone(vm: Vm, only: Option<nat>)
    ensures Flushed(vm, vm, 0, only)
  {
  }

  lemma FlushedSlot(vm: Vm, u: Vm, n: nat, only: Option<nat>)
    requires Inv(u) && n < TLB_SIZE && Flushed(vm, u, n, only)
    ensures Flushed(vm, FlushSlot(u, n, only), n + 1, only)
  {
    hide Owners, TablesOk, CleanOk;
    if Selected(u.tlb[n], only) { FlushOne(u, n); }
  }

  lemma {:induction false} FlushedAll(vm: Vm, n: nat, only: Option<nat>)
    requires Inv(vm) && n <= TLB_SIZE
    ensures Flushed(vm, Flush(vm, n, only), n, only)
  {
    hide Inv, SameViews, FlushSlot, Flushed;
    if n == 0 {
      FlushedNone(vm, only);
    } else {
      FlushedAll(vm, n - 1, only);
      FlushedSlot(vm, Flush(vm, n - 1, only), n - 1, only);
    }
  }

  lemma FlushNext(vm: Vm, n: nat, only: Option<nat>)
    requires Inv(vm) && n < TLB_SIZE
    ensures Inv(Flush(vm, n, only)) && |Flush(vm, n, only).tlb| == TLB_SIZE
    ensures var u := Flush(vm, n, only);
      && (Selected(u.tlb[n], only) ==> u.current.Some? && IsPage(u, u.current.value, u.tlb[n].virtualPage))
      && Flush(vm, n + 1, only) == if Selected(u.tlb[n], only) then WriteBack(u, n) else u
  {
    hide Owners, CleanOk, SameViews;
    var u := Flush(vm, n, only);
    if Selected(u.tlb[n], only) { FlushOne(u, n); }
  }

  lemma StillOwned(vm: Vm, n: nat, f: nat)
    requires Inv(vm) && n <= TLB_SIZE && f < NUM_PHYS_PAGES && vm.marked[f]
    ensures Owned(Flush(vm, n, Some(f)), f) && Flush(vm, n, Some(f)).core == vm.core
  {
    FlushedAll(vm, n, Some(f));
  }

  lemma SameViewsReflexive(vm: Vm)
    requires Inv(vm)
    ensures SameViews(vm, vm)
  {
    assert forall id, v: nat {:trigger SameView(vm, vm, id, v)} :: IsPage(vm, id, v) ==> SameView(vm, vm, id, v);
  }

  lemma FlushOne(u: Vm, i: nat)
    requires Inv(u) && i < TLB_SIZE && u.tlb[i].valid
    ensures u.current.Some? && IsPage(u, u.current.value, u.tlb[i].virtualPage)
    ensures Inv(WriteBack(u, i)) && SameViews(u, WriteBack(u, i))
  {
    assert SlotOk(u, u.tlb[i]);
    WriteBackKeeps(u, i, NUM_PHYS_PAGES);
  }

  /** The scan of `PickVictim` over `core`: the first least-used frame and its counter. */
  function Scan(core: seq<CoreEntry>): (r: (nat, nat))
    ensures core != [] ==> r.0 < |core|
    ensures r.1 <= UINT_MAX
    ensures forall j :: 0 <= j < |core| && core[j].lastUse <= UINT_MAX ==> r.1 <= core[j].lastUse
    ensures r.1 < UINT_MAX ==> r.0 < |core| && core[r.0].lastUse == r.1
    ensures r.1 == UINT_MAX ==> r.0 == 0
  {
    if core == [] then (0, UINT_MAX)
    else
      var k := |core| - 1;
      var (victim, min) := Scan(core[..k]);
      if core[k].lastUse < min then (k, core[k].lastUse) else (victim, min)
  }

  function ResetCounters(vm: Vm): Vm {
    if vm.references == UINT_MAX then
      vm.(references := 0,
          core := seq(|vm.core|, f requires 0 <= f < |vm.core| => vm.core[f].(lastUse := 0)))
    else vm
  }

  function PickVictim(vm: Vm): (Vm, nat) { (ResetCounters(vm), Scan(ResetCounters(vm).core).0) }

  lemma SameDirtyInTlb(a: Vm, b: Vm, id: SpaceId, v: nat)
    requires a.tlb == b.tlb && a.current == b.current
    ensures DirtyInTlb(a, id, v) == DirtyInTlb(b, id, v)
  {
  }

  /** Use counters and the run's record are no part of anyone's memory. */
  lemma CountersKeep(a: Vm, b: Vm)
    requires Inv(a) && Shape(b)
    requires a.(core := b.core, references := b.references, lookups := b.lookups, touched := b.touched) == b
    requires forall f :: 0 <= f < NUM_PHYS_PAGES ==>
      b.core[f].spaceId == a.core[f].spaceId && b.core[f].virtualPage == a.core[f].virtualPage
    ensures Inv(b) && SameViews(a, b)
  {
    OwnersDepend(a, b, NUM_PHYS_PAGES);
    forall i | 0 <= i < TLB_SIZE ensures SlotOk(b, b.tlb[i]) { assert SlotOk(a, a.tlb[i]); }
    forall id, v: nat {:trigger Pte(b, id, v)} |
      IsPage(b, id, v) && Pte(b, id, v).InMemory() && !Pte(b, id, v).dirty && !DirtyInTlb(b, id, v)
      ensures b.frames[Pte(b, id, v).physicalPage] == LoadedPage(b.spaces[id].exe, v)
    {
      SameDirtyInTlb(a, b, id, v);
      assert Pte(a, id, v) == Pte(b, id, v);
    }
    forall id, v: nat | IsPage(a, id, v) ensures SameView(a, b, id, v) {
      assert Pte(a, id, v) == Pte(b, id, v);
    }
  }

  // -------------------------------------------------------------------- eviction

  /** Write a dirty victim to its block of the swap file and take it off its page table. */
  function SwapOut(vm: Vm, f: nat): Vm
    requires Shape(vm) && f < NUM_PHYS_PAGES && Owned(vm, f)
  {
    var id, v := vm.core[f].spaceId, vm.core[f].virtualPage;
    var s, e := vm.spaces[id], Pte(vm, id, v);
    var swap := if e.dirty then WriteAt(s.swap, vm.frames[f], Base(PAGE_SIZE, v)) else s.swap;
    vm.(spaces := vm.spaces[id :=
      s.(swap := swap, pageTable := s.pageTable[v := e.(physicalPage := INT_MAX, valid := false)])])
  }

  ghost predicate NotInTlb(vm: Vm, f: nat) {
    forall i :: 0 <= i < |vm.tlb| && vm.tlb[i].valid ==> vm.tlb[i].physicalPage != f
  }

  lemma SwapOutTables(vm: Vm, f: nat)
    requires Shape(vm) && TablesOk(vm) && f < NUM_PHYS_PAGES && Owned(vm, f)
    ensures var w := SwapOut(vm, f); Shape(w) && TablesOk(w)
    ensures var w, id, v := SwapOut(vm, f), vm.core[f].spaceId, vm.core[f].virtualPage;
            && w.spaces.Keys == vm.spaces.Keys
            && (forall j, u: nat {:trigger IsPage(w, j, u)} :: IsPage(w, j, u) == IsPage(vm, j, u))
            && (forall j, u: nat {:trigger Pte(w, j, u)} :: IsPage(w, j, u) ==>
                  Pte(w, j, u) == if j == id && u == v then Pte(vm, id, v).(physicalPage := INT_MAX, valid := false)
                                  else Pte(vm, j, u))
            && (forall j {:trigger w.spaces[j]} :: j in w.spaces ==>
                  w.spaces[j].exe == vm.spaces[j].exe && |w.spaces[j].pageTable| == |vm.spaces[j].pageTable|)
  {
    assert SpaceOk(vm.spaces[vm.core[f].spaceId]);
  }

  lemma SwapOutOwners(vm: Vm, f: nat)
    requires Inv(vm) && f < NUM_PHYS_PAGES && vm.marked[f] && Owned(vm, f) && NotInTlb(vm, f)
    requires var w := SwapOut(vm, f); Shape(w) && TablesOk(w)
    ensures var w := SwapOut(vm, f); Owners(w, f) && TlbOk(w)
  {
    var w := SwapOut(vm, f);
    SwapOutTables(vm, f);
    forall g | 0 <= g < NUM_PHYS_PAGES && g != f && w.marked[g] ensures Owned(w, g) {
      assert Owned(vm, g);
    }
    forall i | 0 <= i < TLB_SIZE ensures SlotOk(w, w.tlb[i]) { assert SlotOk(vm, vm.tlb[i]); }
  }

  lemma SwapOutClean(vm: Vm, f: nat)
    requires Inv(vm) && f < NUM_PHYS_PAGES && vm.marked[f] && Owned(vm, f)
    requires var w := SwapOut(vm, f); Shape(w) && TablesOk(w)
    ensures CleanOk(SwapOut(vm, f))
  {
    var w := SwapOut(vm, f);
    SwapOutTables(vm, f);
    forall id, v: nat {:trigger Pte(w, id, v)} |
      IsPage(w, id, v) && Pte(w, id, v).InMemory() && !Pte(w, id, v).dirty && !DirtyInTlb(w, id, v)
      ensures w.frames[Pte(w, id, v).physicalPage] == LoadedPage(w.spaces[id].exe, v)
    {
      SameDirtyInTlb(vm, w, id, v);
      assert Pte(vm, id, v) == Pte(w, id, v);
    }
  }

  /** A frame that no TLB slot maps and that is clean in the page table holds the executable's page. */
  lemma UnmappedIsClean(vm: Vm, f: nat)
    requires Inv(vm) && f < NUM_PHYS_PAGES && Owned(vm, f) && NotInTlb(vm, f)
    ensures var id, v := vm.core[f].spaceId, vm.core[f].virtualPage;
            Pte(vm, id, v).dirty || vm.frames[f] == LoadedPage(vm.spaces[id].exe, v)
  {
    var id, v := vm.core[f].spaceId, vm.core[f].virtualPage;
    assert forall i :: 0 <= i < |vm.tlb| ==> SlotOk(vm, vm.tlb[i]);
    assert !DirtyInTlb(vm, id, v);
  }

  lemma SwapOutViews(vm: Vm, f: nat)
    requires Inv(vm) && f < NUM_PHYS_PAGES && vm.marked[f] && Owned(vm, f) && NotInTlb(vm, f)
    requires var w := SwapOut(vm, f); Shape(w) && TablesOk(w)
    ensures SameViews(vm, SwapOut(vm, f))
  {
    var w := SwapOut(vm, f);
    var id, v := vm.core[f].spaceId, vm.core[f].virtualPage;
    SwapOutTables(vm, f);
    UnmappedIsClean(vm, f);
    forall j, u: nat | IsPage(vm, j, u) ensures SameView(vm, w, j, u) {
      assert IsPage(w, j, u);
      if j == id { BlockWriteRead(vm.spaces[id].swap, PAGE_SIZE, vm.frames[f], v, u); }
    }
  }

  /** The victim's page, out of the TLB, goes to swap if it is dirty. */
  lemma SwapOutKeeps(vm: Vm, f: nat)
    requires Inv(vm) && f < NUM_PHYS_PAGES && vm.marked[f] && NotInTlb(vm, f)
    ensures Owned(vm, f) && InvHole(SwapOut(vm, f), f) && SameViews(vm, SwapOut(vm, f))
  {
    assert Owned(vm, f);
    SwapOutTables(vm, f);
    SwapOutOwners(vm, f);
    SwapOutClean(vm, f);
    SwapOutViews(vm, f);
  }

  /** The page that was in the frame is out of memory and its entry invalid; no other entry changes. */
  lemma SwappedOut(vm: Vm, f: nat)
    requires Inv(vm) && f < NUM_PHYS_PAGES && Owned(vm, f)
    ensures var w, id, v := SwapOut(vm, f), vm.core[f].spaceId, vm.core[f].virtualPage;
      && IsPage(w, id, v) && !Pte(w, id, v).InMemory() && !Pte(w, id, v).valid && Pte(w, id, v).dirty == Pte(vm, id, v).dirty
      && forall j, u: nat {:trigger Pte(w, j, u)} :: IsPage(vm, j, u) && (j != id || u != v) ==> IsPage(w, j, u) && Pte(w, j, u) == Pte(vm, j, u)
  {
    SwapOutTables(vm, f);
  }

  lemma FlushedOut(vm: Vm, w: Vm, f: nat)
    requires Inv(vm) && Inv(w) && Flushed(vm, w, TLB_SIZE, Some(f))
    ensures NotInTlb(w, f) && w.marked == vm.marked
  {
    hide Owners, TablesOk, CleanOk, TlbOk;
  }

  function EvacuatePage(vm: Vm): (r: (Vm, nat))
    requires Inv(vm) && (forall f :: 0 <= f < NUM_PHYS_PAGES ==> vm.marked[f])
    ensures r.1 < NUM_PHYS_PAGES && InvHole(r.0, r.1) && SameViews(vm, r.0)
  {
    hide Owners, TablesOk, CleanOk, TlbOk, SameViews, Flushed, NotInTlb;
    var (picked, victim) := PickVictim(vm);
    CountersKeep(vm, picked);
    var flushed := Flush(picked, TLB_SIZE, Some(victim));
    FlushedAll(picked, TLB_SIZE, Some(victim));
    FlushedOut(picked, flushed, victim);
    SwapOutKeeps(flushed, victim);
    var out := SwapOut(flushed, victim);
    SameViewsTransitive(vm, picked, flushed);
    SameViewsTransitive(vm, flushed, out);
    (out, victim)
  }

  lemma TakeClearKeeps(vm: Vm, f: nat)
    requires Inv(vm) && f < NUM_PHYS_PAGES && !vm.marked[f]
    ensures var w := vm.(marked := vm.marked[f := true]); InvHole(w, f) && SameViews(vm, w)
  {
    var w := vm.(marked := vm.marked[f := true]);
    assert forall id, v: nat {:trigger Pte(w, id, v)} :: IsPage(w, id, v) ==> Pte(w, id, v) == Pte(vm, id, v);
    forall g | 0 <= g < NUM_PHYS_PAGES && g != f && w.marked[g] ensures Owned(w, g) {
      assert Owned(vm, g);
    }
    forall i | 0 <= i < TLB_SIZE ensures SlotOk(w, w.tlb[i]) { assert SlotOk(vm, vm.tlb[i]); }
    forall id, v: nat {:trigger DirtyInTlb(w, id, v)} ensures DirtyInTlb(w, id, v) == DirtyInTlb(vm, id, v) {
      SameDirtyInTlb(vm, w, id, v);
    }
    forall id, v: nat | IsPage(vm, id, v) ensures SameView(vm, w, id, v) {}
  }

  /** A frame for a page that has none: a clear one, or a victim's. */
  function ObtainFrame(vm: Vm): (r: (Vm, nat))
    requires Inv(vm)
    ensures r.1 < NUM_PHYS_PAGES && InvHole(r.0, r.1) && SameViews(vm, r.0)
  {
    var f := FirstClear(vm.marked);
    if f < NUM_PHYS_PAGES then
      TakeClearKeeps(vm, f);
      (vm.(marked := vm.marked[f := true]), f)
    else EvacuatePage(vm)
  }

  // --------------------------------------------------------------------- loading

  function Bump(n: nat): nat { if n == UINT_MAX then 0 else n + 1 }

  /** Give frame `f` to page `v` of the current process and fill it. */
  function LoadPage(vm: Vm, v: nat, f: nat): Vm
    requires Shape(vm) && f < NUM_PHYS_PAGES && vm.current.Some? && IsPage(vm, vm.current.value, v)
  {
    var c := vm.current.value;
    var s, e := vm.spaces[c], Pte(vm, c, v);
    var page := if e.dirty then Block(s.swap, PAGE_SIZE, v) else LoadedPage(s.exe, v);
    var refs := Bump(vm.references);
    SetEntry(vm, c, v, e.(physicalPage := f))
      .(frames := vm.frames[f := page], core := vm.core[f := CoreEntry(c, v, refs)],
        references := refs, lookups := vm.lookups + 1, touched := vm.touched + [f])
  }

  ghost predicate CanLoad(vm: Vm, v: nat, f: nat) {
    && f < NUM_PHYS_PAGES && InvHole(vm, f)
    && vm.current.Some? && IsPage(vm, vm.current.value, v) && !Pte(vm, vm.current.value, v).InMemory()
  }

  lemma LoadTables(vm: Vm, v: nat, f: nat)
    requires CanLoad(vm, v, f)
    ensures var w, c := LoadPage(vm, v, f), vm.current.value;
            && Shape(w) && TablesOk(w) && w.spaces.Keys == vm.spaces.Keys
            && (forall j, u: nat {:trigger IsPage(w, j, u)} :: IsPage(w, j, u) == IsPage(vm, j, u))
            && (forall j, u: nat {:trigger Pte(w, j, u)} :: IsPage(w, j, u) ==>
                  Pte(w, j, u) == if j == c && u == v then Pte(vm, c, v).(physicalPage := f) else Pte(vm, j, u))
            && (forall j {:trigger w.spaces[j]} :: j in w.spaces ==>
                  w.spaces[j].exe == vm.spaces[j].exe && w.spaces[j].swap == vm.spaces[j].swap
                  && |w.spaces[j].pageTable| == |vm.spaces[j].pageTable|)
  {
    var c := vm.current.value;
    assert SpaceOk(vm.spaces[c]);
    SetEntryTables(vm, c, v, Pte(vm, c, v).(physicalPage := f));
    SetEntryTablesOk(vm, c, v, Pte(vm, c, v).(physicalPage := f));
  }

  lemma LoadOwners(vm: Vm, v: nat, f: nat)
    requires CanLoad(vm, v, f)
    requires Shape(LoadPage(vm, v, f)) && TablesOk(LoadPage(vm, v, f))
    ensures Owners(LoadPage(vm, v, f), NUM_PHYS_PAGES)
  {
    var w := LoadPage(vm, v, f);
    LoadTables(vm, v, f);
    forall g | 0 <= g < NUM_PHYS_PAGES && w.marked[g] ensures Owned(w, g) {
      if g != f { assert Owned(vm, g); }
    }
  }

  lemma LoadTlb(vm: Vm, v: nat, f: nat)
    requires CanLoad(vm, v, f)
    ensures TlbOk(LoadPage(vm, v, f))
  {
    var w := LoadPage(vm, v, f);
    LoadTables(vm, v, f);
    forall i | 0 <= i < TLB_SIZE ensures SlotOk(w, w.tlb[i]) { assert SlotOk(vm, vm.tlb[i]); }
  }

  lemma LoadClean(vm: Vm, v: nat, f: nat)
    requires CanLoad(vm, v, f)
    requires Shape(LoadPage(vm, v, f)) && TablesOk(LoadPage(vm, v, f))
    ensures CleanOk(LoadPage(vm, v, f))
  {
    var w, c := LoadPage(vm, v, f), vm.current.value;
    LoadTables(vm, v, f);
    forall id, u: nat {:trigger Pte(w, id, u)} |
      IsPage(w, id, u) && Pte(w, id, u).InMemory() && !Pte(w, id, u).dirty && !DirtyInTlb(w, id, u)
      ensures w.frames[Pte(w, id, u).physicalPage] == LoadedPage(w.spaces[id].exe, u)
    {
      if id != c || u != v {
        SameDirtyInTlb(vm, w, id, u);
        assert Pte(vm, id, u).physicalPage != f;
      }
    }
  }

  lemma LoadViews(vm: Vm, v: nat, f: nat)
    requires CanLoad(vm, v, f)
    requires Shape(LoadPage(vm, v, f)) && TablesOk(LoadPage(vm, v, f))
    ensures SameViews(vm, LoadPage(vm, v, f))
  {
    var w, c := LoadPage(vm, v, f), vm.current.value;
    LoadTables(vm, v, f);
    forall id, u: nat | IsPage(vm, id, u) ensures SameView(vm, w, id, u) {
      assert IsPage(w, id, u);
      if id != c || u != v { assert Pte(vm, id, u).InMemory() ==> Pte(vm, id, u).physicalPage != f; }
    }
  }

  lemma LoadKeeps(vm: Vm, v: nat, f: nat)
    requires CanLoad(vm, v, f)
    ensures var w := LoadPage(vm, v, f); Inv(w) && SameViews(vm, w)
  {
    LoadTables(vm, v, f);
    LoadOwners(vm, v, f);
    LoadTlb(vm, v, f);
    LoadClean(vm, v, f);
    LoadViews(vm, v, f);
  }

  // --------------------------------------------------------------- fault handler

  /** The TLB search: the first valid slot for page `v`, or the table size. */
  function Lookup(tlb: seq<Entry>, v: nat): (i: nat)
    ensures i <= |tlb|
    ensures i < |tlb| ==> tlb[i].valid && tlb[i].virtualPage == v
    ensures forall j :: 0 <= j < i ==> !(tlb[j].valid && tlb[j].virtualPage == v)
  {
    if tlb == [] || (tlb[0].valid && tlb[0].virtualPage == v) then 0 else
      var r := Lookup(tlb[1..], v);
      assert forall j :: 0 < j <= r && j < |tlb| ==> tlb[j] == tlb[1..][j - 1];
      1 + r
  }

  predicate Mapped(vm: Vm, v: nat) { Lookup(vm.tlb, v) < |vm.tlb| }

  /** Setting the valid bit of a page-table entry is invisible: the MMU only reads the TLB. */
  lemma FlagsKeep(vm: Vm, id: SpaceId, v: nat, e: Entry)
    requires Inv(vm) && IsPage(vm, id, v) && e == Pte(vm, id, v).(valid := true)
    ensures var w := SetEntry(vm, id, v, e); Inv(w) && SameViews(vm, w)
  {
    var w := SetEntry(vm, id, v, e);
    assert SpaceOk(vm.spaces[id]);
    SetEntryTables(vm, id, v, e);
    SetEntryTablesOk(vm, id, v, e);
    SetEntryOwners(vm, id, v, e, NUM_PHYS_PAGES);
    FlagsClean(vm, id, v, e);
    forall i | 0 <= i < TLB_SIZE ensures SlotOk(w, w.tlb[i]) { assert SlotOk(vm, vm.tlb[i]); }
    forall j, u: nat | IsPage(vm, j, u) ensures SameView(vm, w, j, u) {
      assert IsPage(w, j, u) && Pte(w, j, u).physicalPage == Pte(vm, j, u).physicalPage;
    }
  }

  lemma FlagsClean(vm: Vm, id: SpaceId, v: nat, e: Entry)
    requires Inv(vm) && IsPage(vm, id, v) && e == Pte(vm, id, v).(valid := true)
    requires var w := SetEntry(vm, id, v, e); Shape(w) && TablesOk(w)
    ensures CleanOk(SetEntry(vm, id, v, e))
  {
    var w := SetEntry(vm, id, v, e);
    SetEntryTables(vm, id, v, e);
    forall j, u: nat {:trigger Pte(w, j, u)} |
      IsPage(w, j, u) && Pte(w, j, u).InMemory() && !Pte(w, j, u).dirty && !DirtyInTlb(w, j, u)
      ensures w.frames[Pte(w, j, u).physicalPage] == LoadedPage(w.spaces[j].exe, u)
    {
      SameDirtyInTlb(vm, w, j, u);
      assert Pte(vm, j, u).InMemory() && !Pte(vm, j, u).dirty;
    }
  }

  /** Put the page-table entry of `v` into slot `slot`, which is free. */
  function FillSlot(vm: Vm, v: nat, slot: nat): Vm
    requires slot < |vm.tlb| && vm.current.Some? && IsPage(vm, vm.current.value, v)
  {
    var c := vm.current.value;
    vm.(tlb := vm.tlb[slot := Pte(vm, c, v)],
        spaces := vm.spaces[c := vm.spaces[c].(numFaults := vm.spaces[c].numFaults + 1)])
  }

  ghost predicate CanFill(vm: Vm, v: nat, slot: nat) {
    && Inv(vm) && slot < TLB_SIZE && !vm.tlb[slot].valid
    && vm.current.Some? && IsPage(vm, vm.current.value, v)
    && Pte(vm, vm.current.value, v).valid && Pte(vm, vm.current.value, v).InMemory()
    && (forall i :: 0 <= i < |vm.tlb| && vm.tlb[i].valid ==> vm.tlb[i].virtualPage != v)
  }

  lemma FillOwners(vm: Vm, v: nat, slot: nat)
    requires CanFill(vm, v, slot)
    ensures var w := FillSlot(vm, v, slot); Shape(w) && TablesOk(w) && Owners(w, NUM_PHYS_PAGES) && SameViews(vm, w)
  {
    var w, c := FillSlot(vm, v, slot), vm.current.value;
    assert SpaceOk(vm.spaces[c]);
    assert TablesOk(w);
    assert forall id, u: nat {:trigger Pte(w, id, u)} :: IsPage(w, id, u) ==> Pte(w, id, u) == Pte(vm, id, u);
    forall g | 0 <= g < NUM_PHYS_PAGES && w.marked[g] ensures Owned(w, g) { assert Owned(vm, g); }
    forall id, u: nat | IsPage(vm, id, u) ensures SameView(vm, w, id, u) {
      assert IsPage(w, id, u) && Pte(w, id, u) == Pte(vm, id, u);
    }
  }

  lemma FillTlb(vm: Vm, v: nat, slot: nat)
    requires CanFill(vm, v, slot)
    ensures TlbOk(FillSlot(vm, v, slot))
  {
    var w, c := FillSlot(vm, v, slot), vm.current.value;
    assert SpaceOk(vm.spaces[c]);
    assert forall u: nat {:trigger Pte(w, c, u)} :: IsPage(w, c, u) ==> Pte(w, c, u) == Pte(vm, c, u);
    forall i | 0 <= i < TLB_SIZE ensures SlotOk(w, w.tlb[i]) {
      assert i != slot ==> SlotOk(vm, vm.tlb[i]);
    }
  }

  lemma FillClean(vm: Vm, v: nat, slot: nat)
    requires CanFill(vm, v, slot)
    requires var w := FillSlot(vm, v, slot); Shape(w) && TablesOk(w)
    ensures CleanOk(FillSlot(vm, v, slot))
  {
    var w := FillSlot(vm, v, slot);
    forall id, u: nat {:trigger Pte(w, id, u)} |
      IsPage(w, id, u) && Pte(w, id, u).InMemory() && !Pte(w, id, u).dirty && !DirtyInTlb(w, id, u)
      ensures w.frames[Pte(w, id, u).physicalPage] == LoadedPage(w.spaces[id].exe, u)
    {
      assert IsPage(vm, id, u) && Pte(vm, id, u) == Pte(w, id, u);
      assert forall i :: 0 <= i < TLB_SIZE ==> i == slot || w.tlb[i] == vm.tlb[i];
      assert !DirtyInTlb(vm, id, u);
    }
  }

  /** Replace the slot the fault counter points at, saving its old content first. */
  function Install(vm: Vm, v: nat): (w: Vm)
    requires Inv(vm) && vm.current.Some? && IsPage(vm, vm.current.value, v) && !Mapped(vm, v)
    requires Pte(vm, vm.current.value, v).valid && Pte(vm, vm.current.value, v).InMemory()
    ensures Inv(w) && SameViews(vm, w) && Mapped(w, v)
    ensures w == vm.(tlb := w.tlb, spaces := w.spaces)
  {
    var slot := Offset(TLB_SIZE, vm.spaces[vm.current.value].numFaults);
    assert SlotOk(vm, vm.tlb[slot]);
    var u := if vm.tlb[slot].valid then WriteBack(vm, slot) else vm;
    InstallSaves(vm, v, slot);
    FillOwners(u, v, slot);
    FillTlb(u, v, slot);
    FillClean(u, v, slot);
    var w := FillSlot(u, v, slot);
    SameViewsTransitive(vm, u, w);
    assert w.tlb[slot].valid && w.tlb[slot].virtualPage == v by { assert SpaceOk(u.spaces[vm.current.value]); }
    w
  }

  lemma InstallSaves(vm: Vm, v: nat, slot: nat)
    requires Inv(vm) && vm.current.Some? && IsPage(vm, vm.current.value, v) && !Mapped(vm, v) && slot < TLB_SIZE
    requires Pte(vm, vm.current.value, v).valid && Pte(vm, vm.current.value, v).InMemory()
    ensures SlotOk(vm, vm.tlb[slot])
    ensures var u := if vm.tlb[slot].valid then WriteBack(vm, slot) else vm;
            CanFill(u, v, slot) && SameViews(vm, u) && u == vm.(tlb := u.tlb, spaces := u.spaces)
  {
    assert SlotOk(vm, vm.tlb[slot]);
    if vm.tlb[slot].valid {
      WriteBackKeeps(vm, slot, NUM_PHYS_PAGES);
    } else {
      forall id, u: nat | IsPage(vm, id, u) ensures SameView(vm, vm, id, u) {}
    }
  }

  /** `TLBPageFaultHandler` for a fault on page `v` of the current process. */
  function HandleFault(vm: Vm, v: nat): (w: Vm)
    requires Inv(vm) && vm.current.Some? && IsPage(vm, vm.current.value, v) && !Mapped(vm, v)
    ensures Inv(w) && SameViews(vm, w) && Mapped(w, v)
  {
    hide Owners, CleanOk, SameViews, ObtainFrame, LoadPage, Install, TablesOk, TlbOk;
    var c := vm.current.value;
    var e := Pte(vm, c, v).(valid := true);
    var vm1 := SetEntry(vm, c, v, e);
    FlagsKeep(vm, c, v, e);
    if e.InMemory() then
      var w := Install(vm1, v);
      SameViewsTransitive(vm, vm1, w);
      w
    else
      FaultLoads(vm1, v);
      var (vm2, f) := ObtainFrame(vm1);
      var vm3 := LoadPage(vm2, v, f);
      var w := Install(vm3, v);
      SameViewsTransitive(vm, vm1, vm3);
      SameViewsTransitive(vm, vm3, w);
      w
  }

  /** Installing a page leaves its page-table entry alone. */
  lemma InstallLeaves(vm: Vm, v: nat)
    requires Inv(vm) && vm.current.Some? && IsPage(vm, vm.current.value, v) && !Mapped(vm, v)
    requires Pte(vm, vm.current.value, v).valid && Pte(vm, vm.current.value, v).InMemory()
    ensures IsPage(Install(vm, v), vm.current.value, v) && Pte(Install(vm, v), vm.current.value, v) == Pte(vm, vm.current.value, v)
  {
    hide Owners, TlbOk, CleanOk, SameViews;
    var slot := Offset(TLB_SIZE, vm.spaces[vm.current.value].numFaults);
    InstallSaves(vm, v, slot);
    if vm.tlb[slot].valid { WriteBackLeaves(vm, slot, v); }
  }

  lemma InstallRotates(vm: Vm, v: nat)
    requires Inv(vm) && vm.current.Some? && IsPage(vm, vm.current.value, v) && !Mapped(vm, v)
    requires Pte(vm, vm.current.value, v).valid && Pte(vm, vm.current.value, v).InMemory()
    ensures var w, c := Install(vm, v), vm.current.value; var slot := Offset(TLB_SIZE, vm.spaces[c].numFaults);
      && c in w.spaces && w.spaces[c].numFaults == vm.spaces[c].numFaults + 1
      && w.tlb[slot] == Pte(vm, c, v)
      && forall i :: 0 <= i < TLB_SIZE && i != slot ==> w.tlb[i] == vm.tlb[i]
  {
    hide Owners, TlbOk, CleanOk, SameViews;
    var slot := Offset(TLB_SIZE, vm.spaces[vm.current.value].numFaults);
    InstallSaves(vm, v, slot);
    if vm.tlb[slot].valid { WriteBackLeaves(vm, slot, v); }
  }

  /** Faults of a process go round the slots of the TLB: the page goes to the slot that the
      number of faults points at, and the number goes up by one. */
  lemma FaultRotates(vm: Vm, v: nat)
    requires Inv(vm) && vm.current.Some? && IsPage(vm, vm.current.value, v) && !Mapped(vm, v)
    ensures var w, c := HandleFault(vm, v), vm.current.value; var slot := Offset(TLB_SIZE, vm.spaces[c].numFaults);
      && c in w.spaces && w.spaces[c].numFaults == vm.spaces[c].numFaults + 1
      && w.tlb[slot].valid && w.tlb[slot].virtualPage == v
  {
    hide Owners, TlbOk, CleanOk, SameViews, ObtainFrame, LoadPage, Install;
    var c := vm.current.value;
    var e := Pte(vm, c, v).(valid := true);
    var vm1 := SetEntry(vm, c, v, e);
    FlagsKeep(vm, c, v, e);
    assert SpaceOk(vm.spaces[c]);
    if e.InMemory() {
      InstallRotates(vm1, v);
    } else {
      FaultLoads(vm1, v);
      var (vm2, f) := ObtainFrame(vm1);
      ObtainLeaves(vm1, v);
      LoadedFaults(vm2, v, f);
      InstallRotates(LoadPage(vm2, v, f), v);
      assert SpaceOk(LoadPage(vm2, v, f).spaces[c]);
    }
  }

  lemma LoadedFaults(vm: Vm, v: nat, f: nat)
    requires Shape(vm) && f < NUM_PHYS_PAGES && vm.current.Some? && IsPage(vm, vm.current.value, v)
    ensures var w := LoadPage(vm, v, f); vm.current.value in w.spaces && w.spaces[vm.current.value].numFaults == vm.spaces[vm.current.value].numFaults
  {
  }

  lemma FaultLoads(vm: Vm, v: nat)
    requires Inv(vm) && vm.current.Some? && IsPage(vm, vm.current.value, v) && !Mapped(vm, v)
    requires Pte(vm, vm.current.value, v).valid && !Pte(vm, vm.current.value, v).InMemory()
    ensures var (vm2, f) := ObtainFrame(vm);
            && CanLoad(vm2, v, f)
            && var w := LoadPage(vm2, v, f);
            && Inv(w) && SameViews(vm, w) && w.current == vm.current && !Mapped(w, v)
            && IsPage(w, vm.current.value, v)
            && Pte(w, vm.current.value, v).valid && Pte(w, vm.current.value, v).InMemory()
  {
    var (vm2, f) := ObtainFrame(vm);
    ObtainLeaves(vm, v);
    LoadKeeps(vm2, v, f);
    LoadTables(vm2, v, f);
    SameViewsTransitive(vm, vm2, LoadPage(vm2, v, f));
  }

  /** Page `v` of the current process has the same entry in `w`, and no TLB slot in either. */
  ghost predicate LeftAlone(vm: Vm, w: Vm, v: nat) {
    && w.current == vm.current && vm.current.Some?
    && IsPage(vm, vm.current.value, v) && !Mapped(vm, v)
    && IsPage(w, vm.current.value, v) && !Mapped(w, v)
    && Pte(w, vm.current.value, v) == Pte(vm, vm.current.value, v)
    && w.spaces[vm.current.value].numFaults == vm.spaces[vm.current.value].numFaults
  }

  lemma WriteBackLeaves(vm: Vm, i: nat, v: nat)
    requires Inv(vm) && i < TLB_SIZE && vm.tlb[i].valid && LeftAlone(vm, vm, v)
    ensures SlotOk(vm, vm.tlb[i]) && LeftAlone(vm, WriteBack(vm, i), v)
  {
    assert SlotOk(vm, vm.tlb[i]);
  }

  lemma {:induction false} FlushLeaves(vm: Vm, n: nat, only: Option<nat>, v: nat)
    requires Inv(vm) && n <= TLB_SIZE && LeftAlone(vm, vm, v)
    ensures LeftAlone(vm, Flush(vm, n, only), v)
  {
    hide Inv, SameViews, FlushSlot;
    if n > 0 {
      FlushLeaves(vm, n - 1, only, v);
      FlushNext(vm, n - 1, only);
      var u := Flush(vm, n - 1, only);
      if Selected(u.tlb[n - 1], only) { WriteBackLeaves(u, n - 1, v); }
    }
  }

  lemma SwapOutLeaves(vm: Vm, f: nat, v: nat)
    requires Inv(vm) && f < NUM_PHYS_PAGES && Owned(vm, f) && LeftAlone(vm, vm, v)
    requires !Pte(vm, vm.current.value, v).InMemory()
    ensures LeftAlone(vm, SwapOut(vm, f), v)
  {
    SwapOutTables(vm, f);
  }

  lemma EvacuateLeaves(vm: Vm, v: nat)
    requires Inv(vm) && (forall f :: 0 <= f < NUM_PHYS_PAGES ==> vm.marked[f])
    requires LeftAlone(vm, vm, v) && !Pte(vm, vm.current.value, v).InMemory()
    ensures LeftAlone(vm, EvacuatePage(vm).0, v)
  {
    var (picked, victim) := PickVictim(vm);
    CountersKeep(vm, picked);
    FlushLeaves(picked, TLB_SIZE, Some(victim), v);
    var flushed := Flush(picked, TLB_SIZE, Some(victim));
    FlushedAll(picked, TLB_SIZE, Some(victim));
    assert Owned(flushed, victim);
    SwapOutLeaves(flushed, victim, v);
  }

  /** Finding a frame leaves the entry of a page that is out of memory alone, and maps nothing. */
  lemma ObtainLeaves(vm: Vm, v: nat)
    requires Inv(vm) && LeftAlone(vm, vm, v) && !Pte(vm, vm.current.value, v).InMemory()
    ensures LeftAlone(vm, ObtainFrame(vm).0, v)
  {
    if FirstClear(vm.marked) == NUM_PHYS_PAGES { EvacuateLeaves(vm, v); }
  }

  // ------------------------------------------------------------------------- MMU

  datatype Exception = NoException | PageFault | ReadOnlyError | BusError | AddressError

  predicate Misaligned(addr: nat, size: nat) { (size == 4 && addr % 4 != 0) || (size == 2 && addr % 2 != 0) }

  /** Count a TLB search and, when slot `i` hit, stamp its frame. */
  function CountSearch(vm: Vm, i: nat): Vm
    requires i <= |vm.tlb| && (i < |vm.tlb| ==> vm.tlb[i].physicalPage < |vm.core|)
  {
    var counted := vm.(references := Bump(vm.references), lookups := vm.lookups + 1);
    if i == |vm.tlb| then counted else
      var f := vm.tlb[i].physicalPage;
      counted.(core := vm.core[f := vm.core[f].(lastUse := counted.references)], touched := vm.touched + [f])
  }

  function SetBits(vm: Vm, i: nat, writing: bool): Vm
    requires i < |vm.tlb|
  {
    vm.(tlb := vm.tlb[i := vm.tlb[i].(use := true, dirty := vm.tlb[i].dirty || writing)])
  }

  lemma SetBitsKeeps(vm: Vm, i: nat, writing: bool)
    requires Inv(vm) && i < TLB_SIZE && vm.tlb[i].valid
    ensures var w := SetBits(vm, i, writing); Inv(w) && SameViews(vm, w)
  {
    var w := SetBits(vm, i, writing);
    OwnersDepend(vm, w, NUM_PHYS_PAGES);
    forall j | 0 <= j < TLB_SIZE ensures SlotOk(w, w.tlb[j]) { assert SlotOk(vm, vm.tlb[j]); }
    forall id, v: nat {:trigger Pte(w, id, v)} |
      IsPage(w, id, v) && Pte(w, id, v).InMemory() && !Pte(w, id, v).dirty && !DirtyInTlb(w, id, v)
      ensures w.frames[Pte(w, id, v).physicalPage] == LoadedPage(w.spaces[id].exe, v)
    {
      assert Pte(vm, id, v) == Pte(w, id, v);
      assert forall j :: 0 <= j < TLB_SIZE && vm.tlb[j].dirty ==> w.tlb[j].dirty;
      assert !DirtyInTlb(vm, id, v);
    }
    forall id, v: nat | IsPage(vm, id, v) ensures SameView(vm, w, id, v) {
      assert Pte(vm, id, v) == Pte(w, id, v);
    }
  }

  /** Translation of `addr`: the new state, the exception, and the slot that hit. */
  function Translate(vm: Vm, addr: nat, size: nat, writing: bool): (r: (Vm, Exception, nat))
    requires Inv(vm)
    ensures Inv(r.0) && SameViews(vm, r.0) && r.0.current == vm.current
    ensures r.1 in {NoException, PageFault, AddressError}
    ensures r.1 == AddressError <==> Misaligned(addr, size)
    ensures r.1 == NoException <==> !Misaligned(addr, size) && Mapped(vm, Index(PAGE_SIZE, addr))
    ensures r.1 == NoException ==>
      r.2 < TLB_SIZE && r.0.tlb[r.2].valid && r.0.tlb[r.2].virtualPage == Index(PAGE_SIZE, addr)
      && (writing ==> r.0.tlb[r.2].dirty)
    ensures r.1 == PageFault ==> !Mapped(r.0, Index(PAGE_SIZE, addr))
  {
    if Misaligned(addr, size) then
      assert forall id, v: nat {:trigger SameView(vm, vm, id, v)} :: IsPage(vm, id, v) ==> SameView(vm, vm, id, v);
      (vm, AddressError, 0)
    else
      var i := Lookup(vm.tlb, Index(PAGE_SIZE, addr));
      assert i < |vm.tlb| ==> SlotOk(vm, vm.tlb[i]);
      var counted := CountSearch(vm, i);
      CountersKeep(vm, counted);
      if i == |vm.tlb| then (counted, PageFault, i)
      else if vm.tlb[i].readOnly && writing then (counted, ReadOnlyError, i)
      else if vm.tlb[i].physicalPage >= NUM_PHYS_PAGES then (counted, BusError, i)
      else
        SetBitsKeeps(counted, i, writing);
        SameViewsTransitive(vm, counted, SetBits(counted, i, writing));
        (SetBits(counted, i, writing), NoException, i)
  }

  /** A translation that succeeds marks its slot as used, and as dirty if it is for a write, and
      touches no other slot; one that fails touches none. */
  lemma TranslateBits(vm: Vm, addr: nat, size: nat, writing: bool)
    requires Inv(vm)
    ensures var (t, e, i) := Translate(vm, addr, size, writing);
      && |t.tlb| == TLB_SIZE
      && (e == NoException ==> t.tlb[i] == vm.tlb[i].(use := true, dirty := vm.tlb[i].dirty || writing))
      && forall j :: 0 <= j < TLB_SIZE && (e != NoException || j != i) ==> t.tlb[j] == vm.tlb[j]
  {
  }
}
