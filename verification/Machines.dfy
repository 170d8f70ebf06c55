/** The paging code as the kernel runs it: arrays and loops, each method proved
    against its function in `Paging` or `ProcessMemory`. */
module Machines {
  import opened Bitmaps
  import opened Blocks
  import opened Bytes
  import opened Executables
  import opened Options
  import opened Paging
  import M = ProcessMemory

  /** Main memory cut into frames. */
  ghost function FramesOf(memory: seq<Byte>): (frames: seq<Page>)
    requires |memory| == Base(PAGE_SIZE, NUM_PHYS_PAGES)
    ensures |frames| == NUM_PHYS_PAGES
    ensures forall f :: 0 <= f < NUM_PHYS_PAGES ==> |frames[f]| == PAGE_SIZE
  {
    seq(NUM_PHYS_PAGES, f requires 0 <= f < NUM_PHYS_PAGES => FrameOf(memory, f))
  }

  ghost function FrameOf(memory: seq<Byte>, f: nat): (frame: Page)
    requires |memory| == Base(PAGE_SIZE, NUM_PHYS_PAGES) && f < NUM_PHYS_PAGES
    ensures |frame| == PAGE_SIZE
  {
    Apart(PAGE_SIZE, f, NUM_PHYS_PAGES);
    var base := Base(PAGE_SIZE, f);
    seq(PAGE_SIZE, o requires 0 <= o < PAGE_SIZE => memory[base + o])
  }

  lemma SpliceSameFrame(memory: seq<Byte>, f: nat, off: nat, d: seq<Byte>)
    requires |memory| == Base(PAGE_SIZE, NUM_PHYS_PAGES) && f < NUM_PHYS_PAGES
    requires off + |d| <= PAGE_SIZE && Base(PAGE_SIZE, f) + off + |d| <= |memory|
    ensures FrameOf(Splice(memory, Base(PAGE_SIZE, f) + off, d), f) == Splice(FrameOf(memory, f), off, d)
  {
    Apart(PAGE_SIZE, f, NUM_PHYS_PAGES);
    var a, b := FrameOf(Splice(memory, Base(PAGE_SIZE, f) + off, d), f), Splice(FrameOf(memory, f), off, d);
    assert forall o :: 0 <= o < PAGE_SIZE ==> a[o] == b[o];
  }

  lemma SpliceOtherFrame(memory: seq<Byte>, f: nat, off: nat, d: seq<Byte>, g: nat)
    requires |memory| == Base(PAGE_SIZE, NUM_PHYS_PAGES) && f < NUM_PHYS_PAGES && g < NUM_PHYS_PAGES && f != g
    requires off + |d| <= PAGE_SIZE && Base(PAGE_SIZE, f) + off + |d| <= |memory|
    ensures FrameOf(Splice(memory, Base(PAGE_SIZE, f) + off, d), g) == FrameOf(memory, g)
  {
    Apart(PAGE_SIZE, g, NUM_PHYS_PAGES);
    if f < g { Apart(PAGE_SIZE, f, g); } else { Apart(PAGE_SIZE, g, f); }
    var a, b := FrameOf(Splice(memory, Base(PAGE_SIZE, f) + off, d), g), FrameOf(memory, g);
    assert forall o :: 0 <= o < PAGE_SIZE ==> a[o] == b[o];
  }

  /** Writing inside one frame's stretch of memory changes that frame only. */
  lemma FrameSplice(memory: seq<Byte>, f: nat, off: nat, d: seq<Byte>)
    requires |memory| == Base(PAGE_SIZE, NUM_PHYS_PAGES) && f < NUM_PHYS_PAGES && off + |d| <= PAGE_SIZE
    ensures Base(PAGE_SIZE, f) + off + |d| <= |memory|
    ensures FramesOf(Splice(memory, Base(PAGE_SIZE, f) + off, d)) ==
            FramesOf(memory)[f := Splice(FramesOf(memory)[f], off, d)]
  {
    Apart(PAGE_SIZE, f, NUM_PHYS_PAGES);
    var after := Splice(memory, Base(PAGE_SIZE, f) + off, d);
    forall g: nat | g < NUM_PHYS_PAGES
      ensures FrameOf(after, g) == if g == f then Splice(FrameOf(memory, f), off, d) else FrameOf(memory, g)
    {
      if g == f { SpliceSameFrame(memory, f, off, d); } else { SpliceOtherFrame(memory, f, off, d, g); }
    }
  }

  class Machine {
    const mainMemory: array<Byte>
    const tlb: array<Entry>
    const coreMap: array<CoreEntry>
    const addressesBitMap: Bitmap
    var runningProcesses: map<SpaceId, Space>
    var currentSpace: Option<SpaceId>
    var referencesDone: nat
    ghost var lookups: nat
    ghost var touched: seq<nat>

    ghost predicate Wired() {
      && mainMemory.Length == Base(PAGE_SIZE, NUM_PHYS_PAGES)
      && tlb.Length == TLB_SIZE && coreMap.Length == NUM_PHYS_PAGES
      && addressesBitMap.Valid() && addressesBitMap.numBits == NUM_PHYS_PAGES
    }

    ghost function Store(): set<object> { {this, mainMemory, tlb, coreMap, addressesBitMap.words} }

    /** The state as a value. */
    ghost function State(): Vm
      requires Wired()
      reads Store()
    {
      Vm(FramesOf(mainMemory[..]), tlb[..], addressesBitMap.Bits(), coreMap[..],
         runningProcesses, currentSpace, referencesDone, lookups, touched)
    }

    ghost predicate Valid()
      reads Store()
    {
      Wired() && Inv(State())
    }

    /** Boot: clear memory, an empty TLB, no frame in use, no process. */
    constructor ()
      ensures Valid() && M.Boot(State()) && fresh(Store())
    {
      mainMemory := new Byte[Base(PAGE_SIZE, NUM_PHYS_PAGES)](_ => 0);
      tlb := new Entry[TLB_SIZE](_ => Entry(0, 0, false, false, false, false));
      coreMap := new CoreEntry[NUM_PHYS_PAGES](_ => CoreEntry(0, 0, 0));
      addressesBitMap := new Bitmap(NUM_PHYS_PAGES);
      runningProcesses, currentSpace, referencesDone := map[], None, 0;
      lookups, touched := 0, [];
      new;
      M.BootIsOk(State());
    }

    // ----------------------------------------------------------------- main memory

    method CopyIn(address: nat, d: seq<Byte>)
      requires address + |d| <= mainMemory.Length
      modifies mainMemory
      ensures mainMemory[..] == Splice(old(mainMemory[..]), address, d)
    {
      for i := 0 to |d|
        invariant forall j :: 0 <= j < mainMemory.Length ==>
          mainMemory[j] == if address <= j < address + i then d[j - address] else old(mainMemory[j])
      {
        mainMemory[address + i] := d[i];
      }
    }

    ghost function Frames(): seq<Page>
      requires Wired()
      reads mainMemory
    {
      FramesOf(mainMemory[..])
    }

    /** `memcpy` into a frame, at its physical address. */
    method CopyToFrame(f: nat, off: nat, d: seq<Byte>)
      requires Wired() && f < NUM_PHYS_PAGES && off + |d| <= PAGE_SIZE
      modifies mainMemory
      ensures Frames() == old(Frames())[f := Splice(old(Frames())[f], off, d)]
    {
      FrameSplice(mainMemory[..], f, off, d);
      CopyIn(Base(PAGE_SIZE, f) + off, d);
    }

    method LoadFromSwap(f: nat, swap: seq<Byte>, vpn: nat)
      requires Wired() && f < NUM_PHYS_PAGES
      requires Frames()[f] == Zeros(PAGE_SIZE)
      modifies mainMemory
      ensures Frames() == old(Frames())[f := Block(swap, PAGE_SIZE, vpn)]
    {
      var d := ReadAt(swap, PAGE_SIZE, Base(PAGE_SIZE, vpn));
      CopyToFrame(f, 0, d);
      assert Frames()[f] == Block(swap, PAGE_SIZE, vpn);
    }

    method LoadFromExecutable(f: nat, exe: Executable, vpn: nat)
      requires Wired() && f < NUM_PHYS_PAGES
      requires Frames()[f] == Zeros(PAGE_SIZE)
      modifies mainMemory
      ensures Frames() == old(Frames())[f := LoadedPage(exe, vpn)]
    {
      var vpnAddressToRead := Base(PAGE_SIZE, vpn);
      var read := LoadCode(f, exe, vpnAddressToRead);
      LoadData(f, exe, vpnAddressToRead, read);
    }

    method LoadCode(f: nat, exe: Executable, base: nat) returns (read: nat)
      requires Wired() && f < NUM_PHYS_PAGES
      requires Frames()[f] == Zeros(PAGE_SIZE)
      modifies mainMemory
      ensures read == CodeRead(exe, base)
      ensures Frames() == old(Frames())[f := Overlay(Zeros(PAGE_SIZE), 0, CodeBytes(exe, base))]
    {
      read := CodeRead(exe, base);
      if read > 0 {
        CopyToFrame(f, 0, ReadAt(exe.file, PAGE_SIZE, exe.codeInFile + base));
      }
      assert Frames()[f] == Overlay(Zeros(PAGE_SIZE), 0, CodeBytes(exe, base));
    }

    method LoadData(f: nat, exe: Executable, base: nat, read: nat)
      requires Wired() && f < NUM_PHYS_PAGES && read == CodeRead(exe, base)
      modifies mainMemory
      ensures Frames() == old(Frames())[f := Overlay(old(Frames())[f], read, DataBytes(exe, base))]
    {
      var toRead := DataRead(exe, base);
      if toRead > 0 {
        CopyToFrame(f, read, ReadAt(exe.file, toRead, exe.dataInFile + DataOffset(exe, base)));
      }
      assert Frames()[f] == Overlay(old(Frames())[f], read, DataBytes(exe, base));
    }

    /** `LoadPage`: build the page in frame `physicalPage` and enter it in the core map. */
    method LoadPage(c: SpaceId, vpn: nat, physicalPage: nat)
      requires Wired() && c in runningProcesses && vpn < |runningProcesses[c].pageTable|
      requires physicalPage < NUM_PHYS_PAGES
      modifies mainMemory, coreMap
      ensures var s := runningProcesses[c];
              Frames() == old(Frames())[physicalPage :=
                if s.pageTable[vpn].dirty then Block(s.swap, PAGE_SIZE, vpn) else LoadedPage(s.exe, vpn)]
      ensures coreMap[..] == old(coreMap[..])[physicalPage := CoreEntry(c, vpn, old(coreMap[physicalPage].lastUse))]
    {
      var s := runningProcesses[c];
      CopyToFrame(physicalPage, 0, Zeros(PAGE_SIZE));
      assert Frames()[physicalPage] == Zeros(PAGE_SIZE);
      if s.pageTable[vpn].dirty {
        LoadFromSwap(physicalPage, s.swap, vpn);
      } else {
        LoadFromExecutable(physicalPage, s.exe, vpn);
      }
      coreMap[physicalPage] := coreMap[physicalPage].(spaceId := c, virtualPage := vpn);
    }

    // ------------------------------------------------------------ choosing a victim

    method ResetWhenFull()
      requires Wired()
      modifies `referencesDone, coreMap
      ensures State() == ResetCounters(old(State()))
    {
      if referencesDone == UINT_MAX {
        referencesDone := 0;
        for i := 0 to NUM_PHYS_PAGES
          invariant referencesDone == 0
          invariant forall j :: 0 <= j < NUM_PHYS_PAGES ==>
            coreMap[j] == if j < i then old(coreMap[j]).(lastUse := 0) else old(coreMap[j])
        {
          coreMap[i] := coreMap[i].(lastUse := 0);
        }
        assert coreMap[..] == ResetCounters(old(State())).core;
      }
    }

    method PickVictim() returns (victim: nat)
      requires Wired()
      modifies `referencesDone, coreMap
      ensures (State(), victim) == Paging.PickVictim(old(State()))
    {
      ResetWhenFull();
      victim := 0;
      var min := UINT_MAX;
      for i := 0 to NUM_PHYS_PAGES
        invariant (victim, min) == Scan(coreMap[..i])
      {
        assert coreMap[..i + 1][..i] == coreMap[..i];
        if coreMap[i].lastUse < min {
          min, victim := coreMap[i].lastUse, i;
        }
      }
      assert coreMap[..NUM_PHYS_PAGES] == coreMap[..];
    }

    method SetEntry(id: SpaceId, v: nat, e: Entry)
      requires Wired() && IsPage(State(), id, v)
      modifies `runningProcesses
      ensures State() == Paging.SetEntry(old(State()), id, v, e)
    {
      var s := runningProcesses[id];
      runningProcesses := runningProcesses[id := s.(pageTable := s.pageTable[v := e])];
    }

    /** Invalidate a slot and copy it to page `v` of `id`, which the caller's tables name. */
    method SaveSlot(i: nat, id: SpaceId, v: nat)
      requires Valid() && i < TLB_SIZE && tlb[i].valid
      requires currentSpace == Some(id) && v == tlb[i].virtualPage
      modifies tlb, `runningProcesses
      ensures Valid() && State() == WriteBack(old(State()), i)
    {
      assert SlotOk(State(), State().tlb[i]);
      WriteBackKeeps(State(), i, NUM_PHYS_PAGES);
      tlb[i] := tlb[i].(valid := false);
      SetEntry(id, v, tlb[i]);
    }

    /** Save slot `i`, if valid, to the page the core map names for its frame. */
    method SaveValidSlot(i: nat)
      requires Valid() && i < TLB_SIZE && currentSpace.Some?
      modifies tlb, `runningProcesses
      ensures Valid()
      ensures State() == if Selected(old(tlb[i]), None) then WriteBack(old(State()), i) else old(State())
    {
      if tlb[i].valid {
        var physicalPageToSave := tlb[i].physicalPage;
        assert SlotOk(State(), State().tlb[i]);
        SaveSlot(i, currentSpace.value, coreMap[physicalPageToSave].virtualPage);
      }
    }

    /** `SaveState`: write every valid slot back. */
    method SaveState()
      requires Valid() && currentSpace.Some?
      modifies tlb, `runningProcesses
      ensures Valid() && State() == Flush(old(State()), TLB_SIZE, None)
    {
      hide Inv, SameViews, FlushSlot;
      for i := 0 to TLB_SIZE
        invariant Valid() && State() == Flush(old(State()), i, None)
      {
        FlushNext(old(State()), i, None);
        SaveValidSlot(i);
      }
    }

    /** Save slot `i` if it maps frame `f`. */
    method SaveSlotOfFrame(i: nat, f: nat, id: SpaceId, v: nat)
      requires Valid() && i < TLB_SIZE && f < NUM_PHYS_PAGES
      requires Owned(State(), f) && id == coreMap[f].spaceId && v == coreMap[f].virtualPage
      modifies tlb, `runningProcesses
      ensures Valid()
      ensures State() == if Selected(old(tlb[i]), Some(f)) then WriteBack(old(State()), i) else old(State())
    {
      if tlb[i].physicalPage == f && tlb[i].valid {
        assert SlotOk(State(), State().tlb[i]);
        SaveSlot(i, id, v);
      }
    }

    /** Save the bits of frame `f`'s page if the TLB maps it. */
    method FlushFrame(f: nat, id: SpaceId, v: nat)
      requires Valid() && f < NUM_PHYS_PAGES && State().marked[f]
      requires id == coreMap[f].spaceId && v == coreMap[f].virtualPage
      modifies tlb, `runningProcesses
      ensures Valid() && State() == Flush(old(State()), TLB_SIZE, Some(f))
    {
      hide Inv, SameViews, FlushSlot;
      ghost var vm := State();
      for i := 0 to TLB_SIZE
        invariant Valid() && State() == Flush(vm, i, Some(f))
      {
        FlushNext(vm, i, Some(f));
        StillOwned(vm, i, f);
        SaveSlotOfFrame(i, f, id, v);
      }
    }

    method SwapOutFrame(f: nat, id: SpaceId, v: nat)
      requires Wired() && f < NUM_PHYS_PAGES && Owned(State(), f) && id == coreMap[f].spaceId && v == coreMap[f].virtualPage
      requires Shape(State())
      modifies `runningProcesses
      ensures State() == SwapOut(old(State()), f)
    {
      var s := runningProcesses[id];
      var entry := s.pageTable[v];
      var swap := s.swap;
      if entry.dirty {
        var page := ReadFrame(f);
        swap := WriteAt(swap, page, Base(PAGE_SIZE, v));
      }
      runningProcesses := runningProcesses[id :=
        s.(swap := swap, pageTable := s.pageTable[v := entry.(physicalPage := INT_MAX, valid := false)])];
    }

    method EvacuatePage() returns (victim: nat)
      requires Valid() && (forall f :: 0 <= f < NUM_PHYS_PAGES ==> State().marked[f])
      modifies this, tlb, coreMap
      ensures (State(), victim) == Paging.EvacuatePage(old(State()))
    {
      victim := PickVictim();
      CountersKeep(old(State()), State());
      var victimSpace, victimPage := coreMap[victim].spaceId, coreMap[victim].virtualPage;
      assert Owned(State(), victim);
      if victimSpace in runningProcesses {
        FlushFrame(victim, victimSpace, victimPage);
        assert Owned(State(), victim);
        SwapOutFrame(victim, victimSpace, victimPage);
      }
    }

    method ReadFrame(f: nat) returns (page: Page)
      requires Wired() && f < NUM_PHYS_PAGES
      ensures page == Frames()[f]
    {
      Apart(PAGE_SIZE, f, NUM_PHYS_PAGES);
      page := mainMemory[Base(PAGE_SIZE, f)..Base(PAGE_SIZE, f) + PAGE_SIZE];
      assert forall o :: 0 <= o < PAGE_SIZE ==> page[o] == FrameOf(mainMemory[..], f)[o];
    }

    // --------------------------------------------------------------- fault handler

    method ObtainFrame() returns (frame: nat)
      requires Valid()
      modifies this, tlb, coreMap, addressesBitMap.words
      ensures (State(), frame) == Paging.ObtainFrame(old(State()))
    {
      var possibleFrame := addressesBitMap.Find();
      if possibleFrame == -1 {
        assert State() == old(State());
        frame := EvacuatePage();
      } else {
        frame := possibleFrame;
      }
    }

    /** Give page `vpn` the frame, stamp it and load it. */
    method Load(vpn: nat, frame: nat)
      requires Wired() && Shape(State()) && frame < NUM_PHYS_PAGES
      requires currentSpace.Some? && IsPage(State(), currentSpace.value, vpn)
      modifies this, mainMemory, coreMap
      ensures State() == Paging.LoadPage(old(State()), vpn, frame)
    {
      var c := currentSpace.value;
      SetEntry(c, vpn, runningProcesses[c].pageTable[vpn].(physicalPage := frame));
      referencesDone := Bump(referencesDone);
      lookups, touched := lookups + 1, touched + [frame];
      coreMap[frame] := coreMap[frame].(lastUse := referencesDone);
      LoadPage(c, vpn, frame);
    }

    method FillSlot(vpn: nat, slot: nat)
      requires Wired() && slot < TLB_SIZE && currentSpace.Some? && IsPage(State(), currentSpace.value, vpn)
      modifies tlb, `runningProcesses
      ensures State() == Paging.FillSlot(old(State()), vpn, slot)
    {
      var c := currentSpace.value;
      tlb[slot] := runningProcesses[c].pageTable[vpn];
      runningProcesses := runningProcesses[c := runningProcesses[c].(numFaults := runningProcesses[c].numFaults + 1)];
    }

    /** Free a slot for another page of the same process. */
    method FreeSlot(slot: nat)
      requires Valid() && slot < TLB_SIZE && currentSpace.Some? && SlotOk(State(), tlb[slot])
      modifies tlb, `runningProcesses
      ensures State() == if old(tlb[slot]).valid then WriteBack(old(State()), slot) else old(State())
    {
      if tlb[slot].valid {
        SaveSlot(slot, currentSpace.value, tlb[slot].virtualPage);
      }
    }

    method Install(vpn: nat)
      requires Valid() && currentSpace.Some? && IsPage(State(), currentSpace.value, vpn) && !Mapped(State(), vpn)
      requires Pte(State(), currentSpace.value, vpn).valid && Pte(State(), currentSpace.value, vpn).InMemory()
      modifies tlb, `runningProcesses
      ensures State() == Paging.Install(old(State()), vpn)
      ensures Valid()
    {
      var tlbEntry := Offset(TLB_SIZE, runningProcesses[currentSpace.value].numFaults);
      InstallSaves(State(), vpn, tlbEntry);
      FreeSlot(tlbEntry);
      FillSlot(vpn, tlbEntry);
    }

    /** A page fault at address `vpnAddress`. */
    method TLBPageFaultHandler(vpnAddress: nat)
      requires Valid() && currentSpace.Some? && IsPage(State(), currentSpace.value, Index(PAGE_SIZE, vpnAddress))
      requires !Mapped(State(), Index(PAGE_SIZE, vpnAddress))
      modifies Store()
      ensures Valid() && State() == HandleFault(old(State()), Index(PAGE_SIZE, vpnAddress))
    {
      var vpn := Index(PAGE_SIZE, vpnAddress);
      var c := currentSpace.value;
      var e := runningProcesses[c].pageTable[vpn].(valid := true);
      FlagsKeep(State(), c, vpn, e);
      SetEntry(c, vpn, e);
      if !e.InMemory() {
        FaultLoads(State(), vpn);
        var frame := ObtainFrame();
        Load(vpn, frame);
      }
      Install(vpn);
    }

    // ------------------------------------------------------------------------- MMU

    method RetrievePageEntry(vpn: nat) returns (i: nat)
      requires Valid()
      modifies `referencesDone, `lookups, `touched, coreMap
      ensures i == Lookup(old(State()).tlb, vpn)
      ensures i < TLB_SIZE ==> SlotOk(old(State()), old(tlb[i]))
      ensures State() == CountSearch(old(State()), i)
    {
      referencesDone := Bump(referencesDone);
      lookups := lookups + 1;
      i := 0;
      while i < TLB_SIZE && !(tlb[i].valid && tlb[i].virtualPage == vpn)
        invariant i <= TLB_SIZE
        invariant forall j :: 0 <= j < i ==> !(tlb[j].valid && tlb[j].virtualPage == vpn)
      {
        i := i + 1;
      }
      FirstHit(tlb[..], vpn, i);
      if i < TLB_SIZE {
        assert SlotOk(old(State()), old(State()).tlb[i]);
        var f := tlb[i].physicalPage;
        coreMap[f] := coreMap[f].(lastUse := referencesDone);
        touched := touched + [f];
      }
    }

    static lemma FirstHit(entries: seq<Entry>, vpn: nat, i: nat)
      requires i <= |entries|
      requires forall j :: 0 <= j < i ==> !(entries[j].valid && entries[j].virtualPage == vpn)
      requires i < |entries| ==> entries[i].valid && entries[i].virtualPage == vpn
      ensures i == Lookup(entries, vpn)
    {
    }

    method Translate(virtAddr: nat, size: nat, writing: bool) returns (e: Exception, physAddr: nat, ghost slot: nat)
      requires Valid()
      modifies `referencesDone, `lookups, `touched, coreMap, tlb
      ensures (State(), e, slot) == Paging.Translate(old(State()), virtAddr, size, writing)
      ensures Valid()
      ensures e == NoException ==>
        physAddr == Base(PAGE_SIZE, tlb[slot].physicalPage) + Offset(PAGE_SIZE, virtAddr)
    {
      physAddr, slot := 0, 0;
      if Misaligned(virtAddr, size) {
        return AddressError, 0, 0;
      }
      var i := RetrievePageEntry(Index(PAGE_SIZE, virtAddr));
      slot := i;
      if i == TLB_SIZE {
        e := PageFault;
      } else if tlb[i].readOnly && writing {
        e := ReadOnlyError;
      } else if tlb[i].physicalPage >= NUM_PHYS_PAGES {
        e := BusError;
      } else {
        tlb[i] := tlb[i].(use := true, dirty := tlb[i].dirty || writing);
        e := NoException;
        physAddr := Base(PAGE_SIZE, tlb[i].physicalPage) + Offset(PAGE_SIZE, virtAddr);
      }
    }

    static lemma BytesInFrame(memory: seq<Byte>, f: nat, off: nat, size: nat)
      requires |memory| == Base(PAGE_SIZE, NUM_PHYS_PAGES) && f < NUM_PHYS_PAGES && off + size <= PAGE_SIZE
      ensures Base(PAGE_SIZE, f) + off + size <= |memory|
      ensures memory[Base(PAGE_SIZE, f) + off..Base(PAGE_SIZE, f) + off + size] == FramesOf(memory)[f][off..off + size]
    {
      Apart(PAGE_SIZE, f, NUM_PHYS_PAGES);
      var base := Base(PAGE_SIZE, f);
      var a, b := memory[base + off..base + off + size], FrameOf(memory, f)[off..off + size];
      assert forall k {:trigger a[k]} :: 0 <= k < size ==> a[k] == memory[base + (off + k)] == b[k];
      assert a == b;
    }

    /** Fetch `size` bytes at the translated address. */
    method FetchBytes(ghost slot: nat, ghost off: nat, physicalAddress: nat, size: nat) returns (bytes: seq<Byte>)
      requires Wired() && slot < TLB_SIZE && tlb[slot].physicalPage < NUM_PHYS_PAGES && off + size <= PAGE_SIZE
      requires physicalAddress == Base(PAGE_SIZE, tlb[slot].physicalPage) + off
      ensures Shape(State()) ==> bytes == M.LoadedBytes(State(), slot, off, size)
    {
      BytesInFrame(mainMemory[..], tlb[slot].physicalPage, off, size);
      bytes := mainMemory[physicalAddress..physicalAddress + size];
    }

    method StoreBytes(ghost slot: nat, ghost off: nat, physicalAddress: nat, d: seq<Byte>)
      requires Wired() && slot < TLB_SIZE && tlb[slot].physicalPage < NUM_PHYS_PAGES && off + |d| <= PAGE_SIZE
      requires physicalAddress == Base(PAGE_SIZE, tlb[slot].physicalPage) + off && Shape(State())
      modifies mainMemory
      ensures State() == M.Store(old(State()), slot, off, d)
    {
      FrameSplice(mainMemory[..], tlb[slot].physicalPage, off, d);
      CopyIn(physicalAddress, d);
    }

    method ReadMem(addr: nat, size: nat) returns (out: M.Outcome)
      requires Valid() && M.CanAccess(State(), addr, size)
      modifies Store()
      ensures (State(), out) == M.ReadMem(old(State()), addr, size)
      ensures Valid()
    {
      M.TranslateTables(State(), addr, size, false);
      var e, physicalAddress, slot := Translate(addr, size, false);
      match e
      case NoException =>
        M.AlignedFits(addr, size);
        assert SlotOk(State(), State().tlb[slot]);
        var bytes := FetchBytes(slot, Offset(PAGE_SIZE, addr), physicalAddress, size);
        out := M.Value(M.Decode(bytes));
      case PageFault =>
        TLBPageFaultHandler(addr);
        out := M.Faulted;
      case _ =>
        out := M.Fatal;
    }

    method WriteMem(addr: nat, size: nat, value: int) returns (out: M.Outcome)
      requires Valid() && M.CanAccess(State(), addr, size)
      modifies Store()
      ensures (State(), out) == M.WriteMem(old(State()), addr, size, value)
      ensures Valid()
    {
      M.TranslateTables(State(), addr, size, true);
      var e, physicalAddress, slot := Translate(addr, size, true);
      match e
      case NoException =>
        M.AlignedFits(addr, size);
        assert SlotOk(State(), State().tlb[slot]);
        StoreBytes(slot, Offset(PAGE_SIZE, addr), physicalAddress, M.Encode(value, size));
        out := M.Done;
      case PageFault =>
        TLBPageFaultHandler(addr);
        out := M.Faulted;
      case _ =>
        out := M.Fatal;
    }

    // ------------------------------------------------------------- address spaces

    /** The address-space constructor. */
    method CreateSpace(id: SpaceId, exe: Executable)
      requires Valid() && id !in runningProcesses
      modifies `runningProcesses
      ensures State() == M.CreateSpace(old(State()), id, exe)
      ensures Valid()
    {
      M.CreateKeeps(State(), id, exe);
      var numPages := exe.NumPages();
      var pageTable: seq<Entry> := [];
      for i := 0 to numPages
        invariant |pageTable| == i
        invariant forall v :: 0 <= v < i ==> pageTable[v] == Entry(v, INT_MAX, false, false, false, false)
      {
        pageTable := pageTable + [Entry(i, INT_MAX, false, false, false, false)];
      }
      assert pageTable == M.FreshTable(numPages);
      runningProcesses := runningProcesses[id := Space(exe, pageTable, [], 0)];
    }

    /** Release the frame of one page, if it has one. */
    method ReleasePage(ghost vm: Vm, id: SpaceId, i: nat)
      requires Inv(vm) && Wired() && IsPage(vm, id, i)
      requires State() == M.ReleaseFrames(vm, id, i)
      modifies mainMemory, addressesBitMap.words
      ensures State() == M.ReleaseFrames(vm, id, i + 1)
    {
      var e := runningProcesses[id].pageTable[i];
      assert SpaceOk(vm.spaces[id]);
      if e.physicalPage == INT_MAX {
        NothingReleased(vm, id, i);
      } else {
        addressesBitMap.Clear(e.physicalPage);
        CopyToFrame(e.physicalPage, 0, Zeros(PAGE_SIZE));
        assert Splice(old(Frames())[e.physicalPage], 0, Zeros(PAGE_SIZE)) == Zeros(PAGE_SIZE);
        OneReleased(vm, id, i);
      }
    }

    /** The next page is out of memory: the loop's next step releases nothing. */
    static lemma NothingReleased(vm: Vm, id: SpaceId, i: nat)
      requires Inv(vm) && IsPage(vm, id, i) && !Pte(vm, id, i).InMemory()
      ensures M.ReleaseFrames(vm, id, i + 1) == M.ReleaseFrames(vm, id, i)
    {
      hide TlbOk, CleanOk;
      forall f | 0 <= f < NUM_PHYS_PAGES ensures M.Released(vm, id, i + 1, f) == M.Released(vm, id, i, f) {
        assert vm.marked[f] ==> Owned(vm, f);
      }
      assert M.ReleaseFrames(vm, id, i + 1).marked == M.ReleaseFrames(vm, id, i).marked;
      assert M.ReleaseFrames(vm, id, i + 1).frames == M.ReleaseFrames(vm, id, i).frames;
    }

    static lemma OneReleased(vm: Vm, id: SpaceId, i: nat)
      requires Inv(vm) && IsPage(vm, id, i) && Pte(vm, id, i).InMemory()
      ensures var w, f := M.ReleaseFrames(vm, id, i), Pte(vm, id, i).physicalPage;
              && f < NUM_PHYS_PAGES
              && M.ReleaseFrames(vm, id, i + 1) == w.(marked := w.marked[f := false], frames := w.frames[f := Zeros(PAGE_SIZE)])
    {
      hide TlbOk, CleanOk;
      var w, f := M.ReleaseFrames(vm, id, i), Pte(vm, id, i).physicalPage;
      assert SpaceOk(vm.spaces[id]);
      forall g | 0 <= g < NUM_PHYS_PAGES ensures M.Released(vm, id, i + 1, g) == (M.Released(vm, id, i, g) || g == f) {
        assert vm.marked[g] ==> Owned(vm, g);
      }
      assert M.ReleaseFrames(vm, id, i + 1).marked == w.marked[f := false];
      assert M.ReleaseFrames(vm, id, i + 1).frames == w.frames[f := Zeros(PAGE_SIZE)];
    }

    static lemma ReleaseNone(vm: Vm, id: SpaceId)
      requires Shape(vm)
      ensures M.ReleaseFrames(vm, id, 0) == vm
    {
      assert M.ReleaseFrames(vm, id, 0).marked == vm.marked;
      assert M.ReleaseFrames(vm, id, 0).frames == vm.frames;
    }

    /** The destructor. */
    method DestroySpace(id: SpaceId)
      requires Valid() && id in runningProcesses && currentSpace != Some(id)
      modifies `runningProcesses, mainMemory, addressesBitMap.words
      ensures State() == M.DestroySpace(old(State()), id)
      ensures Valid()
    {
      ghost var vm := State();
      ReleaseNone(vm, id);
      for i := 0 to |runningProcesses[id].pageTable|
        invariant runningProcesses == vm.spaces && State() == M.ReleaseFrames(vm, id, i)
      {
        ReleasePage(vm, id, i);
      }
      runningProcesses := runningProcesses - {id};
      M.DestroyKeeps(vm, id);
    }

    method RestoreState()
      requires Wired()
      modifies tlb
      ensures Shape(old(State())) ==> State() == M.RestoreState(old(State()))
    {
      for i := 0 to TLB_SIZE
        invariant forall j :: 0 <= j < TLB_SIZE ==>
          tlb[j] == if j < i then old(tlb[j]).(valid := false) else old(tlb[j])
      {
        tlb[i] := tlb[i].(valid := false);
      }
      assert Shape(old(State())) ==> tlb[..] == M.RestoreState(old(State())).tlb;
    }

    /** `Scheduler::Run` as the memory sees it. */
    method Run(next: Option<SpaceId>, dead: Option<SpaceId>)
      requires Valid() && M.CanSwitch(State(), next, dead)
      modifies Store()
      ensures State() == M.Switch(old(State()), next, dead)
      ensures Valid()
    {
      M.SavedIsEmpty(State());
      if currentSpace.Some? {
        SaveState();
      }
      M.RestoreKeeps(State(), next);
      currentSpace := next;
      if dead.Some? {
        DestroySpace(dead.value);
      }
      if next.Some? {
        RestoreState();
      }
    }
  }
}
