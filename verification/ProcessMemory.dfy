/** What paging is for: every process sees one private flat memory, in every run. */
module ProcessMemory {
  import opened Blocks
  import opened Bytes
  import opened Executables
  import opened Options
  import opened Paging

  // ------------------------------------------------------------- words in memory

  function Little(bytes: seq<Byte>): nat { if bytes == [] then 0 else bytes[0] + 256 * Little(bytes[1..]) }

  /** The low `n` bytes of `value` in two's complement, least significant first. */
  function Encode(value: int, n: nat): (bytes: seq<Byte>)
    ensures |bytes| == n
    decreases n
  {
    if n == 0 then [] else [value % 256] + Encode(value / 256, n - 1)
  }

  /** What a load of one, two or four bytes delivers: a signed byte, an unsigned half, a signed word. */
  function Decode(bytes: seq<Byte>): int {
    var n := Little(bytes);
    if |bytes| == 1 && n >= 0x80 then n - 0x100
    else if |bytes| == 4 && n >= 0x8000_0000 then n - 0x1_0000_0000
    else n
  }

  lemma LittleStep(value: int, n: nat)
    requires n > 0
    ensures Little(Encode(value, n)) == value % 256 + 256 * Little(Encode(value / 256, n - 1))
  {
    assert Encode(value, n)[1..] == Encode(value / 256, n - 1);
  }

  lemma EncodeDecodeWord(value: int)
    requires -0x8000_0000 <= value < 0x8000_0000
    ensures Decode(Encode(value, 4)) == value
  {
    LittleStep(value, 4);
    LittleStep(value / 256, 3);
    LittleStep(value / 256 / 256, 2);
    LittleStep(value / 256 / 256 / 256, 1);
  }

  lemma EncodeByte(value: int)
    ensures Encode(value, 1) == [value % 256]
  {
    assert Encode(value / 256, 0) == [];
  }

  /** What a store of each size writes: the low bytes of the value, lowest address first. */
  lemma EncodeIs(value: int)
    ensures Encode(value, 1) == [value % 256]
    ensures Encode(value, 2) == [value % 256, value / 256 % 256]
    ensures Encode(value, 4) == [value % 256, value / 256 % 256, value / 256 / 256 % 256, value / 256 / 256 / 256 % 256]
  {
    var v1, v2, v3 := value / 256, value / 256 / 256, value / 256 / 256 / 256;
    EncodeByte(value);
    EncodeByte(v1);
    EncodeByte(v3);
    assert Encode(value, 2) == [value % 256] + Encode(v1, 1);
    assert Encode(v2, 2) == [v2 % 256] + Encode(v3, 1);
    assert Encode(v1, 3) == [v1 % 256] + Encode(v2, 2);
    assert Encode(value, 4) == [value % 256] + Encode(v1, 3);
  }

  /** What a load of each size delivers, as arithmetic on the bytes: a signed byte, an
      unsigned half, a signed word. */
  lemma DecodeIs(a: Byte, b: Byte, c: Byte, d: Byte)
    ensures Decode([a]) == if a < 128 then a else a - 256
    ensures Decode([a, b]) == a + 256 * b
    ensures Decode([a, b, c, d]) == a + 256 * b + 0x1_0000 * c + 0x100_0000 * (if d < 128 then d else d - 256)
  {
    assert Little([]) == 0;
    assert [a][1..] == [] && [a, b][1..] == [b] && [b][1..] == [];
    assert [a, b, c, d][1..] == [b, c, d] && [b, c, d][1..] == [c, d] && [c, d][1..] == [d] && [d][1..] == [];
    assert Little([b]) == b && Little([a, b]) == a + 256 * Little([b]);
    assert Little([d]) == d;
    assert Little([c, d]) == c + 256 * d;
    assert Little([b, c, d]) == b + 256 * (c + 256 * d);
  }

  /** A half that was stored is read back. */
  lemma EncodeDecodeHalf(value: int)
    requires 0 <= value < 0x1_0000
    ensures Decode(Encode(value, 2)) == value
  {
    LittleStep(value, 2);
    LittleStep(value / 256, 1);
  }

  /** A byte that was stored is read back, with its sign. */
  lemma EncodeDecodeByte(value: int)
    requires -0x80 <= value < 0x80
    ensures Decode(Encode(value, 1)) == value
  {
    LittleStep(value, 1);
  }

  /** An access is misaligned exactly when its size does not divide its address. */
  lemma MisalignedIff(addr: nat)
    ensures !Misaligned(addr, 1)
    ensures Misaligned(addr, 2) <==> addr % 2 != 0
    ensures Misaligned(addr, 4) <==> addr % 4 != 0
  {
  }

  // ------------------------------------------------------------------ flat memory

  function NumPages(vm: Vm, id: SpaceId): nat
    requires id in vm.spaces
  {
    |vm.spaces[id].pageTable|
  }

  /** The memory of process `id`, byte by virtual address. */
  ghost function Flat(vm: Vm, id: SpaceId): (m: seq<Byte>)
    requires Shape(vm) && TablesOk(vm) && id in vm.spaces
    ensures |m| == Base(PAGE_SIZE, NumPages(vm, id))
  {
    seq(Base(PAGE_SIZE, NumPages(vm, id)), a requires 0 <= a => ByteAt(vm, id, a))
  }

  ghost function ByteAt(vm: Vm, id: SpaceId, a: nat): Byte
    requires Shape(vm) && TablesOk(vm) && id in vm.spaces
  {
    assert SpaceOk(vm.spaces[id]);
    if Index(PAGE_SIZE, a) < NumPages(vm, id) then PageView(vm, id, Index(PAGE_SIZE, a))[Offset(PAGE_SIZE, a)] else 0
  }

  /** The memories of all processes, and who is running. */
  datatype Memories = Memories(memory: map<SpaceId, seq<Byte>>, current: Option<SpaceId>)

  ghost function Abs(vm: Vm): Memories
    requires Shape(vm) && TablesOk(vm)
  {
    Memories(map id | id in vm.spaces :: Flat(vm, id), vm.current)
  }

  lemma SameFlat(a: Vm, b: Vm, id: SpaceId)
    requires Shape(a) && TablesOk(a) && Shape(b) && TablesOk(b) && SameViews(a, b) && id in a.spaces
    ensures id in b.spaces && Flat(a, id) == Flat(b, id)
  {
    assert |b.spaces[id].pageTable| == |a.spaces[id].pageTable|;
    forall x: nat | x < |Flat(a, id)| ensures ByteAt(a, id, x) == ByteAt(b, id, x) {
      if Index(PAGE_SIZE, x) < NumPages(a, id) { assert SameView(a, b, id, Index(PAGE_SIZE, x)); }
    }
  }

  lemma SameAbs(a: Vm, b: Vm)
    requires Shape(a) && TablesOk(a) && Shape(b) && TablesOk(b) && SameViews(a, b)
    ensures Abs(a).memory == Abs(b).memory
  {
    forall id | id in a.spaces ensures Flat(a, id) == Flat(b, id) { SameFlat(a, b, id); }
  }

  // ------------------------------------------------------------------------ stores

  function Store(vm: Vm, i: nat, off: nat, d: seq<Byte>): Vm
    requires Shape(vm) && i < TLB_SIZE && vm.tlb[i].physicalPage < NUM_PHYS_PAGES && off + |d| <= PAGE_SIZE
  {
    var f := vm.tlb[i].physicalPage;
    vm.(frames := vm.frames[f := Splice(vm.frames[f], off, d)])
  }

  ghost predicate CanStore(vm: Vm, i: nat, off: nat, d: seq<Byte>) {
    Inv(vm) && i < TLB_SIZE && vm.tlb[i].valid && vm.tlb[i].dirty && off + |d| <= PAGE_SIZE && SlotOk(vm, vm.tlb[i])
  }

  lemma StoreTables(vm: Vm, i: nat, off: nat, d: seq<Byte>)
    requires CanStore(vm, i, off, d)
    ensures var w := Store(vm, i, off, d);
            && Shape(w) && TablesOk(w) && Owners(w, NUM_PHYS_PAGES) && TlbOk(w)
            && (forall id, v: nat {:trigger Pte(w, id, v)} :: IsPage(w, id, v) ==> Pte(w, id, v) == Pte(vm, id, v))
  {
    var w := Store(vm, i, off, d);
    OwnersDepend(vm, w, NUM_PHYS_PAGES);
    forall j | 0 <= j < TLB_SIZE ensures SlotOk(w, w.tlb[j]) { assert SlotOk(vm, vm.tlb[j]); }
  }

  /** A store through a dirty slot changes the page of that slot and no other. */
  lemma StoreKeeps(vm: Vm, i: nat, off: nat, d: seq<Byte>)
    requires CanStore(vm, i, off, d)
    ensures var w := Store(vm, i, off, d); Inv(w)
  {
    var w, c, p := Store(vm, i, off, d), vm.current.value, vm.tlb[i].virtualPage;
    StoreTables(vm, i, off, d);
    assert DirtyInTlb(w, c, p);
    forall id, v: nat {:trigger Pte(w, id, v)} |
      IsPage(w, id, v) && Pte(w, id, v).InMemory() && !Pte(w, id, v).dirty && !DirtyInTlb(w, id, v)
      ensures w.frames[Pte(w, id, v).physicalPage] == LoadedPage(w.spaces[id].exe, v)
    {
      SameDirtyInTlb(vm, w, id, v);
      assert Pte(vm, id, v) == Pte(w, id, v);
      assert Pte(vm, c, p).physicalPage == vm.tlb[i].physicalPage;
    }
  }

  lemma StoreView(vm: Vm, i: nat, off: nat, d: seq<Byte>, id: SpaceId, v: nat)
    requires CanStore(vm, i, off, d) && IsPage(vm, id, v)
    requires Inv(Store(vm, i, off, d))
    ensures SpaceOk(vm.spaces[id])
    ensures PageView(Store(vm, i, off, d), id, v) ==
            if id == vm.current.value && v == vm.tlb[i].virtualPage
            then Splice(vm.frames[vm.tlb[i].physicalPage], off, d) else PageView(vm, id, v)
    ensures PageView(vm, vm.current.value, vm.tlb[i].virtualPage) == vm.frames[vm.tlb[i].physicalPage]
  {
    var w, c, p := Store(vm, i, off, d), vm.current.value, vm.tlb[i].virtualPage;
    assert SpaceOk(vm.spaces[id]);
    assert Pte(vm, id, v) == Pte(w, id, v);
    assert Pte(vm, c, p).physicalPage == vm.tlb[i].physicalPage;
  }

  lemma StoreFlat(vm: Vm, i: nat, addr: nat, d: seq<Byte>)
    requires var off := Offset(PAGE_SIZE, addr); CanStore(vm, i, off, d) && Inv(Store(vm, i, off, d))
    requires vm.tlb[i].virtualPage == Index(PAGE_SIZE, addr)
    requires addr + |d| <= |Flat(vm, vm.current.value)|
    ensures var w, c := Store(vm, i, Offset(PAGE_SIZE, addr), d), vm.current.value;
            Abs(w) == Memories(Abs(vm).memory[c := Splice(Flat(vm, c), addr, d)], vm.current)
  {
    var off, p, c := Offset(PAGE_SIZE, addr), Index(PAGE_SIZE, addr), vm.current.value;
    var w := Store(vm, i, off, d);
    Split(PAGE_SIZE, addr);
    forall id | id in vm.spaces
      ensures Flat(w, id) == if id == c then Splice(Flat(vm, c), addr, d) else Flat(vm, id)
    {
      forall x: nat | x < |Flat(vm, id)|
        ensures ByteAt(w, id, x) == (if id == c then Splice(Flat(vm, c), addr, d) else Flat(vm, id))[x]
      {
        StoreByte(vm, i, addr, d, id, x);
      }
    }
    assert Abs(w).memory == Abs(vm).memory[c := Splice(Flat(vm, c), addr, d)];
  }

  lemma StoreByte(vm: Vm, i: nat, addr: nat, d: seq<Byte>, id: SpaceId, x: nat)
    requires var off := Offset(PAGE_SIZE, addr); CanStore(vm, i, off, d) && Inv(Store(vm, i, off, d))
    requires vm.tlb[i].virtualPage == Index(PAGE_SIZE, addr) && id in vm.spaces && x < |Flat(vm, id)|
    ensures ByteAt(Store(vm, i, Offset(PAGE_SIZE, addr), d), id, x) ==
            if id == vm.current.value && addr <= x < addr + |d| then d[x - addr] else Flat(vm, id)[x]
  {
    var off, p := Offset(PAGE_SIZE, addr), Index(PAGE_SIZE, addr);
    var q, o := Index(PAGE_SIZE, x), Offset(PAGE_SIZE, x);
    IndexBelow(PAGE_SIZE, x, NumPages(vm, id));
    StoreView(vm, i, off, d, id, q);
    SplitWithin(addr, x, |d|);
  }

  /** An access that stays inside its page covers exactly the addresses with the page's index and its offsets. */
  lemma SplitWithin(addr: nat, x: nat, n: nat)
    requires Offset(PAGE_SIZE, addr) + n <= PAGE_SIZE
    ensures addr <= x < addr + n <==>
            Index(PAGE_SIZE, x) == Index(PAGE_SIZE, addr)
            && Offset(PAGE_SIZE, addr) <= Offset(PAGE_SIZE, x) < Offset(PAGE_SIZE, addr) + n
    ensures Index(PAGE_SIZE, x) == Index(PAGE_SIZE, addr) ==> Offset(PAGE_SIZE, x) - Offset(PAGE_SIZE, addr) == x - addr
  {
    Split(PAGE_SIZE, addr);
    Split(PAGE_SIZE, x);
    var p, off := Index(PAGE_SIZE, addr), Offset(PAGE_SIZE, addr);
    if addr <= x < addr + n {
      Join(PAGE_SIZE, p, off + (x - addr));
      assert x == Base(PAGE_SIZE, p) + (off + (x - addr));
    }
  }

  lemma {:induction false} BaseAligned(p: nat, size: nat)
    requires PAGE_SIZE % 4 == 0 && size in {1, 2, 4}
    ensures Base(PAGE_SIZE, p) % size == 0
  {
    if p > 0 { BaseAligned(p - 1, size); }
  }

  /** An aligned access does not leave its page. */
  lemma AlignedFits(addr: nat, size: nat)
    requires PAGE_SIZE % 4 == 0 && size in {1, 2, 4} && !Misaligned(addr, size)
    ensures Offset(PAGE_SIZE, addr) + size <= PAGE_SIZE
  {
    hide Base, Index, Offset;
    Split(PAGE_SIZE, addr);
    BaseAligned(Index(PAGE_SIZE, addr), 4);
    if size == 4 {
      FourFit(Base(PAGE_SIZE, Index(PAGE_SIZE, addr)), Offset(PAGE_SIZE, addr), PAGE_SIZE);
    } else if size == 2 {
      Even(Base(PAGE_SIZE, Index(PAGE_SIZE, addr)));
      Even(PAGE_SIZE);
      TwoFit(Base(PAGE_SIZE, Index(PAGE_SIZE, addr)), Offset(PAGE_SIZE, addr), PAGE_SIZE);
    }
  }

  lemma FourFit(base: nat, off: nat, page: nat)
    requires base % 4 == 0 && page % 4 == 0 && (base + off) % 4 == 0 && off < page
    ensures off + 4 <= page
  {
    assert off % 4 == 0;
  }

  lemma Even(n: nat)
    requires n % 4 == 0
    ensures n % 2 == 0
  {
    assert n == 2 * (2 * (n / 4));
  }

  lemma TwoFit(base: nat, off: nat, page: nat)
    requires base % 2 == 0 && page % 2 == 0 && (base + off) % 2 == 0 && off < page
    ensures off + 2 <= page
  {
    assert off % 2 == 0;
  }

  lemma AccessInRange(addr: nat, size: nat, n: nat)
    requires Index(PAGE_SIZE, addr) < n && Offset(PAGE_SIZE, addr) + size <= PAGE_SIZE
    ensures addr + size <= Base(PAGE_SIZE, n)
  {
    Split(PAGE_SIZE, addr);
    Apart(PAGE_SIZE, Index(PAGE_SIZE, addr), n);
  }

  // ----------------------------------------------------- machine loads and stores

  /** `Faulted` means the handler ran and the instruction is to be retried. */
  datatype Outcome = Done | Value(value: int) | Faulted | Fatal

  /** The access is one, two or four bytes of an address the current process has. */
  predicate CanAccess(vm: Vm, addr: nat, size: nat) {
    && PAGE_SIZE % 4 == 0 && size in {1, 2, 4}
    && vm.current.Some? && IsPage(vm, vm.current.value, Index(PAGE_SIZE, addr))
  }

  function LoadedBytes(vm: Vm, i: nat, off: nat, size: nat): seq<Byte>
    requires Shape(vm) && i < TLB_SIZE && vm.tlb[i].physicalPage < NUM_PHYS_PAGES && off + size <= PAGE_SIZE
  {
    vm.frames[vm.tlb[i].physicalPage][off..off + size]
  }

  /** `Machine::ReadMem`: translate and load; on a fault, run the handler. */
  function ReadMem(vm: Vm, addr: nat, size: nat): (r: (Vm, Outcome))
    requires Inv(vm) && CanAccess(vm, addr, size)
    ensures Inv(r.0)
  {
    var (t, e, i) := Translate(vm, addr, size, false);
    TranslateTables(vm, addr, size, false);
    match e
    case NoException =>
      AlignedFits(addr, size);
      assert SlotOk(t, t.tlb[i]);
      (t, Value(Decode(LoadedBytes(t, i, Offset(PAGE_SIZE, addr), size))))
    case PageFault => (HandleFault(t, Index(PAGE_SIZE, addr)), Faulted)
    case _ => (t, Fatal)
  }

  /** `Machine::WriteMem`: translate and store; on a fault, run the handler. */
  function WriteMem(vm: Vm, addr: nat, size: nat, value: int): (r: (Vm, Outcome))
    requires Inv(vm) && CanAccess(vm, addr, size)
    ensures Inv(r.0)
  {
    var (t, e, i) := Translate(vm, addr, size, true);
    TranslateTables(vm, addr, size, true);
    match e
    case NoException =>
      AlignedFits(addr, size);
      assert SlotOk(t, t.tlb[i]);
      StoreKeeps(t, i, Offset(PAGE_SIZE, addr), Encode(value, size));
      (Store(t, i, Offset(PAGE_SIZE, addr), Encode(value, size)), Done)
    case PageFault => (HandleFault(t, Index(PAGE_SIZE, addr)), Faulted)
    case _ => (t, Fatal)
  }

  lemma TranslateTables(vm: Vm, addr: nat, size: nat, writing: bool)
    requires Inv(vm) && CanAccess(vm, addr, size)
    ensures CanAccess(Translate(vm, addr, size, writing).0, addr, size)
  {
    var t := Translate(vm, addr, size, writing).0;
    var c := vm.current.value;
    assert |t.spaces[c].pageTable| == |vm.spaces[c].pageTable|;
  }

  /** A load delivers the bytes of the process's own flat memory, or faults and changes no memory at all. */
  lemma ReadIsFlat(vm: Vm, addr: nat, size: nat)
    requires Inv(vm) && CanAccess(vm, addr, size)
    ensures var (w, out) := ReadMem(vm, addr, size); var flat := Flat(vm, vm.current.value);
            && Abs(w) == Abs(vm)
            && (Misaligned(addr, size) <==> out == Fatal)
            && (!Misaligned(addr, size) ==> addr + size <= |flat| && out in {Faulted, Value(Decode(flat[addr..addr + size]))})
  {
    var (t, e, i) := Translate(vm, addr, size, false);
    var c := vm.current.value;
    TranslateTables(vm, addr, size, false);
    SameAbs(vm, t);
    if e == NoException {
      AlignedFits(addr, size);
      AccessInRange(addr, size, NumPages(vm, c));
      SlotBytes(t, i, addr, size);
      assert Flat(t, c) == Flat(vm, c) by { SameFlat(vm, t, c); }
    } else if e == PageFault {
      AlignedFits(addr, size);
      AccessInRange(addr, size, NumPages(vm, c));
      SameAbs(t, HandleFault(t, Index(PAGE_SIZE, addr)));
      HandleFaultCurrent(t, Index(PAGE_SIZE, addr));
    }
  }

  lemma HandleFaultCurrent(vm: Vm, v: nat)
    requires Inv(vm) && vm.current.Some? && IsPage(vm, vm.current.value, v) && !Mapped(vm, v)
    ensures HandleFault(vm, v).current == vm.current
  {
    var c := vm.current.value;
    var e := Pte(vm, c, v).(valid := true);
    FlagsKeep(vm, c, v, e);
    if !e.InMemory() { FaultLoads(SetEntry(vm, c, v, e), v); }
  }

  lemma SlotByteIn(vm: Vm, i: nat, addr: nat, size: nat, x: nat)
    requires Inv(vm) && vm.current.Some? && i < TLB_SIZE && vm.tlb[i].valid
    requires vm.tlb[i].virtualPage == Index(PAGE_SIZE, addr) && Offset(PAGE_SIZE, addr) + size <= PAGE_SIZE
    requires addr <= x < addr + size && x < |Flat(vm, vm.current.value)|
    ensures SlotOk(vm, vm.tlb[i])
    ensures Flat(vm, vm.current.value)[x] == vm.frames[vm.tlb[i].physicalPage][Offset(PAGE_SIZE, addr) + (x - addr)]
  {
    hide Owners, TlbOk, CleanOk, Base, Index, Offset;
    SplitWithin(addr, x, size);
    SlotByte(vm, i, x);
  }

  lemma SlotInRange(vm: Vm, i: nat, addr: nat, size: nat)
    requires Inv(vm) && vm.current.Some? && i < TLB_SIZE && vm.tlb[i].valid
    requires vm.tlb[i].virtualPage == Index(PAGE_SIZE, addr) && Offset(PAGE_SIZE, addr) + size <= PAGE_SIZE
    ensures SlotOk(vm, vm.tlb[i]) && addr + size <= |Flat(vm, vm.current.value)|
  {
    assert SlotOk(vm, vm.tlb[i]);
    AccessInRange(addr, size, NumPages(vm, vm.current.value));
  }

  lemma SlotBytes(vm: Vm, i: nat, addr: nat, size: nat)
    requires Inv(vm) && vm.current.Some? && i < TLB_SIZE && vm.tlb[i].valid
    requires vm.tlb[i].virtualPage == Index(PAGE_SIZE, addr) && Offset(PAGE_SIZE, addr) + size <= PAGE_SIZE
    ensures SlotOk(vm, vm.tlb[i]) && addr + size <= |Flat(vm, vm.current.value)|
    ensures LoadedBytes(vm, i, Offset(PAGE_SIZE, addr), size) == Flat(vm, vm.current.value)[addr..addr + size]
  {
    SlotInRange(vm, i, addr, size);
    SlotMatches(vm, i, addr, size);
    SlicesEqual(Flat(vm, vm.current.value), addr, vm.frames[vm.tlb[i].physicalPage], Offset(PAGE_SIZE, addr), size);
  }

  ghost predicate SliceMatches(a: seq<Byte>, i: nat, b: seq<Byte>, j: nat, n: nat)
    requires i + n <= |a| && j + n <= |b|
  {
    forall x {:trigger a[x]} :: i <= x < i + n ==> a[x] == b[j + (x - i)]
  }

  lemma SlicesEqual(a: seq<Byte>, i: nat, b: seq<Byte>, j: nat, n: nat)
    requires i + n <= |a| && j + n <= |b| && SliceMatches(a, i, b, j, n)
    ensures a[i..i + n] == b[j..j + n]
  {
  }

  lemma SlotMatches(vm: Vm, i: nat, addr: nat, size: nat)
    requires Inv(vm) && vm.current.Some? && i < TLB_SIZE && vm.tlb[i].valid && SlotOk(vm, vm.tlb[i])
    requires vm.tlb[i].virtualPage == Index(PAGE_SIZE, addr) && Offset(PAGE_SIZE, addr) + size <= PAGE_SIZE
    requires addr + size <= |Flat(vm, vm.current.value)|
    ensures SliceMatches(Flat(vm, vm.current.value), addr, vm.frames[vm.tlb[i].physicalPage], Offset(PAGE_SIZE, addr), size)
  {
    forall x {:trigger Flat(vm, vm.current.value)[x]} | addr <= x < addr + size
      ensures Flat(vm, vm.current.value)[x] == vm.frames[vm.tlb[i].physicalPage][Offset(PAGE_SIZE, addr) + (x - addr)]
    {
      SlotByteIn(vm, i, addr, size, x);
    }
  }

  lemma SlotByte(vm: Vm, i: nat, x: nat)
    requires Inv(vm) && vm.current.Some? && i < TLB_SIZE && vm.tlb[i].valid
    requires vm.tlb[i].virtualPage == Index(PAGE_SIZE, x) && x < |Flat(vm, vm.current.value)|
    ensures SlotOk(vm, vm.tlb[i])
    ensures Flat(vm, vm.current.value)[x] == vm.frames[vm.tlb[i].physicalPage][Offset(PAGE_SIZE, x)]
  {
    assert SlotOk(vm, vm.tlb[i]);
    assert SpaceOk(vm.spaces[vm.current.value]);
  }

  /** A store changes exactly the addressed bytes of the process's own memory, or faults and changes none. */
  lemma WriteIsFlat(vm: Vm, addr: nat, size: nat, value: int)
    requires Inv(vm) && CanAccess(vm, addr, size)
    ensures var (w, out) := WriteMem(vm, addr, size, value); var c := vm.current.value;
            && (Misaligned(addr, size) <==> out == Fatal)
            && out in {Done, Faulted, Fatal}
            && (out != Done ==> Abs(w) == Abs(vm))
            && (out == Done ==>
                  && addr + size <= |Flat(vm, c)|
                  && Abs(w) == Memories(Abs(vm).memory[c := Splice(Flat(vm, c), addr, Encode(value, size))], vm.current))
  {
    var (t, e, i) := Translate(vm, addr, size, true);
    var c := vm.current.value;
    TranslateTables(vm, addr, size, true);
    SameAbs(vm, t);
    if e == NoException {
      AlignedFits(addr, size);
      AccessInRange(addr, size, NumPages(vm, c));
      SameFlat(vm, t, c);
      assert SlotOk(t, t.tlb[i]);
      StoreKeeps(t, i, Offset(PAGE_SIZE, addr), Encode(value, size));
      StoreFlat(t, i, addr, Encode(value, size));
    } else if e == PageFault {
      SameAbs(t, HandleFault(t, Index(PAGE_SIZE, addr)));
      HandleFaultCurrent(t, Index(PAGE_SIZE, addr));
    }
  }

  /** One handled fault is enough: the retried access goes through. */
  lemma RetrySucceeds(vm: Vm, addr: nat, size: nat, value: int)
    requires Inv(vm) && CanAccess(vm, addr, size)
    ensures var (w, out) := ReadMem(vm, addr, size);
            out == Faulted ==> CanAccess(w, addr, size) && ReadMem(w, addr, size).1.Value?
    ensures var (w, out) := WriteMem(vm, addr, size, value);
            out == Faulted ==> CanAccess(w, addr, size) && WriteMem(w, addr, size, value).1 == Done
  {
    var v := Index(PAGE_SIZE, addr);
    var tr, tw := Translate(vm, addr, size, false), Translate(vm, addr, size, true);
    TranslateTables(vm, addr, size, false);
    TranslateTables(vm, addr, size, true);
    if tr.1 == PageFault { FaultKeepsAccess(tr.0, addr, size); }
    if tw.1 == PageFault { FaultKeepsAccess(tw.0, addr, size); }
  }

  lemma FaultKeepsAccess(vm: Vm, addr: nat, size: nat)
    requires Inv(vm) && CanAccess(vm, addr, size) && !Mapped(vm, Index(PAGE_SIZE, addr))
    ensures CanAccess(HandleFault(vm, Index(PAGE_SIZE, addr)), addr, size)
  {
    var w, c := HandleFault(vm, Index(PAGE_SIZE, addr)), vm.current.value;
    HandleFaultCurrent(vm, Index(PAGE_SIZE, addr));
    assert |w.spaces[c].pageTable| == |vm.spaces[c].pageTable|;
  }

  // ------------------------------------------------- processes come, switch and go

  function FreshTable(n: nat): (t: seq<Entry>)
    ensures |t| == n
    ensures forall v :: 0 <= v < n ==> t[v] == Entry(v, INT_MAX, false, false, false, false)
  {
    seq(n, v requires 0 <= v => Entry(v, INT_MAX, false, false, false, false))
  }

  /** The address-space constructor: nothing in memory, an empty swap file. */
  function CreateSpace(vm: Vm, id: SpaceId, exe: Executable): Vm {
    vm.(spaces := vm.spaces[id := Space(exe, FreshTable(exe.NumPages()), [], 0)])
  }

  /** A new process's memory: its executable's pages. */
  ghost function InitialMemory(exe: Executable): (m: seq<Byte>)
    ensures |m| == Base(PAGE_SIZE, exe.NumPages())
  {
    seq(Base(PAGE_SIZE, exe.NumPages()), a requires 0 <= a => LoadedPage(exe, Index(PAGE_SIZE, a))[Offset(PAGE_SIZE, a)])
  }

  /** With the layout `coff2noff` produces, that is the image the eager loader builds. */
  lemma InitialIsImage(exe: Executable, a: nat)
    requires exe.TextThenData() && exe.CleanTail() && a < |InitialMemory(exe)|
    ensures InitialMemory(exe)[a] == exe.ImageByte(a)
  {
    hide Base, Index, Offset, LoadedPage;
    DemandEqualsEager(exe);
    Split(PAGE_SIZE, a);
    assert LoadedPage(exe, Index(PAGE_SIZE, a))[Offset(PAGE_SIZE, a)] ==
           exe.ImageByte(Base(PAGE_SIZE, Index(PAGE_SIZE, a)) + Offset(PAGE_SIZE, a));
  }

  lemma CreateKeeps(vm: Vm, id: SpaceId, exe: Executable)
    requires Inv(vm) && id !in vm.spaces
    ensures Inv(CreateSpace(vm, id, exe))
  {
    var w := CreateSpace(vm, id, exe);
    assert TablesOk(w) by { assert SpaceOk(w.spaces[id]); }
    assert forall j :: j in w.spaces && j != id ==> w.spaces[j] == vm.spaces[j];
    forall j, v: nat {:trigger Pte(w, j, v)} | IsPage(w, j, v) && j != id
      ensures IsPage(vm, j, v) && Pte(w, j, v) == Pte(vm, j, v)
    {
      assert w.spaces[j] == vm.spaces[j];
    }
    forall f | 0 <= f < NUM_PHYS_PAGES && w.marked[f] ensures Owned(w, f) { assert Owned(vm, f); }
    forall i | 0 <= i < TLB_SIZE ensures SlotOk(w, w.tlb[i]) { assert SlotOk(vm, vm.tlb[i]); }
    forall j, v: nat {:trigger DirtyInTlb(w, j, v)} ensures DirtyInTlb(w, j, v) == DirtyInTlb(vm, j, v) {
      SameDirtyInTlb(vm, w, j, v);
    }
  }

  lemma CreateFlat(vm: Vm, id: SpaceId, exe: Executable, j: SpaceId, x: nat)
    requires Inv(vm) && id !in vm.spaces && Inv(CreateSpace(vm, id, exe))
    requires var w := CreateSpace(vm, id, exe); j in w.spaces && x < |Flat(w, j)|
    ensures ByteAt(CreateSpace(vm, id, exe), j, x) ==
            if j == id then LoadedPage(exe, Index(PAGE_SIZE, x))[Offset(PAGE_SIZE, x)] else ByteAt(vm, j, x)
  {
    hide Owners, TlbOk, CleanOk, LoadedPage, Base, Index, Offset;
    var w := CreateSpace(vm, id, exe);
    IndexBelow(PAGE_SIZE, x, NumPages(w, j));
    if j != id { assert SpaceOk(vm.spaces[j]); }
  }

  lemma CreateIsFlat(vm: Vm, id: SpaceId, exe: Executable)
    requires Inv(vm) && id !in vm.spaces
    ensures Inv(CreateSpace(vm, id, exe))
    ensures Abs(CreateSpace(vm, id, exe)) == Memories(Abs(vm).memory[id := InitialMemory(exe)], vm.current)
  {
    CreateKeeps(vm, id, exe);
    var w := CreateSpace(vm, id, exe);
    forall x: nat | x < |Flat(w, id)| ensures Flat(w, id)[x] == InitialMemory(exe)[x] {
      CreateFlat(vm, id, exe, id, x);
    }
    assert Flat(w, id) == InitialMemory(exe);
    forall j | j in vm.spaces ensures Flat(w, j) == Flat(vm, j) {
      forall x: nat | x < |Flat(w, j)| ensures Flat(w, j)[x] == Flat(vm, j)[x] { CreateFlat(vm, id, exe, j, x); }
    }
    assert Abs(w).memory == Abs(vm).memory[id := InitialMemory(exe)];
  }

  /** Does the destructor's loop over the first `n` pages of `id` release frame `f`? */
  predicate Released(vm: Vm, id: SpaceId, n: nat, f: nat)
    requires f < |vm.marked| && f < |vm.core|
  {
    vm.marked[f] && vm.core[f].spaceId == id && vm.core[f].virtualPage < n
  }

  /** The destructor's loop: clear and zero the frames of the first `n` pages. */
  function ReleaseFrames(vm: Vm, id: SpaceId, n: nat): (w: Vm)
    requires Shape(vm)
    ensures Shape(w)
  {
    vm.(marked := seq(NUM_PHYS_PAGES, f requires 0 <= f < NUM_PHYS_PAGES => vm.marked[f] && !Released(vm, id, n, f)),
        frames := seq(NUM_PHYS_PAGES, f requires 0 <= f < NUM_PHYS_PAGES =>
          if Released(vm, id, n, f) then Zeros(PAGE_SIZE) else vm.frames[f]))
  }

  function DestroySpace(vm: Vm, id: SpaceId): Vm
    requires Shape(vm) && id in vm.spaces
  {
    var w := ReleaseFrames(vm, id, |vm.spaces[id].pageTable|);
    w.(spaces := w.spaces - {id})
  }

  lemma DestroyOwners(vm: Vm, id: SpaceId)
    requires Inv(vm) && id in vm.spaces && vm.current != Some(id)
    ensures var w := DestroySpace(vm, id); Shape(w) && TablesOk(w) && Owners(w, NUM_PHYS_PAGES) && TlbOk(w)
  {
    var w := DestroySpace(vm, id);
    assert forall j :: j in w.spaces ==> SpaceOk(vm.spaces[j]);
    forall j, v: nat {:trigger Pte(w, j, v)} | IsPage(w, j, v)
      ensures j != id && IsPage(vm, j, v) && Pte(w, j, v) == Pte(vm, j, v)
    {
      assert w.spaces[j] == vm.spaces[j];
    }
    forall f | 0 <= f < NUM_PHYS_PAGES && w.marked[f] ensures Owned(w, f) { assert Owned(vm, f); }
    forall i | 0 <= i < TLB_SIZE ensures SlotOk(w, w.tlb[i]) { assert SlotOk(vm, vm.tlb[i]); }
  }

  /** Zeroing the dead process's frames spares everyone else's. */
  lemma DestroyView(vm: Vm, id: SpaceId, j: SpaceId, v: nat)
    requires Inv(vm) && id in vm.spaces && j != id && IsPage(vm, j, v)
    ensures var w := DestroySpace(vm, id);
            && IsPage(w, j, v) && SpaceOk(vm.spaces[j]) && w.spaces[j] == vm.spaces[j]
            && PageView(w, j, v) == PageView(vm, j, v)
            && (Pte(vm, j, v).InMemory() ==> w.frames[Pte(vm, j, v).physicalPage] == vm.frames[Pte(vm, j, v).physicalPage])
  {
    assert SpaceOk(vm.spaces[j]);
    assert Pte(vm, j, v).InMemory() ==> vm.core[Pte(vm, j, v).physicalPage].spaceId == j;
  }

  lemma DestroyKeeps(vm: Vm, id: SpaceId)
    requires Inv(vm) && id in vm.spaces && vm.current != Some(id)
    ensures Inv(DestroySpace(vm, id))
  {
    var w := DestroySpace(vm, id);
    DestroyOwners(vm, id);
    forall j, v: nat {:trigger Pte(w, j, v)} |
      IsPage(w, j, v) && Pte(w, j, v).InMemory() && !Pte(w, j, v).dirty && !DirtyInTlb(w, j, v)
      ensures w.frames[Pte(w, j, v).physicalPage] == LoadedPage(w.spaces[j].exe, v)
    {
      SameDirtyInTlb(vm, w, j, v);
      DestroyView(vm, id, j, v);
      assert Pte(vm, j, v) == Pte(w, j, v);
    }
  }

  /** The frames that the process had are clear and zero afterwards; all others are as they were. */
  lemma DestroyFrees(vm: Vm, id: SpaceId, f: nat)
    requires Inv(vm) && id in vm.spaces && vm.current != Some(id) && f < NUM_PHYS_PAGES
    ensures var w := DestroySpace(vm, id);
      if exists v: nat {:trigger Pte(vm, id, v)} :: IsPage(vm, id, v) && Pte(vm, id, v).physicalPage == f
      then !w.marked[f] && w.frames[f] == Zeros(PAGE_SIZE)
      else w.marked[f] == vm.marked[f] && w.frames[f] == vm.frames[f]
  {
    hide TlbOk, CleanOk;
    assert vm.marked[f] ==> Owned(vm, f);
    if exists v: nat {:trigger Pte(vm, id, v)} :: IsPage(vm, id, v) && Pte(vm, id, v).physicalPage == f {
      var v: nat :| IsPage(vm, id, v) && Pte(vm, id, v).physicalPage == f;
      assert SpaceOk(vm.spaces[id]);
    }
  }

  lemma DestroyIsFlat(vm: Vm, id: SpaceId)
    requires Inv(vm) && id in vm.spaces && vm.current != Some(id)
    ensures Inv(DestroySpace(vm, id))
    ensures Abs(DestroySpace(vm, id)) == Memories(Abs(vm).memory - {id}, vm.current)
  {
    DestroyKeeps(vm, id);
    var w := DestroySpace(vm, id);
    forall j | j in w.spaces ensures Flat(w, j) == Flat(vm, j) {
      forall x: nat | x < |Flat(w, j)| ensures ByteAt(w, j, x) == ByteAt(vm, j, x) {
        if Index(PAGE_SIZE, x) < NumPages(vm, j) { DestroyView(vm, id, j, Index(PAGE_SIZE, x)); }
      }
    }
    assert Abs(w).memory == Abs(vm).memory - {id};
  }

  /** `RestoreState`: invalidate every slot. */
  function RestoreState(vm: Vm): Vm
    requires Shape(vm)
  {
    vm.(tlb := seq(TLB_SIZE, i requires 0 <= i < TLB_SIZE => vm.tlb[i].(valid := false)))
  }

  ghost predicate NoSlots(vm: Vm) { forall i :: 0 <= i < |vm.tlb| ==> !vm.tlb[i].valid }

  /** With an empty TLB the running process can change, and emptying it again does nothing. */
  lemma RestoreKeeps(vm: Vm, next: Option<SpaceId>)
    requires Inv(vm) && NoSlots(vm) && (next.Some? ==> next.value in vm.spaces)
    ensures var w := vm.(current := next); Inv(w) && SameViews(vm, w) && RestoreState(w) == w
  {
    var w := vm.(current := next);
    OwnersDepend(vm, w, NUM_PHYS_PAGES);
    forall id, v: nat {:trigger Pte(w, id, v)} |
      IsPage(w, id, v) && Pte(w, id, v).InMemory() && !Pte(w, id, v).dirty && !DirtyInTlb(w, id, v)
      ensures w.frames[Pte(w, id, v).physicalPage] == LoadedPage(w.spaces[id].exe, v)
    {
      assert Pte(vm, id, v) == Pte(w, id, v) && !DirtyInTlb(vm, id, v);
    }
    forall id, v: nat | IsPage(vm, id, v) ensures SameView(vm, w, id, v) {
      assert Pte(vm, id, v) == Pte(w, id, v);
    }
    assert RestoreState(w).tlb == w.tlb;
  }

  predicate CanSwitch(vm: Vm, next: Option<SpaceId>, dead: Option<SpaceId>) {
    && (next.Some? ==> next.value in vm.spaces)
    && (dead.Some? ==> dead.value in vm.spaces && dead != next)
  }

  /** The memory side of `Scheduler::Run`: save, switch, delete a finished thread, restore. */
  function Switch(vm: Vm, next: Option<SpaceId>, dead: Option<SpaceId>): (w: Vm)
    requires Inv(vm) && CanSwitch(vm, next, dead)
    ensures Inv(w)
    ensures Abs(w) == Memories(if dead.Some? then Abs(vm).memory - {dead.value} else Abs(vm).memory, next)
  {
    var saved := if vm.current.Some? then Flush(vm, TLB_SIZE, None) else vm;
    SavedIsEmpty(vm);
    var switched := saved.(current := next);
    RestoreKeeps(saved, next);
    SameAbs(saved, switched);
    var swept :=
      if dead.Some? then
        DestroyIsFlat(switched, dead.value);
        DestroySpace(switched, dead.value)
      else switched;
    if next.Some? then
      assert RestoreState(swept).tlb == swept.tlb;
      RestoreState(swept)
    else swept
  }

  lemma SavedIsEmpty(vm: Vm)
    requires Inv(vm)
    ensures var saved := if vm.current.Some? then Flush(vm, TLB_SIZE, None) else vm;
            Inv(saved) && NoSlots(saved) && saved.spaces.Keys == vm.spaces.Keys && Abs(saved) == Abs(vm)
  {
    if vm.current.Some? {
      FlushedAll(vm, TLB_SIZE, None);
      SameAbs(vm, Flush(vm, TLB_SIZE, None));
    } else {
      forall i | 0 <= i < |vm.tlb| ensures !vm.tlb[i].valid { assert SlotOk(vm, vm.tlb[i]); }
    }
  }

  // ------------------------------------------------------------------------- runs

  datatype Step =
    | Read(addr: nat, size: nat)
    | Write(addr: nat, size: nat, value: int)
    | SwitchTo(next: Option<SpaceId>, dead: Option<SpaceId>)
    | Create(id: SpaceId, exe: Executable)

  predicate Enabled(vm: Vm, s: Step) {
    match s
    case Read(addr, size) => CanAccess(vm, addr, size)
    case Write(addr, size, _) => CanAccess(vm, addr, size)
    case SwitchTo(next, dead) => CanSwitch(vm, next, dead)
    case Create(id, exe) => id !in vm.spaces
  }

  function Exec(vm: Vm, s: Step): (r: (Vm, Outcome))
    requires Inv(vm) && Enabled(vm, s)
    ensures Inv(r.0)
  {
    match s
    case Read(addr, size) => ReadMem(vm, addr, size)
    case Write(addr, size, value) => WriteMem(vm, addr, size, value)
    case SwitchTo(next, dead) => (Switch(vm, next, dead), Done)
    case Create(id, exe) => CreateKeeps(vm, id, exe); (CreateSpace(vm, id, exe), Done)
  }

  /** The machine a program believes in: private flat memories, no paging, no faults. */
  ghost function Ideal(m: Memories, s: Step): (Memories, Outcome) {
    match s
    case Read(addr, size) =>
      if Misaligned(addr, size) || m.current.None? || m.current.value !in m.memory
         || addr + size > |m.memory[m.current.value]| then (m, Fatal)
      else (m, Value(Decode(m.memory[m.current.value][addr..addr + size])))
    case Write(addr, size, value) =>
      if Misaligned(addr, size) || m.current.None? || m.current.value !in m.memory
         || addr + size > |m.memory[m.current.value]| then (m, Fatal)
      else
        var c := m.current.value;
        (m.(memory := m.memory[c := Splice(m.memory[c], addr, Encode(value, size))]), Done)
    case SwitchTo(next, dead) =>
      (Memories(if dead.Some? then m.memory - {dead.value} else m.memory, next), Done)
    case Create(id, exe) => (m.(memory := m.memory[id := InitialMemory(exe)]), Done)
  }

  /** Each step either faults and changes no memory, or does exactly what the ideal machine does. */
  lemma StepIsIdeal(vm: Vm, s: Step)
    requires Inv(vm) && Enabled(vm, s)
    ensures var (w, out) := Exec(vm, s);
            if out == Faulted then Abs(w) == Abs(vm) else Ideal(Abs(vm), s) == (Abs(w), out)
  {
    hide Owners, TlbOk, CleanOk, ReadMem, WriteMem, Switch, CreateSpace;
    match s
    case Read(addr, size) =>
      ReadIsFlat(vm, addr, size);
    case Write(addr, size, value) =>
      WriteIsFlat(vm, addr, size, value);
    case SwitchTo(next, dead) =>
    case Create(id, exe) =>
      CreateIsFlat(vm, id, exe);
  }

  /** `steps` can be executed one after the other from `vm`. */
  predicate IsRun(vm: Vm, steps: seq<Step>)
    requires Inv(vm)
    decreases |steps|
  {
    steps == [] || (Enabled(vm, steps[0]) && IsRun(Exec(vm, steps[0]).0, steps[1..]))
  }

  function Outcomes(vm: Vm, steps: seq<Step>): (outs: seq<Outcome>)
    requires Inv(vm) && IsRun(vm, steps)
    ensures |outs| == |steps|
    decreases |steps|
  {
    if steps == [] then [] else
      var (w, out) := Exec(vm, steps[0]);
      [out] + Outcomes(w, steps[1..])
  }

  /** `outs` is what the ideal machine answers to `steps`, apart from faulted attempts, which it never sees. */
  ghost predicate Transparent(m: Memories, steps: seq<Step>, outs: seq<Outcome>)
    requires |outs| == |steps|
    decreases |steps|
  {
    steps == [] ||
    if outs[0] == Faulted then Transparent(m, steps[1..], outs[1..])
    else Ideal(m, steps[0]).1 == outs[0] && Transparent(Ideal(m, steps[0]).0, steps[1..], outs[1..])
  }

  /** In every run, of any length and with any interleaving of processes, every
      load returns what the process's own flat memory holds. */
  lemma {:induction false} RunsAreTransparent(vm: Vm, steps: seq<Step>)
    requires Inv(vm) && IsRun(vm, steps)
    ensures Transparent(Abs(vm), steps, Outcomes(vm, steps))
    decreases |steps|
  {
    if steps != [] {
      var (w, out) := Exec(vm, steps[0]);
      StepIsIdeal(vm, steps[0]);
      RunsAreTransparent(w, steps[1..]);
      assert Outcomes(vm, steps)[1..] == Outcomes(w, steps[1..]);
    }
  }

  /** The kernel boots with clear frames, an empty TLB and no process. */
  ghost predicate Boot(vm: Vm) {
    && Shape(vm) && NoSlots(vm) && vm.spaces == map[] && vm.current == None
    && vm.references == vm.lookups == 0 && vm.touched == []
    && (forall f :: 0 <= f < NUM_PHYS_PAGES ==> !vm.marked[f] && vm.core[f].lastUse == 0)
  }

  lemma BootIsOk(vm: Vm)
    requires Boot(vm)
    ensures Inv(vm) && Abs(vm) == Memories(map[], None)
  {
    assert Abs(vm).memory == map[];
  }

  function Final(vm: Vm, steps: seq<Step>): (w: Vm)
    requires Inv(vm) && IsRun(vm, steps)
    ensures Inv(w)
    decreases |steps|
  {
    if steps == [] then vm else Final(Exec(vm, steps[0]).0, steps[1..])
  }

  /** After any run a frame is marked if and only if a page is in it, and then the
      core map names that one page. */
  lemma FrameOwnership(boot: Vm, steps: seq<Step>, f: nat)
    requires Boot(boot) && Inv(boot) && IsRun(boot, steps) && f < NUM_PHYS_PAGES
    ensures var vm := Final(boot, steps);
            && (vm.marked[f] <==> exists id, v: nat :: IsPage(vm, id, v) && Pte(vm, id, v).physicalPage == f)
            && (vm.marked[f] ==> Owned(vm, f))
            && forall id, v: nat {:trigger Pte(vm, id, v)} :: IsPage(vm, id, v) && Pte(vm, id, v).physicalPage == f ==>
                 id == vm.core[f].spaceId && v == vm.core[f].virtualPage
  {
    var vm := Final(boot, steps);
    if vm.marked[f] {
      assert Owned(vm, f);
      assert Pte(vm, vm.core[f].spaceId, vm.core[f].virtualPage).physicalPage == f;
    }
  }

  /** No two valid TLB slots share a page or a frame, and each is backed by its owner's table. */
  lemma SlotsNeverAlias(boot: Vm, steps: seq<Step>, i: nat, j: nat)
    requires Boot(boot) && Inv(boot) && IsRun(boot, steps) && i < j < TLB_SIZE
    requires var vm := Final(boot, steps); vm.tlb[i].valid && vm.tlb[j].valid
    ensures var vm := Final(boot, steps);
            vm.tlb[i].virtualPage != vm.tlb[j].virtualPage && vm.tlb[i].physicalPage != vm.tlb[j].physicalPage
  {
    var vm := Final(boot, steps);
    assert SlotOk(vm, vm.tlb[i]) && SlotOk(vm, vm.tlb[j]);
  }
}
