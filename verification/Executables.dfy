/** NOFF executables: the page the demand loader builds for a fault, and the
    image the eager loader builds up front. */
module Executables {
  import opened Blocks
  import opened Bytes

  /** Any positive number; 128 in this build. */
  type PageSize = n: nat | n > 0 witness 128
  const PAGE_SIZE: PageSize

  const USER_STACK_SIZE: nat := 2048
  const NOFF_MAGIC: nat := 0xBADFAD
  const NOFF_HEADER_SIZE: nat := 40

  datatype Executable = Executable(
    file: seq<Byte>,
    codeSize: nat, codeAddr: nat, codeInFile: nat,
    dataSize: nat, dataAddr: nat, dataInFile: nat,
    bssSize: nat)
  {
    /** Word `k` of the file, in the machine's own byte order. */
    function HeaderWord(k: nat): nat
      requires 4 * k + 4 <= |file|
    {
      var b0: int, b1: int, b2: int, b3: int := file[4 * k], file[4 * k + 1], file[4 * k + 2], file[4 * k + 3];
      b0 + 256 * (b1 + 256 * (b2 + 256 * b3))
    }

    /** The file starts with the NOFF header that these fields were read from. */
    predicate HasHeader() {
      && |file| >= NOFF_HEADER_SIZE && HeaderWord(0) == NOFF_MAGIC
      && HeaderWord(1) == codeAddr && HeaderWord(2) == codeInFile && HeaderWord(3) == codeSize
      && HeaderWord(4) == dataAddr && HeaderWord(5) == dataInFile && HeaderWord(6) == dataSize
      && HeaderWord(9) == bssSize
    }

    /** No page boundary of the process lies behind as many bytes as there are of code and
        data and still before the end of the data: something a header alone decides. */
    predicate Loadable() {
      var k := DivRoundUp(PAGE_SIZE, codeSize + dataSize);
      dataSize == 0 || NumPages() <= k || dataAddr + dataSize <= Base(PAGE_SIZE, k)
    }

    /** The layout `coff2noff` gives text followed by data. */
    predicate TextThenData() {
      && (codeSize > 0 ==> codeAddr == 0)
      && (dataSize > 0 ==> dataAddr == codeSize)
      && (codeSize > 0 && dataSize > 0 ==> dataInFile == codeInFile + codeSize)
    }

    /** No nonzero byte follows the segments within reach of the page that holds the end of the code. */
    ghost predicate CleanTail() {
      forall a: nat :: codeSize + dataSize <= a < Base(PAGE_SIZE, DivRoundUp(PAGE_SIZE, codeSize)) ==> AfterCode(a) == 0
    }

    function NumPages(): nat { DivRoundUp(PAGE_SIZE, codeSize + dataSize + bssSize + USER_STACK_SIZE) }

    /** Byte `a` of the initial memory image: data over code over zeros. */
    function ImageByte(a: nat): Byte {
      if dataAddr <= a < dataAddr + dataSize && dataInFile + (a - dataAddr) < |file| then file[dataInFile + (a - dataAddr)]
      else if codeAddr <= a < codeAddr + codeSize && codeInFile + (a - codeAddr) < |file| then file[codeInFile + (a - codeAddr)]
      else 0
    }

    function FileByte(i: nat): Byte { if i < |file| then file[i] else 0 }

    /** The file's byte at distance `a` from the start of the code. */
    function AfterCode(a: nat): Byte { FileByte(codeInFile + a) }
  }

  /** How much of the page at `base` the code segment fills. */
  function CodeRead(exe: Executable, base: nat): nat {
    if base < exe.codeSize then
      if exe.codeSize - base < PAGE_SIZE then exe.codeSize - base else PAGE_SIZE
    else 0
  }

  /** How many data bytes follow the code in the page at `base`. */
  function DataRead(exe: Executable, base: nat): nat {
    var read := CodeRead(exe, base);
    if exe.dataSize > 0 && base + read < exe.dataAddr + exe.dataSize && read != PAGE_SIZE then
      var left := exe.dataAddr + exe.dataSize - (base + read);
      if left < PAGE_SIZE - read then left else PAGE_SIZE - read
    else 0
  }

  /** Where in the data segment those bytes start. */
  function DataOffset(exe: Executable, base: nat): nat {
    if base < exe.codeSize then 0 else base - exe.codeSize
  }

  function CodeBytes(exe: Executable, base: nat): seq<Byte> {
    if CodeRead(exe, base) == 0 then [] else ReadAt(exe.file, PAGE_SIZE, exe.codeInFile + base)
  }

  function DataBytes(exe: Executable, base: nat): seq<Byte> {
    var toRead := DataRead(exe, base);
    if toRead == 0 then [] else ReadAt(exe.file, toRead, exe.dataInFile + DataOffset(exe, base))
  }

  /** Page `vpn` as `LoadPage` assembles it from the executable, in a frame of zeros. */
  function LoadedPage(exe: Executable, vpn: nat): (page: seq<Byte>)
    ensures |page| == PAGE_SIZE
  {
    var base := Base(PAGE_SIZE, vpn);
    Overlay(Overlay(Zeros(PAGE_SIZE), 0, CodeBytes(exe, base)), CodeRead(exe, base), DataBytes(exe, base))
  }

  /** The loaded page is laid out as data over code over zeros. */
  lemma PageLayout(exe: Executable, vpn: nat, base: nat, o: nat)
    requires o < PAGE_SIZE && base == Base(PAGE_SIZE, vpn)
    ensures var code, data, read := CodeBytes(exe, base), DataBytes(exe, base), CodeRead(exe, base);
            LoadedPage(exe, vpn)[o] ==
            if read <= o < read + |data| then data[o - read] else if o < |code| then code[o] else 0
  {
  }

  lemma CodeByte(exe: Executable, base: nat, o: nat)
    requires o < PAGE_SIZE
    ensures base < exe.codeSize ==>
              (if o < |CodeBytes(exe, base)| then CodeBytes(exe, base)[o] else 0) == exe.AfterCode(base + o)
    ensures base >= exe.codeSize ==> CodeBytes(exe, base) == []
  {
  }

  lemma InCode(exe: Executable, vpn: nat, base: nat, o: nat)
    requires exe.TextThenData() && o < PAGE_SIZE && base == Base(PAGE_SIZE, vpn)
    requires base + o < exe.codeSize
    ensures LoadedPage(exe, vpn)[o] == exe.ImageByte(base + o)
  {
    PageLayout(exe, vpn, base, o);
    CodeByte(exe, base, o);
    assert o < CodeRead(exe, base);
  }

  lemma DataByte(exe: Executable, base: nat, o: nat)
    requires exe.TextThenData() && o < PAGE_SIZE
    requires exe.codeSize <= base + o < exe.codeSize + exe.dataSize
    ensures var read, data, i := CodeRead(exe, base), DataBytes(exe, base), exe.dataInFile + (base + o - exe.codeSize);
            && read <= o
            && (o < read + |data| ==> i < |exe.file| && data[o - read] == exe.file[i])
            && (o >= read + |data| ==> i >= |exe.file| && o >= |CodeBytes(exe, base)|)
  {
    assert o - CodeRead(exe, base) < DataRead(exe, base);
  }

  lemma InData(exe: Executable, vpn: nat, base: nat, o: nat)
    requires exe.TextThenData() && o < PAGE_SIZE && base == Base(PAGE_SIZE, vpn)
    requires exe.codeSize <= base + o < exe.codeSize + exe.dataSize
    ensures LoadedPage(exe, vpn)[o] == exe.ImageByte(base + o)
  {
    PageLayout(exe, vpn, base, o);
    DataByte(exe, base, o);
  }

  lemma PastData(exe: Executable, vpn: nat, base: nat, o: nat)
    requires exe.TextThenData() && o < PAGE_SIZE && base == Base(PAGE_SIZE, vpn)
    requires exe.codeSize + exe.dataSize <= base + o
    ensures LoadedPage(exe, vpn)[o] == if base < exe.codeSize then exe.AfterCode(base + o) else 0
    ensures exe.ImageByte(base + o) == 0
  {
    PageLayout(exe, vpn, base, o);
    CodeByte(exe, base, o);
    assert CodeRead(exe, base) + |DataBytes(exe, base)| <= o;
  }

  ghost predicate LoadsImage(exe: Executable) {
    forall vpn: nat, o: nat {:trigger LoadedPage(exe, vpn)[o]} :: o < PAGE_SIZE ==>
      LoadedPage(exe, vpn)[o] == exe.ImageByte(Base(PAGE_SIZE, vpn) + o)
  }

  /** A byte below the rounded-up end of `size` bytes is in a page that starts below `size`. */
  lemma InLastPage(size: nat, a: nat)
    requires a < Base(PAGE_SIZE, DivRoundUp(PAGE_SIZE, size))
    ensures Base(PAGE_SIZE, Index(PAGE_SIZE, a)) < size
  {
    IndexBelow(PAGE_SIZE, a, DivRoundUp(PAGE_SIZE, size));
    RoundUpCovers(PAGE_SIZE, size, Index(PAGE_SIZE, a));
  }

  lemma BelowRoundUp(size: nat, vpn: nat, o: nat)
    requires Base(PAGE_SIZE, vpn) < size && o < PAGE_SIZE
    ensures Base(PAGE_SIZE, vpn) + o < Base(PAGE_SIZE, DivRoundUp(PAGE_SIZE, size))
  {
    RoundUpCovers(PAGE_SIZE, size, vpn);
    Apart(PAGE_SIZE, vpn, DivRoundUp(PAGE_SIZE, size));
  }

  lemma PastDataClean(exe: Executable, vpn: nat, base: nat, o: nat)
    requires exe.TextThenData() && exe.CleanTail() && o < PAGE_SIZE && base == Base(PAGE_SIZE, vpn)
    requires exe.codeSize + exe.dataSize <= base + o
    ensures LoadedPage(exe, vpn)[o] == exe.ImageByte(base + o)
  {
    PastData(exe, vpn, base, o);
    if base < exe.codeSize { BelowRoundUp(exe.codeSize, vpn, o); }
  }

  lemma CleanTailLoads(exe: Executable, vpn: nat, base: nat, o: nat)
    requires exe.TextThenData() && exe.CleanTail() && o < PAGE_SIZE && base == Base(PAGE_SIZE, vpn)
    ensures LoadedPage(exe, vpn)[o] == exe.ImageByte(base + o)
  {
    if base + o < exe.codeSize {
      InCode(exe, vpn, base, o);
    } else if base + o < exe.codeSize + exe.dataSize {
      InData(exe, vpn, base, o);
    } else {
      PastDataClean(exe, vpn, base, o);
    }
  }

  lemma DirtyTailLeaks(exe: Executable) returns (vpn: nat, o: nat)
    requires exe.TextThenData() && !exe.CleanTail()
    ensures o < PAGE_SIZE && LoadedPage(exe, vpn)[o] != exe.ImageByte(Base(PAGE_SIZE, vpn) + o)
  {
    var a: nat :| exe.codeSize + exe.dataSize <= a < Base(PAGE_SIZE, DivRoundUp(PAGE_SIZE, exe.codeSize))
                  && exe.AfterCode(a) != 0;
    vpn, o := Index(PAGE_SIZE, a), Offset(PAGE_SIZE, a);
    assert Base(PAGE_SIZE, vpn) + o == a && Base(PAGE_SIZE, vpn) < exe.codeSize by {
      Split(PAGE_SIZE, a);
      InLastPage(exe.codeSize, a);
    }
    PastData(exe, vpn, Base(PAGE_SIZE, vpn), o);
  }

  /** Demand loading builds exactly the eager image, page by page and wherever
      the code/data boundary falls, if and only if the file's tail is clean. */
  lemma DemandEqualsEager(exe: Executable)
    requires exe.TextThenData()
    ensures exe.CleanTail() <==> LoadsImage(exe)
  {
    if exe.CleanTail() {
      forall vpn: nat, o: nat | o < PAGE_SIZE
        ensures LoadedPage(exe, vpn)[o] == exe.ImageByte(Base(PAGE_SIZE, vpn) + o)
      {
        CleanTailLoads(exe, vpn, Base(PAGE_SIZE, vpn), o);
      }
    } else {
      var vpn, o := DirtyTailLeaks(exe);
    }
  }

  /** A file that ends with its segments has a clean tail. */
  lemma NothingAfterIsClean(exe: Executable)
    requires |exe.file| <= exe.codeInFile + exe.codeSize + exe.dataSize
    ensures exe.CleanTail()
  {
  }

  /** A proper NOFF file of a one-byte program and one byte after it. */
  function TrailingByte(): Executable {
    Executable([0xAD, 0xDF, 0xBA, 0, 0, 0, 0, 0, 40, 0, 0, 0, 1, 0, 0, 0] + Zeros(24) + [7, 9], 1, 0, 40, 0, 0, 0, 0)
  }

  /** The loader accepts it, and the trailing byte shows up in its zero-filled page. */
  lemma TrailingByteLeaksIn()
    requires PAGE_SIZE >= 2
    ensures var exe := TrailingByte();
      && exe.HasHeader() && exe.TextThenData() && exe.Loadable() && !exe.CleanTail()
      && LoadedPage(exe, 0)[1] == 9 && exe.ImageByte(1) == 0
  {
    var exe := TrailingByte();
    assert exe.AfterCode(1) == 9;
    RoundUpCovers(PAGE_SIZE, 1, 1);
    RoundUpCovers(PAGE_SIZE, 1, 0);
    PastData(exe, 0, 0, 1);
  }

  /** A process has room for code, data, uninitialised data and 2048 bytes of stack, and not
      a page more than that takes. */
  lemma MemoryIsJustEnough(exe: Executable)
    ensures exe.codeSize + exe.dataSize + exe.bssSize + 2048 <= Base(PAGE_SIZE, exe.NumPages())
    ensures exe.NumPages() > 0 && Base(PAGE_SIZE, exe.NumPages() - 1) < exe.codeSize + exe.dataSize + exe.bssSize + 2048
  {
    var n := exe.codeSize + exe.dataSize + exe.bssSize + 2048;
    RoundUpCovers(PAGE_SIZE, n, exe.NumPages());
    RoundUpCovers(PAGE_SIZE, n, 0);
    RoundUpCovers(PAGE_SIZE, n, exe.NumPages() - 1);
  }

  // -------------------------------------------------------------- the loader's assertions

  /** What `ReadCodeBlock` and `ReadDataBlock` assert when page `vpn` is loaded: the offset
      they are given is within the segment. */
  predicate BlocksInRange(exe: Executable, vpn: nat) {
    var base := Base(PAGE_SIZE, vpn);
    && (CodeRead(exe, base) > 0 ==> base < exe.codeSize)
    && (DataRead(exe, base) > 0 ==> DataOffset(exe, base) < exe.dataSize)
  }

  lemma BlocksInRangeAt(exe: Executable, vpn: nat)
    ensures var base := Base(PAGE_SIZE, vpn);
      BlocksInRange(exe, vpn) <==> exe.dataSize == 0 || base < exe.codeSize + exe.dataSize || exe.dataAddr + exe.dataSize <= base
  {
  }

  /** The assertions hold for every page of the process if and only if the header is loadable. */
  lemma LoadableIff(exe: Executable)
    ensures (forall vpn: nat :: vpn < exe.NumPages() ==> BlocksInRange(exe, vpn)) <==> exe.Loadable()
  {
    hide Base, DivRoundUp, BlocksInRange;
    var k := DivRoundUp(PAGE_SIZE, exe.codeSize + exe.dataSize);
    RoundUpCovers(PAGE_SIZE, exe.codeSize + exe.dataSize, k);
    if exe.Loadable() {
      forall vpn: nat | vpn < exe.NumPages() ensures BlocksInRange(exe, vpn) {
        BlocksInRangeAt(exe, vpn);
        RoundUpCovers(PAGE_SIZE, exe.codeSize + exe.dataSize, vpn);
        if k < vpn { Apart(PAGE_SIZE, k, vpn); }
      }
    } else {
      BlocksInRangeAt(exe, k);
    }
  }

  /** Data that does not start behind the code, as in every file `coff2noff` writes, is loadable. */
  lemma TextThenDataLoadable(exe: Executable)
    requires exe.dataSize > 0 ==> exe.dataAddr <= exe.codeSize
    ensures exe.Loadable()
  {
    var n := exe.codeSize + exe.dataSize;
    RoundUpCovers(PAGE_SIZE, n, DivRoundUp(PAGE_SIZE, n));
  }

  /** The eager constructor's physical address for virtual address `a`. */
  function Physical(frames: seq<nat>, a: nat): nat
    requires Index(PAGE_SIZE, a) < |frames|
  {
    Base(PAGE_SIZE, frames[Index(PAGE_SIZE, a)]) + Offset(PAGE_SIZE, a)
  }

  ghost predicate DistinctFrames(frames: seq<nat>, size: nat) {
    && (forall i :: 0 <= i < |frames| ==> Base(PAGE_SIZE, frames[i]) + PAGE_SIZE <= size)
    && (forall i, j :: 0 <= i < j < |frames| ==> frames[i] != frames[j])
  }

  lemma PhysicalInjective(frames: seq<nat>, size: nat, a: nat, b: nat)
    requires DistinctFrames(frames, size)
    requires Index(PAGE_SIZE, a) < |frames| && Index(PAGE_SIZE, b) < |frames|
    ensures Physical(frames, a) < size
    ensures Physical(frames, a) == Physical(frames, b) ==> a == b
  {
    Split(PAGE_SIZE, a);
    Split(PAGE_SIZE, b);
    var f, g := frames[Index(PAGE_SIZE, a)], frames[Index(PAGE_SIZE, b)];
    if f < g { Apart(PAGE_SIZE, f, g); } else if g < f { Apart(PAGE_SIZE, g, f); }
  }

  /** Copy one segment, a byte at a time, through the page table. */
  method CopySegment(exe: Executable, frames: seq<nat>, mainMemory: array<Byte>,
                     virtualAddr: nat, size: nat, inFileAddr: nat)
    requires DistinctFrames(frames, mainMemory.Length)
    requires virtualAddr + size <= Base(PAGE_SIZE, |frames|)
    modifies mainMemory
    ensures forall a: nat {:trigger Physical(frames, a)} :: Index(PAGE_SIZE, a) < |frames| ==>
      Physical(frames, a) < mainMemory.Length &&
      mainMemory[Physical(frames, a)] ==
        if virtualAddr <= a < virtualAddr + size && inFileAddr + (a - virtualAddr) < |exe.file|
        then exe.file[inFileAddr + (a - virtualAddr)] else old(mainMemory[Physical(frames, a)])
  {
    forall a: nat {:trigger Physical(frames, a)} | Index(PAGE_SIZE, a) < |frames|
      ensures Physical(frames, a) < mainMemory.Length
    {
      PhysicalInjective(frames, mainMemory.Length, a, a);
    }
    for i := 0 to size
      invariant forall a: nat {:trigger Physical(frames, a)} :: Index(PAGE_SIZE, a) < |frames| ==>
        mainMemory[Physical(frames, a)] ==
          if virtualAddr <= a < virtualAddr + i && inFileAddr + (a - virtualAddr) < |exe.file|
          then exe.file[inFileAddr + (a - virtualAddr)] else old(mainMemory[Physical(frames, a)])
    {
      IndexBelow(PAGE_SIZE, virtualAddr + i, |frames|);
      var physicalAddressToWrite := Physical(frames, virtualAddr + i);
      var read := ReadAt(exe.file, 1, inFileAddr + i);
      if read != [] {
        mainMemory[physicalAddressToWrite] := read[0];
      }
      forall a: nat {:trigger Physical(frames, a)} | Index(PAGE_SIZE, a) < |frames|
        ensures Physical(frames, a) == physicalAddressToWrite ==> a == virtualAddr + i
      {
        PhysicalInjective(frames, mainMemory.Length, a, virtualAddr + i);
      }
    }
  }

  /** The constructor without demand loading: zero the frames, copy the code,
      copy the data.  Afterwards every virtual address holds its image byte. */
  method EagerLoad(exe: Executable, frames: seq<nat>, mainMemory: array<Byte>)
    requires DistinctFrames(frames, mainMemory.Length)
    requires exe.codeSize > 0 ==> exe.codeAddr + exe.codeSize <= Base(PAGE_SIZE, |frames|)
    requires exe.dataSize > 0 ==> exe.dataAddr + exe.dataSize <= Base(PAGE_SIZE, |frames|)
    modifies mainMemory
    ensures forall a: nat {:trigger Physical(frames, a)} :: Index(PAGE_SIZE, a) < |frames| ==>
      Physical(frames, a) < mainMemory.Length && mainMemory[Physical(frames, a)] == exe.ImageByte(a)
  {
    forall a: nat {:trigger Physical(frames, a)} | Index(PAGE_SIZE, a) < |frames|
      ensures Physical(frames, a) < mainMemory.Length
    {
      PhysicalInjective(frames, mainMemory.Length, a, a);
    }
    for i := 0 to |frames|
      invariant forall a: nat {:trigger Physical(frames, a)} :: Index(PAGE_SIZE, a) < i ==>
        mainMemory[Physical(frames, a)] == 0
    {
      var base := Base(PAGE_SIZE, frames[i]);
      for o := 0 to PAGE_SIZE
        invariant forall a: nat {:trigger Physical(frames, a)} ::
          Index(PAGE_SIZE, a) < i || (Index(PAGE_SIZE, a) == i && Offset(PAGE_SIZE, a) < o) ==>
          mainMemory[Physical(frames, a)] == 0
      {
        mainMemory[base + o] := 0;
      }
    }
    if exe.codeSize > 0 {
      CopySegment(exe, frames, mainMemory, exe.codeAddr, exe.codeSize, exe.codeInFile);
    }
    if exe.dataSize > 0 {
      CopySegment(exe, frames, mainMemory, exe.dataAddr, exe.dataSize, exe.dataInFile);
    }
  }
}
