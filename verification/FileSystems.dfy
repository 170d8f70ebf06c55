/** The file system's files: `Create`, `Write` and `Remove` on the map of free
    sectors and the chains of all files. */
module FileSystems {
  import opened Blocks
  import B = Bytes
  import opened Bitmaps
  import opened Headers
  import opened Chains
  import opened Growth
  import opened OpenFiles

  const FREE_MAP_SECTOR: nat := 0
  const DIRECTORY_SECTOR: nat := 1

  /** Chains by the sector of their first header. */
  type Files = map<nat, seq<nat>>

  ghost predicate Disjoint(v: Volume, a: seq<nat>, b: seq<nat>)
    requires ChainOk(v, a) && ChainOk(v, b)
  {
    forall x {:trigger Owns(v, a, x)} {:trigger Owns(v, b, x)} :: Owns(v, a, x) ==> !Owns(v, b, x)
  }

  /** Every file is a proper chain, no sector belongs to two files, and sector 0,
      which holds the map's own header, to none. */
  ghost predicate FilesOk(v: Volume, files: Files) {
    && |v.disk| == |v.bits| && 0 < |v.bits| <= WORD && v.bits[0]
    && (forall f {:trigger files[f]} :: f in files ==> ChainOk(v, files[f]) && files[f][0] == f && !Owns(v, files[f], 0))
    && (forall f, g {:trigger files[f], files[g]} :: f in files && g in files && f != g ==> Disjoint(v, files[f], files[g]))
  }

  /** What the files hold. */
  ghost function Contents(v: Volume, files: Files): map<nat, seq<B.Byte>>
    requires FilesOk(v, files)
  {
    map f | f in files :: Content(v, files[f])
  }

  /** One file changed within its frame: it is the only one that did. */
  lemma OneChanged(v: Volume, v': Volume, files: Files, f: nat, chain': seq<nat>)
    requires FilesOk(v, files) && f in files && ChainOk(v', chain') && chain'[0] == f && Frame(v, files[f], v', chain', {})
    ensures FilesOk(v', files[f := chain'])
    ensures Contents(v', files[f := chain']) == Contents(v, files)[f := Content(v', chain')]
  {
    hide CellsOk, CellsApart, Linked, Content, Frame, Owns;
    var files' := files[f := chain'];
    forall g {:trigger files[g]} | g in files && g != f
      ensures ChainOk(v', files[g]) && Content(v', files[g]) == Content(v, files[g]) && Disjoint(v', files[g], chain') && Disjoint(v', chain', files[g])
      ensures forall x: nat {:trigger Owns(v', files[g], x)} :: Owns(v', files[g], x) == Owns(v, files[g], x)
    {
      assert Disjoint(v, files[g], files[f]);
      FrameKeepsOthers(v, files[f], v', chain', files[g]);
    }
    FrameSizes(v, files[f], v', chain');
    forall g, h {:trigger files'[g], files'[h]} | g in files' && h in files' && g != h ensures Disjoint(v', files'[g], files'[h]) {
      if g != f && h != f { assert Disjoint(v, files[g], files[h]); }
    }
  }

  lemma FrameSizes(v: Volume, chain: seq<nat>, v': Volume, chain': seq<nat>)
    requires ChainOk(v, chain) && ChainOk(v', chain') && Frame(v, chain, v', chain', {})
    ensures |v'.disk| == |v'.bits| == |v.bits| == |v.disk| && forall x :: 0 <= x < |v.bits| && v.bits[x] ==> v'.bits[x]
    ensures |v.bits| > 0 && v.bits[0] && !Owns(v, chain, 0) ==> !Owns(v', chain', 0)
  {
  }

  // ------------------------------------------------------------------------- handles

  /** Offset `o` in the `k`th header of file `f`, in sector `s`, is a place to write from. */
  ghost predicate CursorOk(v: Volume, files: Files, f: nat, k: nat, s: nat, o: nat) {
    f in files && k < |files[f]| && files[f][k] == s < |v.disk| && o <= Hdr(v.disk, s).numBytes
  }

  /** A write through one handle leaves every other handle's cursor good, on the same file too. */
  lemma CursorsSurvive(v: Volume, v': Volume, files: Files, f: nat, chain': seq<nat>, d: seq<B.Byte>, pos: nat,
                       g: nat, k: nat, s: nat, o: nat)
    requires FilesOk(v, files) && f in files && Wrote(v, files[f], v', chain', d, pos) && CursorOk(v, files, g, k, s, o)
    ensures CursorOk(v', files[f := chain'], g, k, s, o)
  {
    hide Linked, CellsApart, Content, Frame, CellsOk, Owns;
    if g == f {
      HeadersOnlyGrow(v, files[f], v', chain', d, pos, k);
    } else {
      assert Disjoint(v, files[g], files[f]);
      OtherHeader(v, files[f], v', chain', files[g], k);
    }
  }

  lemma OtherHeader(v: Volume, chain: seq<nat>, v': Volume, chain': seq<nat>, other: seq<nat>, k: nat)
    requires ChainOk(v, chain) && ChainOk(v', chain') && ChainOk(v, other) && Frame(v, chain, v', chain', {})
    requires Disjoint(v, other, chain) && k < |other|
    ensures other[k] < |v.disk| == |v'.disk| && v'.disk[other[k]] == v.disk[other[k]]
  {
    hide Linked, CellsApart, Content;
    assert InCell(v.disk, other[k], other[k]) && Owns(v, other, other[k]);
    OwnedMarked(v, other, other[k]);
  }

  lemma HeadersOnlyGrow(v: Volume, chain: seq<nat>, v': Volume, chain': seq<nat>, d: seq<B.Byte>, pos: nat, k: nat)
    requires ChainOk(v, chain) && Wrote(v, chain, v', chain', d, pos) && k < |chain|
    ensures chain[k] == chain'[k] < |v'.disk| && Hdr(v.disk, chain[k]).numBytes <= Hdr(v'.disk, chain[k]).numBytes
  {
    hide Base, CellsApart, Frame, Content;
    NextHeader(v, chain, k);
    NextHeader(v', chain', k);
    PartsFull(v, chain);
    PartsFull(v', chain');
  }

  // -------------------------------------------------------------------------- Create

  /** An empty header in a sector that was free: a new, empty file; no other file changed. */
  lemma OneCreated(v: Volume, files: Files, s: nat, r: Raw)
    requires FilesOk(v, files) && s < |v.bits| && !v.bits[s] && r.numBytes == r.numSectors == r.nextFileHeader == 0
    ensures var v' := Volume(v.disk[s := Pack(r)], v.bits[s := true]);
      s !in files && FilesOk(v', files[s := [s]]) && Contents(v', files[s := [s]]) == Contents(v, files)[s := []]
  {
    hide CellsOk, CellsApart, Linked, Content, Owns;
    var v' := Volume(v.disk[s := Pack(r)], v.bits[s := true]);
    var files' := files[s := [s]];
    forall g {:trigger files[g]} | g in files
      ensures g != s && ChainOk(v', files[g]) && Content(v', files[g]) == Content(v, files[g]) && !Owns(v', files[g], s)
      ensures forall x: nat {:trigger Owns(v', files[g], x)} :: Owns(v', files[g], x) == Owns(v, files[g], x)
    {
      FreeSector(v, files[g], s);
      ChainFrame(v, v', files[g]);
    }
    EmptyChain(v', s, r);
    forall g, h {:trigger files'[g], files'[h]} | g in files' && h in files' && g != h ensures Disjoint(v', files'[g], files'[h]) {
      if g != s && h != s { assert Disjoint(v, files[g], files[h]); }
    }
  }

  lemma FreeSector(v: Volume, chain: seq<nat>, s: nat)
    requires ChainOk(v, chain) && s < |v.bits| && !v.bits[s]
    ensures chain[0] != s && !Owns(v, chain, s)
    ensures forall x {:trigger Owns(v, chain, x)} :: 0 <= x < |v.disk| && Owns(v, chain, x) ==> v.bits[x]
  {
    assert InCell(v.disk, chain[0], chain[0]);
    forall x: nat {:trigger Owns(v, chain, x)} | Owns(v, chain, x) ensures x < |v.bits| && v.bits[x] { OwnedMarked(v, chain, x); }
  }

  lemma EmptyChain(v: Volume, s: nat, r: Raw)
    requires 0 < s < |v.disk| == |v.bits| <= WORD && v.disk[s] == Pack(r) && v.bits[s]
    requires r.numBytes == r.numSectors == r.nextFileHeader == 0
    ensures ChainOk(v, [s]) && Content(v, [s]) == [] && forall x: nat {:trigger Owns(v, [s], x)} :: Owns(v, [s], x) <==> x == s
  {
    UnpackPack(r);
    assert Data(r) == [];
    RoundUpZero(SECTOR_SIZE);
    assert Sound(v.disk, r);
    assert CellOk(v, s);
    PartsFull(v, [s]);
    forall x: nat {:trigger Owns(v, [s], x)} ensures Owns(v, [s], x) <==> x == s { assert [s][0] == s; }
  }

  class FileSystem {
    const disk: Disk
    ghost var files: Files

    /** No files yet, on a disk whose map has sector 0 taken. */
    constructor (disk: Disk)
      requires disk.Valid() && disk.Vol().bits[0]
      ensures this.disk == disk && files == map[] && Valid() && All() == map[]
    {
      this.disk, files := disk, map[];
    }

    /** A new disk with just the sectors of the map's and the root directory's headers taken. */
    constructor Format(sectors: seq<Sector>)
      requires 2 <= |sectors| <= WORD
      ensures fresh(disk) && files == map[] && Valid() && All() == map[] && disk.sectors == sectors
      ensures disk.Vol().bits == seq(|sectors|, i => i == FREE_MAP_SECTOR || i == DIRECTORY_SECTOR)
    {
      hide DivRoundUp;
      var freeMap := new Bitmap(|sectors|);
      freeMap.Mark(FREE_MAP_SECTOR);
      freeMap.Mark(DIRECTORY_SECTOR);
      var file := freeMap.WriteBack();
      disk := new Disk(sectors, file);
      files := map[];
      new;
      assert disk.Vol().bits == seq(|sectors|, i => i == FREE_MAP_SECTOR || i == DIRECTORY_SECTOR);
    }

    ghost predicate Valid()
      reads this, disk
    {
      disk.Valid() && FilesOk(disk.Vol(), files)
    }

    ghost function All(): map<nat, seq<B.Byte>>
      requires Valid()
      reads this, disk
    {
      Contents(disk.Vol(), files)
    }

    method FetchMap() returns (freeMap: Bitmap)
      requires disk.Valid()
      ensures fresh(freeMap) && fresh(freeMap.words) && freeMap.Valid() && freeMap.numBits == |disk.sectors| && freeMap.Bits() == disk.Vol().bits
    {
      hide DivRoundUp;
      freeMap := new Bitmap(|disk.sectors|);
      freeMap.FetchFrom(disk.freeMap);
    }

    /** The header of a new file, in the first free sector; nothing changes when there is none. */
    method Create() returns (ok: bool, sector: nat)
      requires Valid()
      modifies this, disk
      ensures disk.Valid() && |disk.sectors| == old(|disk.sectors|) && (ok <==> CountClear(old(disk.Vol().bits)) > 0)
      ensures !ok ==> disk.Vol() == old(disk.Vol()) && files == old(files)
      ensures ok ==> 0 < sector < |disk.sectors| && sector !in old(files) && files == old(files)[sector := [sector]]
      ensures ok ==> !old(disk.Vol().bits)[sector] && disk.Vol().bits == old(disk.Vol().bits)[sector := true]
      ensures Valid() && All() == if ok then old(All())[sector := []] else old(All())
    {
      hide DivRoundUp, BitsOf, FilesOk, Contents;
      ghost var v := disk.Vol();
      ghost var r;
      ok, sector, r := CreateHeader();
      if ok {
        Marked0(v, files);
        OneCreated(v, files, sector, r);
        files := files[sector := [sector]];
      }
    }

    static lemma Marked0(v: Volume, files: Files)
      requires FilesOk(v, files)
      ensures |v.bits| > 0 && v.bits[0]
    {
    }

    method CreateHeader() returns (ok: bool, sector: nat, ghost r: Raw)
      requires disk.Valid()
      modifies disk
      ensures disk.Valid() && (ok <==> CountClear(old(disk.Vol().bits)) > 0)
      ensures !ok ==> disk.Vol() == old(disk.Vol())
      ensures ok ==> sector < |old(disk.sectors)| && !old(disk.Vol().bits)[sector] && r.numBytes == r.numSectors == r.nextFileHeader == 0
      ensures ok ==> disk.Vol() == Volume(old(disk.sectors)[sector := Pack(r)], old(disk.Vol().bits)[sector := true])
    {
      hide DivRoundUp, BitsOf;
      ghost var v := disk.Vol();
      var freeMap := FetchMap();
      CountPositive(freeMap.Bits());
      var found := freeMap.Find();
      sector, r := 0, Hdr(disk.sectors, 0);
      ok := found != -1;
      if ok {
        sector := found;
        assert !v.bits[sector];
        r := StoreEmpty(freeMap, sector);
      }
    }

    method StoreEmpty(freeMap: Bitmap, sector: nat) returns (ghost r: Raw)
      requires disk.Valid() && freeMap.Valid() && freeMap.numBits == |disk.sectors| && sector < |disk.sectors|
      modifies disk
      ensures disk.Valid() && r.numBytes == r.numSectors == r.nextFileHeader == 0
      ensures disk.Vol() == Volume(old(disk.sectors)[sector := Pack(r)], freeMap.Bits())
    {
      hide DivRoundUp, BitsOf;
      var firstHeader := new FileHeader();
      firstHeader.raw := firstHeader.raw.(nextFileHeader := 0, numBytes := 0, numSectors := 0);
      r := firstHeader.raw;
      firstHeader.WriteBack(disk, sector);
      disk.freeMap := freeMap.WriteBack();
    }

    // ---------------------------------------------------------------------------- Write

    /** A handle for writing on the file `f`, its cursor in the `k`th header. */
    ghost predicate Handle(h: OpenFile, f: nat, k: nat)
      requires disk.Valid()
      reads this, disk, h
    {
      h.disk == disk && f in files && h.At(files[f], k)
    }

    /** `Write` on one of several handles: only its file changes. */
    method Write(h: OpenFile, f: nat, from: seq<B.Byte>, ghost k: nat) returns (result: nat, ghost k': nat)
      requires Valid() && Handle(h, f, k) && |from| > 0
      modifies this, disk, h, h.hdr
      ensures Valid() && Handle(h, f, k') && f in old(All()) && result <= |from|
      ensures Base(CAPACITY, k') + h.seekPosition == Base(CAPACITY, k) + old(h.seekPosition) + result
      ensures All() == old(All())[f := B.WriteAt(old(All())[f], from[..result], Base(CAPACITY, k) + old(h.seekPosition))]
      ensures result == |from| <==>
        SectorsFor(LengthAfter(|old(All())[f]|, Base(CAPACITY, k) + old(h.seekPosition), |from|)) <=
        SectorsFor(|old(All())[f]|) + CountClear(old(disk.Vol().bits))
    {
      hide Base, DivRoundUp, BitsOf, ChainOk, Frame, Content, SectorsFor;
      ghost var v, chain := disk.Vol(), files[f];
      ghost var chain';
      result, chain', k' := h.Write(from, chain, k);
      SameFirst(chain, chain');
      OneChanged(v, disk.Vol(), files, f, chain');
      files := files[f := chain'];
    }

    /** A new file written through one handle and read through another gives back what went
        in; all of it went in exactly when the sectors for its length were free. */
    method WriteThenRead(from: seq<B.Byte>, numBytes: nat) returns (ok: bool, f: nat, written: nat, into: seq<B.Byte>)
      requires Valid() && |from| > 0 && numBytes > 0
      modifies this, disk
      ensures Valid() && (ok <==> CountClear(old(disk.Vol().bits)) > 0) && written <= |from|
      ensures ok ==> f !in old(All()) && All() == old(All())[f := from[..written]]
      ensures ok ==> into == B.ReadAt(from[..written], numBytes, 0)
      ensures ok ==> (written == |from| <==> SectorsFor(|from|) <= CountClear(old(disk.Vol().bits)))
    {
      hide Base, DivRoundUp, BitsOf, FilesOk, Contents, SectorsFor, B.ReadAt;
      ghost var bits := disk.Vol().bits;
      written, into := 0, [];
      KeysOfNew(disk.Vol(), files);
      ok, f := Create();
      if !ok {
        return;
      }
      CreatedCount(bits, f);
      written := WriteFirst(f, from);
      into := ReadFirst(f, numBytes);
    }

    /** Write through a new handle to an empty file. */
    method WriteFirst(f: nat, from: seq<B.Byte>) returns (written: nat)
      requires Valid() && f in All() && All()[f] == [] && |from| > 0
      modifies this, disk
      ensures Valid() && written <= |from| && All() == old(All())[f := from[..written]]
      ensures written == |from| <==> SectorsFor(|from|) <= SectorsFor(0) + CountClear(old(disk.Vol().bits))
    {
      hide Base, DivRoundUp, BitsOf, FilesOk, Contents, SectorsFor;
      KeysOfAll(disk.Vol(), files, f);
      InAll(disk.Vol(), files, f);
      var writer := new OpenFile(disk, f);
      BaseStep(CAPACITY, 0);
      ghost var k;
      written, k := Write(writer, f, from, 0);
      WroteFromStart(from[..written]);
    }

    /** Read through a new handle. */
    method ReadFirst(f: nat, numBytes: nat) returns (into: seq<B.Byte>)
      requires Valid() && f in All() && numBytes > 0
      ensures Valid() && into == B.ReadAt(All()[f], numBytes, 0)
    {
      hide Base, DivRoundUp, BitsOf, FilesOk, Contents, ChainOk, B.ReadAt;
      KeysOfAll(disk.Vol(), files, f);
      InAll(disk.Vol(), files, f);
      var reader := new OpenFile(disk, f);
      BaseStep(CAPACITY, 0);
      ghost var k;
      into, k := reader.Read(numBytes, files[f], 0);
    }

    static lemma KeysOfNew(v: Volume, files: Files)
      requires FilesOk(v, files)
      ensures Contents(v, files).Keys == files.Keys
    {
    }

    static lemma KeysOfAll(v: Volume, files: Files, f: nat)
      requires FilesOk(v, files)
      ensures f in Contents(v, files) <==> f in files
    {
    }

    static lemma InAll(v: Volume, files: Files, f: nat)
      requires FilesOk(v, files) && f in files
      ensures ChainOk(v, files[f]) && |files[f]| > 0 && files[f][0] == f < |v.disk| && f in Contents(v, files)
      ensures Contents(v, files)[f] == Content(v, files[f])
    {
      CellOfChain(v, files[f], 0);
    }

    static lemma CreatedCount(bits: seq<bool>, f: nat)
      requires f < |bits|
      ensures !bits[f] ==> CountClear(bits[f := true]) + 1 == CountClear(bits)
      ensures SectorsFor(0) == 1
    {
      CountAfter(bits, f, true);
      RoundUpZero(SECTOR_SIZE);
    }

    static lemma WroteFromStart(d: seq<B.Byte>)
      ensures B.WriteAt([], d, 0) == d
    {
    }

    static lemma SameFirst(chain: seq<nat>, chain': seq<nat>)
      requires chain <= chain' && |chain| > 0
      ensures chain'[0] == chain[0]
    {
    }

    // --------------------------------------------------------------------------- Remove

    /** Remove a file: exactly the sectors of its chain become free. */
    method Remove(f: nat)
      requires Valid() && f in files
      modifies this, disk
      ensures disk.Valid() && disk.sectors == old(disk.sectors) && files == old(files) - {f}
      ensures forall x: nat {:trigger disk.Vol().bits[x]} :: x < |disk.sectors| ==>
        disk.Vol().bits[x] == (old(disk.Vol()).bits[x] && !Owns(old(disk.Vol()), old(files)[f], x))
      ensures Valid() && All() == old(All()) - {f}
    {
      hide DivRoundUp, BitsOf, CellsApart, Linked, Content;
      ghost var v := disk.Vol();
      FreeChain(f, files[f]);
      OneRemoved(v, disk.Vol(), files, f);
      files := files - {f};
    }

    /** Clear the sectors of the chain that starts in `sector`, header by header. */
    method FreeChain(sector: nat, ghost chain: seq<nat>)
      requires disk.Valid() && chain != [] && ChainOk(disk.Vol(), chain) && chain[0] == sector
      modifies disk`freeMap
      ensures disk.Valid() && Without(old(disk.Vol()), disk.Vol().bits, chain, |chain|)
    {
      hide DivRoundUp, BitsOf, ChainOk, Without;
      ghost var v := disk.Vol();
      var fileH := new FileHeader();
      CellOfChain(v, chain, 0);
      CellIsSound(v, sector);
      fileH.FetchFrom(disk, sector);
      var freeMap := FetchMap();
      NoneGone(v, chain);
      FreeHeader(freeMap, fileH, sector, chain, 0);
      FreeNext(freeMap, fileH, chain);
      disk.freeMap := freeMap.WriteBack();
    }

    /** The loop over the headers after the first. */
    method FreeNext(freeMap: Bitmap, fileH: FileHeader, ghost chain: seq<nat>)
      requires disk.Valid() && ChainOk(disk.Vol(), chain) && chain[0] < |disk.sectors| && fileH.raw == Hdr(disk.sectors, chain[0])
      requires freeMap.Valid() && freeMap.numBits == |disk.sectors| && Without(disk.Vol(), freeMap.Bits(), chain, 1)
      modifies fileH, freeMap.words
      ensures Without(disk.Vol(), freeMap.Bits(), chain, |chain|)
    {
      hide DivRoundUp, BitsOf, ChainOk, Without;
      ghost var v := disk.Vol();
      var nextSector := fileH.raw.nextFileHeader;
      ghost var k := 1;
      WithoutCount(v, freeMap.Bits(), chain, k);
      while nextSector != 0
        invariant 1 <= k <= |chain| && chain[k - 1] < |v.disk| && Without(v, freeMap.Bits(), chain, k)
        invariant nextSector == Hdr(v.disk, chain[k - 1]).nextFileHeader
        decreases |chain| - k
      {
        NextHeader(v, chain, k - 1);
        CellOfChain(v, chain, k);
        CellIsSound(v, chain[k]);
        fileH.FetchFrom(disk, nextSector);
        FreeHeader(freeMap, fileH, nextSector, chain, k);
        k := k + 1;
        nextSector := fileH.raw.nextFileHeader;
      }
      NextHeader(v, chain, k - 1);
    }

    /** One header: its data sectors, then its own. */
    method FreeHeader(freeMap: Bitmap, fileH: FileHeader, s: nat, ghost chain: seq<nat>, ghost k: nat)
      requires disk.Valid() && ChainOk(disk.Vol(), chain) && k < |chain| && chain[k] == s && s < |disk.sectors|
      requires fileH.raw == Hdr(disk.sectors, s)
      requires freeMap.Valid() && freeMap.numBits == |disk.sectors| && Without(disk.Vol(), freeMap.Bits(), chain, k)
      modifies freeMap.words
      ensures Without(disk.Vol(), freeMap.Bits(), chain, k + 1)
    {
      hide DivRoundUp, BitsOf, Without, CellsApart, Linked;
      StillMarked(disk.Vol(), freeMap.Bits(), chain, k);
      ghost var bits := freeMap.Bits();
      fileH.Deallocate(freeMap, disk.sectors);
      ghost var bits1 := freeMap.Bits();
      freeMap.Clear(s);
      OneGone(disk.Vol(), bits, bits1, freeMap.Bits(), chain, k);
    }
  }

  // ---------------------------------------------------------------- removing, on values

  /** `bits` are the marks of `v` less the cells of the first `k` headers. */
  ghost predicate Without(v: Volume, bits: seq<bool>, chain: seq<nat>, k: nat)
    requires ChainOk(v, chain)
  {
    && |bits| == |v.bits| && k <= |chain|
    && forall x {:trigger bits[x]} :: 0 <= x < |bits| ==> bits[x] == (v.bits[x] && !InFirst(v, chain, k, x))
  }

  ghost predicate InFirst(v: Volume, chain: seq<nat>, k: nat, x: nat)
    requires ChainOk(v, chain) && k <= |chain|
  {
    exists i {:trigger chain[i]} :: 0 <= i < k && InCell(v.disk, chain[i], x)
  }

  lemma WithoutCount(v: Volume, bits: seq<bool>, chain: seq<nat>, k: nat)
    requires ChainOk(v, chain) && Without(v, bits, chain, k)
    ensures k <= |chain|
  {
  }

  lemma NoneGone(v: Volume, chain: seq<nat>)
    requires ChainOk(v, chain)
    ensures Without(v, v.bits, chain, 0)
  {
  }

  lemma InFirstStep(v: Volume, chain: seq<nat>, k: nat, x: nat)
    requires ChainOk(v, chain) && k < |chain|
    ensures InFirst(v, chain, k + 1, x) <==> InFirst(v, chain, k, x) || InCell(v.disk, chain[k], x)
  {
  }

  /** What the first headers gave back is not the next one's. */
  lemma StillMarked(v: Volume, bits: seq<bool>, chain: seq<nat>, k: nat)
    requires ChainOk(v, chain) && k < |chain| && Without(v, bits, chain, k)
    ensures Sound(v.disk, Hdr(v.disk, chain[k])) && forall x :: x in Data(Hdr(v.disk, chain[k])) ==> x < |bits| && bits[x]
  {
    hide Linked;
    forall x | x in Data(Hdr(v.disk, chain[k])) ensures x < |bits| && bits[x] {
      assert InCell(v.disk, chain[k], x);
    }
  }

  lemma OneGone(v: Volume, bits: seq<bool>, bits1: seq<bool>, bits2: seq<bool>, chain: seq<nat>, k: nat)
    requires ChainOk(v, chain) && k < |chain| && Without(v, bits, chain, k)
    requires Cleared(bits, bits1, Data(Hdr(v.disk, chain[k]))) && bits2 == bits1[chain[k] := false]
    ensures Without(v, bits2, chain, k + 1)
  {
    hide Linked, CellsApart;
    forall x {:trigger bits2[x]} | 0 <= x < |bits2| ensures bits2[x] == (v.bits[x] && !InFirst(v, chain, k + 1, x)) {
      InFirstStep(v, chain, k, x);
    }
  }

  lemma OneRemoved(v: Volume, v': Volume, files: Files, f: nat)
    requires FilesOk(v, files) && f in files && v'.disk == v.disk && Without(v, v'.bits, files[f], |files[f]|)
    ensures FilesOk(v', files - {f}) && Contents(v', files - {f}) == Contents(v, files) - {f}
    ensures forall x {:trigger v'.bits[x]} :: 0 <= x < |v.bits| ==> v'.bits[x] == (v.bits[x] && !Owns(v, files[f], x))
  {
    hide CellsApart, Linked, Content, InCell;
    var rest := files - {f};
    assert forall x :: InFirst(v, files[f], |files[f]|, x) == Owns(v, files[f], x);
    forall g {:trigger files[g]} | g in files && g != f
      ensures ChainOk(v', files[g]) && Content(v', files[g]) == Content(v, files[g])
      ensures forall x: nat {:trigger Owns(v', files[g], x)} :: Owns(v', files[g], x) == Owns(v, files[g], x)
    {
      assert Disjoint(v, files[g], files[f]);
      forall x {:trigger Owns(v, files[g], x)} | 0 <= x < |v.disk| && Owns(v, files[g], x) ensures v'.bits[x] {
        OwnedMarked(v, files[g], x);
      }
      ChainFrame(v, v', files[g]);
    }
    assert !Owns(v, files[f], 0);
    forall g, h {:trigger rest[g], rest[h]} | g in rest && h in rest && g != h ensures Disjoint(v', rest[g], rest[h]) {
      assert Disjoint(v, files[g], files[h]);
    }
  }
}
