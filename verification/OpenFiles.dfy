/** `filesys/open_file.cc` and `filesys/file_header.cc`: files as chains of
    one-sector headers on a disk with a map of free sectors. */
module OpenFiles {
  import opened Blocks
  import B = Bytes
  import opened Headers
  import opened Bitmaps
  import opened Chains
  import opened Growth

  /** `buf` starts with `n` bytes of `image`, those from `base` on. */
  ghost predicate Copied(buf: seq<B.Byte>, image: seq<B.Byte>, base: nat, n: nat) {
    n <= |buf| && base + n <= |image| && forall y {:trigger buf[y]} :: 0 <= y < n ==> buf[y] == image[base + y]
  }

  lemma CopyOne(buf: seq<B.Byte>, disk: seq<Sector>, data: seq<nat>, first: nat, i: nat)
    requires Distinct(disk, data) && first <= i < |data|
    requires Copied(buf, Image(disk, data), Base(SECTOR_SIZE, first), Base(SECTOR_SIZE, i - first))
    requires Base(SECTOR_SIZE, i - first) + SECTOR_SIZE <= |buf|
    ensures Copied(B.Splice(buf, Base(SECTOR_SIZE, i - first), disk[data[i]]), Image(disk, data),
                   Base(SECTOR_SIZE, first), Base(SECTOR_SIZE, i + 1 - first))
  {
    var image, base, o := Image(disk, data), Base(SECTOR_SIZE, first), Base(SECTOR_SIZE, i - first);
    BaseSum(SECTOR_SIZE, first, i - first);
    ImageAt(disk, data, i, SECTOR_SIZE - 1);
    var buf' := B.Splice(buf, o, disk[data[i]]);
    forall y {:trigger buf'[y]} | 0 <= y < o + SECTOR_SIZE ensures buf'[y] == image[base + y] {
      if y >= o { ImageAt(disk, data, i, y - o); }
    }
  }

  lemma ScatterOne(disk: seq<Sector>, disk': seq<Sector>, data: seq<nat>, first: nat, i: nat, buf: seq<B.Byte>, d: Sector)
    requires Distinct(disk, data) && Distinct(disk', data) && first <= i < |data|
    requires var n := Base(SECTOR_SIZE, i - first);
      n + SECTOR_SIZE <= |buf| && d == buf[n..n + SECTOR_SIZE] && Base(SECTOR_SIZE, first) + n <= Base(SECTOR_SIZE, |data|) &&
      Image(disk', data) == B.Splice(Image(disk, data), Base(SECTOR_SIZE, first), buf[..n])
    ensures var n := Base(SECTOR_SIZE, i + 1 - first);
      n <= |buf| && Base(SECTOR_SIZE, first) + n <= Base(SECTOR_SIZE, |data|) && Distinct(disk'[data[i] := d], data) &&
      Image(disk'[data[i] := d], data) == B.Splice(Image(disk, data), Base(SECTOR_SIZE, first), buf[..n])
  {
    WriteOne(disk', data, i, d);
    BaseSum(SECTOR_SIZE, first, i - first);
  }

  /** What `new char[n]` returns: its bytes are whatever was there. */
  method NewBuffer(n: nat) returns (buf: seq<B.Byte>)
    ensures |buf| == n
  {
    buf := B.Zeros(n);
  }

  /** The listed bits were cleared, the others left. */
  ghost predicate Cleared(bits: seq<bool>, bits': seq<bool>, gone: seq<nat>) {
    |bits'| == |bits| && forall x {:trigger bits'[x]} :: 0 <= x < |bits| ==> bits'[x] == (bits[x] && x !in gone)
  }

  class Disk {
    var sectors: seq<Sector>
    /** The words of the free-map file. */
    var freeMap: seq<nat>

    ghost predicate Valid()
      reads this
    {
      0 < |sectors| <= WORD && |freeMap| == DivRoundUp(BITS_IN_WORD, |sectors|)
    }

    ghost function Vol(): (v: Volume)
      requires Valid()
      reads this
    {
      Volume(sectors, BitsOf(freeMap, |sectors|))
    }

    constructor (sectors: seq<Sector>, freeMap: seq<nat>)
      ensures this.sectors == sectors && this.freeMap == freeMap
    {
      this.sectors, this.freeMap := sectors, freeMap;
    }

    method ReadSector(s: nat) returns (d: Sector)
      requires s < |sectors|
      ensures d == sectors[s]
    {
      d := sectors[s];
    }

    method WriteSector(s: nat, d: Sector)
      requires s < |sectors|
      modifies this`sectors
      ensures sectors == old(sectors)[s := d]
    {
      sectors := sectors[s := d];
    }
  }

  /** Writing `d` to sector `s` replaces the block of bytes that starts at `start`, nothing else. */
  ghost predicate ReplacesBlock(disk: seq<Sector>, data: seq<nat>, s: nat, start: nat, d: Sector)
    requires Distinct(disk, data) && s < |disk|
  {
    && Distinct(disk[s := d], data) && start + SECTOR_SIZE <= |Image(disk, data)|
    && Image(disk[s := d], data) == B.Splice(Image(disk, data), start, d)
  }

  lemma StoredThere(disk: seq<Sector>, data: seq<nat>, offset: nat, s: nat)
    requires Distinct(disk, data) && Index(SECTOR_SIZE, offset) < |data| && s == data[Index(SECTOR_SIZE, offset)]
    ensures offset < |Image(disk, data)| && Image(disk, data)[offset] == disk[s][Offset(SECTOR_SIZE, offset)]
    ensures forall d: Sector {:trigger ReplacesBlock(disk, data, s, Base(SECTOR_SIZE, Index(SECTOR_SIZE, offset)), d)} ::
      ReplacesBlock(disk, data, s, Base(SECTOR_SIZE, Index(SECTOR_SIZE, offset)), d)
  {
    hide Base, Index, Offset, Image;
    var i := Index(SECTOR_SIZE, offset);
    Split(SECTOR_SIZE, offset);
    ImageAt(disk, data, i, Offset(SECTOR_SIZE, offset));
    forall d: Sector {:trigger ReplacesBlock(disk, data, s, Base(SECTOR_SIZE, i), d)} ensures ReplacesBlock(disk, data, s, Base(SECTOR_SIZE, i), d) {
      WriteOne(disk, data, i, d);
    }
  }

  class FileHeader {
    var raw: Raw

    /** A header as `new` leaves it: the words are whatever was there. */
    constructor ()
    {
    }

    ghost predicate Valid(disk: seq<Sector>)
      reads this
    {
      Sound(disk, raw)
    }

    /** The sector in which byte `offset` of what the header describes is stored: reading it
        there gives that byte, and writing the sector replaces the block of bytes around it. */
    method ByteToSector(offset: nat, ghost disk: seq<Sector>) returns (s: nat)
      requires Index(SECTOR_SIZE, offset) < NUM_DIRECT
      ensures Valid(disk) && Index(SECTOR_SIZE, offset) < raw.numSectors ==>
        && s == Data(raw)[Index(SECTOR_SIZE, offset)] && s < |disk|
        && offset < |Image(disk, Data(raw))| && Image(disk, Data(raw))[offset] == disk[s][Offset(SECTOR_SIZE, offset)]
        && forall d: Sector {:trigger ReplacesBlock(disk, Data(raw), s, Base(SECTOR_SIZE, Index(SECTOR_SIZE, offset)), d)} ::
          ReplacesBlock(disk, Data(raw), s, Base(SECTOR_SIZE, Index(SECTOR_SIZE, offset)), d)
    {
      hide Base, Index, Offset, DivRoundUp, Image;
      s := raw.dataSectors[Index(SECTOR_SIZE, offset)];
      if Sound(disk, raw) && Index(SECTOR_SIZE, offset) < raw.numSectors {
        StoredThere(disk, Data(raw), offset, s);
      }
    }

    method FetchFrom(disk: Disk, sector: nat)
      requires sector < |disk.sectors|
      modifies this
      ensures raw == Hdr(disk.sectors, sector)
    {
      var d := disk.ReadSector(sector);
      raw := Unpack(d);
    }

    method WriteBack(disk: Disk, sector: nat)
      requires sector < |disk.sectors|
      modifies disk`sectors
      ensures disk.sectors == old(disk.sectors)[sector := Pack(raw)] && Hdr(disk.sectors, sector) == raw
    {
      disk.WriteSector(sector, Pack(raw));
      UnpackPack(raw);
    }

    /** Make room for `fileSize` more bytes.  It fails exactly when too few
        sectors are free; the map is then unchanged, but not the header's counts. */
    method Allocate(freeMap: Bitmap, fileSize: nat) returns (ok: bool)
      requires freeMap.Valid() && freeMap.numBits <= WORD
      requires HeaderOk(raw) && raw.numBytes + fileSize <= CAPACITY
      modifies this, freeMap.words
      ensures raw.numBytes == old(raw.numBytes) + fileSize
      ensures ok <==> DivRoundUp(SECTOR_SIZE, raw.numBytes) <= old(raw.numSectors) + CountClear(old(freeMap.Bits()))
      ensures ok ==> Allocated(old(freeMap.Bits()), old(raw), freeMap.Bits(), raw)
      ensures !ok ==> freeMap.Bits() == old(freeMap.Bits())
    {
      hide Base, Index, Offset, DivRoundUp;
      ghost var was, bits := raw, freeMap.Bits();
      RoundUpMonotone(SECTOR_SIZE, raw.numBytes, raw.numBytes + fileSize);
      SectorsFit(raw.numBytes + fileSize);
      var numSectors := raw.numSectors;
      raw := raw.(numBytes := raw.numBytes + fileSize);
      raw := raw.(numSectors := DivRoundUp(SECTOR_SIZE, raw.numBytes));
      var newSectors := raw.numSectors - numSectors;
      var clear := freeMap.CountClearBits();
      if newSectors > 0 && clear < newSectors {
        return false;
      }
      TakeSectors(freeMap, numSectors);
      return true;
    }

    /** Give the data sectors back; each of them is marked, so the source's assertion holds. */
    method Deallocate(freeMap: Bitmap, ghost disk: seq<Sector>)
      requires freeMap.Valid() && freeMap.numBits == |disk| && Sound(disk, raw) && forall x :: x in Data(raw) ==> freeMap.Bits()[x]
      modifies freeMap.words
      ensures Cleared(old(freeMap.Bits()), freeMap.Bits(), Data(raw))
    {
      hide DivRoundUp;
      ghost var bits := freeMap.Bits();
      for i := 0 to raw.numSectors
        invariant Cleared(bits, freeMap.Bits(), Data(raw)[..i])
      {
        ghost var s, done := Data(raw)[i], Data(raw)[..i];
        assert s in Data(raw) && s !in done;
        var marked := freeMap.Test(raw.dataSectors[i]);
        assert marked;
        freeMap.Clear(raw.dataSectors[i]);
        assert Data(raw)[..i + 1] == done + [s];
      }
      assert Data(raw)[..raw.numSectors] == Data(raw);
    }

    /** Take a free sector for every entry from `start` on. */
    method TakeSectors(freeMap: Bitmap, start: nat)
      requires freeMap.Valid() && freeMap.numBits <= WORD
      requires start <= raw.numSectors <= NUM_DIRECT && raw.numSectors - start <= CountClear(freeMap.Bits())
      modifies this, freeMap.words
      ensures raw == old(raw).(dataSectors := raw.dataSectors)
      ensures raw.dataSectors[..start] == old(raw.dataSectors[..start])
      ensures Taken(old(freeMap.Bits()), freeMap.Bits(), raw.dataSectors[start..raw.numSectors])
    {
      hide Taken, FirstClear;
      ghost var bits := freeMap.Bits();
      TakenCount(bits, bits, []);
      assert raw.dataSectors[start..start] == [];
      for i := start to raw.numSectors
        invariant raw == old(raw).(dataSectors := raw.dataSectors)
        invariant raw.dataSectors[..start] == old(raw.dataSectors[..start])
        invariant Taken(bits, freeMap.Bits(), raw.dataSectors[start..i])
      {
        ghost var t := raw.dataSectors[start..i];
        TakenCount(bits, freeMap.Bits(), t);
        TakeOne(bits, freeMap.Bits(), t);
        var found := freeMap.Find();
        EntrySet(raw.dataSectors, start, i, found);
        raw := raw.(dataSectors := raw.dataSectors[i := found]);
      }
    }
  }

  lemma EntrySet(data: seq<Word>, start: nat, i: nat, x: Word)
    requires start <= i < |data|
    ensures data[i := x][start..i + 1] == data[start..i] + [x] && data[i := x][..start] == data[..start]
  {
  }

  class OpenFile {
    const disk: Disk
    const sector: nat
    var hdr: FileHeader
    var seekPosition: nat
    var currentSector: nat

    constructor (disk: Disk, sector: nat)
      requires sector < |disk.sectors|
      ensures this.disk == disk && this.sector == sector && fresh(hdr)
      ensures hdr.raw == Hdr(disk.sectors, sector) && seekPosition == 0 && currentSector == sector
    {
      this.disk, this.sector := disk, sector;
      hdr := new FileHeader();
      seekPosition := 0;
      currentSector := sector;
      new;
      hdr.FetchFrom(disk, sector);
    }

    ghost function HeaderBytes(): seq<B.Byte>
      reads this, hdr, disk
      requires hdr.Valid(disk.sectors)
    {
      Part(disk.sectors, hdr.raw)
    }

    /** Read the sectors `first` to `last` of the header, whole. */
    method Gather(first: nat, last: nat) returns (buf: seq<B.Byte>)
      requires hdr.Valid(disk.sectors) && first <= last < hdr.raw.numSectors
      ensures |buf| == Base(SECTOR_SIZE, last + 1 - first)
      ensures Copied(buf, Image(disk.sectors, Data(hdr.raw)), Base(SECTOR_SIZE, first), |buf|)
    {
      hide Base, Index, Offset, DivRoundUp;
      ghost var data := Data(hdr.raw);
      buf := NewBuffer(Base(SECTOR_SIZE, last + 1 - first));
      Apart(SECTOR_SIZE, first, |data|);
      BaseStep(SECTOR_SIZE, 0);
      for i := first to last + 1
        invariant |buf| == Base(SECTOR_SIZE, last + 1 - first)
        invariant Copied(buf, Image(disk.sectors, data), Base(SECTOR_SIZE, first), Base(SECTOR_SIZE, i - first))
      {
        Join(SECTOR_SIZE, i, 0);
        var sectorToRead := hdr.ByteToSector(Base(SECTOR_SIZE, i), disk.sectors);
        var d := disk.ReadSector(sectorToRead);
        Apart(SECTOR_SIZE, i - first, last + 1 - first);
        CopyOne(buf, disk.sectors, data, first, i);
        buf := B.Splice(buf, Base(SECTOR_SIZE, i - first), d);
      }
    }

    /** The sectors that hold the bytes from `position` on. */
    static lemma Range(r: Raw, position: nat, n: nat)
      requires HeaderOk(r) && n > 0 && position + n <= r.numBytes
      ensures var first, last := Index(SECTOR_SIZE, position), Index(SECTOR_SIZE, position + n - 1);
        && first <= last < r.numSectors
        && Base(SECTOR_SIZE, first) <= position < Base(SECTOR_SIZE, first) + SECTOR_SIZE
        && Base(SECTOR_SIZE, last) < position + n <= Base(SECTOR_SIZE, last) + SECTOR_SIZE
        && Base(SECTOR_SIZE, first) + Base(SECTOR_SIZE, last + 1 - first) == Base(SECTOR_SIZE, last) + SECTOR_SIZE
        && Base(SECTOR_SIZE, last) + SECTOR_SIZE <= Base(SECTOR_SIZE, r.numSectors)
    {
      var first, last := Index(SECTOR_SIZE, position), Index(SECTOR_SIZE, position + n - 1);
      Split(SECTOR_SIZE, position);
      Split(SECTOR_SIZE, position + n - 1);
      SectorsFit(r.numBytes);
      IndexBelow(SECTOR_SIZE, position + n - 1, r.numSectors);
      if last < first { Apart(SECTOR_SIZE, last, first); }
      BaseSum(SECTOR_SIZE, first, last + 1 - first);
      Apart(SECTOR_SIZE, last, r.numSectors);
    }

    method ReadAt(numBytes: nat, position: nat) returns (into: seq<B.Byte>)
      requires hdr.Valid(disk.sectors) && numBytes > 0
      ensures into == B.ReadAt(HeaderBytes(), numBytes, position)
    {
      hide Base, Index, Offset, DivRoundUp;
      var fileLength := hdr.raw.numBytes;
      if position >= fileLength {
        return [];
      }
      var n := if position + numBytes > fileLength then fileLength - position else numBytes;
      Range(hdr.raw, position, n);
      var firstSector := Index(SECTOR_SIZE, position);
      var lastSector := Index(SECTOR_SIZE, position + n - 1);
      var buf := Gather(firstSector, lastSector);
      var start := position - Base(SECTOR_SIZE, firstSector);
      into := buf[start..start + n];
    }

    /** Read the sector at `base + o` into the buffer at `o`. */
    method LoadSector(buf: seq<B.Byte>, base: nat, o: nat) returns (buf': seq<B.Byte>)
      requires hdr.Valid(disk.sectors) && o + SECTOR_SIZE <= |buf|
      ensures |buf'| == |buf| && Loaded(buf', HeaderBytes(), base, o)
      ensures forall c: nat :: c + SECTOR_SIZE <= o && Loaded(buf, HeaderBytes(), base, c) ==> Loaded(buf', HeaderBytes(), base, c)
    {
      hide Base, Index, Offset, DivRoundUp, Part;
      var d := ReadAt(SECTOR_SIZE, base + o);
      buf' := B.Splice(buf, o, d);
      LoadOne(buf, HeaderBytes(), base, o);
    }

    /** The buffer for the sectors `first` to `last`, holding the bytes of the
        first and last of them that a write of `n` bytes at `position` keeps. */
    method Prepare(first: nat, last: nat, position: nat, n: nat) returns (buf: seq<B.Byte>)
      requires hdr.Valid(disk.sectors) && n > 0 && position + n <= hdr.raw.numBytes
      requires first == Index(SECTOR_SIZE, position) <= last == Index(SECTOR_SIZE, position + n - 1)
      ensures |buf| == Base(SECTOR_SIZE, last + 1 - first)
      ensures Edges(buf, HeaderBytes(), Base(SECTOR_SIZE, first), position, n)
    {
      hide Base, Index, Offset, DivRoundUp, Part, Edges, Loaded;
      Range(hdr.raw, position, n);
      buf := NewBuffer(Base(SECTOR_SIZE, last + 1 - first));
      var firstAligned := position == Base(SECTOR_SIZE, first);
      var lastAligned := position + n == Base(SECTOR_SIZE, last + 1);
      var o := Base(SECTOR_SIZE, last - first);
      BaseSum(SECTOR_SIZE, first, last - first);
      BaseStep(SECTOR_SIZE, last - first);
      BaseStep(SECTOR_SIZE, last);
      if first < last { Apart(SECTOR_SIZE, 0, last - first); }
      if !firstAligned {
        buf := LoadSector(buf, Base(SECTOR_SIZE, first), 0);
      }
      if !lastAligned && (first != last || firstAligned) {
        buf := LoadSector(buf, Base(SECTOR_SIZE, first), o);
      }
      EdgesKept(buf, HeaderBytes(), Base(SECTOR_SIZE, first), o, position, n);
    }

    /** Write the buffer to the sectors `first` to `last`. */
    method Scatter(first: nat, last: nat, buf: seq<B.Byte>)
      requires hdr.Valid(disk.sectors) && first <= last < hdr.raw.numSectors
      requires |buf| == Base(SECTOR_SIZE, last + 1 - first)
      requires Base(SECTOR_SIZE, first) + |buf| <= Base(SECTOR_SIZE, hdr.raw.numSectors)
      modifies disk`sectors
      ensures |disk.sectors| == old(|disk.sectors|) && hdr.Valid(disk.sectors)
      ensures SameOutside(old(disk.sectors), disk.sectors, Data(hdr.raw))
      ensures Image(disk.sectors, Data(hdr.raw)) ==
        B.Splice(Image(old(disk.sectors), Data(hdr.raw)), Base(SECTOR_SIZE, first), buf)
    {
      hide Base, Index, Offset, DivRoundUp;
      ghost var data, was := Data(hdr.raw), disk.sectors;
      BaseStep(SECTOR_SIZE, 0);
      assert B.Splice(Image(was, data), Base(SECTOR_SIZE, first), buf[..0]) == Image(was, data);
      for i := first to last + 1
        invariant |disk.sectors| == |was| && Distinct(disk.sectors, data)
        invariant SameOutside(was, disk.sectors, data)
        invariant Base(SECTOR_SIZE, i - first) <= |buf|
        invariant Image(disk.sectors, data) == B.Splice(Image(was, data), Base(SECTOR_SIZE, first), buf[..Base(SECTOR_SIZE, i - first)])
      {
        Join(SECTOR_SIZE, i, 0);
        Apart(SECTOR_SIZE, i - first, last + 1 - first);
        var n := Base(SECTOR_SIZE, i - first);
        var d := buf[n..n + SECTOR_SIZE];
        ScatterOne(was, disk.sectors, data, first, i, buf, d);
        var s := hdr.ByteToSector(Base(SECTOR_SIZE, i), disk.sectors);
        assert s == data[i];
        disk.WriteSector(s, d);
      }
      assert buf[..|buf|] == buf;
    }

    /** Write clipped at the length of the header's bytes; nothing else on the disk changes. */
    method WriteAt(from: seq<B.Byte>, position: nat) returns (n: nat)
      requires hdr.Valid(disk.sectors) && |from| > 0
      modifies disk`sectors
      ensures |disk.sectors| == old(|disk.sectors|) && hdr.Valid(disk.sectors)
      ensures n == |B.ReadAt(old(HeaderBytes()), |from|, position)|
      ensures HeaderBytes() == if n == 0 then old(HeaderBytes()) else B.Splice(old(HeaderBytes()), position, from[..n])
      ensures SameOutside(old(disk.sectors), disk.sectors, Data(hdr.raw))
    {
      hide Base, Index, Offset, DivRoundUp;
      var fileLength := hdr.raw.numBytes;
      if position >= fileLength {
        return 0;
      }
      n := if position + |from| > fileLength then fileLength - position else |from|;
      Range(hdr.raw, position, n);
      SectorsFit(fileLength);
      var firstSector := Index(SECTOR_SIZE, position);
      var lastSector := Index(SECTOR_SIZE, position + n - 1);
      var buf := Prepare(firstSector, lastSector, position, n);
      ghost var image := Image(disk.sectors, Data(hdr.raw));
      WriteBuffer(image, fileLength, Base(SECTOR_SIZE, firstSector), buf, position, from[..n]);
      buf := B.Splice(buf, position - Base(SECTOR_SIZE, firstSector), from[..n]);
      Scatter(firstSector, lastSector, buf);
    }

    // ------------------------------------------------------------------------- Write

    /** The map in memory is the map on disk. */
    ghost predicate InStep(freeMap: Bitmap)
      reads disk, freeMap.words
    {
      disk.Valid() && freeMap.Valid() && freeMap.numBits == |disk.sectors| && freeMap.Bits() == disk.Vol().bits
    }

    /** Make the header in sector `s` hold `size` bytes, on disk too. */
    method Grow(freeMap: Bitmap, s: nat, size: nat) returns (ok: bool)
      requires InStep(freeMap) && CellOk(disk.Vol(), s) && hdr.raw == Hdr(disk.sectors, s)
      requires hdr.raw.numBytes < size <= CAPACITY
      modifies hdr, disk, freeMap.words
      ensures |disk.sectors| == old(|disk.sectors|) && InStep(freeMap)
      ensures ok <==> DivRoundUp(SECTOR_SIZE, size) <= DivRoundUp(SECTOR_SIZE, old(hdr.raw.numBytes)) + CountClear(old(disk.Vol().bits))
      ensures !ok ==> disk.Vol() == old(disk.Vol())
      ensures ok ==> CellOk(disk.Vol(), s) && hdr.raw == Hdr(disk.sectors, s) && hdr.raw.numBytes == size && Grown(old(disk.Vol()), disk.Vol(), s, size)
    {
      hide Base, Index, Offset, DivRoundUp, BitsOf, Part, Allocated, Grown;
      ghost var v := disk.Vol();
      ok := hdr.Allocate(freeMap, size - hdr.raw.numBytes);
      if !ok {
        return;
      }
      StoreHeader(freeMap, s);
      GrowCell(v, s, freeMap.Bits(), hdr.raw);
    }

    /** Write the map and the header back. */
    method StoreHeader(freeMap: Bitmap, s: nat)
      requires disk.Valid() && freeMap.Valid() && freeMap.numBits == |disk.sectors| && s < |disk.sectors|
      modifies disk
      ensures InStep(freeMap) && disk.Vol() == Volume(old(disk.sectors)[s := Pack(hdr.raw)], freeMap.Bits())
    {
      hide DivRoundUp, BitsOf;
      disk.freeMap := freeMap.WriteBack();
      hdr.WriteBack(disk, s);
    }

    /** Store `from` at `position` of the header in sector `s`, extending it when needed. */
    method Store(freeMap: Bitmap, s: nat, from: seq<B.Byte>, position: nat, ghost chain: seq<nat>, ghost k: nat) returns (ok: bool)
      requires InStep(freeMap) && ChainOk(disk.Vol(), chain) && k < |chain| && chain[k] == s && hdr.raw == Hdr(disk.sectors, s)
      requires 0 < |from| && position <= hdr.raw.numBytes && position + |from| <= CAPACITY
      modifies hdr, disk, freeMap.words
      ensures |disk.sectors| == old(|disk.sectors|) && InStep(freeMap)
      ensures ok ==> hdr.raw == Hdr(disk.sectors, s) && Stored(old(disk.Vol()), disk.Vol(), chain, k, from, position)
      ensures !ok ==> disk.Vol() == old(disk.Vol()) && NoRoom(disk.Vol(), s, position + |from|)
    {
      hide Base, Index, Offset, DivRoundUp, Part, BitsOf, ChainOk, CellOk, Sound, Stored, Grown;
      ghost var v := disk.Vol();
      CellOfChain(v, chain, k);
      CellIsSound(v, s);
      NotGrown(v, s);
      if position + |from| > hdr.raw.numBytes {
        ok := Grow(freeMap, s, position + |from|);
        if !ok {
          return;
        }
      }
      Fill(from, position, v, chain, k);
      ok := true;
    }

    /** Write into a header that has been made large enough. */
    method Fill(from: seq<B.Byte>, position: nat, ghost v: Volume, ghost chain: seq<nat>, ghost k: nat)
      requires disk.Valid() && ChainOk(v, chain) && k < |chain| && |from| > 0
      requires CellOk(disk.Vol(), chain[k]) && hdr.raw == Hdr(disk.sectors, chain[k])
      requires position <= Hdr(v.disk, chain[k]).numBytes && position + |from| <= CAPACITY
      requires var n := Hdr(v.disk, chain[k]).numBytes;
        Grown(v, disk.Vol(), chain[k], if position + |from| <= n then n else position + |from|)
      modifies disk`sectors
      ensures |disk.sectors| == old(|disk.sectors|) && disk.Valid() && disk.Vol().bits == old(disk.Vol().bits)
      ensures hdr.raw == Hdr(disk.sectors, chain[k]) && Stored(v, disk.Vol(), chain, k, from, position)
    {
      hide Base, Index, Offset, DivRoundUp, Part, BitsOf, ChainOk, CellOk, Sound, Stored;
      ghost var v1 := disk.Vol();
      CellIsSound(v1, chain[k]);
      var n := WriteAt(from, position);
      assert from[..n] == from;
      StoredBy(v, v1, disk.sectors, chain, k, from, position);
    }

    /** The cursor is in the header `chain[k]`, not past its bytes. */
    ghost predicate At(chain: seq<nat>, k: nat)
      reads this, disk
    {
      k < |chain| && chain[k] == currentSector < |disk.sectors| && seekPosition <= Hdr(disk.sectors, currentSector).numBytes
    }

    ghost predicate Ready(freeMap: Bitmap, chain: seq<nat>)
      reads this, disk, freeMap.words
    {
      InStep(freeMap) && ChainOk(disk.Vol(), chain)
    }

    /** Since `v`, the bytes `d` went in at `pos`, and the cursor is behind them in `chain[k]`. */
    ghost predicate Progress(freeMap: Bitmap, v: Volume, chain: seq<nat>, k: nat, d: seq<B.Byte>, pos: nat)
      reads this, disk, freeMap.words
    {
      && Ready(freeMap, chain) && |disk.sectors| == |v.disk|
      && ChainOk(v, chain) && Wrote(v, chain, disk.Vol(), chain, d, pos) && Budget(disk.Vol(), chain) == Budget(v, chain)
      && At(chain, k) && Base(CAPACITY, k) + seekPosition == pos + |d|
    }

    /** The first phase: what still fits in the current header. */
    method WriteHere(freeMap: Bitmap, from: seq<B.Byte>, ghost chain: seq<nat>, ghost k: nat) returns (ok: bool, result: nat)
      requires Ready(freeMap, chain) && At(chain, k) && hdr.raw == Hdr(disk.sectors, currentSector)
      modifies this`seekPosition, hdr, disk, freeMap.words
      ensures result <= |from| && Progress(freeMap, old(disk.Vol()), chain, k, from[..result], Base(CAPACITY, k) + old(seekPosition))
      ensures ok ==> hdr.raw == Hdr(disk.sectors, currentSector) && (result < |from| ==> seekPosition == CAPACITY)
      ensures !ok ==> result < |from| && Short(disk.Vol(), chain, Base(CAPACITY, k) + old(seekPosition) + |from|)
    {
      hide Base, Index, Offset, DivRoundUp, BitsOf, ChainOk, Wrote, Budget, Stored, Short, NoRoom;
      ghost var v, pos := disk.Vol(), Base(CAPACITY, k) + seekPosition;
      Inside(v, chain, k, seekPosition);
      WroteNothing(v, chain, pos);
      NextHeader(v, chain, k);
      var maxBytesToWrite := CAPACITY - seekPosition;
      var bytesToWrite := if |from| > maxBytesToWrite then maxBytesToWrite else |from|;
      ok, result := true, 0;
      if bytesToWrite > 0 {
        ok := Store(freeMap, currentSector, from[..bytesToWrite], seekPosition, chain, k);
        if !ok {
          StoreShort(v, chain, k, seekPosition + bytesToWrite, pos + |from|);
          return;
        }
        StoredWrote(v, chain, v, disk.Vol(), k, [], from[..bytesToWrite], seekPosition, pos);
        StoredSize(v, disk.Vol(), chain, k, from[..bytesToWrite], seekPosition);
        assert [] + from[..bytesToWrite] == from[..bytesToWrite];
        seekPosition := seekPosition + bytesToWrite;
        result := bytesToWrite;
      }
    }

    /** One existing later header: what fits in it, from its start. */
    method WriteNext(freeMap: Bitmap, iterFh: nat, from: seq<B.Byte>, ghost chain: seq<nat>, ghost k: nat) returns (ok: bool)
      requires Ready(freeMap, chain) && k < |chain| && iterFh == chain[k] < |disk.sectors| && 0 < |from| <= CAPACITY
      modifies this`seekPosition, this`currentSector, hdr, disk, freeMap.words
      ensures |disk.sectors| == old(|disk.sectors|) && Ready(freeMap, chain)
      ensures !ok ==> disk.Vol() == old(disk.Vol()) && NoRoom(disk.Vol(), chain[k], |from|)
      ensures !ok ==> seekPosition == old(seekPosition) && currentSector == old(currentSector)
      ensures ok ==> Stored(old(disk.Vol()), disk.Vol(), chain, k, from, 0)
      ensures ok ==> At(chain, k) && seekPosition == |from| && hdr.raw == Hdr(disk.sectors, currentSector)
    {
      hide Base, Index, Offset, DivRoundUp, BitsOf, ChainOk, Stored, NoRoom;
      ghost var v := disk.Vol();
      hdr.FetchFrom(disk, iterFh);
      ok := Store(freeMap, iterFh, from, 0, chain, k);
      if ok {
        StoredSize(v, disk.Vol(), chain, k, from, 0);
        currentSector := iterFh;
        seekPosition := |from|;
      }
    }

    /** The second phase: the later headers that are there already. */
    method WriteExisting(freeMap: Bitmap, from: seq<B.Byte>, ghost chain: seq<nat>, ghost start: nat)
      returns (ok: bool, result: nat, ghost k: nat)
      requires Ready(freeMap, chain) && At(chain, start) && hdr.raw == Hdr(disk.sectors, currentSector)
      requires |from| > 0 ==> seekPosition == CAPACITY
      modifies this`seekPosition, this`currentSector, hdr, disk, freeMap.words
      ensures result <= |from| && Progress(freeMap, old(disk.Vol()), chain, k, from[..result], Base(CAPACITY, start) + old(seekPosition))
      ensures ok && result < |from| ==> hdr.raw == Hdr(disk.sectors, currentSector) && seekPosition == CAPACITY && k == |chain| - 1
      ensures !ok ==> result < |from| && Short(disk.Vol(), chain, Base(CAPACITY, start) + old(seekPosition) + |from|)
    {
      hide Base, Index, Offset, DivRoundUp, BitsOf, ChainOk, Progress, Short;
      ghost var v, pos := disk.Vol(), Base(CAPACITY, start) + seekPosition;
      Inside(v, chain, start, seekPosition);
      StartProgress(freeMap, chain, start);
      NextHeader(v, chain, start);
      k, ok, result := start, true, 0;
      var iterFh := hdr.raw.nextFileHeader;
      while result < |from| && iterFh != 0
        invariant result <= |from| && Progress(freeMap, v, chain, k, from[..result], pos)
        invariant result < |from| ==> seekPosition == CAPACITY
        invariant currentSector < |disk.sectors| && hdr.raw == Hdr(disk.sectors, currentSector) && iterFh == hdr.raw.nextFileHeader
        decreases |from| - result
      {
        var n;
        ProgressFacts(freeMap, v, chain, k, from[..result], pos);
        ok, n := StepExisting(freeMap, iterFh, from, result, v, chain, k, pos);
        if !ok {
          return;
        }
        result := result + n;
        k := k + 1;
        iterFh := hdr.raw.nextFileHeader;
        ProgressFacts(freeMap, v, chain, k, from[..result], pos);
      }
      ProgressFacts(freeMap, v, chain, k, from[..result], pos);
      NextHeader(disk.Vol(), chain, k);
    }

    lemma StartProgress(freeMap: Bitmap, chain: seq<nat>, k: nat)
      requires Ready(freeMap, chain) && At(chain, k)
      ensures Progress(freeMap, disk.Vol(), chain, k, [], Base(CAPACITY, k) + seekPosition)
    {
      hide Base, DivRoundUp, BitsOf, ChainOk, Wrote, Budget;
      Inside(disk.Vol(), chain, k, seekPosition);
      WroteNothing(disk.Vol(), chain, Base(CAPACITY, k) + seekPosition);
    }

    lemma ProgressFacts(freeMap: Bitmap, v: Volume, chain: seq<nat>, k: nat, d: seq<B.Byte>, pos: nat)
      requires Progress(freeMap, v, chain, k, d, pos)
      ensures disk.Valid() && ChainOk(disk.Vol(), chain) && At(chain, k)
    {
    }

    method StepExisting(freeMap: Bitmap, iterFh: nat, from: seq<B.Byte>, result: nat, ghost v: Volume, ghost chain: seq<nat>, ghost k: nat, ghost pos: nat)
      returns (ok: bool, n: nat)
      requires result < |from| && Progress(freeMap, v, chain, k, from[..result], pos) && pos <= |Content(v, chain)|
      requires seekPosition == CAPACITY && iterFh == Hdr(disk.sectors, currentSector).nextFileHeader != 0
      modifies this`seekPosition, this`currentSector, hdr, disk, freeMap.words
      ensures !ok ==> Progress(freeMap, v, chain, k, from[..result], pos) && Short(disk.Vol(), chain, pos + |from|)
      ensures ok ==> 0 < n <= |from| - result && Progress(freeMap, v, chain, k + 1, from[..result + n], pos)
      ensures ok ==> hdr.raw == Hdr(disk.sectors, currentSector) && (result + n < |from| ==> seekPosition == CAPACITY)
    {
      hide Base, Index, Offset, DivRoundUp, BitsOf, ChainOk, Wrote, Budget, Stored, Short, NoRoom;
      ghost var v1 := disk.Vol();
      NextHeader(v1, chain, k);
      BaseStep(CAPACITY, k);
      CellOfChain(v1, chain, k + 1);
      CellIsSound(v1, chain[k + 1]);
      var bytesToWrite := if |from| - result > CAPACITY then CAPACITY else |from| - result;
      n := bytesToWrite;
      var d := from[result..result + bytesToWrite];
      assert from[..result] + d == from[..result + n];
      ok := WriteNext(freeMap, iterFh, d, chain, k + 1);
      if !ok {
        StoreShort(v1, chain, k + 1, bytesToWrite, pos + |from|);
      } else {
        StoredWrote(v, chain, v1, disk.Vol(), k + 1, from[..result], d, 0, pos);
      }
    }

    /** Find sectors for the headers, storing the map after each. */
    method Reserve(freeMap: Bitmap, count: nat) returns (found: seq<nat>)
      requires InStep(freeMap) && count <= CountClear(freeMap.Bits())
      modifies disk`freeMap, freeMap.words
      ensures InStep(freeMap) && |found| == count && Taken(old(disk.Vol().bits), disk.Vol().bits, found)
    {
      hide Taken, BitsOf, DivRoundUp;
      ghost var bits := freeMap.Bits();
      TakenCount(bits, bits, []);
      found := [];
      for i := 0 to count
        invariant InStep(freeMap) && |found| == i && Taken(bits, freeMap.Bits(), found)
      {
        TakenCount(bits, freeMap.Bits(), found);
        TakeOne(bits, freeMap.Bits(), found);
        var s := ReserveOne(freeMap);
        found := found + [s];
      }
    }

    method ReserveOne(freeMap: Bitmap) returns (s: nat)
      requires InStep(freeMap) && FirstClear(freeMap.Bits()) < freeMap.numBits
      modifies disk`freeMap, freeMap.words
      ensures InStep(freeMap) && s == FirstClear(old(freeMap.Bits())) && freeMap.Bits() == old(freeMap.Bits())[s := true]
    {
      hide DivRoundUp;
      s := freeMap.Find();
      disk.freeMap := freeMap.WriteBack();
    }

    /** A header for `size` bytes that is in memory only; nothing is taken when there is no room. */
    method NewHeader(freeMap: Bitmap, size: nat) returns (ok: bool, newHeader: FileHeader, ghost empty: Raw)
      requires freeMap.Valid() && freeMap.numBits <= WORD && 0 < size <= CAPACITY
      modifies freeMap.words
      ensures fresh(newHeader) && empty.numBytes == empty.numSectors == empty.nextFileHeader == 0
      ensures ok <==> DivRoundUp(SECTOR_SIZE, size) <= CountClear(old(freeMap.Bits()))
      ensures ok ==> newHeader.raw.numBytes == size && Allocated(old(freeMap.Bits()), empty, freeMap.Bits(), newHeader.raw)
      ensures !ok ==> freeMap.Bits() == old(freeMap.Bits())
    {
      hide Base, Index, Offset, DivRoundUp, Allocated;
      newHeader := new FileHeader();
      newHeader.raw := newHeader.raw.(nextFileHeader := 0, numBytes := 0, numSectors := 0);
      empty := newHeader.raw;
      EmptyOk(empty);
      ok := newHeader.Allocate(freeMap, size);
    }

    /** A new header in sector `s` behind the last one, in sector `last`, holding `from`. */
    method AppendHeader(freeMap: Bitmap, last: nat, s: nat, from: seq<B.Byte>, ghost chain: seq<nat>) returns (ok: bool)
      requires Ready(freeMap, chain) && last == chain[|chain| - 1] < |disk.sectors| && hdr.raw == Hdr(disk.sectors, last)
      requires hdr.raw.numBytes == CAPACITY && 0 < |from| <= CAPACITY
      requires 0 < s < |disk.sectors| && disk.Vol().bits[s] && !Owns(disk.Vol(), chain, s)
      modifies this`hdr, this`seekPosition, hdr, disk, freeMap.words
      ensures |disk.sectors| == old(|disk.sectors|) && InStep(freeMap)
      ensures ok <==> DivRoundUp(SECTOR_SIZE, |from|) <= CountClear(old(disk.Vol().bits))
      ensures !ok ==> disk.Vol() == old(disk.Vol()) && hdr == old(hdr) && hdr.raw == old(hdr.raw) && seekPosition == old(seekPosition)
      ensures ok ==> fresh(hdr) && hdr.raw == Hdr(disk.sectors, s) && hdr.raw.numBytes == seekPosition == |from|
      ensures ok ==> Extended(old(disk.Vol()), disk.Vol(), chain, s, from)
    {
      hide Base, Index, Offset, DivRoundUp, Part, BitsOf, ChainOk, Owns, Sound, Allocated, Extended;
      ghost var v := disk.Vol();
      ghost var empty;
      var newHeader;
      ok, newHeader, empty := NewHeader(freeMap, |from|);
      if !ok {
        return;
      }
      ghost var r := newHeader.raw;
      Link(freeMap, newHeader, last, s);
      EmptyGrown(disk.sectors, v.bits, empty, freeMap.Bits(), r);
      hdr := newHeader;
      seekPosition := 0;
      var n := FillNew(from, v, chain, s, empty);
      seekPosition := seekPosition + n;
    }

    /** Store the map and the new header, then the last header with its link to it. */
    method Link(freeMap: Bitmap, newHeader: FileHeader, last: nat, s: nat)
      requires disk.Valid() && freeMap.Valid() && freeMap.numBits == |disk.sectors| && newHeader != hdr
      requires last < |disk.sectors| && 0 < s < |disk.sectors|
      modifies hdr, disk
      ensures InStep(freeMap)
      ensures disk.sectors == old(disk.sectors)[s := Pack(newHeader.raw)][last := Pack(old(hdr.raw).(nextFileHeader := s))]
    {
      hide DivRoundUp, BitsOf;
      disk.freeMap := freeMap.WriteBack();
      newHeader.WriteBack(disk, s);
      hdr.raw := hdr.raw.(nextFileHeader := s);
      hdr.WriteBack(disk, last);
    }

    method FillNew(from: seq<B.Byte>, ghost v: Volume, ghost chain: seq<nat>, ghost s: nat, ghost empty: Raw) returns (n: nat)
      requires disk.Valid() && ChainOk(v, chain) && 0 < s < |v.disk| && v.bits[s] && !Owns(v, chain, s)
      requires empty.numBytes == empty.numSectors == empty.nextFileHeader == 0 && Sound(disk.sectors, hdr.raw)
      requires Allocated(v.bits, empty, disk.Vol().bits, hdr.raw) && hdr.raw.numBytes == |from| > 0
      requires var last := chain[|chain| - 1];
        && Hdr(v.disk, last).numBytes == CAPACITY
        && disk.sectors == v.disk[s := Pack(hdr.raw)][last := Pack(Hdr(v.disk, last).(nextFileHeader := s))]
      modifies disk`sectors
      ensures |disk.sectors| == old(|disk.sectors|) && disk.Valid() && disk.Vol().bits == old(disk.Vol().bits)
      ensures n == |from| && hdr.raw == Hdr(disk.sectors, s) && Extended(v, disk.Vol(), chain, s, from)
    {
      hide Base, Index, Offset, DivRoundUp, Part, BitsOf, ChainOk, CellOk, Owns, Sound, Allocated, Extended;
      n := WriteAt(from, 0);
      assert from[..n] == from;
      assert HeaderBytes() == from;
      ExtendedBy(v, chain, s, empty, disk.Vol().bits, hdr.raw, disk.sectors, from);
    }

    /** The third phase after `a` new headers in the sectors `found`: `d` was
        written behind the old end, and its sectors came off the free count. */
    ghost predicate Appending(freeMap: Bitmap, v: Volume, chain: seq<nat>, found: seq<nat>, a: nat, d: seq<B.Byte>)
      reads this, hdr, disk, freeMap.words
    {
      InStep(freeMap) && MadeOf(v, chain, found, a, d)
    }

    ghost predicate MadeOf(v: Volume, chain: seq<nat>, found: seq<nat>, a: nat, d: seq<B.Byte>)
      reads this, hdr, disk
    {
      && a <= |found| && disk.Valid() && ChainOk(disk.Vol(), chain + found[..a]) && |disk.sectors| == |v.disk| && ChainOk(v, chain)
      && Wrote(v, chain, disk.Vol(), chain + found[..a], d, |Content(v, chain)|)
      && Spare(disk.Vol(), chain + found[..a], found, a)
      && CountClear(disk.Vol().bits) + DivRoundUp(SECTOR_SIZE, |d|) + |found| == CountClear(v.bits)
      && hdr.raw == Hdr(disk.sectors, (chain + found[..a])[|chain| + a - 1]) && hdr.raw.numBytes == seekPosition
    }

    /** Either the last header is full and the headers left suffice for `rest` bytes, or no sector is free. */
    ghost predicate Going(d: seq<B.Byte>, rest: nat, left: nat)
      reads this, disk
      requires disk.Valid()
    {
      rest > 0 ==>
        && |d| == Base(SECTOR_SIZE, DivRoundUp(SECTOR_SIZE, |d|))
        && (CountClear(disk.Vol().bits) == 0 || (seekPosition == CAPACITY && rest <= Base(CAPACITY, left)))
    }

    /** One new header: it becomes the last one and the cursor is behind its bytes. */
    method AppendNext(freeMap: Bitmap, last: nat, found: seq<nat>, a: nat, ghost d: seq<B.Byte>, e: seq<B.Byte>, ghost v: Volume, ghost chain: seq<nat>)
      returns (ok: bool)
      requires Appending(freeMap, v, chain, found, a, d) && a < |found| && last == (chain + found[..a])[|chain| + a - 1] < |disk.sectors|
      requires AllClear(v.bits, found)
      requires seekPosition == CAPACITY && 0 < |e| <= CAPACITY && |d| == Base(SECTOR_SIZE, DivRoundUp(SECTOR_SIZE, |d|))
      modifies this`hdr, this`seekPosition, hdr, disk, freeMap.words
      ensures disk.Valid() && (hdr == old(hdr) || fresh(hdr))
      ensures ok <==> DivRoundUp(SECTOR_SIZE, |e|) <= CountClear(old(disk.Vol().bits))
      ensures !ok ==> Appending(freeMap, v, chain, found, a, d) && seekPosition == CAPACITY && hdr == old(hdr)
      ensures ok ==> Appending(freeMap, v, chain, found, a + 1, d + e) && seekPosition == |e| && fresh(hdr)
      ensures ok ==> CountClear(disk.Vol().bits) + DivRoundUp(SECTOR_SIZE, |e|) == CountClear(old(disk.Vol().bits))
    {
      hide Base, Index, Offset, DivRoundUp, BitsOf, ChainOk, Owns, Wrote, Extended, Spare, AllClear;
      ghost var v1, c := disk.Vol(), chain + found[..a];
      SpareAt(v1, c, v.bits, found, a);
      ok := AppendHeader(freeMap, last, found[a], e, c);
      if ok {
        assert c + [found[a]] == chain + found[..a + 1];
        ExtendedWrote(v, chain, v1, c, disk.Vol(), found[a], d, e);
        SpareStep(v1, disk.Vol(), c, v.bits, found, a, e);
        AlignedStep(|d|, |e|);
      }
    }

    /** One round of the loop over new headers: as much as fits in the header and in the free sectors. */
    method StepNew(freeMap: Bitmap, found: seq<nat>, a: nat, from: seq<B.Byte>, result: nat, ghost v: Volume, ghost chain: seq<nat>)
      returns (success: bool, n: nat)
      requires result <= |from| && Appending(freeMap, v, chain, found, a, from[..result]) && 0 < a < |found| && AllClear(v.bits, found)
      requires found[a - 1] < |disk.sectors| && Going(from[..result], |from| - result, |found| - a)
      modifies this`hdr, this`seekPosition, hdr, disk, freeMap.words
      ensures disk.Valid() && (hdr == old(hdr) || fresh(hdr))
      ensures success ==> 0 < n <= |from| - result && Appending(freeMap, v, chain, found, a + 1, from[..result + n])
      ensures success ==> Going(from[..result + n], |from| - result - n, |found| - a - 1)
      ensures !success ==> n == 0 && Appending(freeMap, v, chain, found, a, from[..result]) && Going(from[..result], |from| - result, |found| - a)
      ensures !success ==> result == |from| || CountClear(disk.Vol().bits) == 0
    {
      hide Base, Index, Offset, DivRoundUp, BitsOf, ToAllocate, Appending, MadeOf, AllClear;
      AppendingFacts(freeMap, v, chain, found, a, from[..result]);
      var clear := freeMap.CountClearBits();
      var bytesToAllocate := ToAllocate(|from| - result, clear);
      n := 0;
      if bytesToAllocate == 0 {
        return false, 0;
      }
      ghost var d := from[..result];
      var e := from[result..result + bytesToAllocate];
      assert d + e == from[..result + bytesToAllocate];
      success := AppendNext(freeMap, found[a - 1], found, a, d, e, v, chain);
      n := bytesToAllocate;
      StillGoing(result, |from| - result, clear, n, |found| - a);
      AppendingFacts(freeMap, v, chain, found, a + 1, from[..result + n]);
    }

    lemma AppendingFacts(freeMap: Bitmap, v: Volume, chain: seq<nat>, found: seq<nat>, a: nat, d: seq<B.Byte>)
      requires Appending(freeMap, v, chain, found, a, d)
      ensures InStep(freeMap) && |disk.sectors| == |v.disk| && MadeOf(v, chain, found, a, d)
      ensures 0 < a <= |found| ==> (chain + found[..a])[|chain| + a - 1] == found[a - 1] < |disk.sectors|
    {
      if 0 < a { CellOfChain(disk.Vol(), chain + found[..a], |chain| + a - 1); }
    }

    method ReserveHeaders(freeMap: Bitmap, count: nat, ghost chain: seq<nat>) returns (found: seq<nat>)
      requires Ready(freeMap, chain) && disk.Vol().bits[0] && 0 < count <= CountClear(disk.Vol().bits)
      requires At(chain, |chain| - 1) && hdr.raw == Hdr(disk.sectors, currentSector) && seekPosition == CAPACITY == hdr.raw.numBytes
      modifies disk`freeMap, freeMap.words
      ensures disk.Valid() && |found| == count && AllClear(old(disk.Vol()).bits, found)
      ensures Appending(freeMap, old(disk.Vol()), chain, found, 0, []) && chain + found[..0] == chain
      ensures CountClear(disk.Vol().bits) + count == CountClear(old(disk.Vol()).bits)
    {
      hide Base, Index, Offset, DivRoundUp, BitsOf, ChainOk, Wrote, Spare, Taken, AllClear;
      ghost var v := disk.Vol();
      found := Reserve(freeMap, count);
      Reserved(v, disk.Vol().bits, chain, found);
      TakenCount(v.bits, disk.Vol().bits, found);
      RoundUpZero(SECTOR_SIZE);
      assert chain + found[..0] == chain;
    }

    /** Sectors for `count` headers, and the first of them; nothing was written when it fails. */
    method StartNew(freeMap: Bitmap, count: nat, from: seq<B.Byte>, ghost chain: seq<nat>) returns (ok: bool, found: seq<nat>, n: nat)
      requires Ready(freeMap, chain) && disk.Vol().bits[0] && |from| > 0 && 0 < count <= CountClear(disk.Vol().bits)
      requires At(chain, |chain| - 1) && hdr.raw == Hdr(disk.sectors, currentSector) && seekPosition == CAPACITY == hdr.raw.numBytes
      requires |from| <= Base(CAPACITY, count)
      modifies this`hdr, this`seekPosition, hdr, disk, freeMap.words
      ensures disk.Valid() && (hdr == old(hdr) || fresh(hdr)) && |found| == count && AllClear(old(disk.Vol()).bits, found)
      ensures !ok ==> Appending(freeMap, old(disk.Vol()), chain, found, 0, []) && seekPosition == CAPACITY
      ensures !ok ==> CountClear(old(disk.Vol()).bits) < count + DivRoundUp(SECTOR_SIZE, |from|)
      ensures ok ==> 0 < n <= |from| && Appending(freeMap, old(disk.Vol()), chain, found, 1, from[..n])
      ensures ok ==> Going(from[..n], |from| - n, count - 1)
    {
      hide Base, Index, Offset, DivRoundUp, BitsOf, ChainOk, Appending, MadeOf, AllClear;
      ghost var v := disk.Vol();
      found := ReserveHeaders(freeMap, count, chain);
      RoundUpZero(SECTOR_SIZE);
      BaseStep(SECTOR_SIZE, 0);
      AppendingFacts(freeMap, v, chain, found, 0, []);
      n := if |from| < CAPACITY then |from| else CAPACITY;
      ghost var none: seq<B.Byte> := [];
      assert none + from[..n] == from[..n];
      ok := AppendNext(freeMap, currentSector, found, 0, none, from[..n], v, chain);
      RoundUpMonotone(SECTOR_SIZE, n, |from|);
      AlignedSum(0, NUM_DIRECT);
      BaseStep(CAPACITY, count - 1);
    }

    /** The third phase: new headers for the rest. */
    method WriteNew(freeMap: Bitmap, from: seq<B.Byte>, ghost chain: seq<nat>) returns (result: nat, ghost chain': seq<nat>)
      requires chain != [] && Ready(freeMap, chain) && disk.Vol().bits[0] && |from| > 0
      requires At(chain, |chain| - 1) && hdr.raw == Hdr(disk.sectors, currentSector) && seekPosition == CAPACITY == hdr.raw.numBytes
      modifies this`hdr, this`seekPosition, this`currentSector, hdr, disk, freeMap.words
      ensures disk.Valid() && (hdr == old(hdr) || fresh(hdr)) && result <= |from| && chain' != []
      ensures Wrote(old(disk.Vol()), chain, disk.Vol(), chain', from[..result], |old(Content(disk.Vol(), chain))|)
      ensures At(chain', |chain'| - 1) && Base(CAPACITY, |chain'| - 1) + seekPosition == |old(Content(disk.Vol(), chain))| + result
      ensures result < |from| <==> Short(old(disk.Vol()), chain, |old(Content(disk.Vol(), chain))| + |from|)
      ensures result == |from| ==> ChainOk(disk.Vol(), chain') && Budget(disk.Vol(), chain') == old(Budget(disk.Vol(), chain))
    {
      hide Base, Index, Offset, DivRoundUp, BitsOf, ChainOk, Wrote, AllClear, Short, Content, Appending, MadeOf;
      ghost var v := disk.Vol();
      ShortIff(v, chain, |from|);
      HeadersNeeded(|from|);
      var totalSectors := DivRoundUp(SECTOR_SIZE, |from|);
      var fileHeaderSectors := DivRoundUp(NUM_DIRECT, totalSectors);
      RoundUpCovers(CAPACITY, |from|, 0);
      BaseStep(CAPACITY, 0);
      var clear := freeMap.CountClearBits();
      if clear < fileHeaderSectors {
        WroteNothing(v, chain, |Content(v, chain)|);
        return 0, chain;
      }
      var success, found, n := StartNew(freeMap, fileHeaderSectors, from, chain);
      if !success {
        AppendingFacts(freeMap, v, chain, found, 0, []);
        NothingMade(v, chain, found);
        return 0, chain;
      }
      var made;
      made, result := WriteRest(freeMap, found, from, n, v, chain);
      chain' := chain + found[..made];
      Verdict(v, chain, found, made, from, result);
      if result == |from| {
        assert from[..result] == from;
        BudgetAppend(v, chain, disk.Vol(), chain', from);
      }
      currentSector := found[made - 1];
    }

    lemma NothingMade(v: Volume, chain: seq<nat>, found: seq<nat>)
      requires MadeOf(v, chain, found, 0, [])
      ensures Wrote(v, chain, disk.Vol(), chain, [], |Content(v, chain)|)
      ensures chain[|chain| - 1] < |disk.sectors| && seekPosition == Hdr(disk.sectors, chain[|chain| - 1]).numBytes
      ensures Base(CAPACITY, |chain| - 1) + seekPosition == |Content(v, chain)|
    {
      hide Base, Index, Offset, DivRoundUp, BitsOf, Wrote, Spare, Content;
      assert chain + found[..0] == chain;
      EndOf(v, chain, disk.Vol(), chain, []);
    }

    lemma Verdict(v: Volume, chain: seq<nat>, found: seq<nat>, made: nat, from: seq<B.Byte>, result: nat)
      requires result <= |from| && 0 < made <= |found| && MadeOf(v, chain, found, made, from[..result])
      requires result < |from| ==> CountClear(disk.Vol().bits) == 0 && result == Base(SECTOR_SIZE, DivRoundUp(SECTOR_SIZE, result))
      ensures result < |from| <==> CountClear(v.bits) < DivRoundUp(SECTOR_SIZE, |from|) + |found|
      ensures CountClear(disk.Vol().bits) + DivRoundUp(SECTOR_SIZE, result) + |found| == CountClear(v.bits)
      ensures Wrote(v, chain, disk.Vol(), chain + found[..made], from[..result], |Content(v, chain)|)
      ensures Base(CAPACITY, |chain| + made - 1) + seekPosition == |Content(v, chain)| + result
      ensures found[made - 1] < |disk.sectors| && seekPosition == Hdr(disk.sectors, found[made - 1]).numBytes
    {
      hide Base, Index, Offset, DivRoundUp, BitsOf, Wrote, Spare, Content;
      if result < |from| { FewerSectors(result, |from|); }
      EndOf(v, chain, disk.Vol(), chain + found[..made], from[..result]);
      CellOfChain(disk.Vol(), chain + found[..made], |chain| + made - 1);
    }

    /** The headers after the first new one; the sectors of those not made are given up. */
    method WriteRest(freeMap: Bitmap, found: seq<nat>, from: seq<B.Byte>, start: nat, ghost v: Volume, ghost chain: seq<nat>)
      returns (made: nat, result: nat)
      requires 0 < start <= |from| && Appending(freeMap, v, chain, found, 1, from[..start]) && 0 < |found| && AllClear(v.bits, found)
      requires |v.bits| == |v.disk| && Going(from[..start], |from| - start, |found| - 1)
      modifies this`hdr, this`seekPosition, hdr, disk, freeMap.words
      ensures disk.Valid() && (hdr == old(hdr) || fresh(hdr)) && 0 < made <= |found| && start <= result <= |from|
      ensures MadeOf(v, chain, found, made, from[..result])
      ensures result < |from| ==> CountClear(disk.Vol().bits) == 0 && result == Base(SECTOR_SIZE, DivRoundUp(SECTOR_SIZE, result))
    {
      hide Base, Index, Offset, DivRoundUp, BitsOf, Appending, MadeOf, AllClear;
      var success;
      success, made, result := MakeHeaders(freeMap, found, from, start, v, chain);
      AppendingFacts(freeMap, v, chain, found, made, from[..result]);
      if !success {
        ForgetSectors(freeMap, found, made, v.bits);
      }
    }

    method MakeHeaders(freeMap: Bitmap, found: seq<nat>, from: seq<B.Byte>, start: nat, ghost v: Volume, ghost chain: seq<nat>)
      returns (success: bool, made: nat, result: nat)
      requires 0 < start <= |from| && Appending(freeMap, v, chain, found, 1, from[..start]) && 0 < |found| && AllClear(v.bits, found)
      requires Going(from[..start], |from| - start, |found| - 1)
      modifies this`hdr, this`seekPosition, hdr, disk, freeMap.words
      ensures disk.Valid() && (hdr == old(hdr) || fresh(hdr)) && 0 < made <= |found| && start <= result <= |from|
      ensures Appending(freeMap, v, chain, found, made, from[..result])
      ensures result < |from| ==> CountClear(disk.Vol().bits) == 0 && result == Base(SECTOR_SIZE, DivRoundUp(SECTOR_SIZE, result))
    {
      hide Base, Index, Offset, DivRoundUp, BitsOf, Appending, MadeOf, AllClear, Going;
      AppendingFacts(freeMap, v, chain, found, 1, from[..start]);
      success, made, result := true, 1, start;
      while made < |found| && success
        invariant 1 <= made <= |found| && start <= result <= |from| && (hdr == old(hdr) || fresh(hdr))
        invariant Appending(freeMap, v, chain, found, made, from[..result])
        invariant disk.Valid() && Going(from[..result], |from| - result, |found| - made)
        invariant !success ==> result == |from| || CountClear(disk.Vol().bits) == 0
        decreases |found| - made, success
      {
        var n;
        AppendingFacts(freeMap, v, chain, found, made, from[..result]);
        success, n := StepNew(freeMap, found, made, from, result, v, chain);
        result := result + n;
        if success {
          made := made + 1;
        }
      }
      if result < |from| { GoingEnds(from[..result], |from| - result, |found| - made); }
    }

    lemma GoingEnds(d: seq<B.Byte>, rest: nat, left: nat)
      requires disk.Valid() && Going(d, rest, left) && rest > 0 && (left == 0 || CountClear(disk.Vol().bits) == 0)
      ensures CountClear(disk.Vol().bits) == 0 && |d| == Base(SECTOR_SIZE, DivRoundUp(SECTOR_SIZE, |d|))
    {
      hide Base, DivRoundUp, BitsOf;
      BaseStep(CAPACITY, 0);
    }

    /** The sectors of headers that were not made, cleared in memory only. */
    method ForgetSectors(freeMap: Bitmap, found: seq<nat>, start: nat, ghost bits: seq<bool>)
      requires freeMap.Valid() && start <= |found| && AllClear(bits, found) && |bits| == freeMap.numBits
      modifies freeMap.words
      ensures forall x :: 0 <= x < freeMap.numBits ==> freeMap.Bits()[x] == (old(freeMap.Bits()[x]) && x !in found[start..])
    {
      for i := start to |found|
        invariant forall x :: 0 <= x < freeMap.numBits ==> freeMap.Bits()[x] == (old(freeMap.Bits()[x]) && x !in found[start..i])
      {
        freeMap.Clear(found[i]);
        assert found[start..i + 1] == found[start..i] + [found[i]];
      }
      assert found[start..|found|] == found[start..];
    }

    /** Write at the cursor, through the current header, those after it and as
        many new ones as needed.  Whatever the exit, `result` bytes went in and the
        cursor moved by as many; all of them do exactly when enough sectors are free, and then
        just the sectors that the longer file needs more were taken. */
    method Write(from: seq<B.Byte>, ghost chain: seq<nat>, ghost k: nat) returns (result: nat, ghost chain': seq<nat>, ghost k': nat)
      requires disk.Valid() && disk.Vol().bits[0] && ChainOk(disk.Vol(), chain) && At(chain, k) && |from| > 0
      modifies this, hdr, disk
      ensures disk.Valid() && (hdr == old(hdr) || fresh(hdr)) && result <= |from|
      ensures Wrote(old(disk.Vol()), chain, disk.Vol(), chain', from[..result], Base(CAPACITY, k) + old(seekPosition))
      ensures At(chain', k') && Base(CAPACITY, k') + seekPosition == Base(CAPACITY, k) + old(seekPosition) + result
      ensures var length := |old(Content(disk.Vol(), chain))|;
        result == |from| <==>
        SectorsFor(LengthAfter(length, Base(CAPACITY, k) + old(seekPosition), |from|)) <= SectorsFor(length) + CountClear(old(disk.Vol().bits))
      ensures result == |from| ==> ChainOk(disk.Vol(), chain') && Budget(disk.Vol(), chain') == old(Budget(disk.Vol(), chain))
    {
      hide Base, Index, Offset, DivRoundUp, BitsOf, ChainOk, Wrote, SectorsFor, Content;
      hdr.FetchFrom(disk, currentSector);
      var freeMap := new Bitmap(|disk.sectors|);
      freeMap.FetchFrom(disk.freeMap);
      result, chain', k' := WritePhases(freeMap, from, chain, k);
    }

    method WritePhases(freeMap: Bitmap, from: seq<B.Byte>, ghost chain: seq<nat>, ghost k: nat)
      returns (result: nat, ghost chain': seq<nat>, ghost k': nat)
      requires Ready(freeMap, chain) && disk.Vol().bits[0] && At(chain, k) && hdr.raw == Hdr(disk.sectors, currentSector)
      modifies this`hdr, this`seekPosition, this`currentSector, hdr, disk, freeMap.words
      ensures disk.Valid() && (hdr == old(hdr) || fresh(hdr)) && result <= |from|
      ensures Wrote(old(disk.Vol()), chain, disk.Vol(), chain', from[..result], Base(CAPACITY, k) + old(seekPosition))
      ensures At(chain', k') && Base(CAPACITY, k') + seekPosition == Base(CAPACITY, k) + old(seekPosition) + result
      ensures result < |from| <==>
        Short(old(disk.Vol()), chain, LengthAfter(|old(Content(disk.Vol(), chain))|, Base(CAPACITY, k) + old(seekPosition), |from|))
      ensures result == |from| ==> ChainOk(disk.Vol(), chain') && Budget(disk.Vol(), chain') == old(Budget(disk.Vol(), chain))
    {
      hide Base, Index, Offset, DivRoundUp, BitsOf, ChainOk, Wrote, Budget, Short, Content;
      ghost var v, pos := disk.Vol(), Base(CAPACITY, k) + seekPosition;
      ghost var target := LengthAfter(|Content(v, chain)|, pos, |from|);
      Inside(v, chain, k, seekPosition);
      var ok;
      ok, result, k' := WriteOld(freeMap, from, chain, k);
      chain' := chain;
      if !ok {
        ShortLonger(v, chain, disk.Vol(), pos + |from|, target);
      } else if result == |from| {
        Enough(v, chain, disk.Vol(), from[..result], pos);
      } else {
        result, chain' := WriteTail(freeMap, from, result, v, chain, pos);
        k' := |chain'| - 1;
      }
    }

    /** The third phase, behind `done` bytes already written. */
    method WriteTail(freeMap: Bitmap, from: seq<B.Byte>, done: nat, ghost v: Volume, ghost chain: seq<nat>, ghost pos: nat)
      returns (result: nat, ghost chain': seq<nat>)
      requires chain != [] && done < |from| && Progress(freeMap, v, chain, |chain| - 1, from[..done], pos)
      requires |v.bits| > 0 && v.bits[0] && pos <= |Content(v, chain)|
      requires hdr.raw == Hdr(disk.sectors, currentSector) && seekPosition == CAPACITY
      modifies this`hdr, this`seekPosition, this`currentSector, hdr, disk, freeMap.words
      ensures disk.Valid() && (hdr == old(hdr) || fresh(hdr)) && result <= |from| && chain' != []
      ensures Wrote(v, chain, disk.Vol(), chain', from[..result], pos)
      ensures At(chain', |chain'| - 1) && Base(CAPACITY, |chain'| - 1) + seekPosition == pos + result
      ensures result < |from| <==> Short(v, chain, LengthAfter(|Content(v, chain)|, pos, |from|))
      ensures result == |from| ==> ChainOk(disk.Vol(), chain') && Budget(disk.Vol(), chain') == Budget(v, chain)
    {
      hide Base, Index, Offset, DivRoundUp, BitsOf, ChainOk, Wrote, Budget, Short, Content;
      ghost var v2, d := disk.Vol(), from[..done];
      WroteMarks(v, chain, v2, chain, d, pos, 0);
      WroteLength(v, chain, v2, chain, d, pos);
      NextHeader(v2, chain, |chain| - 1);
      ShortIff(v2, chain, 1);
      var more;
      more, chain' := WriteNew(freeMap, from[done..], chain);
      assert d + from[done..][..more] == from[..done + more];
      WroteTrans(v, chain, v2, chain, disk.Vol(), chain', d, from[done..][..more], pos);
      ShortLonger(v, chain, v2, pos + |from|, pos + |from|);
      result := done + more;
    }

    /** The first two phases. */
    method WriteOld(freeMap: Bitmap, from: seq<B.Byte>, ghost chain: seq<nat>, ghost start: nat) returns (ok: bool, result: nat, ghost k: nat)
      requires Ready(freeMap, chain) && At(chain, start) && hdr.raw == Hdr(disk.sectors, currentSector)
      modifies this`seekPosition, this`currentSector, hdr, disk, freeMap.words
      ensures result <= |from| && Progress(freeMap, old(disk.Vol()), chain, k, from[..result], Base(CAPACITY, start) + old(seekPosition))
      ensures ok && result < |from| ==> hdr.raw == Hdr(disk.sectors, currentSector) && seekPosition == CAPACITY && k == |chain| - 1
      ensures !ok ==> result < |from| && Short(disk.Vol(), chain, Base(CAPACITY, start) + old(seekPosition) + |from|)
    {
      hide Base, Index, Offset, DivRoundUp, BitsOf, ChainOk, Wrote, Budget, Short;
      ghost var v, pos := disk.Vol(), Base(CAPACITY, start) + seekPosition;
      Inside(v, chain, start, seekPosition);
      k := start;
      ok, result := WriteHere(freeMap, from, chain, start);
      if !ok {
        return;
      }
      ghost var v1 := disk.Vol();
      var more;
      ghost var d := from[..result];
      ok, more, k := WriteExisting(freeMap, from[result..], chain, start);
      assert d + from[result..][..more] == from[..result + more];
      WroteTrans(v, chain, v1, chain, disk.Vol(), chain, d, from[result..][..more], pos);
      result := result + more;
    }

    // -------------------------------------------------------------------------- Read

    /** A handle used for reading: the header of `chain[k]` is in memory and the cursor within its bytes. */
    ghost predicate Reading(chain: seq<nat>, k: nat)
      reads this, hdr, disk
    {
      && disk.Valid() && ChainOk(disk.Vol(), chain) && k < |chain| && chain[k] < |disk.sectors|
      && hdr.raw == Hdr(disk.sectors, chain[k]) && seekPosition <= hdr.raw.numBytes
    }

    /** `into` is what the file holds from `pos` on, and the cursor is behind it. */
    ghost predicate HasRead(chain: seq<nat>, k: nat, pos: nat, into: seq<B.Byte>)
      reads this, hdr, disk
    {
      && Reading(chain, k) && Base(CAPACITY, k) + seekPosition == pos + |into|
      && into == B.ReadAt(Content(disk.Vol(), chain), |into|, pos)
    }

    /** Read up to `numBytes` bytes within the current header. */
    method ReadHere(numBytes: nat, into: seq<B.Byte>, ghost chain: seq<nat>, ghost k: nat, ghost pos: nat) returns (into': seq<B.Byte>)
      requires HasRead(chain, k, pos, into) && numBytes > 0
      modifies this`seekPosition
      ensures HasRead(chain, k, pos, into') && |into| <= |into'| <= |into| + numBytes
      ensures |into'| == |into| + numBytes || seekPosition == hdr.raw.numBytes
      ensures old(seekPosition) + numBytes <= hdr.raw.numBytes ==> |into'| == |into| + numBytes
    {
      hide Base, Index, Offset, DivRoundUp, BitsOf, ChainOk, Content, Part;
      ReadOn(disk.Vol(), chain, k, seekPosition, pos, into, numBytes);
      CellOfChain(disk.Vol(), chain, k);
      CellIsSound(disk.Vol(), chain[k]);
      var piece := ReadAt(numBytes, seekPosition);
      into' := into + piece;
      seekPosition := seekPosition + |piece|;
    }

    /** Read at the cursor, across headers: `numBytes` bytes, or fewer only when the file ends. */
    method Read(numBytes: nat, ghost chain: seq<nat>, ghost k: nat) returns (into: seq<B.Byte>, ghost k': nat)
      requires Reading(chain, k) && numBytes > 0
      modifies this`seekPosition, hdr
      ensures Reading(chain, k') && Base(CAPACITY, k') + seekPosition == Base(CAPACITY, k) + old(seekPosition) + |into|
      ensures into == B.ReadAt(Content(disk.Vol(), chain), numBytes, Base(CAPACITY, k) + old(seekPosition))
    {
      hide Base, Index, Offset, DivRoundUp, BitsOf, ChainOk, Content, B.ReadAt;
      ghost var pos := Base(CAPACITY, k) + seekPosition;
      ReadNothing(Content(disk.Vol(), chain), pos);
      k' := k;
      if seekPosition + numBytes > hdr.raw.numBytes {
        into := ReadHere(numBytes, [], chain, k, pos);
        into, k' := ReadNext(numBytes, into, chain, k, pos);
      } else {
        into := ReadHere(numBytes, [], chain, k, pos);
      }
    }

    /** The loop over the headers after the current one. */
    method ReadNext(numBytes: nat, start: seq<B.Byte>, ghost chain: seq<nat>, ghost k: nat, ghost pos: nat) returns (into: seq<B.Byte>, ghost k': nat)
      requires HasRead(chain, k, pos, start) && |start| <= numBytes && (|start| == numBytes || seekPosition == hdr.raw.numBytes)
      modifies this`seekPosition, hdr
      ensures HasRead(chain, k', pos, into) && into == B.ReadAt(Content(disk.Vol(), chain), numBytes, pos)
    {
      hide Base, Index, Offset, DivRoundUp, BitsOf, ChainOk, Content, B.ReadAt;
      k', into := k, start;
      var nextSector := hdr.raw.nextFileHeader;
      while nextSector != 0 && |into| < numBytes
        invariant HasRead(chain, k', pos, into) && |into| <= numBytes && (|into| == numBytes || seekPosition == hdr.raw.numBytes)
        invariant nextSector == hdr.raw.nextFileHeader
        decreases |chain| - k'
      {
        NextHeader(disk.Vol(), chain, k');
        CellOfChain(disk.Vol(), chain, k' + 1);
        BaseStep(CAPACITY, k');
        seekPosition := 0;
        hdr.FetchFrom(disk, nextSector);
        k' := k' + 1;
        into := ReadHere(numBytes - |into|, into, chain, k', pos);
        nextSector := hdr.raw.nextFileHeader;
      }
      NextHeader(disk.Vol(), chain, k');
      EndOfFile(disk.Vol(), chain);
      ReadEnds(Content(disk.Vol(), chain), numBytes, pos, into);
    }

    /** Any sequence of reads returns consecutive pieces of the contents; a piece
        is shorter than asked for only when the file ends with it. */
    method ReadAll(sizes: seq<nat>, ghost chain: seq<nat>) returns (pieces: seq<seq<B.Byte>>)
      requires Reading(chain, 0) && seekPosition == 0 && forall i :: 0 <= i < |sizes| ==> sizes[i] > 0
      modifies this`seekPosition, hdr
      ensures |pieces| == |sizes| && Consecutive(Content(disk.Vol(), chain), pieces, sizes)
    {
      hide Base, Index, Offset, DivRoundUp, BitsOf, ChainOk, Content, B.ReadAt, Consecutive;
      ghost var content := Content(disk.Vol(), chain);
      pieces := [];
      ghost var k := 0;
      BaseStep(CAPACITY, 0);
      NothingRead(content, sizes);
      for i := 0 to |sizes|
        invariant |pieces| == i && Reading(chain, k) && content == Content(disk.Vol(), chain)
        invariant Base(CAPACITY, k) + seekPosition == |Flatten(pieces)| && Consecutive(content, pieces, sizes)
      {
        var piece;
        piece, k := Read(sizes[i], chain, k);
        NextPiece(content, pieces, sizes, piece);
        pieces := pieces + [piece];
      }
    }
  }

  /** How many bytes the next new header takes, of the `rest` there are, with `clear` sectors free. */
  function ToAllocate(rest: nat, clear: nat): (n: nat)
    ensures n <= rest && n <= CAPACITY && DivRoundUp(SECTOR_SIZE, n) <= clear
    ensures n == 0 <==> rest == 0 || clear == 0
  {
    hide Base, Index, Offset, DivRoundUp;
    var n := if rest < CAPACITY then rest else CAPACITY;
    RoundUpCovers(SECTOR_SIZE, n, clear);
    RoundUpAdd(SECTOR_SIZE, clear, 0);
    RoundUpZero(SECTOR_SIZE);
    BaseAtLeast(SECTOR_SIZE, clear);
    BaseStep(SECTOR_SIZE, 0);
    if clear < DivRoundUp(SECTOR_SIZE, n) then Base(SECTOR_SIZE, clear) else n
  }

  lemma StillGoing(result: nat, rest: nat, clear: nat, n: nat, left: nat)
    requires result == Base(SECTOR_SIZE, DivRoundUp(SECTOR_SIZE, result)) && 0 < n == ToAllocate(rest, clear)
    requires 0 < left && rest <= Base(CAPACITY, left)
    ensures n < rest ==> result + n == Base(SECTOR_SIZE, DivRoundUp(SECTOR_SIZE, result + n))
    ensures n < rest ==> DivRoundUp(SECTOR_SIZE, n) == clear || (n == CAPACITY && rest - n <= Base(CAPACITY, left - 1))
  {
    hide Base, Index, Offset, DivRoundUp;
    AlignedSum(result, clear);
    AlignedSum(result, NUM_DIRECT);
    BaseStep(CAPACITY, left - 1);
  }

  lemma EmptyOk(r: Raw)
    requires r.numBytes == r.numSectors == 0
    ensures HeaderOk(r) && CAPACITY < WORD
  {
  }

  lemma EmptyGrown(disk: seq<Sector>, bits: seq<bool>, r: Raw, bits': seq<bool>, r': Raw)
    requires r.numBytes == r.numSectors == 0 && Allocated(bits, r, bits', r') && |bits| == |disk|
    ensures Sound(disk, r')
  {
    assert Data(r) == [];
    AllocatedData(disk, bits, r, bits', r');
  }

  /** `buf`, for the bytes of `content` from `base` on, agrees with them outside the `n` bytes at `position`. */
  ghost predicate Edges(buf: seq<B.Byte>, content: seq<B.Byte>, base: nat, position: nat, n: nat) {
    forall y {:trigger buf[y]} :: 0 <= y < |buf| && base + y < |content| && !(position <= base + y < position + n) ==>
      buf[y] == content[base + y]
  }

  /** `buf` holds the sector at `o`, as far as the content goes. */
  ghost predicate Loaded(buf: seq<B.Byte>, content: seq<B.Byte>, base: nat, o: nat) {
    o + SECTOR_SIZE <= |buf| &&
    forall y {:trigger buf[y]} :: o <= y < o + SECTOR_SIZE && base + y < |content| ==> buf[y] == content[base + y]
  }

  lemma LoadOne(buf: seq<B.Byte>, content: seq<B.Byte>, base: nat, o: nat)
    requires o + SECTOR_SIZE <= |buf|
    ensures var buf' := B.Splice(buf, o, B.ReadAt(content, SECTOR_SIZE, base + o));
      && Loaded(buf', content, base, o)
      && forall c: nat :: c + SECTOR_SIZE <= o && Loaded(buf, content, base, c) ==> Loaded(buf', content, base, c)
  {
  }

  lemma EdgesKept(buf: seq<B.Byte>, content: seq<B.Byte>, base: nat, o: nat, position: nat, n: nat)
    requires base <= position < base + SECTOR_SIZE && base + o < position + n <= base + o + SECTOR_SIZE
    requires |buf| == o + SECTOR_SIZE && (o == 0 || SECTOR_SIZE <= o)
    requires position == base || Loaded(buf, content, base, 0)
    requires position + n == base + o + SECTOR_SIZE || (o == 0 && position != base) || Loaded(buf, content, base, o)
    ensures Edges(buf, content, base, position, n)
  {
  }

  /** Writing whole sectors with kept edges is writing just the bytes meant. */
  lemma WriteBuffer(image: seq<B.Byte>, length: nat, base: nat, buf: seq<B.Byte>, position: nat, d: seq<B.Byte>)
    requires length <= |image| && base + |buf| <= |image| && position + |d| <= length
    requires base <= position && position - base + |d| <= |buf|
    requires Edges(buf, image[..length], base, position, |d|)
    ensures B.Splice(image, base, B.Splice(buf, position - base, d))[..length] == B.Splice(image[..length], position, d)
  {
    var buf' := B.Splice(buf, position - base, d);
    var a, b := B.Splice(image, base, buf')[..length], B.Splice(image[..length], position, d);
    forall x | 0 <= x < length ensures a[x] == b[x] {
      if base <= x < base + |buf| { assert buf'[x - base] == if position <= x < position + |d| then d[x - position] else buf[x - base]; }
    }
  }
}
