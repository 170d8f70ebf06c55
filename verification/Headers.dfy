/** Disk sectors, and the one-sector header that `filesys/raw_file_header.hh`
    lays out as `NUM_DIRECT + 3` 32-bit words. */
module Headers {
  import opened Blocks
  import opened Bytes

  const WORD: nat := 0x1_0000_0000

  /** Any number of direct sectors whose bytes a word can count; 29 in this build. */
  type Direct = n: nat | 0 < n && Base(4 * (n + 3), n) < WORD witness 1
  const NUM_DIRECT: Direct
  const SECTOR_SIZE: Pos := 4 * (NUM_DIRECT + 3)

  /** How many bytes one header can hold. */
  const CAPACITY: Pos := Base(SECTOR_SIZE, NUM_DIRECT)

  type Sector = s: seq<Byte> | |s| == SECTOR_SIZE witness Zeros(SECTOR_SIZE)
  type Word = n: nat | n < WORD witness 0

  datatype RawFileHeader = RawFileHeader(numBytes: Word, numSectors: Word, dataSectors: seq<Word>, nextFileHeader: Word)
  type Raw = r: RawFileHeader | |r.dataSectors| == NUM_DIRECT
    witness RawFileHeader(0, 0, seq(NUM_DIRECT, _ => 0), 0)

  // ------------------------------------------------------------- the sector's bytes

  function Words(r: Raw): (w: seq<Word>)
    ensures |w| == NUM_DIRECT + 3
  {
    [r.numBytes, r.numSectors] + r.dataSectors + [r.nextFileHeader]
  }

  /** Byte `i` of a little-endian word. */
  function ByteOf(w: Word, i: nat): Byte
    requires i < 4
  {
    if i == 0 then w % 256 else if i == 1 then w / 256 % 256
    else if i == 2 then w / 256 / 256 % 256 else w / 256 / 256 / 256
  }

  function Pack(r: Raw): (s: Sector)
    ensures forall k, i {:trigger s[4 * k + i]} :: 0 <= k < NUM_DIRECT + 3 && 0 <= i < 4 ==> s[4 * k + i] == ByteOf(Words(r)[k], i)
  {
    seq(SECTOR_SIZE, i requires 0 <= i < SECTOR_SIZE => ByteOf(Words(r)[i / 4], i % 4))
  }

  function WordAt(s: Sector, k: nat): Word
    requires k < NUM_DIRECT + 3
  {
    var b0: int, b1: int, b2: int, b3: int := s[4 * k], s[4 * k + 1], s[4 * k + 2], s[4 * k + 3];
    b0 + 256 * (b1 + 256 * (b2 + 256 * b3))
  }

  function Unpack(s: Sector): Raw {
    RawFileHeader(WordAt(s, 0), WordAt(s, 1), seq(NUM_DIRECT, i requires 0 <= i < NUM_DIRECT => WordAt(s, i + 2)),
                  WordAt(s, NUM_DIRECT + 2))
  }

  lemma WordOfPack(r: Raw, k: nat)
    requires k < NUM_DIRECT + 3
    ensures WordAt(Pack(r), k) == Words(r)[k]
  {
    var s := Pack(r);
    assert s[4 * k + 0] == ByteOf(Words(r)[k], 0);
  }

  /** A header written to a sector is read back as it was. */
  lemma UnpackPack(r: Raw)
    ensures Unpack(Pack(r)) == r
  {
    var u := Unpack(Pack(r));
    WordOfPack(r, 0);
    WordOfPack(r, 1);
    WordOfPack(r, NUM_DIRECT + 2);
    forall i: nat | i < NUM_DIRECT ensures u.dataSectors[i] == r.dataSectors[i] { WordOfPack(r, i + 2); }
  }

  /** The little-endian word in four bytes of a sector, from byte `at` on. */
  function Word4(s: Sector, at: nat): int
    requires at + 4 <= SECTOR_SIZE
  {
    s[at] as int + 0x100 * (s[at + 1] as int) + 0x1_0000 * (s[at + 2] as int) + 0x100_0000 * (s[at + 3] as int)
  }

  /** The layout of the structure: the two counts, the direct sectors, the next header. */
  lemma PackLayout(r: Raw)
    ensures Word4(Pack(r), 0) == r.numBytes && Word4(Pack(r), 4) == r.numSectors
    ensures forall i: nat {:trigger r.dataSectors[i]} :: i < NUM_DIRECT ==> Word4(Pack(r), 8 + 4 * i) == r.dataSectors[i]
    ensures Word4(Pack(r), SECTOR_SIZE - 4) == r.nextFileHeader
  {
    hide Pack;
    WordOfPack(r, 0);
    WordOfPack(r, 1);
    WordOfPack(r, NUM_DIRECT + 2);
    forall i: nat {:trigger r.dataSectors[i]} | i < NUM_DIRECT ensures Word4(Pack(r), 8 + 4 * i) == r.dataSectors[i] { WordOfPack(r, i + 2); }
  }

  // ---------------------------------------------------------- what a header describes

  ghost predicate HeaderOk(r: Raw) {
    r.numBytes <= CAPACITY && r.numSectors == DivRoundUp(SECTOR_SIZE, r.numBytes)
  }

  lemma SectorsFit(bytes: nat)
    requires bytes <= CAPACITY
    ensures DivRoundUp(SECTOR_SIZE, bytes) <= NUM_DIRECT < WORD && bytes <= Base(SECTOR_SIZE, DivRoundUp(SECTOR_SIZE, bytes))
  {
    BaseAtLeast(SECTOR_SIZE, NUM_DIRECT);
    RoundUpCovers(SECTOR_SIZE, bytes, NUM_DIRECT);
    RoundUpCovers(SECTOR_SIZE, bytes, DivRoundUp(SECTOR_SIZE, bytes));
  }

  /** `data` lists sectors of the disk, none twice. */
  ghost predicate Distinct(disk: seq<Sector>, data: seq<nat>) {
    && (forall i :: 0 <= i < |data| ==> data[i] < |disk|)
    && (forall i, j :: 0 <= i < j < |data| ==> data[i] != data[j])
  }

  /** The data sectors in use. */
  function Data(r: Raw): (d: seq<nat>)
    requires r.numSectors <= NUM_DIRECT
    ensures |d| == r.numSectors
  {
    r.dataSectors[..r.numSectors]
  }

  lemma ByteHasSector(data: seq<nat>, x: nat)
    requires x < Base(SECTOR_SIZE, |data|)
    ensures Index(SECTOR_SIZE, x) < |data|
  {
    IndexBelow(SECTOR_SIZE, x, |data|);
  }

  ghost function ByteAt(disk: seq<Sector>, data: seq<nat>, x: nat): Byte
    requires Distinct(disk, data) && x < Base(SECTOR_SIZE, |data|)
  {
    ByteHasSector(data, x);
    disk[data[Index(SECTOR_SIZE, x)]][Offset(SECTOR_SIZE, x)]
  }

  /** The sectors `data` one after the other. */
  ghost function Image(disk: seq<Sector>, data: seq<nat>): (s: seq<Byte>)
    requires Distinct(disk, data)
    ensures |s| == Base(SECTOR_SIZE, |data|)
    ensures forall x :: 0 <= x < |s| ==> s[x] == ByteAt(disk, data, x)
  {
    seq(Base(SECTOR_SIZE, |data|), x requires 0 <= x < Base(SECTOR_SIZE, |data|) => ByteAt(disk, data, x))
  }

  /** A sector's own bytes within the image. */
  lemma ImageAt(disk: seq<Sector>, data: seq<nat>, k: nat, o: nat)
    requires Distinct(disk, data) && k < |data| && o < SECTOR_SIZE
    ensures Base(SECTOR_SIZE, k) + o < Base(SECTOR_SIZE, |data|) && Image(disk, data)[Base(SECTOR_SIZE, k) + o] == disk[data[k]][o]
  {
    Apart(SECTOR_SIZE, k, |data|);
    Join(SECTOR_SIZE, k, o);
  }

  lemma WriteOneAt(disk: seq<Sector>, data: seq<nat>, k: nat, d: Sector, x: nat)
    requires Distinct(disk, data) && k < |data| && x < Base(SECTOR_SIZE, |data|)
    requires Distinct(disk[data[k] := d], data)
    ensures ByteAt(disk[data[k] := d], data, x) ==
      var base := Base(SECTOR_SIZE, k); if base <= x < base + SECTOR_SIZE then d[x - base] else ByteAt(disk, data, x)
  {
    var i := Index(SECTOR_SIZE, x);
    ByteHasSector(data, x);
    Split(SECTOR_SIZE, x);
    if i < k { Apart(SECTOR_SIZE, i, k); } else if k < i { Apart(SECTOR_SIZE, k, i); }
  }

  /** Writing one sector splices it into the image. */
  lemma WriteOne(disk: seq<Sector>, data: seq<nat>, k: nat, d: Sector)
    requires Distinct(disk, data) && k < |data|
    ensures Distinct(disk[data[k] := d], data) && Base(SECTOR_SIZE, k) + SECTOR_SIZE <= Base(SECTOR_SIZE, |data|)
    ensures Image(disk[data[k] := d], data) == Splice(Image(disk, data), Base(SECTOR_SIZE, k), d)
  {
    var disk' := disk[data[k] := d];
    assert Distinct(disk', data);
    Apart(SECTOR_SIZE, k, |data|);
    var a, b := Image(disk', data), Splice(Image(disk, data), Base(SECTOR_SIZE, k), d);
    forall x: nat | x < |a| ensures a[x] == b[x] { WriteOneAt(disk, data, k, d, x); }
    assert a == b;
  }

  /** The image depends on the listed sectors alone. */
  lemma ImageFrame(disk: seq<Sector>, disk': seq<Sector>, data: seq<nat>)
    requires Distinct(disk, data) && |disk| == |disk'| && forall i :: 0 <= i < |data| ==> disk'[data[i]] == disk[data[i]]
    ensures Distinct(disk', data) && Image(disk', data) == Image(disk, data)
  {
    forall x | 0 <= x < Base(SECTOR_SIZE, |data|) ensures ByteAt(disk', data, x) == ByteAt(disk, data, x) {
      ByteHasSector(data, x);
    }
  }

  /** The bytes that the header `r` describes. */
  ghost function Part(disk: seq<Sector>, r: Raw): (s: seq<Byte>)
    requires HeaderOk(r) && r.numSectors <= NUM_DIRECT && Distinct(disk, Data(r))
    ensures |s| == r.numBytes
  {
    SectorsFit(r.numBytes);
    Image(disk, Data(r))[..r.numBytes]
  }

  /** Only the listed sectors may differ. */
  ghost predicate SameOutside(disk: seq<Sector>, disk': seq<Sector>, data: seq<nat>) {
    |disk| == |disk'| && forall s {:trigger disk'[s]} :: 0 <= s < |disk| && s !in data ==> disk'[s] == disk[s]
  }

  /** More sectors only add bytes at the end. */
  lemma ImagePrefix(disk: seq<Sector>, data: seq<nat>, more: seq<nat>, x: nat)
    requires Distinct(disk, data) && Distinct(disk, data + more) && x < Base(SECTOR_SIZE, |data|)
    ensures x < Base(SECTOR_SIZE, |data + more|) && Image(disk, data + more)[x] == Image(disk, data)[x]
  {
    BaseSum(SECTOR_SIZE, |data|, |more|);
    ByteHasSector(data, x);
  }
}
