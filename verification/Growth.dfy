/** How a file takes sectors: the count that a length needs, and what one
    allocation or one new header does to a chain. */
module Growth {
  import opened Blocks
  import opened Bytes
  import opened Headers
  import opened Bitmaps
  import opened Chains

  // ------------------------------------------------------------------------ counting

  /** Sectors of a file of `length` bytes: its data, and its headers (one at least). */
  ghost function SectorsFor(length: nat): nat {
    DivRoundUp(SECTOR_SIZE, length) + if length == 0 then 1 else DivRoundUp(CAPACITY, length)
  }

  lemma RoundUpUnique(n: Pos, a: nat, k: nat)
    requires a <= Base(n, k) && (k > 0 ==> Base(n, k - 1) < a)
    ensures DivRoundUp(n, a) == k
  {
    RoundUpCovers(n, a, k);
    if k > 0 { RoundUpCovers(n, a, k - 1); }
  }

  lemma RoundUpMonotone(n: Pos, a: nat, b: nat)
    requires a <= b
    ensures DivRoundUp(n, a) <= DivRoundUp(n, b)
  {
    RoundUpCovers(n, b, DivRoundUp(n, b));
    RoundUpCovers(n, a, DivRoundUp(n, b));
  }

  lemma RoundUpAdd(n: Pos, k: nat, a: nat)
    ensures DivRoundUp(n, Base(n, k) + a) == k + DivRoundUp(n, a)
  {
    hide Base, DivRoundUp;
    var q := DivRoundUp(n, a);
    RoundUpCovers(n, a, q);
    BaseSum(n, k, q);
    RoundUpCovers(n, Base(n, k) + a, k + q);
    var p := DivRoundUp(n, Base(n, k) + a);
    RoundUpCovers(n, Base(n, k) + a, p);
    if p < k {
      Apart(n, p, k);
      assert false;
    }
    BaseSum(n, k, p - k);
    RoundUpCovers(n, a, p - k);
  }

  lemma {:induction false} BaseOfBase(n: Pos, d: Pos, k: nat)
    ensures Base(n, d) > 0 && Base(n, Base(d, k)) == Base(Base(n, d), k)
  {
    if k > 0 {
      BaseOfBase(n, d, k - 1);
      BaseSum(n, Base(d, k - 1), d);
    }
  }

  /** The header count of `Write` is the least number of headers that hold `bytes` bytes. */
  lemma HeadersNeeded(bytes: nat)
    ensures DivRoundUp(NUM_DIRECT, DivRoundUp(SECTOR_SIZE, bytes)) == DivRoundUp(CAPACITY, bytes)
    ensures forall k: nat {:trigger Base(CAPACITY, k)} :: bytes <= Base(CAPACITY, k) <==> DivRoundUp(CAPACITY, bytes) <= k
  {
    hide Base, DivRoundUp;
    var h := DivRoundUp(NUM_DIRECT, DivRoundUp(SECTOR_SIZE, bytes));
    HeadersHold(bytes, h);
    HeadersHold(bytes, DivRoundUp(CAPACITY, bytes));
    forall k: nat {:trigger Base(CAPACITY, k)} ensures bytes <= Base(CAPACITY, k) <==> DivRoundUp(CAPACITY, bytes) <= k {
      RoundUpCovers(CAPACITY, bytes, k);
    }
  }

  lemma HeadersHold(bytes: nat, k: nat)
    ensures DivRoundUp(NUM_DIRECT, DivRoundUp(SECTOR_SIZE, bytes)) <= k <==> DivRoundUp(CAPACITY, bytes) <= k
  {
    hide Base, DivRoundUp;
    RoundUpCovers(NUM_DIRECT, DivRoundUp(SECTOR_SIZE, bytes), k);
    RoundUpCovers(SECTOR_SIZE, bytes, Base(NUM_DIRECT, k));
    BaseOfBase(SECTOR_SIZE, NUM_DIRECT, k);
    RoundUpCovers(CAPACITY, bytes, k);
  }

  /** The sectors of `m` headers, all full but the last, which holds `size` bytes. */
  lemma SectorsOfShape(m: nat, size: nat)
    requires m > 0 && size <= CAPACITY && (m == 1 || size > 0)
    ensures SectorsFor(Base(CAPACITY, m - 1) + size) == Base(NUM_DIRECT, m - 1) + DivRoundUp(SECTOR_SIZE, size) + m
  {
    hide Base, DivRoundUp;
    BaseOfBase(SECTOR_SIZE, NUM_DIRECT, m - 1);
    RoundUpAdd(SECTOR_SIZE, Base(NUM_DIRECT, m - 1), size);
    BaseStep(CAPACITY, 0);
    BaseStep(CAPACITY, m - 1);
    var length := Base(CAPACITY, m - 1) + size;
    if length > 0 {
      if size == 0 {
        assert false;
      }
      RoundUpUnique(CAPACITY, length, m);
    }
  }

  lemma SectorsMonotone(a: nat, b: nat)
    requires a <= b
    ensures SectorsFor(a) <= SectorsFor(b)
  {
    hide Base, DivRoundUp;
    RoundUpMonotone(SECTOR_SIZE, a, b);
    RoundUpMonotone(CAPACITY, a, b);
    if b > 0 {
      RoundUpCovers(CAPACITY, b, 0);
      BaseStep(CAPACITY, 0);
    }
  }

  // ----------------------------------------------------------------- one header grows

  /** The header `r` became `r'` by taking its new sectors, if any, from the free ones. */
  ghost predicate Allocated(bits: seq<bool>, r: Raw, bits': seq<bool>, r': Raw) {
    && r.numSectors <= r'.numSectors <= NUM_DIRECT && HeaderOk(r') && r.numBytes <= r'.numBytes
    && r'.nextFileHeader == r.nextFileHeader && r'.dataSectors[..r.numSectors] == r.dataSectors[..r.numSectors]
    && Taken(bits, bits', r'.dataSectors[r.numSectors..r'.numSectors])
  }

  lemma AllocatedData(disk: seq<Sector>, bits: seq<bool>, r: Raw, bits': seq<bool>, r': Raw)
    requires Sound(disk, r) && Allocated(bits, r, bits', r') && |bits| == |disk|
    requires forall x :: x in Data(r) ==> bits[x]
    ensures Data(r') == Data(r) + r'.dataSectors[r.numSectors..r'.numSectors] && Sound(disk, r')
    ensures forall x {:trigger x in Data(r')} :: x in Data(r') <==> x in Data(r) || x in r'.dataSectors[r.numSectors..r'.numSectors]
    ensures forall x {:trigger x in Data(r')} :: x in Data(r') ==> 0 <= x < |bits| && bits'[x]
  {
    assert Data(r') == Data(r) + r'.dataSectors[r.numSectors..r'.numSectors];
    TakenJoin(disk, bits, bits', Data(r), r'.dataSectors[r.numSectors..r'.numSectors]);
  }

  lemma TakenJoin(disk: seq<Sector>, bits: seq<bool>, bits': seq<bool>, a: seq<nat>, t: seq<nat>)
    requires Distinct(disk, a) && |disk| == |bits| && Taken(bits, bits', t) && forall x :: x in a ==> bits[x]
    ensures Distinct(disk, a + t)
    ensures forall x {:trigger x in a + t} :: x in a + t <==> x in a || x in t
    ensures forall x {:trigger x in a + t} :: x in a + t ==> 0 <= x < |bits| && bits'[x]
  {
    assert forall i :: 0 <= i < |a| ==> a[i] in a;
    assert forall i :: 0 <= i < |t| ==> t[i] in t;
  }

  /** The header in `s` was made to hold `size` bytes. */
  ghost predicate Grown(v: Volume, v': Volume, s: nat, size: nat)
    requires CellOk(v, s) && CellOk(v', s)
  {
    var r, r' := Hdr(v.disk, s), Hdr(v'.disk, s);
    && Touched(v, v', s) && r.numBytes <= r'.numBytes == size && r'.nextFileHeader == r.nextFileHeader
    && Part(v'.disk, r')[..r.numBytes] == Part(v.disk, r)
    && CountClear(v'.bits) + DivRoundUp(SECTOR_SIZE, size) == CountClear(v.bits) + DivRoundUp(SECTOR_SIZE, r.numBytes)
  }

  /** Storing a grown header and its map: the cell grew into free sectors, and
      the bytes it had are still there. */
  lemma GrowCell(v: Volume, s: nat, bits': seq<bool>, r': Raw)
    requires CellOk(v, s) && Allocated(v.bits, Hdr(v.disk, s), bits', r')
    ensures var v' := Volume(v.disk[s := Pack(r')], bits');
      CellOk(v', s) && Hdr(v'.disk, s) == r' && Grown(v, v', s, r'.numBytes)
  {
    var r := Hdr(v.disk, s);
    var v' := Volume(v.disk[s := Pack(r')], bits');
    UnpackPack(r');
    assert InCell(v.disk, s, s);
    forall x | x in Data(r) ensures v.bits[x] { assert InCell(v.disk, s, x); }
    AllocatedData(v.disk, v.bits, r, bits', r');
    AllocatedData(v'.disk, v.bits, r, bits', r');
    assert s !in Data(r');
    GrowPart(v.disk, v'.disk, r, r', s);
  }

  lemma GrowPart(disk: seq<Sector>, disk': seq<Sector>, r: Raw, r': Raw, s: nat)
    requires Sound(disk, r) && Sound(disk', r') && r.numBytes <= r'.numBytes && r.numSectors <= r'.numSectors
    requires Data(r') == Data(r) + r'.dataSectors[r.numSectors..r'.numSectors] && s !in Data(r) && |disk| == |disk'|
    requires forall x :: 0 <= x < |disk| && x != s ==> disk'[x] == disk[x]
    ensures Part(disk', r')[..r.numBytes] == Part(disk, r)
  {
    ImageFrame(disk, disk', Data(r));
    var a, b := Part(disk, r), Part(disk', r');
    SectorsFit(r.numBytes);
    forall x | 0 <= x < r.numBytes ensures b[x] == a[x] {
      ImagePrefix(disk', Data(r), r'.dataSectors[r.numSectors..r'.numSectors], x);
    }
  }

  lemma NotGrown(v: Volume, s: nat)
    requires CellOk(v, s)
    ensures Grown(v, v, s, Hdr(v.disk, s).numBytes)
  {
    assert Part(v.disk, Hdr(v.disk, s))[..Hdr(v.disk, s).numBytes] == Part(v.disk, Hdr(v.disk, s));
  }

  /** Too few sectors are free for the header in `s` to hold `size` bytes. */
  ghost predicate NoRoom(v: Volume, s: nat, size: nat)
    requires s < |v.disk|
  {
    && Hdr(v.disk, s).numBytes < size
    && CountClear(v.bits) + DivRoundUp(SECTOR_SIZE, Hdr(v.disk, s).numBytes) < DivRoundUp(SECTOR_SIZE, size)
  }

  /** Writing to the data sectors of a cell keeps it. */
  lemma WriteCell(v: Volume, v1: Volume, disk2: seq<Sector>, s: nat)
    requires CellOk(v, s) && CellOk(v1, s) && Touched(v, v1, s)
    requires SameOutside(v1.disk, disk2, Data(Hdr(v1.disk, s)))
    ensures var v2 := Volume(disk2, v1.bits); CellOk(v2, s) && Hdr(disk2, s) == Hdr(v1.disk, s) && Touched(v, v2, s)
  {
    var v2 := Volume(disk2, v1.bits);
    assert disk2[s] == v1.disk[s];
    assert Distinct(disk2, Data(Hdr(v1.disk, s)));
    forall x: nat {:trigger InCell(v2.disk, s, x)} ensures InCell(v2.disk, s, x) == InCell(v1.disk, s, x) {}
    forall x {:trigger v.bits[x]} | 0 <= x < |v.disk| && v.bits[x] && !InCell(v.disk, s, x)
      ensures v2.disk[x] == v.disk[x] && !InCell(v2.disk, s, x)
    {
      assert !InCell(v1.disk, s, x);
    }
  }

  /** A write that starts within the old bytes and covers every new one. */
  lemma GrowThenWrite(old_: seq<Byte>, grown: seq<Byte>, d: seq<Byte>, pos: nat)
    requires pos <= |old_| <= |grown| && grown[..|old_|] == old_
    requires |grown| == if pos + |d| <= |old_| then |old_| else pos + |d|
    ensures Splice(grown, pos, d) == WriteAt(old_, d, pos)
  {
    var a, b := Splice(grown, pos, d), WriteAt(old_, d, pos);
    forall i | 0 <= i < |a| ensures a[i] == b[i] {
      if i < |old_| { assert grown[i] == grown[..|old_|][i]; }
    }
  }

  // ------------------------------------------------------------------ one header is new

  /** A new header in the reserved sector `s`, its data taken from the free
      sectors, linked behind the chain's last header. */
  lemma AppendCell(v: Volume, chain: seq<nat>, s: nat, empty: Raw, bits': seq<bool>, r': Raw, disk2: seq<Sector>)
    requires ChainOk(v, chain) && 0 < s < |v.disk| && v.bits[s] && !Owns(v, chain, s)
    requires empty.numBytes == empty.numSectors == empty.nextFileHeader == 0
    requires Allocated(v.bits, empty, bits', r') && r'.numBytes > 0
    requires var last := chain[|chain| - 1];
      && Hdr(v.disk, last).numBytes == CAPACITY
      && SameOutside(v.disk[s := Pack(r')][last := Pack(Hdr(v.disk, last).(nextFileHeader := s))], disk2, Data(r'))
    ensures var v2 := Volume(disk2, bits'); CellOk(v2, s) && Hdr(disk2, s) == r' && Appended(v, v2, chain, s)
  {
    var last := chain[|chain| - 1];
    var link := Hdr(v.disk, last).(nextFileHeader := s);
    var v2 := Volume(disk2, bits');
    var disk1 := v.disk[s := Pack(r')][last := Pack(link)];
    UnpackPack(r');
    UnpackPack(link);
    assert InCell(v.disk, last, last) && Owns(v, chain, last) && v.bits[last];
    assert Data(empty) == [];
    AllocatedData(v.disk, v.bits, empty, bits', r');
    AllocatedData(disk2, v.bits, empty, bits', r');
    forall x | x in Data(r') ensures !v.bits[x] {}
    assert disk2[s] == disk1[s] && disk2[last] == disk1[last];
    assert CellOk(v2, s);
  }

  // ------------------------------------------------------------------- steps of a write

  /** `d` was stored at offset `o` of part `k`, and the sectors that took came off the free count. */
  ghost predicate Stored(v: Volume, v': Volume, chain: seq<nat>, k: nat, d: seq<Byte>, o: nat)
    requires ChainOk(v, chain) && k < |chain|
  {
    var parts := Parts(v, chain);
    && ChainOk(v', chain) && Frame(v, chain, v', chain, {}) && o <= |parts[k]| && o + |d| <= CAPACITY
    && Parts(v', chain) == parts[k := WriteAt(parts[k], d, o)]
    && CountClear(v'.bits) + DivRoundUp(SECTOR_SIZE, |WriteAt(parts[k], d, o)|) == CountClear(v.bits) + DivRoundUp(SECTOR_SIZE, |parts[k]|)
  }

  /** Since `v`, the bytes `d` were written at `pos`; everything else is as it was. */
  ghost predicate Wrote(v: Volume, chain: seq<nat>, v': Volume, chain': seq<nat>, d: seq<Byte>, pos: nat)
    requires ChainOk(v, chain)
  {
    && ChainOk(v', chain') && chain <= chain' && Frame(v, chain, v', chain', {})
    && Content(v', chain') == WriteAt(Content(v, chain), d, pos)
  }

  /** Free sectors and the sectors that the file's length calls for. */
  ghost function Budget(v: Volume, chain: seq<nat>): nat
    requires ChainOk(v, chain)
  {
    CountClear(v.bits) + SectorsFor(|Content(v, chain)|)
  }

  lemma WroteNothing(v: Volume, chain: seq<nat>, pos: nat)
    requires ChainOk(v, chain) && pos <= |Content(v, chain)|
    ensures Wrote(v, chain, v, chain, [], pos)
  {
    assert WriteAt(Content(v, chain), [], pos) == Content(v, chain);
  }

  lemma StoredWrote(v: Volume, chain: seq<nat>, v1: Volume, v2: Volume, k: nat, d: seq<Byte>, e: seq<Byte>, o: nat, pos: nat)
    requires ChainOk(v, chain) && Wrote(v, chain, v1, chain, d, pos) && pos <= |Content(v, chain)|
    requires k < |chain| && Stored(v1, v2, chain, k, e, o) && Base(CAPACITY, k) + o == pos + |d|
    ensures Wrote(v, chain, v2, chain, d + e, pos) && Budget(v2, chain) == Budget(v1, chain)
  {
    hide Base, DivRoundUp, Frame, ChainOk, Stored, Content, Budget;
    StoredContent(v1, v2, chain, k, e, o);
    WriteTwice(Content(v, chain), d, e, pos);
    FrameTrans(v, chain, v1, chain, v2, chain, {});
    StoredBudget(v1, v2, chain, k, e, o);
  }

  lemma StoredContent(v: Volume, v': Volume, chain: seq<nat>, k: nat, d: seq<Byte>, o: nat)
    requires ChainOk(v, chain) && k < |chain| && Stored(v, v', chain, k, d, o)
    ensures ChainOk(v', chain) && Frame(v, chain, v', chain, {})
    ensures Content(v', chain) == WriteAt(Content(v, chain), d, Base(CAPACITY, k) + o)
  {
    hide Base, DivRoundUp, Frame, Flatten;
    PartsFull(v, chain);
    FlattenWrite(Parts(v, chain), k, o, d);
  }

  lemma StoredBudget(v: Volume, v': Volume, chain: seq<nat>, k: nat, d: seq<Byte>, o: nat)
    requires ChainOk(v, chain) && k < |chain| && Stored(v, v', chain, k, d, o)
    ensures Budget(v', chain) == Budget(v, chain)
  {
    hide Base, DivRoundUp, Frame, Flatten;
    PartsFull(v, chain);
    PartsFull(v', chain);
    var m := |chain|;
    var a, b := Hdr(v.disk, chain[m - 1]).numBytes, Hdr(v'.disk, chain[m - 1]).numBytes;
    SectorsOfShape(m, a);
    SectorsOfShape(m, b);
    assert |Parts(v, chain)[m - 1]| == a && |Parts(v', chain)[m - 1]| == b;
    if k < m - 1 { assert |Parts(v, chain)[k]| == CAPACITY; }
  }

  /** What is free does not suffice for a file of `length` bytes. */
  ghost predicate Short(v: Volume, chain: seq<nat>, length: nat)
    requires ChainOk(v, chain)
  {
    Budget(v, chain) < SectorsFor(length)
  }

  /** A failed allocation in header `k`: the whole write does not fit. */
  lemma StoreShort(v: Volume, chain: seq<nat>, k: nat, size: nat, length: nat)
    requires ChainOk(v, chain) && k < |chain| && size <= CAPACITY && Base(CAPACITY, k) + size <= length
    requires NoRoom(v, chain[k], size)
    ensures Short(v, chain, length)
  {
    hide Base, DivRoundUp, Frame, Flatten;
    var m := |chain|;
    assert k == m - 1;
    PartsFull(v, chain);
    SectorsOfShape(m, Hdr(v.disk, chain[k]).numBytes);
    SectorsOfShape(m, size);
    SectorsMonotone(Base(CAPACITY, k) + size, length);
  }

  /** Header `k` grew, if at all, to hold `d` at `o`, and then `d` was written there. */
  lemma StoredBy(v: Volume, v1: Volume, disk2: seq<Sector>, chain: seq<nat>, k: nat, d: seq<Byte>, o: nat)
    requires ChainOk(v, chain) && k < |chain| && CellOk(v1, chain[k])
    requires var r, r1 := Hdr(v.disk, chain[k]), Hdr(v1.disk, chain[k]);
      && o <= r.numBytes && Grown(v, v1, chain[k], if o + |d| <= r.numBytes then r.numBytes else o + |d|)
      && SameOutside(v1.disk, disk2, Data(r1)) && Sound(disk2, r1) && Part(disk2, r1) == Splice(Part(v1.disk, r1), o, d)
      && o + |d| <= CAPACITY
    ensures Stored(v, Volume(disk2, v1.bits), chain, k, d, o) && Hdr(disk2, chain[k]) == Hdr(v1.disk, chain[k])
  {
    hide Base, DivRoundUp, CellsApart;
    var s := chain[k];
    var v2 := Volume(disk2, v1.bits);
    WriteCell(v, v1, disk2, s);
    GrowThenWrite(Part(v.disk, Hdr(v.disk, s)), Part(v1.disk, Hdr(v1.disk, s)), d, o);
    Update(v, v2, chain, k);
  }

  /** An offset within a header's bytes is a position within the file. */
  lemma Inside(v: Volume, chain: seq<nat>, k: nat, o: nat)
    requires ChainOk(v, chain) && k < |chain| && o <= Hdr(v.disk, chain[k]).numBytes
    ensures Base(CAPACITY, k) + o <= |Content(v, chain)|
  {
    hide Base, Flatten, CellsApart;
    PartsFull(v, chain);
    assert Hdr(v.disk, chain[k]).numBytes <= CAPACITY;
    if k < |chain| - 1 { Apart(CAPACITY, k, |chain| - 1); }
  }

  lemma StoredSize(v: Volume, v': Volume, chain: seq<nat>, k: nat, d: seq<Byte>, o: nat)
    requires ChainOk(v, chain) && k < |chain| && Stored(v, v', chain, k, d, o)
    ensures ChainOk(v', chain) && o + |d| <= Hdr(v'.disk, chain[k]).numBytes <= CAPACITY
  {
    hide Base, DivRoundUp, Flatten, CellsApart, Frame;
    assert |Parts(v', chain)[k]| >= o + |d|;
  }

  lemma NextHeader(v: Volume, chain: seq<nat>, k: nat)
    requires ChainOk(v, chain) && k < |chain|
    ensures Hdr(v.disk, chain[k]).nextFileHeader == if k + 1 < |chain| then chain[k + 1] else 0
    ensures Hdr(v.disk, chain[k]).nextFileHeader == 0 <==> k == |chain| - 1
    ensures Hdr(v.disk, chain[k]).numBytes <= CAPACITY
    ensures k + 1 < |chain| ==> Hdr(v.disk, chain[k]).numBytes == CAPACITY
  {
    if k + 1 < |chain| { assert CellOk(v, chain[k + 1]); }
  }

  // ------------------------------------------------------------- headers for the rest

  /** Marking sectors that were free changes no file, and no file owns them. */
  lemma Reserved(v: Volume, bits': seq<bool>, chain: seq<nat>, taken: seq<nat>)
    requires ChainOk(v, chain) && Taken(v.bits, bits', taken) && |v.bits| > 0 && v.bits[0]
    ensures var v' := Volume(v.disk, bits');
      ChainOk(v', chain) && Wrote(v, chain, v', chain, [], |Content(v, chain)|) && Spare(v', chain, taken, 0)
  {
    hide CellsApart, Linked, Content;
    var v' := Volume(v.disk, bits');
    forall x {:trigger Owns(v, chain, x)} | 0 <= x < |v.disk| && Owns(v, chain, x) ensures v'.bits[x] { OwnedMarked(v, chain, x); }
    ChainFrame(v, v', chain);
    WroteNothing(v, chain, |Content(v, chain)|);
    forall k {:trigger taken[k]} | 0 <= k < |taken|
      ensures 0 < taken[k] < |v.disk| && v'.bits[taken[k]] && !Owns(v', chain, taken[k])
    {
      assert taken[k] in taken;
      if Owns(v, chain, taken[k]) { OwnedMarked(v, chain, taken[k]); }
    }
  }

  /** The sectors of `t` from `a` on are marked, and not the chain's. */
  ghost predicate Spare(v: Volume, chain: seq<nat>, t: seq<nat>, a: nat)
    requires ChainOk(v, chain)
  {
    forall k {:trigger t[k]} :: a <= k < |t| ==> 0 < t[k] < |v.disk| && v.bits[t[k]] && !Owns(v, chain, t[k])
  }

  lemma SpareAt(v: Volume, chain: seq<nat>, bits: seq<bool>, t: seq<nat>, a: nat)
    requires ChainOk(v, chain) && Spare(v, chain, t, a) && AllClear(bits, t) && a < |t|
    ensures 0 < t[a] < |v.disk| && t[a] < |v.bits| && v.bits[t[a]] && !Owns(v, chain, t[a]) && t[a] < |bits| && !bits[t[a]]
  {
  }

  /** A header in `s` holding `d` was added to the chain; its sectors came off the free count. */
  ghost predicate Extended(v: Volume, v': Volume, chain: seq<nat>, s: nat, d: seq<Byte>)
    requires ChainOk(v, chain)
  {
    && ChainOk(v', chain + [s]) && Frame(v, chain, v', chain + [s], {s}) && Parts(v', chain + [s]) == Parts(v, chain) + [d]
    && CountClear(v'.bits) + DivRoundUp(SECTOR_SIZE, |d|) == CountClear(v.bits)
  }

  lemma ExtendedBy(v: Volume, chain: seq<nat>, s: nat, empty: Raw, bits': seq<bool>, r': Raw, disk2: seq<Sector>, d: seq<Byte>)
    requires ChainOk(v, chain) && 0 < s < |v.disk| && v.bits[s] && !Owns(v, chain, s)
    requires empty.numBytes == empty.numSectors == empty.nextFileHeader == 0
    requires Allocated(v.bits, empty, bits', r') && r'.numBytes == |d| > 0
    requires var last := chain[|chain| - 1];
      && Hdr(v.disk, last).numBytes == CAPACITY
      && SameOutside(v.disk[s := Pack(r')][last := Pack(Hdr(v.disk, last).(nextFileHeader := s))], disk2, Data(r'))
    requires Sound(disk2, r') && Part(disk2, r') == d
    ensures Extended(v, Volume(disk2, bits'), chain, s, d) && Hdr(disk2, s) == r'
  {
    hide CellsApart, Linked, Taken, Appended, CellOk, Part;
    AppendCell(v, chain, s, empty, bits', r', disk2);
    Extend(v, Volume(disk2, bits'), chain, s);
    TakenCount(v.bits, bits', r'.dataSectors[0..r'.numSectors]);
  }

  lemma ExtendedWrote(v: Volume, chain: seq<nat>, v1: Volume, c: seq<nat>, v2: Volume, s: nat, d: seq<Byte>, e: seq<Byte>)
    requires ChainOk(v, chain) && Wrote(v, chain, v1, c, d, |Content(v, chain)|)
    requires Extended(v1, v2, c, s, e) && s < |v.disk| && !v.bits[s]
    ensures ChainOk(v2, c + [s]) && Wrote(v, chain, v2, c + [s], d + e, |Content(v, chain)|)
    ensures CountClear(v2.bits) + DivRoundUp(SECTOR_SIZE, |e|) == CountClear(v1.bits)
  {
    hide ChainOk, CellsOk, Frame, DivRoundUp, Flatten;
    var pos := |Content(v, chain)|;
    ExtendedContent(v1, v2, c, s, e);
    assert |Content(v1, c)| == pos + |d|;
    WriteTwice(Content(v, chain), d, e, pos);
    FrameTrans(v, chain, v1, c, v2, c + [s], {s});
  }

  lemma ExtendedContent(v: Volume, v': Volume, chain: seq<nat>, s: nat, d: seq<Byte>)
    requires ChainOk(v, chain) && Extended(v, v', chain, s, d)
    ensures ChainOk(v', chain + [s]) && Frame(v, chain, v', chain + [s], {s})
    ensures Content(v', chain + [s]) == WriteAt(Content(v, chain), d, |Content(v, chain)|)
  {
    hide Frame, DivRoundUp;
    FlattenAppend(Parts(v, chain), d);
  }

  lemma SpareStep(v: Volume, v': Volume, chain: seq<nat>, bits: seq<bool>, t: seq<nat>, a: nat, d: seq<Byte>)
    requires a < |t| && ChainOk(v, chain) && Extended(v, v', chain, t[a], d) && Spare(v, chain, t, a)
    requires AllClear(bits, t)
    ensures Spare(v', chain + [t[a]], t, a + 1)
  {
    hide CellsApart, Linked, CellsOk, Parts, DivRoundUp;
  }

  /** What `n` bytes behind `m` full headers add. */
  lemma SectorsAppend(m: nat, n: nat)
    requires m > 0 && n > 0
    ensures SectorsFor(Base(CAPACITY, m) + n) == SectorsFor(Base(CAPACITY, m)) + DivRoundUp(SECTOR_SIZE, n) + DivRoundUp(CAPACITY, n)
  {
    hide Base, DivRoundUp;
    BaseOfBase(SECTOR_SIZE, NUM_DIRECT, m);
    var b := Base(NUM_DIRECT, m);
    RoundUpAdd(SECTOR_SIZE, b, n);
    RoundUpAdd(SECTOR_SIZE, b, 0);
    RoundUpAdd(CAPACITY, m, n);
    RoundUpAdd(CAPACITY, m, 0);
    RoundUpZero(SECTOR_SIZE);
    RoundUpZero(CAPACITY);
    BaseAtLeast(CAPACITY, m);
  }

  lemma RoundUpZero(n: Pos)
    ensures DivRoundUp(n, 0) == 0
  {
  }

  /** Bytes that end on a sector boundary, and more behind them. */
  lemma AlignedStep(result: nat, n: nat)
    requires result == Base(SECTOR_SIZE, DivRoundUp(SECTOR_SIZE, result))
    ensures DivRoundUp(SECTOR_SIZE, result + n) == DivRoundUp(SECTOR_SIZE, result) + DivRoundUp(SECTOR_SIZE, n)
  {
    RoundUpAdd(SECTOR_SIZE, DivRoundUp(SECTOR_SIZE, result), n);
  }

  lemma AlignedSum(result: nat, q: nat)
    requires result == Base(SECTOR_SIZE, DivRoundUp(SECTOR_SIZE, result))
    ensures DivRoundUp(SECTOR_SIZE, Base(SECTOR_SIZE, q)) == q
    ensures result + Base(SECTOR_SIZE, q) == Base(SECTOR_SIZE, DivRoundUp(SECTOR_SIZE, result + Base(SECTOR_SIZE, q)))
  {
    hide Base, DivRoundUp;
    RoundUpAdd(SECTOR_SIZE, q, 0);
    RoundUpZero(SECTOR_SIZE);
    AlignedStep(result, Base(SECTOR_SIZE, q));
    BaseSum(SECTOR_SIZE, DivRoundUp(SECTOR_SIZE, result), q);
  }

  /** Behind a full last header, a write of `n` bytes needs its data sectors and its headers. */
  lemma ShortIff(v: Volume, chain: seq<nat>, n: nat)
    requires ChainOk(v, chain) && Hdr(v.disk, chain[|chain| - 1]).numBytes == CAPACITY && n > 0
    ensures |Content(v, chain)| == Base(CAPACITY, |chain| - 1) + CAPACITY
    ensures Short(v, chain, |Content(v, chain)| + n) <==>
      CountClear(v.bits) < DivRoundUp(SECTOR_SIZE, n) + DivRoundUp(CAPACITY, n)
  {
    hide Base, DivRoundUp, Flatten, CellsApart, CellsOk, Linked, SectorsFor, Content;
    PartsFull(v, chain);
    BaseStep(CAPACITY, |chain| - 1);
    SectorsAppend(|chain|, n);
  }

  /** New headers and data behind a full last header that took just their sectors. */
  lemma BudgetAppend(v: Volume, chain: seq<nat>, v': Volume, chain': seq<nat>, d: seq<Byte>)
    requires ChainOk(v, chain) && Hdr(v.disk, chain[|chain| - 1]).numBytes == CAPACITY && |d| > 0
    requires Wrote(v, chain, v', chain', d, |Content(v, chain)|)
    requires CountClear(v'.bits) + DivRoundUp(SECTOR_SIZE, |d|) + DivRoundUp(CAPACITY, |d|) == CountClear(v.bits)
    ensures ChainOk(v', chain') && Budget(v', chain') == Budget(v, chain)
  {
    hide Base, DivRoundUp, Flatten, CellsApart, CellsOk, Linked, SectorsFor, Content, Frame;
    PartsFull(v, chain);
    BaseStep(CAPACITY, |chain| - 1);
    SectorsAppend(|chain|, |d|);
    assert |Content(v', chain')| == |Content(v, chain)| + |d|;
  }

  /** The end of a file that was written at its end. */
  lemma EndOf(v: Volume, chain: seq<nat>, v': Volume, chain': seq<nat>, d: seq<Byte>)
    requires ChainOk(v, chain) && Wrote(v, chain, v', chain', d, |Content(v, chain)|)
    ensures Base(CAPACITY, |chain'| - 1) + Hdr(v'.disk, chain'[|chain'| - 1]).numBytes == |Content(v, chain)| + |d|
  {
    hide Base, Flatten, CellsApart, Linked, Frame, Content;
    PartsFull(v', chain');
  }

  /** Bytes that stop short on a sector boundary take fewer sectors. */
  lemma FewerSectors(result: nat, n: nat)
    requires result < n && result == Base(SECTOR_SIZE, DivRoundUp(SECTOR_SIZE, result))
    ensures DivRoundUp(SECTOR_SIZE, result) < DivRoundUp(SECTOR_SIZE, n)
  {
    hide Base, DivRoundUp;
    AlignedStep(result, n - result);
    RoundUpCovers(SECTOR_SIZE, n - result, 0);
    BaseStep(SECTOR_SIZE, 0);
  }

  lemma WroteTrans(v: Volume, chain: seq<nat>, v1: Volume, chain1: seq<nat>, v2: Volume, chain2: seq<nat>, d: seq<Byte>, e: seq<Byte>, pos: nat)
    requires ChainOk(v, chain) && ChainOk(v1, chain1) && pos <= |Content(v, chain)|
    requires Wrote(v, chain, v1, chain1, d, pos) && Wrote(v1, chain1, v2, chain2, e, pos + |d|)
    ensures Wrote(v, chain, v2, chain2, d + e, pos)
  {
    hide ChainOk, CellsOk, Frame, Content;
    WriteTwice(Content(v, chain), d, e, pos);
    FrameTrans(v, chain, v1, chain1, v2, chain2, {});
  }

  /** The length after a write at `pos` of `n` bytes. */
  function LengthAfter(length: nat, pos: nat, n: nat): nat { if pos + n <= length then length else pos + n }

  lemma WroteLength(v: Volume, chain: seq<nat>, v': Volume, chain': seq<nat>, d: seq<Byte>, pos: nat)
    requires ChainOk(v, chain) && Wrote(v, chain, v', chain', d, pos)
    ensures ChainOk(v', chain') && |Content(v', chain')| == LengthAfter(|Content(v, chain)|, pos, |d|)
  {
    hide ChainOk, CellsOk, Frame, Content;
  }

  /** A write that went through with its budget kept was not short of sectors. */
  lemma Enough(v: Volume, chain: seq<nat>, v': Volume, d: seq<Byte>, pos: nat)
    requires ChainOk(v, chain) && Wrote(v, chain, v', chain, d, pos) && Budget(v', chain) == Budget(v, chain)
    ensures !Short(v, chain, LengthAfter(|Content(v, chain)|, pos, |d|))
  {
    hide ChainOk, CellsOk, Frame, Content, SectorsFor;
    WroteLength(v, chain, v', chain, d, pos);
  }

  lemma ShortLonger(v: Volume, chain: seq<nat>, v': Volume, length: nat, longer: nat)
    requires ChainOk(v, chain) && ChainOk(v', chain) && Budget(v, chain) == Budget(v', chain) && length <= longer
    ensures Short(v', chain, length) ==> Short(v, chain, longer)
    ensures length == longer ==> (Short(v', chain, length) <==> Short(v, chain, longer))
  {
    hide ChainOk, Content, SectorsFor;
    SectorsMonotone(length, longer);
  }

  lemma WroteMarks(v: Volume, chain: seq<nat>, v': Volume, chain': seq<nat>, d: seq<Byte>, pos: nat, x: nat)
    requires ChainOk(v, chain) && Wrote(v, chain, v', chain', d, pos) && x < |v.bits| && v.bits[x]
    ensures |v'.bits| == |v.bits| && v'.bits[x]
  {
    hide CellsOk, CellsApart, Linked, Content, Owns;
  }

  // -------------------------------------------------------------------- sectors in fact

  /** The sectors of the first `n` headers: each header's own and those it lists. */
  ghost function CellSectors(v: Volume, chain: seq<nat>, n: nat): nat
    requires ChainOk(v, chain) && n <= |chain|
  {
    if n == 0 then 0 else CellSectors(v, chain, n - 1) + 1 + |Data(Hdr(v.disk, chain[n - 1]))|
  }

  lemma {:induction false} FullCells(v: Volume, chain: seq<nat>, n: nat)
    requires ChainOk(v, chain) && n < |chain|
    ensures CellSectors(v, chain, n) == n + Base(NUM_DIRECT, n)
  {
    if n > 0 {
      FullCells(v, chain, n - 1);
      NextHeader(v, chain, n - 1);
      RoundUpAdd(SECTOR_SIZE, NUM_DIRECT, 0);
      RoundUpZero(SECTOR_SIZE);
    }
  }

  /** The sectors that a file has, headers and data, are just those that its length calls for. */
  lemma SectorsUsed(v: Volume, chain: seq<nat>)
    requires ChainOk(v, chain)
    ensures CellSectors(v, chain, |chain|) == SectorsFor(|Content(v, chain)|)
  {
    hide Base, DivRoundUp, Flatten, CellsApart, SectorsFor;
    var m := |chain|;
    FullCells(v, chain, m - 1);
    PartsFull(v, chain);
    NextHeader(v, chain, m - 1);
    SectorsOfShape(m, Hdr(v.disk, chain[m - 1]).numBytes);
  }

  // --------------------------------------------------------------------------- reading

  /** `part` is in `content` at `base`. */
  ghost predicate PartInside(content: seq<Byte>, part: seq<Byte>, base: nat) {
    base + |part| <= |content| && forall x {:trigger part[x]} :: 0 <= x < |part| ==> content[base + x] == part[x]
  }

  lemma JoinReads(content: seq<Byte>, part: seq<Byte>, base: nat, o: nat, pos: nat, into: seq<Byte>, n: nat)
    requires PartInside(content, part, base) && o <= |part| && base + o == pos + |into| && into == ReadAt(content, |into|, pos)
    ensures var piece := ReadAt(part, n, o); into + piece == ReadAt(content, |into| + |piece|, pos)
  {
    var piece := ReadAt(part, n, o);
    var a, b := into + piece, ReadAt(content, |into| + |piece|, pos);
    assert |a| == |b|;
    forall i | 0 <= i < |a| ensures a[i] == b[i] {
      if i >= |into| { assert a[i] == part[o + (i - |into|)]; }
    }
  }

  /** A read that got all it wanted, or came to the end. */
  lemma ReadEnds(content: seq<Byte>, n: nat, pos: nat, into: seq<Byte>)
    requires into == ReadAt(content, |into|, pos) && |into| <= n && (|into| == n || pos + |into| == |content|)
    ensures into == ReadAt(content, n, pos)
  {
  }

  lemma PartIsInside(v: Volume, chain: seq<nat>, k: nat)
    requires ChainOk(v, chain) && k < |chain|
    ensures PartInside(Content(v, chain), Parts(v, chain)[k], Base(CAPACITY, k))
  {
    hide Base, Flatten, CellsApart;
    var part := Parts(v, chain)[k];
    PartsFull(v, chain);
    Inside(v, chain, k, Hdr(v.disk, chain[k]).numBytes);
    forall x {:trigger part[x]} | 0 <= x < |part| ensures Content(v, chain)[Base(CAPACITY, k) + x] == part[x] {
      FlattenAt(Parts(v, chain), k, x);
    }
  }

  /** Reading on from within part `k`, after `into` was read up to there. */
  lemma ReadOn(v: Volume, chain: seq<nat>, k: nat, o: nat, pos: nat, into: seq<Byte>, n: nat)
    requires ChainOk(v, chain) && k < |chain| && o <= Hdr(v.disk, chain[k]).numBytes
    requires Base(CAPACITY, k) + o == pos + |into| && into == ReadAt(Content(v, chain), |into|, pos)
    ensures var piece := ReadAt(Part(v.disk, Hdr(v.disk, chain[k])), n, o);
      into + piece == ReadAt(Content(v, chain), |into| + |piece|, pos)
  {
    hide Base, Content, CellsApart, PartInside;
    PartIsInside(v, chain, k);
    JoinReads(Content(v, chain), Parts(v, chain)[k], Base(CAPACITY, k), o, pos, into, n);
  }

  /** The reads so far: `sizes` were asked for, `pieces` are consecutive, none short but at the end. */
  ghost predicate Consecutive(content: seq<Byte>, pieces: seq<seq<Byte>>, sizes: seq<nat>) {
    && |pieces| <= |sizes| && Flatten(pieces) == ReadAt(content, |Flatten(pieces)|, 0)
    && (forall i {:trigger pieces[i]} :: 0 <= i < |pieces| ==> |pieces[i]| <= sizes[i])
    && (forall i {:trigger pieces[i]} :: 0 <= i < |pieces| && |pieces[i]| < sizes[i] ==> Flatten(pieces[..i + 1]) == content)
  }

  lemma ReadNothing(content: seq<Byte>, pos: nat)
    ensures ReadAt(content, 0, pos) == []
  {
  }

  lemma NothingRead(content: seq<Byte>, sizes: seq<nat>)
    ensures Consecutive(content, [], sizes)
  {
  }

  lemma NextPiece(content: seq<Byte>, pieces: seq<seq<Byte>>, sizes: seq<nat>, piece: seq<Byte>)
    requires Consecutive(content, pieces, sizes) && |pieces| < |sizes|
    requires piece == ReadAt(content, sizes[|pieces|], |Flatten(pieces)|)
    ensures Consecutive(content, pieces + [piece], sizes) && |Flatten(pieces + [piece])| == |Flatten(pieces)| + |piece|
  {
    hide ReadAt, Flatten;
    var m, p := |pieces|, pieces + [piece];
    FlattenMore(pieces, piece);
    OnePiece(content, Flatten(pieces), piece, sizes[m]);
    forall i {:trigger p[i]} | 0 <= i < |p| ensures |p[i]| <= sizes[i] && (|p[i]| < sizes[i] ==> Flatten(p[..i + 1]) == content) {
      if i < m {
        assert p[i] == pieces[i];
        assert p[..i + 1] == pieces[..i + 1];
      } else {
        assert p[..i + 1] == p;
      }
    }
  }

  lemma FlattenMore(pieces: seq<seq<Byte>>, piece: seq<Byte>)
    ensures Flatten(pieces + [piece]) == Flatten(pieces) + piece
  {
    assert (pieces + [piece])[..|pieces|] == pieces;
  }

  lemma OnePiece(content: seq<Byte>, front: seq<Byte>, piece: seq<Byte>, size: nat)
    requires front == ReadAt(content, |front|, 0) && piece == ReadAt(content, size, |front|)
    ensures front + piece == ReadAt(content, |front + piece|, 0)
    ensures |piece| <= size && (|piece| < size ==> front + piece == content)
  {
    var a, b := front + piece, ReadAt(content, |front + piece|, 0);
    assert |a| == |b|;
    forall i | 0 <= i < |a| ensures a[i] == b[i] {}
    assert a == b;
    if |piece| < size { assert b == content; }
  }

  /** The end of the last part is the end of the file. */
  lemma EndOfFile(v: Volume, chain: seq<nat>)
    requires ChainOk(v, chain)
    ensures Base(CAPACITY, |chain| - 1) + Hdr(v.disk, chain[|chain| - 1]).numBytes == |Content(v, chain)|
  {
    PartsFull(v, chain);
  }
}
