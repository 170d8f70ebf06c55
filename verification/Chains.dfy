/** A file on disk: a chain of one-sector headers, each with its data sectors,
    and the flat contents that the chain stands for. */
module Chains {
  import opened Blocks
  import opened Bytes
  import opened Headers

  // --------------------------------------------------------------------- flat bytes

  ghost function Flatten(parts: seq<seq<Byte>>): seq<Byte> {
    if parts == [] then [] else Flatten(parts[..|parts| - 1]) + parts[|parts| - 1]
  }

  /** Every part but the last holds all that a header can. */
  ghost predicate Full(parts: seq<seq<Byte>>) {
    forall i :: 0 <= i < |parts| - 1 ==> |parts[i]| == CAPACITY
  }

  lemma {:induction false} FlattenLength(parts: seq<seq<Byte>>)
    requires Full(parts) && parts != []
    ensures |Flatten(parts)| == Base(CAPACITY, |parts| - 1) + |parts[|parts| - 1]|
  {
    var k := |parts| - 1;
    if k > 0 {
      FlattenLength(parts[..k]);
      assert parts[..k][k - 1] == parts[k - 1];
    }
  }

  lemma WriteInLast(a: seq<Byte>, b: seq<Byte>, d: seq<Byte>, o: nat)
    requires o <= |b|
    ensures WriteAt(a + b, d, |a| + o) == a + WriteAt(b, d, o)
  {
    var x, y := WriteAt(a + b, d, |a| + o), a + WriteAt(b, d, o);
    assert |x| == |y|;
    forall i | 0 <= i < |x| ensures x[i] == y[i] {}
  }

  lemma WriteInFront(a: seq<Byte>, b: seq<Byte>, d: seq<Byte>, o: nat)
    requires o + |d| <= |a|
    ensures WriteAt(a + b, d, o) == WriteAt(a, d, o) + b
  {
    var x, y := WriteAt(a + b, d, o), WriteAt(a, d, o) + b;
    assert |x| == |y|;
    forall i | 0 <= i < |x| ensures x[i] == y[i] {}
  }

  lemma FlattenWriteLast(parts: seq<seq<Byte>>, o: nat, d: seq<Byte>)
    requires Full(parts) && parts != [] && o <= |parts[|parts| - 1]|
    ensures var k := |parts| - 1;
      Flatten(parts[k := WriteAt(parts[k], d, o)]) == WriteAt(Flatten(parts), d, Base(CAPACITY, k) + o)
  {
    var k := |parts| - 1;
    var front := parts[..k];
    assert parts[k := WriteAt(parts[k], d, o)][..k] == front;
    FlattenLength(parts);
    WriteInLast(Flatten(front), parts[k], d, o);
  }

  lemma FrontLength(parts: seq<seq<Byte>>)
    requires Full(parts) && parts != []
    ensures |Flatten(parts[..|parts| - 1])| == Base(CAPACITY, |parts| - 1)
  {
    FlattenLength(parts);
  }

  lemma FlattenWriteFront(parts: seq<seq<Byte>>, i: nat, o: nat, d: seq<Byte>)
    requires Full(parts) && i < |parts| - 1 && o + |d| <= CAPACITY
    requires var front := parts[..|parts| - 1];
      Flatten(front[i := WriteAt(parts[i], d, o)]) == WriteAt(Flatten(front), d, Base(CAPACITY, i) + o)
    ensures Flatten(parts[i := WriteAt(parts[i], d, o)]) == WriteAt(Flatten(parts), d, Base(CAPACITY, i) + o)
  {
    hide Base, WriteAt;
    var k := |parts| - 1;
    var front, parts' := parts[..k], parts[i := WriteAt(parts[i], d, o)];
    FrontLength(parts);
    Apart(CAPACITY, i, k);
    assert parts'[..k] == front[i := WriteAt(parts[i], d, o)];
    WriteInFront(Flatten(front), parts[k], d, Base(CAPACITY, i) + o);
  }

  /** Writing at offset `o` of part `i` is writing at the position it stands for. */
  lemma {:induction false} FlattenWrite(parts: seq<seq<Byte>>, i: nat, o: nat, d: seq<Byte>)
    requires Full(parts) && i < |parts| && o <= |parts[i]| && o + |d| <= CAPACITY
    ensures Flatten(parts[i := WriteAt(parts[i], d, o)]) == WriteAt(Flatten(parts), d, Base(CAPACITY, i) + o)
  {
    hide Base;
    var k := |parts| - 1;
    if i == k {
      FlattenWriteLast(parts, o, d);
    } else {
      FlattenWrite(parts[..k], i, o, d);
      FlattenWriteFront(parts, i, o, d);
    }
  }

  /** Where the bytes of part `i` are in the whole. */
  lemma {:induction false} FlattenAt(parts: seq<seq<Byte>>, i: nat, o: nat)
    requires Full(parts) && i < |parts| && o < |parts[i]| <= CAPACITY
    ensures Base(CAPACITY, i) + o < |Flatten(parts)| && Flatten(parts)[Base(CAPACITY, i) + o] == parts[i][o]
  {
    hide Base;
    var k := |parts| - 1;
    FrontLength(parts);
    if i < k {
      FlattenAt(parts[..k], i, o);
      Apart(CAPACITY, i, k);
    }
  }

  lemma FlattenAppend(parts: seq<seq<Byte>>, d: seq<Byte>)
    ensures Flatten(parts + [d]) == WriteAt(Flatten(parts), d, |Flatten(parts)|)
  {
    assert (parts + [d])[..|parts|] == parts;
  }

  /** Two writes one after the other are one write. */
  lemma WriteTwice(file: seq<Byte>, d: seq<Byte>, e: seq<Byte>, pos: nat)
    requires pos <= |file|
    ensures WriteAt(WriteAt(file, d, pos), e, pos + |d|) == WriteAt(file, d + e, pos)
  {
    var a, b := WriteAt(WriteAt(file, d, pos), e, pos + |d|), WriteAt(file, d + e, pos);
    assert |a| == |b|;
    forall i | 0 <= i < |a| ensures a[i] == b[i] {}
  }

  // ----------------------------------------------------------------- cells and chains

  /** The disk: its sectors, and which of them the free map marks as taken. */
  datatype Volume = Volume(disk: seq<Sector>, bits: seq<bool>)

  function Hdr(disk: seq<Sector>, s: nat): Raw
    requires s < |disk|
  {
    Unpack(disk[s])
  }

  ghost predicate Sound(disk: seq<Sector>, r: Raw) {
    HeaderOk(r) && r.numSectors <= NUM_DIRECT && Distinct(disk, Data(r))
  }

  /** `x` is the header's sector `s` or one that the header lists. */
  ghost predicate InCell(disk: seq<Sector>, s: nat, x: nat)
    requires s < |disk| && Sound(disk, Hdr(disk, s))
  {
    x == s || x in Data(Hdr(disk, s))
  }

  /** The header in `s` is sound, its sectors are different from each other and all marked. */
  ghost predicate CellOk(v: Volume, s: nat) {
    && 0 < s < |v.disk| == |v.bits| <= WORD && Sound(v.disk, Hdr(v.disk, s)) && s !in Data(Hdr(v.disk, s))
    && forall x {:trigger InCell(v.disk, s, x)} :: 0 <= x < |v.disk| && InCell(v.disk, s, x) ==> v.bits[x]
  }

  ghost predicate CellsOk(v: Volume, chain: seq<nat>) {
    forall i {:trigger chain[i]} :: 0 <= i < |chain| ==> CellOk(v, chain[i])
  }

  ghost predicate CellsDiffer(v: Volume, s: nat, t: nat)
    requires CellOk(v, s) && CellOk(v, t)
  {
    forall x {:trigger InCell(v.disk, s, x)} {:trigger InCell(v.disk, t, x)} ::
      0 <= x < |v.disk| && InCell(v.disk, s, x) ==> !InCell(v.disk, t, x)
  }

  ghost predicate CellsApart(v: Volume, chain: seq<nat>)
    requires CellsOk(v, chain)
  {
    forall i, j {:trigger chain[i], chain[j]} ::
      0 <= i < |chain| && 0 <= j < |chain| && i != j ==> CellsDiffer(v, chain[i], chain[j])
  }

  /** Each header points to the next one, the last to none; every header but
      the last is full, and one that was added is not empty. */
  ghost predicate Linked(v: Volume, chain: seq<nat>)
    requires CellsOk(v, chain)
  {
    forall i {:trigger chain[i]} :: 0 <= i < |chain| ==>
      var r := Hdr(v.disk, chain[i]);
      && r.nextFileHeader == (if i + 1 < |chain| then chain[i + 1] else 0)
      && (i + 1 < |chain| ==> r.numBytes == CAPACITY)
      && (i > 0 ==> r.numBytes > 0)
  }

  ghost predicate ChainOk(v: Volume, chain: seq<nat>) {
    |v.disk| == |v.bits| && |chain| > 0 && CellsOk(v, chain) && CellsApart(v, chain) && Linked(v, chain)
  }

  ghost predicate Owns(v: Volume, chain: seq<nat>, x: nat)
    requires CellsOk(v, chain)
  {
    exists i {:trigger chain[i]} :: 0 <= i < |chain| && InCell(v.disk, chain[i], x)
  }

  ghost function Parts(v: Volume, chain: seq<nat>): (parts: seq<seq<Byte>>)
    requires CellsOk(v, chain)
    ensures |parts| == |chain|
    ensures forall i {:trigger parts[i]} {:trigger chain[i]} :: 0 <= i < |chain| ==> parts[i] == Part(v.disk, Hdr(v.disk, chain[i]))
  {
    seq(|chain|, i requires 0 <= i < |chain| => Part(v.disk, Hdr(v.disk, chain[i])))
  }

  /** The file's bytes. */
  ghost function Content(v: Volume, chain: seq<nat>): seq<Byte>
    requires ChainOk(v, chain)
  {
    Flatten(Parts(v, chain))
  }

  lemma PartsFull(v: Volume, chain: seq<nat>)
    requires ChainOk(v, chain)
    ensures Full(Parts(v, chain))
    ensures |Content(v, chain)| == Base(CAPACITY, |chain| - 1) + Hdr(v.disk, chain[|chain| - 1]).numBytes
  {
    var parts := Parts(v, chain);
    forall i | 0 <= i < |parts| - 1 ensures |parts[i]| == CAPACITY { assert Hdr(v.disk, chain[i]).numBytes == CAPACITY; }
    FlattenLength(parts);
  }

  // ------------------------------------------------------------------------- frames

  lemma CellFrame(v: Volume, v': Volume, s: nat)
    requires CellOk(v, s) && |v.disk| == |v'.disk| && |v.bits| == |v'.bits|
    requires forall x {:trigger InCell(v.disk, s, x)} :: 0 <= x < |v.disk| && InCell(v.disk, s, x) ==> v'.disk[x] == v.disk[x] && v'.bits[x]
    ensures CellOk(v', s) && Hdr(v'.disk, s) == Hdr(v.disk, s) && Part(v'.disk, Hdr(v'.disk, s)) == Part(v.disk, Hdr(v.disk, s))
    ensures forall x: nat {:trigger InCell(v'.disk, s, x)} :: InCell(v'.disk, s, x) == InCell(v.disk, s, x)
  {
    assert InCell(v.disk, s, s);
    var data := Data(Hdr(v.disk, s));
    forall i | 0 <= i < |data| ensures v'.disk[data[i]] == v.disk[data[i]] { assert InCell(v.disk, s, data[i]); }
    ImageFrame(v.disk, v'.disk, data);
    forall x: nat {:trigger InCell(v'.disk, s, x)} ensures InCell(v'.disk, s, x) == InCell(v.disk, s, x) {}
  }

  /** The cell of `s` is the same in both volumes. */
  ghost predicate SameCell(v: Volume, v': Volume, s: nat)
    requires CellOk(v, s)
  {
    && CellOk(v', s) && Hdr(v'.disk, s) == Hdr(v.disk, s) && Part(v'.disk, Hdr(v'.disk, s)) == Part(v.disk, Hdr(v.disk, s))
    && forall x: nat {:trigger InCell(v'.disk, s, x)} :: InCell(v'.disk, s, x) == InCell(v.disk, s, x)
  }

  /** A chain whose sectors are left alone and stay marked is the same file as before. */
  lemma ChainFrame(v: Volume, v': Volume, chain: seq<nat>)
    requires ChainOk(v, chain) && |v.disk| == |v'.disk| && |v.bits| == |v'.bits|
    requires forall x {:trigger Owns(v, chain, x)} :: 0 <= x < |v.disk| && Owns(v, chain, x) ==> v'.disk[x] == v.disk[x] && v'.bits[x]
    ensures ChainOk(v', chain) && Content(v', chain) == Content(v, chain)
    ensures forall x: nat {:trigger Owns(v', chain, x)} :: Owns(v', chain, x) == Owns(v, chain, x)
  {
    forall i {:trigger chain[i]} | 0 <= i < |chain| ensures SameCell(v, v', chain[i]) {
      forall x {:trigger InCell(v.disk, chain[i], x)} | 0 <= x < |v.disk| && InCell(v.disk, chain[i], x)
        ensures v'.disk[x] == v.disk[x] && v'.bits[x]
      {
        assert Owns(v, chain, x);
      }
      CellFrame(v, v', chain[i]);
    }
    assert CellsOk(v', chain);
    assert CellsApart(v', chain);
    assert Parts(v', chain) == Parts(v, chain);
  }

  /** From `v` to `v'`, with `chain` becoming `chain'`: no mark is lost, and only
      what the chain owned, what was free or what is in `extra` was written or taken. */
  ghost predicate Frame(v: Volume, chain: seq<nat>, v': Volume, chain': seq<nat>, extra: set<nat>)
    requires ChainOk(v, chain) && ChainOk(v', chain')
  {
    && |v.disk| == |v'.disk|
    && forall x {:trigger v.bits[x]} :: 0 <= x < |v.disk| && v.bits[x] ==>
      && v'.bits[x]
      && (!Owns(v, chain, x) && x !in extra ==> v'.disk[x] == v.disk[x] && !Owns(v', chain', x))
  }

  lemma FrameTrans(v: Volume, chain: seq<nat>, v1: Volume, chain1: seq<nat>, v2: Volume, chain2: seq<nat>, extra: set<nat>)
    requires ChainOk(v, chain) && ChainOk(v1, chain1) && ChainOk(v2, chain2)
    requires Frame(v, chain, v1, chain1, {}) && Frame(v1, chain1, v2, chain2, extra)
    requires forall x :: x in extra && x < |v.bits| ==> !v.bits[x]
    ensures Frame(v, chain, v2, chain2, {})
  {
    forall x {:trigger v.bits[x]} | 0 <= x < |v.disk| && v.bits[x]
      ensures v2.bits[x] && (!Owns(v, chain, x) ==> v2.disk[x] == v.disk[x] && !Owns(v2, chain2, x))
    {
      assert v1.bits[x];
    }
  }

  /** Another chain, apart from the first, goes through a framed change untouched
      and still apart. */
  lemma FrameKeepsOthers(v: Volume, chain: seq<nat>, v': Volume, chain': seq<nat>, other: seq<nat>)
    requires ChainOk(v, chain) && ChainOk(v', chain') && ChainOk(v, other) && Frame(v, chain, v', chain', {})
    requires forall x {:trigger Owns(v, other, x)} :: Owns(v, other, x) ==> !Owns(v, chain, x)
    ensures ChainOk(v', other) && Content(v', other) == Content(v, other)
    ensures forall x: nat {:trigger Owns(v', other, x)} :: Owns(v', other, x) == Owns(v, other, x) && (Owns(v', other, x) ==> !Owns(v', chain', x))
  {
    forall x {:trigger Owns(v, other, x)} | 0 <= x < |v.disk| && Owns(v, other, x) ensures v.bits[x] && v'.disk[x] == v.disk[x] && v'.bits[x] {
      var i :| 0 <= i < |other| && InCell(v.disk, other[i], x);
    }
    ChainFrame(v, v', other);
    forall x: nat {:trigger Owns(v', other, x)} | Owns(v', other, x) ensures !Owns(v', chain', x) {
      OwnedMarked(v, other, x);
    }
  }

  lemma CellOfChain(v: Volume, chain: seq<nat>, k: nat)
    requires ChainOk(v, chain) && k < |chain|
    ensures CellOk(v, chain[k])
  {
  }

  lemma CellIsSound(v: Volume, s: nat)
    requires CellOk(v, s)
    ensures s < |v.disk| && Sound(v.disk, Hdr(v.disk, s))
  {
  }

  lemma OwnedMarked(v: Volume, chain: seq<nat>, x: nat)
    requires CellsOk(v, chain) && Owns(v, chain, x)
    ensures x < |v.disk| && v.bits[x]
  {
    var i :| 0 <= i < |chain| && InCell(v.disk, chain[i], x);
  }

  // ------------------------------------------------------------- one header changes

  /** Only the cell of `s` in `v'` may differ, and that cell grew into free sectors only. */
  ghost predicate Touched(v: Volume, v': Volume, s: nat)
    requires CellOk(v, s) && CellOk(v', s)
  {
    && |v.disk| == |v'.disk|
    && forall x {:trigger v.bits[x]} :: 0 <= x < |v.disk| && v.bits[x] ==>
      && v'.bits[x]
      && (!InCell(v.disk, s, x) ==> v'.disk[x] == v.disk[x] && !InCell(v'.disk, s, x))
  }

  lemma OthersSame(v: Volume, v': Volume, chain: seq<nat>, i: nat, j: nat)
    requires ChainOk(v, chain) && i < |chain| && j < |chain| && i != j
    requires CellOk(v', chain[i]) && Touched(v, v', chain[i])
    ensures SameCell(v, v', chain[j]) && CellsDiffer(v', chain[j], chain[i]) && CellsDiffer(v', chain[i], chain[j])
  {
    forall x {:trigger InCell(v.disk, chain[j], x)} | 0 <= x < |v.disk| && InCell(v.disk, chain[j], x)
      ensures v'.disk[x] == v.disk[x] && v'.bits[x] && !InCell(v'.disk, chain[i], x)
    {
      assert v.bits[x];
    }
    CellFrame(v, v', chain[j]);
  }

  /** Changing one header and its data keeps the chain, and changes that part only. */
  lemma Update(v: Volume, v': Volume, chain: seq<nat>, i: nat)
    requires ChainOk(v, chain) && i < |chain| && CellOk(v', chain[i]) && Touched(v, v', chain[i])
    requires var r, r' := Hdr(v.disk, chain[i]), Hdr(v'.disk, chain[i]);
      r'.nextFileHeader == r.nextFileHeader && r.numBytes <= r'.numBytes && (i + 1 < |chain| ==> r'.numBytes == CAPACITY)
    ensures ChainOk(v', chain) && Frame(v, chain, v', chain, {})
    ensures Parts(v', chain) == Parts(v, chain)[i := Part(v'.disk, Hdr(v'.disk, chain[i]))]
  {
    hide CellsDiffer, Frame, Touched;
    UpdateCells(v, v', chain, i);
    forall j {:trigger chain[j]} | 0 <= j < |chain| && j != i ensures Hdr(v'.disk, chain[j]) == Hdr(v.disk, chain[j]) {
      assert SameCell(v, v', chain[j]);
    }
    assert Linked(v', chain);
    UpdateFrame(v, v', chain, i);
    var a, b := Parts(v', chain), Parts(v, chain)[i := Part(v'.disk, Hdr(v'.disk, chain[i]))];
    forall j | 0 <= j < |a| ensures a[j] == b[j] { assert j != i ==> SameCell(v, v', chain[j]); }
  }

  lemma UpdateCells(v: Volume, v': Volume, chain: seq<nat>, i: nat)
    requires ChainOk(v, chain) && i < |chain| && CellOk(v', chain[i]) && Touched(v, v', chain[i])
    ensures CellsOk(v', chain) && CellsApart(v', chain)
    ensures forall j {:trigger chain[j]} :: 0 <= j < |chain| && j != i ==> SameCell(v, v', chain[j])
  {
    hide Linked;
    forall j {:trigger chain[j]} | 0 <= j < |chain| && j != i
      ensures SameCell(v, v', chain[j]) && CellsDiffer(v', chain[j], chain[i]) && CellsDiffer(v', chain[i], chain[j])
    {
      OthersSame(v, v', chain, i, j);
    }
    assert CellsOk(v', chain);
    forall j, k {:trigger chain[j], chain[k]} | 0 <= j < |chain| && 0 <= k < |chain| && j != k
      ensures CellsDiffer(v', chain[j], chain[k])
    {
      if j != i && k != i { SameCellsDiffer(v, v', chain[j], chain[k]); }
    }
  }

  lemma SameCellsDiffer(v: Volume, v': Volume, s: nat, t: nat)
    requires CellOk(v, s) && CellOk(v, t) && CellsDiffer(v, s, t) && SameCell(v, v', s) && SameCell(v, v', t) && |v'.disk| == |v.disk|
    ensures CellsDiffer(v', s, t)
  {
  }

  lemma UpdateFrame(v: Volume, v': Volume, chain: seq<nat>, i: nat)
    requires ChainOk(v, chain) && ChainOk(v', chain) && i < |chain| && Touched(v, v', chain[i])
    requires forall j {:trigger chain[j]} :: 0 <= j < |chain| && j != i ==> SameCell(v, v', chain[j])
    ensures Frame(v, chain, v', chain, {})
  {
    forall x {:trigger v.bits[x]} | 0 <= x < |v.disk| && v.bits[x] && !Owns(v, chain, x)
      ensures v'.disk[x] == v.disk[x] && !Owns(v', chain, x)
    {
      assert !InCell(v.disk, chain[i], x);
    }
  }

  // ------------------------------------------------------------- one header is added

  /** A header that got another successor, its data left alone, is otherwise the same. */
  lemma Relinked(v: Volume, v': Volume, s: nat, next: Word)
    requires CellOk(v, s) && |v.disk| == |v'.disk| && |v.bits| == |v'.bits|
    requires Hdr(v'.disk, s) == Hdr(v.disk, s).(nextFileHeader := next)
    requires forall x {:trigger InCell(v.disk, s, x)} ::
      0 <= x < |v.disk| && InCell(v.disk, s, x) ==> (x != s ==> v'.disk[x] == v.disk[x]) && v'.bits[x]
    ensures CellOk(v', s) && Part(v'.disk, Hdr(v'.disk, s)) == Part(v.disk, Hdr(v.disk, s))
    ensures forall x: nat {:trigger InCell(v'.disk, s, x)} :: InCell(v'.disk, s, x) == InCell(v.disk, s, x)
  {
    assert InCell(v.disk, s, s);
    var data := Data(Hdr(v.disk, s));
    assert Data(Hdr(v'.disk, s)) == data;
    forall i | 0 <= i < |data| ensures v'.disk[data[i]] == v.disk[data[i]] { assert InCell(v.disk, s, data[i]); }
    ImageFrame(v.disk, v'.disk, data);
    forall x: nat {:trigger InCell(v'.disk, s, x)} ensures InCell(v'.disk, s, x) == InCell(v.disk, s, x) {}
  }

  /** From `v` to `v'` the header in `s`, not owned before, was made the successor of the
      chain's last one; its data sectors were free. */
  ghost predicate Appended(v: Volume, v': Volume, chain: seq<nat>, s: nat)
    requires ChainOk(v, chain) && CellOk(v', s)
  {
    var last := chain[|chain| - 1];
    && |v.disk| == |v'.disk| && !Owns(v, chain, s)
    && Hdr(v.disk, last).numBytes == CAPACITY && Hdr(v'.disk, last) == Hdr(v.disk, last).(nextFileHeader := s)
    && Hdr(v'.disk, s).nextFileHeader == 0 && Hdr(v'.disk, s).numBytes > 0
    && forall x {:trigger v.bits[x]} :: 0 <= x < |v.disk| && v.bits[x] ==>
      && v'.bits[x]
      && (x != last && x != s ==> v'.disk[x] == v.disk[x])
      && (x != s ==> !InCell(v'.disk, s, x))
  }

  /** What a cell keeps when a header is added to its chain. */
  ghost predicate KeptCell(v: Volume, v': Volume, s: nat)
    requires CellOk(v, s)
  {
    && CellOk(v', s) && Hdr(v'.disk, s).numBytes == Hdr(v.disk, s).numBytes
    && Part(v'.disk, Hdr(v'.disk, s)) == Part(v.disk, Hdr(v.disk, s))
    && forall x: nat {:trigger InCell(v'.disk, s, x)} :: InCell(v'.disk, s, x) == InCell(v.disk, s, x)
  }

  lemma ExtendCell(v: Volume, v': Volume, chain: seq<nat>, s: nat, j: nat)
    requires ChainOk(v, chain) && CellOk(v', s) && Appended(v, v', chain, s) && j < |chain|
    ensures KeptCell(v, v', chain[j]) && CellsDiffer(v', chain[j], s) && CellsDiffer(v', s, chain[j])
    ensures j < |chain| - 1 ==> Hdr(v'.disk, chain[j]) == Hdr(v.disk, chain[j])
  {
    var k := |chain| - 1;
    forall x {:trigger InCell(v.disk, chain[j], x)} | 0 <= x < |v.disk| && InCell(v.disk, chain[j], x)
      ensures v'.bits[x] && x != s && !InCell(v'.disk, s, x) && (x != chain[k] ==> v'.disk[x] == v.disk[x])
      ensures x == chain[k] ==> j == k
    {
      assert v.bits[x] && Owns(v, chain, x);
      if j != k { assert CellsDiffer(v, chain[j], chain[k]) && InCell(v.disk, chain[k], chain[k]); }
    }
    if j < k { CellFrame(v, v', chain[j]); } else { Relinked(v, v', chain[j], s); }
  }

  lemma ExtendCells(v: Volume, v': Volume, chain: seq<nat>, s: nat)
    requires ChainOk(v, chain) && CellOk(v', s) && Appended(v, v', chain, s)
    ensures CellsOk(v', chain + [s]) && CellsApart(v', chain + [s])
    ensures forall j {:trigger chain[j]} :: 0 <= j < |chain| ==> KeptCell(v, v', chain[j]) && (j < |chain| - 1 ==> Hdr(v'.disk, chain[j]) == Hdr(v.disk, chain[j]))
  {
    var c := chain + [s];
    forall j {:trigger chain[j]} | 0 <= j < |chain|
      ensures KeptCell(v, v', chain[j]) && CellsDiffer(v', chain[j], s) && CellsDiffer(v', s, chain[j])
      ensures j < |chain| - 1 ==> Hdr(v'.disk, chain[j]) == Hdr(v.disk, chain[j])
    {
      ExtendCell(v, v', chain, s, j);
    }
    forall j {:trigger c[j]} | 0 <= j < |c| ensures CellOk(v', c[j]) {
      if j < |chain| { assert c[j] == chain[j]; }
    }
    forall j, k {:trigger c[j], c[k]} | 0 <= j < |c| && 0 <= k < |c| && j != k ensures CellsDiffer(v', c[j], c[k]) {
      if j < |chain| { assert c[j] == chain[j]; }
      if k < |chain| { assert c[k] == chain[k]; }
      if j < |chain| && k < |chain| { assert CellsDiffer(v, chain[j], chain[k]); }
    }
  }

  /** Adding a header at the end keeps the chain and adds one part. */
  lemma Extend(v: Volume, v': Volume, chain: seq<nat>, s: nat)
    requires ChainOk(v, chain) && CellOk(v', s) && Appended(v, v', chain, s)
    ensures ChainOk(v', chain + [s]) && Frame(v, chain, v', chain + [s], {s})
    ensures Parts(v', chain + [s]) == Parts(v, chain) + [Part(v'.disk, Hdr(v'.disk, s))]
  {
    var c := chain + [s];
    ExtendCells(v, v', chain, s);
    forall i {:trigger c[i]} | 0 <= i < |c|
      ensures Hdr(v'.disk, c[i]).nextFileHeader == (if i + 1 < |c| then c[i + 1] else 0)
      ensures i + 1 < |c| ==> Hdr(v'.disk, c[i]).numBytes == CAPACITY
      ensures i > 0 ==> Hdr(v'.disk, c[i]).numBytes > 0
    {
      if i < |chain| { assert c[i] == chain[i]; }
      if i < |chain| - 1 { assert c[i + 1] == chain[i + 1]; }
    }
    assert Linked(v', c);
    ExtendFrame(v, v', chain, s);
    forall i | 0 <= i < |c| ensures Parts(v', c)[i] == (Parts(v, chain) + [Part(v'.disk, Hdr(v'.disk, s))])[i] {
      if i < |chain| { assert c[i] == chain[i]; }
    }
  }

  lemma ExtendFrame(v: Volume, v': Volume, chain: seq<nat>, s: nat)
    requires ChainOk(v, chain) && ChainOk(v', chain + [s]) && CellOk(v', s) && Appended(v, v', chain, s)
    requires forall j {:trigger chain[j]} :: 0 <= j < |chain| ==> KeptCell(v, v', chain[j])
    ensures Frame(v, chain, v', chain + [s], {s})
  {
    var c := chain + [s];
    forall x {:trigger v.bits[x]} | 0 <= x < |v.disk| && v.bits[x] && !Owns(v, chain, x) && x != s
      ensures v'.disk[x] == v.disk[x] && !Owns(v', c, x)
    {
      assert !InCell(v.disk, chain[|chain| - 1], x);
      forall i {:trigger c[i]} | 0 <= i < |c| ensures !InCell(v'.disk, c[i], x) {
        if i < |chain| { assert c[i] == chain[i]; }
      }
    }
  }
}
