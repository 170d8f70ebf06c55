/** `argv` across `Exec`: the stack writer and reader on top of paged memory,
    and the loops that retry a faulted access. */
module Arguments {
  import opened Blocks
  import opened Bytes
  import opened Executables
  import opened Options
  import opened Machines
  import opened Paging
  import M = ProcessMemory

  const NUMBER_OF_TRIES: nat := 3
  const MAX_ARG_COUNT: nat := 32
  const MAX_ARG_LENGTH: nat := 128

  /** The running process's own memory. */
  ghost function Mine(m: Machine): seq<Byte>
    requires m.Valid() && m.currentSpace.Some?
    reads m.Store()
  {
    M.Flat(m.State(), m.currentSpace.value)
  }

  ghost function All(m: Machine): M.Memories
    requires m.Valid()
    reads m.Store()
  {
    M.Abs(m.State())
  }

  /** An access the source may make: in range and aligned. */
  predicate Legal(memory: seq<Byte>, addr: nat, size: nat) {
    PAGE_SIZE % 4 == 0 && size in {1, 2, 4} && !Misaligned(addr, size) && addr + size <= |memory|
  }

  lemma LegalCanAccess(vm: Vm, addr: nat, size: nat)
    requires Inv(vm) && vm.current.Some? && Legal(M.Flat(vm, vm.current.value), addr, size)
    ensures M.CanAccess(vm, addr, size)
  {
    IndexBelow(PAGE_SIZE, addr, M.NumPages(vm, vm.current.value));
  }

  // ----------------------------------------------------------- accesses with retry

  /** Load with up to `tries` attempts: the second one always goes through. */
  method Peek(m: Machine, addr: nat, size: nat, tries: nat) returns (value: int)
    requires m.Valid() && m.currentSpace.Some? && Legal(Mine(m), addr, size) && tries >= 2
    modifies m.Store()
    ensures m.Valid() && m.currentSpace == old(m.currentSpace)
    ensures All(m) == old(All(m)) && Mine(m) == old(Mine(m))
    ensures value == M.Decode(old(Mine(m))[addr..addr + size])
  {
    var i, out := 0, M.Faulted;
    LegalCanAccess(m.State(), addr, size);
    while i < tries && out == M.Faulted
      invariant m.Valid() && All(m) == old(All(m))
      invariant out == M.Faulted ==>
        i <= 1 && M.CanAccess(m.State(), addr, size) && (i == 1 ==> M.ReadMem(m.State(), addr, size).1.Value?)
      invariant out != M.Faulted ==> out == M.Value(M.Decode(old(Mine(m))[addr..addr + size]))
    {
      assert All(m).memory[m.currentSpace.value] == old(Mine(m));
      M.ReadIsFlat(m.State(), addr, size);
      M.RetrySucceeds(m.State(), addr, size, 0);
      out := m.ReadMem(addr, size);
      i := i + 1;
    }
    assert Mine(m) == All(m).memory[m.currentSpace.value];
    value := out.value;
  }

  /** All memories as in `all`, with `memory` for the running process. */
  ghost function Put(all: M.Memories, memory: seq<Byte>): M.Memories {
    if all.current.None? then all else all.(memory := all.memory[all.current.value := memory])
  }

  lemma PutPut(all: M.Memories, x: seq<Byte>, y: seq<Byte>)
    ensures Put(Put(all, x), y) == Put(all, y)
  {
  }

  lemma MineOfPut(m: Machine, all: M.Memories, memory: seq<Byte>)
    requires m.Valid() && m.currentSpace.Some? && All(m) == Put(all, memory)
    ensures Mine(m) == memory
  {
    assert Mine(m) == All(m).memory[m.currentSpace.value];
  }

  lemma PutMine(m: Machine)
    requires m.Valid() && m.currentSpace.Some?
    ensures All(m) == Put(All(m), Mine(m))
  {
  }

  /** Store with up to `tries` attempts. */
  method Poke(m: Machine, addr: nat, size: nat, value: int, tries: nat)
    requires m.Valid() && m.currentSpace.Some? && Legal(Mine(m), addr, size) && tries >= 2
    modifies m.Store()
    ensures m.Valid() && m.currentSpace == old(m.currentSpace)
    ensures All(m) == Put(old(All(m)), Splice(old(Mine(m)), addr, M.Encode(value, size)))
  {
    var i, out := 0, M.Faulted;
    LegalCanAccess(m.State(), addr, size);
    while i < tries && out == M.Faulted
      invariant m.Valid() && All(m).current == old(All(m)).current
      invariant out == M.Faulted ==>
        && i <= 1 && M.CanAccess(m.State(), addr, size) && All(m) == old(All(m))
        && (i == 1 ==> M.WriteMem(m.State(), addr, size, value).1 == M.Done)
      invariant out != M.Faulted ==>
        out == M.Done && All(m) == Put(old(All(m)), Splice(old(Mine(m)), addr, M.Encode(value, size)))
    {
      assert All(m).memory[m.currentSpace.value] == old(Mine(m));
      M.WriteIsFlat(m.State(), addr, size, value);
      M.RetrySucceeds(m.State(), addr, size, value);
      out := m.WriteMem(addr, size, value);
      i := i + 1;
    }
  }

  // ----------------------------------------------------------------------- strings

  ghost predicate NulFree(s: seq<Byte>) { forall i :: 0 <= i < |s| ==> s[i] != 0 }

  /** The NUL-terminated string `s` is in `memory` at `address`. */
  ghost predicate StringAt(memory: seq<Byte>, address: nat, s: seq<Byte>) {
    && address + |s| < |memory| && memory[address + |s|] == 0
    && forall i {:trigger s[i]} :: 0 <= i < |s| ==> memory[address + i] == s[i]
  }

  method WriteStringToUser(m: Machine, s: seq<Byte>, userAddress: nat)
    requires m.Valid() && m.currentSpace.Some? && PAGE_SIZE % 4 == 0
    requires userAddress != 0 && userAddress + |s| + 1 <= |Mine(m)|
    modifies m.Store()
    ensures m.Valid() && m.currentSpace == old(m.currentSpace)
    ensures All(m) == Put(old(All(m)), Mine(m))
    ensures Mine(m) == Splice(old(Mine(m)), userAddress, s + [0])
  {
    hide Inv, M.Flat, M.Abs;
    var d := s + [0];
    PutMine(m);
    assert Splice(Mine(m), userAddress, d[..0]) == Mine(m);
    for i := 0 to |d|
      invariant m.Valid() && m.currentSpace == old(m.currentSpace)
      invariant All(m) == Put(old(All(m)), Splice(old(Mine(m)), userAddress, d[..i]))
    {
      PokeByte(m, userAddress, d, i, old(All(m)), old(Mine(m)));
    }
    assert d[..|d|] == d;
    MineOfPut(m, old(All(m)), Splice(old(Mine(m)), userAddress, d));
  }

  /** The `i`th character of `d`. */
  method PokeByte(m: Machine, address: nat, d: seq<Byte>, i: nat, ghost all: M.Memories, ghost memory: seq<Byte>)
    requires m.Valid() && m.currentSpace.Some? && PAGE_SIZE % 4 == 0 && i < |d| && address + |d| <= |memory|
    requires All(m) == Put(all, Splice(memory, address, d[..i]))
    modifies m.Store()
    ensures m.Valid() && m.currentSpace == old(m.currentSpace)
    ensures All(m) == Put(all, Splice(memory, address, d[..i + 1]))
  {
    hide Inv, M.Flat, M.Abs;
    M.EncodeByte(d[i]);
    MineOfPut(m, all, Splice(memory, address, d[..i]));
    SpliceNext(memory, address, d, i);
    PutPut(all, Splice(memory, address, d[..i]), Splice(memory, address, d[..i + 1]));
    Poke(m, address + i, 1, d[i], NUMBER_OF_TRIES);
  }

  lemma SpliceNext(memory: seq<Byte>, address: nat, d: seq<Byte>, i: nat)
    requires address + |d| <= |memory| && i < |d|
    ensures Splice(Splice(memory, address, d[..i]), address + i, [d[i]]) == Splice(memory, address, d[..i + 1])
  {
  }

  /** How many characters there are from `address` on, up to a NUL, `limit` or the end of memory. */
  ghost function Chars(memory: seq<Byte>, address: nat, limit: nat): (n: nat)
    ensures n <= limit && (n > 0 ==> address + n <= |memory|)
    ensures forall x {:trigger memory[x]} :: address <= x < address + n ==> memory[x] != 0
    ensures n < limit && address + n < |memory| ==> memory[address + n] == 0
    decreases limit
  {
    if limit == 0 || address >= |memory| || memory[address] == 0 then 0 else 1 + Chars(memory, address + 1, limit - 1)
  }

  /** A string of up to `limit` bytes can be read at `address` without leaving the memory. */
  ghost predicate InReach(memory: seq<Byte>, address: nat, limit: nat) {
    var n := Chars(memory, address, limit);
    n == limit || address + n < |memory|
  }

  /** The characters themselves, without the NUL. */
  ghost function Text(memory: seq<Byte>, address: nat, limit: nat): seq<Byte> {
    var n := Chars(memory, address, limit);
    if n == 0 then [] else memory[address..address + n]
  }

  /** Read up to the terminator, which is copied too, or up to the limit. */
  method ReadStringFromUser(m: Machine, userAddress: nat, maxByteCount: nat) returns (outString: seq<Byte>, terminated: bool)
    requires m.Valid() && m.currentSpace.Some? && PAGE_SIZE % 4 == 0
    requires userAddress != 0 && maxByteCount != 0 && InReach(Mine(m), userAddress, maxByteCount)
    modifies m.Store()
    ensures m.Valid() && m.currentSpace == old(m.currentSpace)
    ensures All(m) == old(All(m)) && Mine(m) == old(Mine(m))
    ensures terminated <==> Chars(Mine(m), userAddress, maxByteCount) < maxByteCount
    ensures outString == Text(Mine(m), userAddress, maxByteCount) + if terminated then [0] else []
  {
    hide Inv, M.Flat, M.Abs, Chars;
    outString := [];
    ghost var memory := Mine(m);
    ghost var n := Chars(memory, userAddress, maxByteCount);
    var count, last := 0, 1;
    while last != 0 && count < maxByteCount
      invariant m.Valid() && m.currentSpace == old(m.currentSpace)
      invariant All(m) == old(All(m)) && Mine(m) == memory
      invariant count <= maxByteCount && count <= n + 1 && userAddress + count <= |memory|
      invariant outString == memory[userAddress..userAddress + count]
      invariant last == 0 <==> count == n + 1
      decreases maxByteCount - count
    {
      assert count < n ==> memory[userAddress + count] != 0;
      last := PeekByte(m, userAddress + count);
      outString := outString + [last];
      count := count + 1;
    }
    terminated := last == 0;
  }

  /** Load a character; the sign extension of the load is cast away. */
  method PeekByte(m: Machine, addr: nat) returns (b: Byte)
    requires m.Valid() && m.currentSpace.Some? && PAGE_SIZE % 4 == 0 && addr < |Mine(m)|
    modifies m.Store()
    ensures m.Valid() && m.currentSpace == old(m.currentSpace)
    ensures All(m) == old(All(m)) && Mine(m) == old(Mine(m))
    ensures b == old(Mine(m))[addr]
  {
    DecodeByte(Mine(m), addr);
    var temp := Peek(m, addr, 1, NUMBER_OF_TRIES);
    b := temp % 256;
  }

  lemma DecodeByte(memory: seq<Byte>, a: nat)
    requires a < |memory|
    ensures M.Decode(memory[a..a + 1]) % 256 == memory[a]
  {
    assert memory[a..a + 1] == [memory[a]];
    assert M.Little([memory[a]][1..]) == 0;
  }

  // -------------------------------------------------------------------------- argv

  /** The stack pointer after the first `n` strings were pushed below `sp`. */
  ghost function Low(args: seq<seq<Byte>>, sp: int, n: nat): int
    requires n <= |args|
  {
    if n == 0 then sp else Low(args, sp, n - 1) - (|args[n - 1]| + 1)
  }

  /** Where string `i` goes. */
  ghost function StringAddress(args: seq<seq<Byte>>, sp: int, i: nat): int
    requires i < |args|
  {
    Low(args, sp, i + 1)
  }

  lemma {:induction false} LowDecreases(args: seq<seq<Byte>>, sp: int, i: nat, n: nat)
    requires i <= n <= |args|
    ensures Low(args, sp, n) + (n - i) <= Low(args, sp, i)
  {
    if i < n { LowDecreases(args, sp, i, n - 1); }
  }

  /** The strings lie back to back below the old stack top, the first one highest, and `argv` with its
      null is below them, less than a word further down than it has to be. */
  lemma StackIsTight(args: seq<seq<Byte>>, sp: int, i: nat)
    requires i < |args|
    ensures StringAddress(args, sp, i) + |args[i]| + 1 == if i == 0 then sp else StringAddress(args, sp, i - 1)
    ensures var low, argv := StringAddress(args, sp, |args| - 1), ArgvAddress(args, sp);
      argv % 4 == 0 && argv + 4 * |args| + 4 <= low < argv + 4 * |args| + 8
  {
    if i == 0 { assert Low(args, sp, 0) == sp; } else { assert Low(args, sp, i) == StringAddress(args, sp, i - 1); }
  }

  /** Where `argv` starts: below the strings, word-aligned, with room for the null. */
  ghost function ArgvAddress(args: seq<seq<Byte>>, sp: int): int {
    var low := Low(args, sp, |args|);
    low - low % 4 - (4 * |args| + 4)
  }

  /** The word of `memory` at `address`. */
  ghost function WordAt(memory: seq<Byte>, address: nat): int
    requires address + 4 <= |memory|
  {
    M.Decode(memory[address..address + 4])
  }

  /** The word at `address` points to the string `s`. */
  ghost predicate PointsTo(memory: seq<Byte>, address: nat, s: seq<Byte>)
    requires address + 4 <= |memory|
  {
    WordAt(memory, address) > 0 && StringAt(memory, WordAt(memory, address), s)
  }

  /** `argv` at `address` is a null-terminated array of pointers to the strings `args`. */
  ghost predicate ArgvAt(memory: seq<Byte>, address: nat, args: seq<seq<Byte>>) {
    && address != 0 && address % 4 == 0 && address + 4 * |args| + 4 <= |memory|
    && WordAt(memory, address + 4 * |args|) == 0
    && forall i: nat {:trigger args[i]} :: i < |args| ==> PointsTo(memory, address + 4 * i, args[i])
  }

  /** Strings that `SaveArgs` can hold: no NUL inside, shorter than the buffer, fewer than 32. */
  ghost predicate Passable(args: seq<seq<Byte>>) {
    |args| < 32 && forall i :: 0 <= i < |args| ==> NulFree(args[i]) && |args[i]| < 128
  }

  method PeekWord(m: Machine, address: nat) returns (value: int)
    requires m.Valid() && m.currentSpace.Some? && PAGE_SIZE % 4 == 0 && address % 4 == 0 && address + 4 <= |Mine(m)|
    modifies m.Store()
    ensures m.Valid() && m.currentSpace == old(m.currentSpace)
    ensures All(m) == old(All(m)) && Mine(m) == old(Mine(m))
    ensures value == WordAt(old(Mine(m)), address)
  {
    hide Inv, M.Flat, M.Abs;
    value := Peek(m, address, 4, NUMBER_OF_TRIES + 1);
  }

  /** How many nonzero words there are from `address` on, up to a zero, `limit` or the end of memory. */
  ghost function Pointers(memory: seq<Byte>, address: nat, limit: nat): (n: nat)
    ensures n <= limit && (n > 0 ==> address + 4 * n <= |memory|)
    ensures forall i: nat {:trigger Nth(memory, address, i)} :: i < n ==> Nth(memory, address, i) != 0
    ensures n < limit && address + 4 * n + 4 <= |memory| ==> Nth(memory, address, n) == 0
    decreases limit
  {
    if limit == 0 || address + 4 > |memory| || WordAt(memory, address) == 0 then 0 else
      var r := Pointers(memory, address + 4, limit - 1);
      assert forall i: nat {:trigger Nth(memory, address, i)} :: 0 < i <= r ==> Nth(memory, address, i) == Nth(memory, address + 4, i - 1);
      1 + r
  }

  /** Word `i` of an array. */
  ghost function Nth(memory: seq<Byte>, address: nat, i: nat): int {
    if address + 4 * i + 4 <= |memory| then WordAt(memory, address + 4 * i) else 0
  }

  /** Count the pointers before the null; false when 32 nonzero words were seen. */
  method CountArgsToSave(m: Machine, address: nat) returns (fits: bool, count: nat)
    requires m.Valid() && m.currentSpace.Some? && PAGE_SIZE % 4 == 0 && address != 0 && address % 4 == 0
    requires var n := Pointers(Mine(m), address, MAX_ARG_COUNT); n == MAX_ARG_COUNT || address + 4 * n + 4 <= |Mine(m)|
    modifies m.Store()
    ensures m.Valid() && m.currentSpace == old(m.currentSpace)
    ensures All(m) == old(All(m)) && Mine(m) == old(Mine(m))
    ensures fits <==> Pointers(Mine(m), address, 32) < 32
    ensures fits ==> count == Pointers(Mine(m), address, 32)
  {
    hide Inv, M.Flat, M.Abs, Pointers;
    ghost var memory := Mine(m);
    ghost var n := Pointers(memory, address, MAX_ARG_COUNT);
    var c, val := 0, 1;
    while c < MAX_ARG_COUNT && val != 0
      invariant m.Valid() && m.currentSpace == old(m.currentSpace)
      invariant All(m) == old(All(m)) && Mine(m) == memory
      invariant c <= MAX_ARG_COUNT && c <= n + 1
      invariant val == 0 <==> c == n + 1
      decreases MAX_ARG_COUNT - c
    {
      assert Nth(memory, address, c) == WordAt(memory, address + 4 * c);
      val := PeekWord(m, address + 4 * c);
      c := c + 1;
    }
    fits := !(c == MAX_ARG_COUNT && val != 0);
    count := c - 1;
  }

  /** Pointer `i` of the array is an address where a string can be read. */
  ghost predicate Readable(memory: seq<Byte>, address: nat, i: nat) {
    Nth(memory, address, i) > 0 && InReach(memory, Nth(memory, address, i), MAX_ARG_LENGTH)
  }

  /** What `SaveArgs` copies for pointer `i`: the string, or its first 128 bytes. */
  ghost function ArgText(memory: seq<Byte>, address: nat, i: nat): seq<Byte> {
    if Nth(memory, address, i) > 0 then Text(memory, Nth(memory, address, i), 128) else []
  }

  /** `SaveArgs`: the strings that the array points to, or nothing when there are too many. */
  method SaveArgs(m: Machine, address: nat) returns (saved: Option<seq<seq<Byte>>>)
    requires m.Valid() && m.currentSpace.Some? && PAGE_SIZE % 4 == 0 && address != 0 && address % 4 == 0
    requires var n := Pointers(Mine(m), address, MAX_ARG_COUNT);
      n == MAX_ARG_COUNT || (address + 4 * n + 4 <= |Mine(m)| && forall i: nat {:trigger Readable(Mine(m), address, i)} :: i < n ==> Readable(Mine(m), address, i))
    modifies m.Store()
    ensures m.Valid() && m.currentSpace == old(m.currentSpace)
    ensures All(m) == old(All(m)) && Mine(m) == old(Mine(m))
    ensures var n := Pointers(Mine(m), address, MAX_ARG_COUNT);
      && (saved.None? <==> n == MAX_ARG_COUNT)
      && (saved.Some? ==> |saved.value| == n && forall i: nat {:trigger saved.value[i]} :: i < n ==> saved.value[i] == ArgText(Mine(m), address, i))
  {
    hide Inv, M.Flat, M.Abs, Pointers, Chars;
    ghost var memory := Mine(m);
    var fits, count := CountArgsToSave(m, address);
    if !fits {
      return None;
    }
    var result: seq<seq<Byte>> := [];
    for i := 0 to count
      invariant m.Valid() && m.currentSpace == old(m.currentSpace)
      invariant All(m) == old(All(m)) && Mine(m) == memory
      invariant |result| == i && forall j: nat {:trigger result[j]} :: j < i ==> result[j] == ArgText(memory, address, j)
    {
      assert Readable(memory, address, i);
      var s := SaveOne(m, address, i);
      result := result + [s];
    }
    return Some(result);
  }

  method SaveOne(m: Machine, address: nat, i: nat) returns (saved: seq<Byte>)
    requires m.Valid() && m.currentSpace.Some? && PAGE_SIZE % 4 == 0 && address % 4 == 0 && address + 4 * i + 4 <= |Mine(m)|
    requires Readable(Mine(m), address, i)
    modifies m.Store()
    ensures m.Valid() && m.currentSpace == old(m.currentSpace)
    ensures All(m) == old(All(m)) && Mine(m) == old(Mine(m))
    ensures saved == ArgText(Mine(m), address, i)
  {
    hide Inv, M.Flat, M.Abs, Chars;
    var strAddr := PeekWord(m, address + 4 * i);
    var buffer, terminated := ReadStringFromUser(m, strAddr, MAX_ARG_LENGTH);
    saved := if terminated then buffer[..|buffer| - 1] else buffer;
  }

  /** A string in memory is what is read there, as far as the limit. */
  lemma StringIsText(memory: seq<Byte>, address: nat, s: seq<Byte>, limit: nat)
    requires StringAt(memory, address, s) && NulFree(s)
    ensures InReach(memory, address, limit) && Text(memory, address, limit) == if |s| < limit then s else s[..limit]
  {
    var n := Chars(memory, address, limit);
    assert n < |s| ==> memory[address + n] == s[n];
    assert memory[address + |s|] == 0;
    var t := Text(memory, address, limit);
    assert |t| == n;
    assert forall i :: 0 <= i < n ==> t[i] == memory[address + i] && s[i] == memory[address + i];
  }

  /** A proper `argv` is counted and read as the list it stands for. */
  lemma ArgvIsRead(memory: seq<Byte>, address: nat, args: seq<seq<Byte>>)
    requires ArgvAt(memory, address, args) && forall i :: 0 <= i < |args| ==> NulFree(args[i])
    ensures var n := Pointers(memory, address, MAX_ARG_COUNT); n == if |args| < MAX_ARG_COUNT then |args| else MAX_ARG_COUNT
    ensures forall i: nat {:trigger Readable(memory, address, i)} {:trigger ArgText(memory, address, i)} :: i < |args| ==>
      && Readable(memory, address, i)
      && ArgText(memory, address, i) == if |args[i]| < MAX_ARG_LENGTH then args[i] else args[i][..MAX_ARG_LENGTH]
  {
    hide Chars, Pointers, WordAt, StringAt, Text;
    var n := Pointers(memory, address, MAX_ARG_COUNT);
    assert Nth(memory, address, |args|) == 0;
    forall i: nat {:trigger Nth(memory, address, i)} | i < |args| ensures Nth(memory, address, i) > 0 && StringAt(memory, Nth(memory, address, i), args[i]) {
      assert PointsTo(memory, address + 4 * i, args[i]);
    }
    assert n < |args| ==> Nth(memory, address, n) > 0;
    forall i: nat {:trigger Readable(memory, address, i)} {:trigger ArgText(memory, address, i)} | i < |args|
      ensures Readable(memory, address, i)
      ensures ArgText(memory, address, i) == if |args[i]| < MAX_ARG_LENGTH then args[i] else args[i][..MAX_ARG_LENGTH]
    {
      assert Nth(memory, address, i) > 0;
      StringIsText(memory, Nth(memory, address, i), args[i], MAX_ARG_LENGTH);
    }
  }

  ghost predicate SameFrom(a: seq<Byte>, b: seq<Byte>, from: int) {
    |a| == |b| && forall x {:trigger b[x]} :: 0 <= x < |a| && from <= x ==> a[x] == b[x]
  }

  ghost predicate SameBelow(a: seq<Byte>, b: seq<Byte>, to: int) {
    |a| == |b| && forall x {:trigger b[x]} :: 0 <= x < |a| && x < to ==> a[x] == b[x]
  }

  /** The first `n` strings are in place below `sp`. */
  ghost predicate Pushed(memory: seq<Byte>, args: seq<seq<Byte>>, sp: int, n: nat)
    requires n <= |args|
  {
    forall i {:trigger StringAddress(args, sp, i)} :: 0 <= i < n ==>
      StringAddress(args, sp, i) >= 0 && StringAt(memory, StringAddress(args, sp, i), args[i])
  }

  lemma PushedKeeps(a: seq<Byte>, b: seq<Byte>, args: seq<seq<Byte>>, sp: int, n: nat)
    requires n <= |args| && Pushed(a, args, sp, n) && SameFrom(a, b, Low(args, sp, n))
    ensures Pushed(b, args, sp, n)
  {
    forall i {:trigger StringAddress(args, sp, i)} | 0 <= i < n ensures StringAt(b, StringAddress(args, sp, i), args[i]) {
      LowDecreases(args, sp, i + 1, n);
    }
  }

  /** One more string below the others. */
  lemma PushOne(a: seq<Byte>, b: seq<Byte>, args: seq<seq<Byte>>, sp: int, n: nat)
    requires n < |args| && Pushed(a, args, sp, n) && StringAddress(args, sp, n) >= 0 && Low(args, sp, n) <= |a|
    requires b == Splice(a, StringAddress(args, sp, n), args[n] + [0])
    ensures Pushed(b, args, sp, n + 1) && SameFrom(a, b, Low(args, sp, n)) && SameBelow(a, b, Low(args, sp, n + 1))
  {
    PushedKeeps(a, b, args, sp, n);
    SpliceString(a, StringAddress(args, sp, n), args[n]);
  }

  lemma SpliceString(memory: seq<Byte>, address: nat, s: seq<Byte>)
    requires address + |s| + 1 <= |memory|
    ensures StringAt(Splice(memory, address, s + [0]), address, s)
  {
    var b := Splice(memory, address, s + [0]);
    forall i {:trigger s[i]} | 0 <= i < |s| ensures b[address + i] == s[i] { assert (s + [0])[i] == s[i]; }
  }

  lemma NonePushed(memory: seq<Byte>, args: seq<seq<Byte>>, sp: int)
    ensures Pushed(memory, args, sp, 0)
  {
  }

  /** String `c` goes below those before it. */
  method PushString(m: Machine, args: seq<seq<Byte>>, ghost sp0: nat, sp: nat, c: nat, ghost start: seq<Byte>, ghost all: M.Memories)
    requires m.Valid() && m.currentSpace.Some? && PAGE_SIZE % 4 == 0 && c < |args|
    requires sp == StringAddress(args, sp0, c) > 0 && sp < Low(args, sp0, c) <= |Mine(m)| && Low(args, sp0, c) <= sp0
    requires Pushed(Mine(m), args, sp0, c) && All(m) == Put(all, Mine(m))
    requires SameFrom(start, Mine(m), sp0) && SameBelow(start, Mine(m), Low(args, sp0, c))
    modifies m.Store()
    ensures m.Valid() && m.currentSpace == old(m.currentSpace)
    ensures All(m) == Put(all, Mine(m)) && |Mine(m)| == old(|Mine(m)|) && Pushed(Mine(m), args, sp0, c + 1)
    ensures SameFrom(start, Mine(m), sp0) && SameBelow(start, Mine(m), sp)
  {
    hide Inv, M.Flat, M.Abs, Pushed;
    ghost var before := Mine(m);
    WriteStringToUser(m, args[c], sp);
    PushOne(before, Mine(m), args, sp0, c);
    PutPut(all, before, Mine(m));
  }

  /** The first loop of `WriteArgs`: push the strings. */
  method PushStrings(m: Machine, args: seq<seq<Byte>>, sp0: nat) returns (sp: int, argsAddress: seq<int>)
    requires m.Valid() && m.currentSpace.Some? && PAGE_SIZE % 4 == 0
    requires sp0 <= |Mine(m)| && Low(args, sp0, |args|) > 0
    modifies m.Store()
    ensures m.Valid() && m.currentSpace == old(m.currentSpace)
    ensures All(m) == Put(old(All(m)), Mine(m))
    ensures sp == Low(args, sp0, |args|) && Pushed(Mine(m), args, sp0, |args|)
    ensures |argsAddress| == |args| && forall i :: 0 <= i < |args| ==> argsAddress[i] == StringAddress(args, sp0, i)
    ensures SameFrom(old(Mine(m)), Mine(m), sp0) && SameBelow(old(Mine(m)), Mine(m), sp)
  {
    hide Inv, M.Flat, M.Abs, Pushed;
    ghost var all, start := All(m), Mine(m);
    sp, argsAddress := sp0, [];
    PutMine(m);
    NonePushed(start, args, sp0);
    for c := 0 to |args|
      invariant m.Valid() && m.currentSpace == old(m.currentSpace)
      invariant All(m) == Put(all, Mine(m))
      invariant sp == Low(args, sp0, c) <= |Mine(m)| && Pushed(Mine(m), args, sp0, c)
      invariant |argsAddress| == c && forall i :: 0 <= i < c ==> argsAddress[i] == StringAddress(args, sp0, i)
      invariant SameFrom(start, Mine(m), sp0) && SameBelow(start, Mine(m), sp)
    {
      LowDecreases(args, sp0, c + 1, |args|);
      LowDecreases(args, sp0, 0, c);
      sp := sp - (|args[c]| + 1);
      PushString(m, args, sp0, sp, c, start, all);
      argsAddress := argsAddress + [sp];
    }
  }

  /** The first `n` pointers of `argv` are in place at `sp`. */
  ghost predicate Pointed(memory: seq<Byte>, args: seq<seq<Byte>>, sp0: int, sp: nat, n: nat)
    requires n <= |args|
  {
    sp + 4 * n <= |memory| &&
    forall i {:trigger StringAddress(args, sp0, i)} :: 0 <= i < n ==>
      WordAt(memory, sp + 4 * i) == StringAddress(args, sp0, i)
  }

  lemma WordSplice(memory: seq<Byte>, address: nat, value: int, other: nat)
    requires address + 4 <= |memory| && other + 4 <= |memory| && -0x8000_0000 <= value < 0x8000_0000
    requires other == address || other + 4 <= address || address + 4 <= other
    ensures WordAt(Splice(memory, address, M.Encode(value, 4)), other) == if other == address then value else WordAt(memory, other)
  {
    var b := Splice(memory, address, M.Encode(value, 4));
    if other == address {
      assert b[address..address + 4] == M.Encode(value, 4);
      M.EncodeDecodeWord(value);
    } else {
      assert b[other..other + 4] == memory[other..other + 4];
    }
  }

  lemma PointOne(a: seq<Byte>, args: seq<seq<Byte>>, sp0: int, sp: nat, n: nat)
    requires n < |args| && Pointed(a, args, sp0, sp, n) && sp + 4 * n + 4 <= |a|
    requires -0x8000_0000 <= StringAddress(args, sp0, n) < 0x8000_0000
    ensures Pointed(Splice(a, sp + 4 * n, M.Encode(StringAddress(args, sp0, n), 4)), args, sp0, sp, n + 1)
  {
    var b := Splice(a, sp + 4 * n, M.Encode(StringAddress(args, sp0, n), 4));
    forall i {:trigger StringAddress(args, sp0, i)} | 0 <= i < n + 1
      ensures WordAt(b, sp + 4 * i) == StringAddress(args, sp0, i)
    {
      WordSplice(a, sp + 4 * n, StringAddress(args, sp0, n), sp + 4 * i);
    }
  }

  /** Store one word, keeping everything outside it. */
  method PokeWord(m: Machine, address: nat, value: int)
    requires m.Valid() && m.currentSpace.Some? && PAGE_SIZE % 4 == 0 && address % 4 == 0 && address + 4 <= |Mine(m)|
    modifies m.Store()
    ensures m.Valid() && m.currentSpace == old(m.currentSpace)
    ensures All(m) == Put(old(All(m)), Mine(m))
    ensures Mine(m) == Splice(old(Mine(m)), address, M.Encode(value, 4))
  {
    hide Inv, M.Flat;
    Poke(m, address, 4, value, NUMBER_OF_TRIES + 1);
    MineOfPut(m, old(All(m)), Splice(old(Mine(m)), address, M.Encode(value, 4)));
  }

  lemma OneWord(start: seq<Byte>, a: seq<Byte>, b: seq<Byte>, sp: nat, i: nat, value: int)
    requires sp + 4 * i + 4 <= |a| && SameFrom(start, a, sp + 4 * i) && SameBelow(start, a, sp)
    requires b == Splice(a, sp + 4 * i, M.Encode(value, 4))
    ensures SameFrom(start, b, sp + 4 * i + 4) && SameBelow(start, b, sp)
  {
    assert forall x {:trigger b[x]} :: 0 <= x < |b| && (x < sp || sp + 4 * i + 4 <= x) ==> b[x] == a[x];
  }

  /** The second loop of `WriteArgs`: the array of pointers and its null. */
  method PushPointers(m: Machine, args: seq<seq<Byte>>, sp0: nat, sp: nat, addresses: seq<int>)
    requires m.Valid() && m.currentSpace.Some? && PAGE_SIZE % 4 == 0
    requires sp % 4 == 0 && sp + 4 * |args| + 4 <= |Mine(m)| && sp0 < 0x8000_0000 && Low(args, sp0, |args|) > 0
    requires |addresses| == |args| && forall i :: 0 <= i < |args| ==> addresses[i] == StringAddress(args, sp0, i)
    modifies m.Store()
    ensures m.Valid() && m.currentSpace == old(m.currentSpace)
    ensures All(m) == Put(old(All(m)), Mine(m))
    ensures Pointed(Mine(m), args, sp0, sp, |args|) && sp + 4 * |args| + 4 <= |Mine(m)| && WordAt(Mine(m), sp + 4 * |args|) == 0
    ensures SameFrom(old(Mine(m)), Mine(m), sp + 4 * |args| + 4) && SameBelow(old(Mine(m)), Mine(m), sp)
  {
    hide Inv, M.Flat, M.Abs;
    ghost var all, start := All(m), Mine(m);
    PutMine(m);
    for i := 0 to |args|
      invariant m.Valid() && m.currentSpace == old(m.currentSpace)
      invariant All(m) == Put(all, Mine(m))
      invariant Pointed(Mine(m), args, sp0, sp, i)
      invariant SameFrom(start, Mine(m), sp + 4 * i) && SameBelow(start, Mine(m), sp)
    {
      PushOnePointer(m, args, sp0, sp, i, addresses[i], start, all);
    }
    PushNull(m, args, sp0, sp, start, all);
  }

  method PushOnePointer(m: Machine, ghost args: seq<seq<Byte>>, ghost sp0: nat, sp: nat, i: nat, address: int,
                        ghost start: seq<Byte>, ghost all: M.Memories)
    requires m.Valid() && m.currentSpace.Some? && PAGE_SIZE % 4 == 0 && i < |args|
    requires sp % 4 == 0 && sp + 4 * |args| + 4 <= |Mine(m)| && sp0 < 0x8000_0000 && Low(args, sp0, |args|) > 0
    requires address == StringAddress(args, sp0, i) && Pointed(Mine(m), args, sp0, sp, i)
    requires SameFrom(start, Mine(m), sp + 4 * i) && SameBelow(start, Mine(m), sp) && All(m) == Put(all, Mine(m))
    modifies m.Store()
    ensures m.Valid() && m.currentSpace == old(m.currentSpace)
    ensures All(m) == Put(all, Mine(m))
    ensures Pointed(Mine(m), args, sp0, sp, i + 1)
    ensures SameFrom(start, Mine(m), sp + 4 * (i + 1)) && SameBelow(start, Mine(m), sp)
  {
    hide Inv, M.Flat, M.Abs, Pointed, SameFrom, SameBelow;
    LowDecreases(args, sp0, i + 1, |args|);
    LowDecreases(args, sp0, 0, i + 1);
    PointOne(Mine(m), args, sp0, sp, i);
    ghost var before := Mine(m);
    PokeWord(m, sp + 4 * i, address);
    PutPut(all, before, Mine(m));
    OneWord(start, before, Mine(m), sp, i, address);
  }

  method PushNull(m: Machine, args: seq<seq<Byte>>, ghost sp0: nat, sp: nat, ghost start: seq<Byte>, ghost all: M.Memories)
    requires m.Valid() && m.currentSpace.Some? && PAGE_SIZE % 4 == 0
    requires sp % 4 == 0 && sp + 4 * |args| + 4 <= |Mine(m)| && Pointed(Mine(m), args, sp0, sp, |args|)
    requires SameFrom(start, Mine(m), sp + 4 * |args|) && SameBelow(start, Mine(m), sp) && All(m) == Put(all, Mine(m))
    modifies m.Store()
    ensures m.Valid() && m.currentSpace == old(m.currentSpace)
    ensures All(m) == Put(all, Mine(m)) && |Mine(m)| == old(|Mine(m)|)
    ensures Pointed(Mine(m), args, sp0, sp, |args|) && WordAt(Mine(m), sp + 4 * |args|) == 0
    ensures SameFrom(start, Mine(m), sp + 4 * |args| + 4) && SameBelow(start, Mine(m), sp)
  {
    hide Inv, M.Flat, M.Abs;
    ghost var before := Mine(m);
    PokeWord(m, sp + 4 * |args|, 0);
    PutPut(all, before, Mine(m));
    OneWord(start, before, Mine(m), sp, |args|, 0);
    NullKeeps(before, args, sp0, sp);
  }

  lemma NullKeeps(a: seq<Byte>, args: seq<seq<Byte>>, sp0: int, sp: nat)
    requires Pointed(a, args, sp0, sp, |args|) && sp + 4 * |args| + 4 <= |a|
    ensures var b := Splice(a, sp + 4 * |args|, M.Encode(0, 4));
            Pointed(b, args, sp0, sp, |args|) && WordAt(b, sp + 4 * |args|) == 0
  {
    var n := |args|;
    var b := Splice(a, sp + 4 * n, M.Encode(0, 4));
    WordSplice(a, sp + 4 * n, 0, sp + 4 * n);
    forall i {:trigger StringAddress(args, sp0, i)} | 0 <= i < n
      ensures WordAt(b, sp + 4 * i) == StringAddress(args, sp0, i)
    {
      WordSplice(a, sp + 4 * n, 0, sp + 4 * i);
    }
  }

  /** Strings and pointers in place make an `argv`. */
  lemma ArgvComplete(a: seq<Byte>, b: seq<Byte>, args: seq<seq<Byte>>, sp0: nat, sp: nat)
    requires Pushed(a, args, sp0, |args|) && Low(args, sp0, |args|) > 0
    requires sp != 0 && sp % 4 == 0 && sp + 4 * |args| + 4 <= Low(args, sp0, |args|) && sp + 4 * |args| + 4 <= |b|
    requires SameFrom(a, b, sp + 4 * |args| + 4)
    requires Pointed(b, args, sp0, sp, |args|) && WordAt(b, sp + 4 * |args|) == 0
    ensures ArgvAt(b, sp, args)
  {
    hide StringAt, M.Decode;
    PushedKeeps(a, b, args, sp0, |args|);
    forall i: nat {:trigger args[i]} | i < |args| ensures PointsTo(b, sp + 4 * i, args[i]) {
      LowDecreases(args, sp0, i + 1, |args|);
      assert WordAt(b, sp + 4 * i) == StringAddress(args, sp0, i);
      assert StringAt(b, StringAddress(args, sp0, i), args[i]);
    }
  }

  /** `WriteArgs`: push the strings and the pointers to them; the pointers end below the strings. */
  method WriteArgs(m: Machine, args: seq<seq<Byte>>, sp0: nat) returns (c: nat, sp: nat)
    requires m.Valid() && m.currentSpace.Some? && PAGE_SIZE % 4 == 0
    requires |args| < MAX_ARG_COUNT && sp0 <= |Mine(m)| && sp0 < 0x8000_0000 && ArgvAddress(args, sp0) > 0
    modifies m.Store()
    ensures m.Valid() && m.currentSpace == old(m.currentSpace)
    ensures All(m) == Put(old(All(m)), Mine(m))
    ensures c == |args| && sp == ArgvAddress(args, sp0) && sp % 4 == 0
    ensures sp + 4 * |args| + 4 <= Low(args, sp0, |args|)
    ensures ArgvAt(Mine(m), sp, args)
    ensures SameFrom(old(Mine(m)), Mine(m), sp0) && SameBelow(old(Mine(m)), Mine(m), sp)
  {
    hide Inv, M.Flat;
    LowDecreases(args, sp0, 0, |args|);
    var low, argsAddress := PushStrings(m, args, sp0);
    ghost var pushed := Mine(m);
    c := |args|;
    sp := low - low % 4 - (4 * c + 4);
    PushPointers(m, args, sp0, sp, argsAddress);
    PutPut(old(All(m)), pushed, Mine(m));
    ArgvComplete(pushed, Mine(m), args, sp0, sp);
  }

  /** Arguments survive the trip: what `SaveArgs` reads at the stack address that
      `WriteArgs` leaves is the list that was written, and no other process notices. */
  method RoundTrip(m: Machine, args: seq<seq<Byte>>, sp0: nat) returns (saved: Option<seq<seq<Byte>>>)
    requires m.Valid() && m.currentSpace.Some? && PAGE_SIZE % 4 == 0
    requires Passable(args) && sp0 <= |Mine(m)| && sp0 < 0x8000_0000 && ArgvAddress(args, sp0) > 0
    modifies m.Store()
    ensures m.Valid() && m.currentSpace == old(m.currentSpace)
    ensures saved == Some(args)
    ensures forall id :: id in old(All(m)).memory && Some(id) != m.currentSpace ==>
      id in All(m).memory && All(m).memory[id] == old(All(m)).memory[id]
  {
    hide Inv, M.Flat, Pointers, ArgText, Readable;
    var c, sp := WriteArgs(m, args, sp0);
    ArgvIsRead(Mine(m), sp, args);
    saved := SaveArgs(m, sp);
    assert saved.value == args;
  }
}
