/** `lib/bitmap.cc`: sets of small numbers packed into 32-bit words. */
module Bitmaps {
  import opened Blocks

  const BITS_IN_WORD: Pos := 32

  // ------------------------------------------------------------ bits as a sequence

  /** The first clear bit, or the length when every bit is set. */
  function FirstClear(bits: seq<bool>): (i: nat)
    ensures i <= |bits|
    ensures forall j :: 0 <= j < i ==> bits[j]
    ensures i < |bits| ==> !bits[i]
  {
    if bits == [] || !bits[0] then 0 else
      var r := FirstClear(bits[1..]);
      assert forall j :: 0 < j <= r ==> bits[j] == bits[1..][j - 1];
      1 + r
  }

  function CountClear(bits: seq<bool>): nat {
    if bits == [] then 0 else CountClear(bits[..|bits| - 1]) + if bits[|bits| - 1] then 0 else 1
  }

  /** Setting a clear bit takes one off the count; clearing a set bit adds one. */
  lemma {:induction false} CountAfter(bits: seq<bool>, i: nat, b: bool)
    requires i < |bits|
    ensures CountClear(bits[i := b]) + (if b then 1 else 0) == CountClear(bits) + (if bits[i] then 1 else 0)
  {
    var k := |bits| - 1;
    if i < k {
      CountAfter(bits[..k], i, b);
      assert bits[i := b][..k] == bits[..k][i := b];
    } else {
      assert bits[i := b][..k] == bits[..k];
    }
  }

  /** There is a clear bit exactly when the count says so. */
  lemma {:induction false} CountPositive(bits: seq<bool>)
    ensures CountClear(bits) > 0 <==> FirstClear(bits) < |bits|
  {
    if bits != [] {
      var k := |bits| - 1;
      CountPositive(bits[..k]);
      var i, j := FirstClear(bits), FirstClear(bits[..k]);
      assert j < k ==> !bits[j];
    }
  }

  /** The listed bits are clear and listed once. */
  ghost predicate AllClear(bits: seq<bool>, taken: seq<nat>) {
    && (forall k {:trigger taken[k]} :: 0 <= k < |taken| ==> taken[k] < |bits| && !bits[taken[k]])
    && (forall k, l {:trigger taken[k], taken[l]} :: 0 <= k < l < |taken| ==> taken[k] != taken[l])
  }

  /** From `bits` to `bits'` exactly the listed bits were set; none of them was before. */
  ghost predicate Taken(bits: seq<bool>, bits': seq<bool>, taken: seq<nat>) {
    && |bits'| == |bits| && CountClear(bits') + |taken| == CountClear(bits) && AllClear(bits, taken)
    && (forall x {:trigger bits'[x]} :: 0 <= x < |bits| ==> bits'[x] == (bits[x] || x in taken))
  }

  lemma TakenCount(bits: seq<bool>, bits': seq<bool>, taken: seq<nat>)
    ensures Taken(bits, bits, [])
    ensures Taken(bits, bits', taken) ==>
      |bits'| == |bits| && CountClear(bits') + |taken| == CountClear(bits) && AllClear(bits, taken)
  {
  }

  /** `Find` takes one more bit, and there is one as long as the count is positive. */
  lemma TakeOne(bits: seq<bool>, bits': seq<bool>, taken: seq<nat>)
    requires Taken(bits, bits', taken) && CountClear(bits') > 0
    ensures FirstClear(bits') < |bits|
    ensures Taken(bits, bits'[FirstClear(bits') := true], taken + [FirstClear(bits')])
  {
    CountPositive(bits');
    var i := FirstClear(bits');
    CountAfter(bits', i, true);
    var t := taken + [i];
    assert !bits'[i];
    assert forall x :: x in t <==> x in taken || x == i;
    forall k {:trigger t[k]} | 0 <= k < |t| ensures t[k] < |bits| && !bits[t[k]] {
      if k < |taken| { assert t[k] == taken[k]; }
    }
    forall k, l {:trigger t[k], t[l]} | 0 <= k < l < |t| ensures t[k] != t[l] {
      assert t[k] == taken[k] && taken[k] in taken;
      if l < |taken| { assert t[l] == taken[l]; }
    }
  }

  // ---------------------------------------------------------------- bits in a word

  /** `1 << k` on an unsigned word. */
  function Mask(k: nat): nat { if k == 0 then 1 else 2 * Mask(k - 1) }

  /** `x | y`, `x & y` and `x & ~y`, bit by bit from the lowest. */
  function Or(x: nat, y: nat): nat {
    if x == 0 && y == 0 then 0 else 2 * Or(x / 2, y / 2) + if x % 2 == 1 || y % 2 == 1 then 1 else 0
  }

  function And(x: nat, y: nat): nat {
    if x == 0 || y == 0 then 0 else 2 * And(x / 2, y / 2) + if x % 2 == 1 && y % 2 == 1 then 1 else 0
  }

  function AndNot(x: nat, y: nat): nat {
    if x == 0 then 0 else 2 * AndNot(x / 2, y / 2) + if x % 2 == 1 && y % 2 == 0 then 1 else 0
  }

  function TestBit(x: nat, k: nat): bool { And(x, Mask(k)) != 0 }

  /** A word's bit, by halving. */
  lemma {:induction false} TestBitStep(x: nat, k: nat)
    ensures TestBit(x, k) <==> if k == 0 then x % 2 == 1 else TestBit(x / 2, k - 1)
  {
    if k == 0 { assert And(x / 2, 0) == 0; }
  }

  lemma {:induction false} SetThenTest(x: nat, k: nat, j: nat)
    ensures TestBit(Or(x, Mask(k)), j) <==> j == k || TestBit(x, j)
  {
    var y := Or(x, Mask(k));
    TestBitStep(x, j);
    TestBitStep(y, j);
    if k == 0 {
      OrZero(x / 2);
    } else if j > 0 {
      SetThenTest(x / 2, k - 1, j - 1);
    }
  }

  lemma {:induction false} ResetThenTest(x: nat, k: nat, j: nat)
    ensures TestBit(AndNot(x, Mask(k)), j) <==> j != k && TestBit(x, j)
  {
    var y := AndNot(x, Mask(k));
    TestBitStep(x, j);
    TestBitStep(y, j);
    if k == 0 {
      AndNotZero(x / 2);
    } else if j > 0 {
      ResetThenTest(x / 2, k - 1, j - 1);
    }
  }

  lemma {:induction false} OrZero(x: nat)
    ensures Or(x, 0) == x
  {
    if x > 0 { OrZero(x / 2); }
  }

  lemma {:induction false} AndNotZero(x: nat)
    ensures AndNot(x, 0) == x
  {
    if x > 0 { AndNotZero(x / 2); }
  }

  lemma WordOf(words: nat, numBits: nat, i: nat)
    requires words == DivRoundUp(BITS_IN_WORD, numBits) && i < numBits
    ensures Index(BITS_IN_WORD, i) < words
  {
    RoundUpCovers(BITS_IN_WORD, numBits, words);
    IndexBelow(BITS_IN_WORD, i, words);
  }

  ghost function WordBit(file: seq<nat>, numBits: nat, i: nat): bool
    requires |file| == DivRoundUp(BITS_IN_WORD, numBits) && i < numBits
  {
    WordOf(|file|, numBits, i);
    TestBit(file[Index(BITS_IN_WORD, i)], Offset(BITS_IN_WORD, i))
  }

  /** The bits that a file of words stands for. */
  ghost function BitsOf(file: seq<nat>, numBits: nat): (bits: seq<bool>)
    requires |file| == DivRoundUp(BITS_IN_WORD, numBits)
    ensures |bits| == numBits
  {
    seq(numBits, i requires 0 <= i < numBits => WordBit(file, numBits, i))
  }

  // --------------------------------------------------------------------- the class

  class Bitmap {
    const numBits: nat
    const words: array<nat>

    ghost predicate Valid() { words.Length == DivRoundUp(BITS_IN_WORD, numBits) }

    function BitAt(i: nat): bool
      requires Valid() && i < numBits
      reads words
    {
      WordOf(words.Length, numBits, i);
      TestBit(words[Index(BITS_IN_WORD, i)], Offset(BITS_IN_WORD, i))
    }

    ghost function Bits(): (bits: seq<bool>)
      requires Valid()
      reads words
      ensures |bits| == numBits
      ensures forall i :: 0 <= i < numBits ==> bits[i] == BitAt(i)
    {
      seq(numBits, i requires 0 <= i < numBits reads words => BitAt(i))
    }

    constructor (nitems: nat)
      requires nitems > 0
      ensures Valid() && numBits == nitems && fresh(words)
      ensures Bits() == seq(nitems, _ => false)
    {
      numBits := nitems;
      words := new nat[DivRoundUp(BITS_IN_WORD, nitems)];
      new;
      var i := 0;
      while i < numBits
        invariant i <= numBits
        invariant forall j :: 0 <= j < i ==> !Bits()[j]
      {
        Clear(i);
        i := i + 1;
      }
    }

    method Mark(which: nat)
      requires Valid() && which < numBits
      modifies words
      ensures Bits() == old(Bits())[which := true]
    {
      WordOf(words.Length, numBits, which);
      var w := Index(BITS_IN_WORD, which);
      words[w] := Or(words[w], Mask(Offset(BITS_IN_WORD, which)));
      forall i | 0 <= i < numBits ensures BitAt(i) == old(Bits())[which := true][i] {
        SetThenTest(old(words[w]), Offset(BITS_IN_WORD, which), Offset(BITS_IN_WORD, i));
        SameBit(i, which);
      }
    }

    method Clear(which: nat)
      requires Valid() && which < numBits
      modifies words
      ensures Bits() == old(Bits())[which := false]
    {
      WordOf(words.Length, numBits, which);
      var w := Index(BITS_IN_WORD, which);
      words[w] := AndNot(words[w], Mask(Offset(BITS_IN_WORD, which)));
      forall i | 0 <= i < numBits ensures BitAt(i) == old(Bits())[which := false][i] {
        ResetThenTest(old(words[w]), Offset(BITS_IN_WORD, which), Offset(BITS_IN_WORD, i));
        SameBit(i, which);
      }
    }

    static lemma SameBit(i: nat, j: nat)
      ensures Index(BITS_IN_WORD, i) == Index(BITS_IN_WORD, j) && Offset(BITS_IN_WORD, i) == Offset(BITS_IN_WORD, j) ==> i == j
    {
      Split(BITS_IN_WORD, i);
      Split(BITS_IN_WORD, j);
    }

    method Test(which: nat) returns (b: bool)
      requires Valid() && which < numBits
      ensures b == Bits()[which]
    {
      WordOf(words.Length, numBits, which);
      b := TestBit(words[Index(BITS_IN_WORD, which)], Offset(BITS_IN_WORD, which));
    }

    /** Mark and return the first clear bit; -1 and no change when there is none. */
    method Find() returns (found: int)
      requires Valid()
      modifies words
      ensures found == if FirstClear(old(Bits())) == numBits then -1 else FirstClear(old(Bits()))
      ensures Bits() == if found == -1 then old(Bits()) else old(Bits())[found := true]
    {
      for i := 0 to numBits
        invariant Bits() == old(Bits())
        invariant forall j :: 0 <= j < i ==> Bits()[j]
      {
        var b := Test(i);
        if !b {
          Mark(i);
          return i;
        }
      }
      return -1;
    }

    method CountClearBits() returns (count: nat)
      requires Valid()
      ensures count == CountClear(Bits())
    {
      count := 0;
      for i := 0 to numBits
        invariant count == CountClear(Bits()[..i])
      {
        var b := Test(i);
        assert Bits()[..i + 1][..i] == Bits()[..i];
        if !b { count := count + 1; }
      }
      assert Bits()[..numBits] == Bits();
    }

    method FetchFrom(file: seq<nat>)
      requires Valid() && |file| == DivRoundUp(BITS_IN_WORD, numBits)
      modifies words
      ensures Bits() == BitsOf(file, numBits)
    {
      for k := 0 to words.Length
        invariant forall w :: 0 <= w < k ==> words[w] == file[w]
      {
        words[k] := file[k];
      }
      forall i | 0 <= i < numBits ensures BitAt(i) == WordBit(file, numBits, i) {
        WordOf(words.Length, numBits, i);
      }
    }

    method WriteBack() returns (file: seq<nat>)
      requires Valid()
      ensures |file| == DivRoundUp(BITS_IN_WORD, numBits) && BitsOf(file, numBits) == Bits()
    {
      file := words[..];
      forall i | 0 <= i < numBits ensures BitAt(i) == WordBit(file, numBits, i) {
        WordOf(words.Length, numBits, i);
      }
    }
  }
}
