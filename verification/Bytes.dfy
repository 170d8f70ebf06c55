/** Byte sequences and the host's files. */
module Bytes {
  import opened Blocks

  type Byte = b: int | 0 <= b < 256 witness 0

  /** `s` with the elements from `pos` on replaced by `d`, which has to fit. */
  function Splice<T>(s: seq<T>, pos: nat, d: seq<T>): (r: seq<T>)
    requires pos + |d| <= |s|
    ensures |r| == |s|
    ensures forall i {:trigger r[i]} :: 0 <= i < |s| ==> r[i] == if pos <= i < pos + |d| then d[i - pos] else s[i]
  {
    seq(|s|, i requires 0 <= i < |s| => if pos <= i < pos + |d| then d[i - pos] else s[i])
  }

  function Zeros(n: nat): (r: seq<Byte>)
    ensures |r| == n
    ensures forall i :: 0 <= i < n ==> r[i] == 0
  {
    seq(n, _ => 0)
  }

  /** `page` after copying `d` onto it from `pos` on. */
  function Overlay(page: seq<Byte>, pos: nat, d: seq<Byte>): (r: seq<Byte>)
    requires pos <= |page|
    ensures |r| == |page|
    ensures forall i {:trigger r[i]} :: 0 <= i < |page| ==> r[i] == if pos <= i < pos + |d| then d[i - pos] else page[i]
  {
    seq(|page|, i requires 0 <= i < |page| => if pos <= i < pos + |d| then d[i - pos] else page[i])
  }

  /** `pread` on a host file: short at the end of the file, nothing beyond it. */
  function ReadAt(file: seq<Byte>, n: nat, pos: nat): (r: seq<Byte>)
    ensures |r| == if pos >= |file| then 0 else if pos + n <= |file| then n else |file| - pos
    ensures forall i :: 0 <= i < |r| ==> r[i] == file[pos + i]
  {
    var len := if pos >= |file| then 0 else if pos + n <= |file| then n else |file| - pos;
    seq(len, i requires 0 <= i < len => file[pos + i])
  }

  /** `pwrite` on a host file: a gap before `pos` reads as zeros. */
  function WriteAt(file: seq<Byte>, d: seq<Byte>, pos: nat): (r: seq<Byte>)
    ensures |r| == if pos + |d| <= |file| then |file| else pos + |d|
    ensures forall i {:trigger r[i]} :: 0 <= i < |r| ==>
      r[i] == if pos <= i < pos + |d| then d[i - pos] else if i < |file| then file[i] else 0
  {
    var len := if pos + |d| <= |file| then |file| else pos + |d|;
    seq(len, i requires 0 <= i < len =>
      if pos <= i < pos + |d| then d[i - pos] else if i < |file| then file[i] else 0)
  }

  /** What a buffer of zeros of length `n` holds after reading block `k` of `file` into it. */
  function Block(file: seq<Byte>, n: Pos, k: nat): (r: seq<Byte>)
    ensures |r| == n
  {
    Overlay(Zeros(n), 0, ReadAt(file, n, Base(n, k)))
  }

  lemma BlockAt(file: seq<Byte>, n: Pos, k: nat, i: nat)
    requires i < n
    ensures Block(file, n, k)[i] == if Base(n, k) + i < |file| then file[Base(n, k) + i] else 0
  {
  }

  /** Writing block `k` makes it readable and leaves every other block as it was. */
  lemma BlockWriteRead(file: seq<Byte>, n: Pos, d: seq<Byte>, k: nat, j: nat)
    requires |d| == n
    ensures Block(WriteAt(file, d, Base(n, k)), n, j) == if j == k then d else Block(file, n, j)
  {
    var w := WriteAt(file, d, Base(n, k));
    forall i: nat | i < n ensures Block(w, n, j)[i] == (if j == k then d else Block(file, n, j))[i] {
      BlockAt(w, n, j, i);
      BlockAt(file, n, j, i);
      if j < k { Apart(n, j, k); } else if k < j { Apart(n, k, j); }
    }
  }
}
