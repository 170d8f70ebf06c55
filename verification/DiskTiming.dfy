/** The timing of `machine/disk.cc`: seek, rotation and the track buffer. */
module DiskTiming {
  const ROTATION_TIME: nat := 500
  const SEEK_TIME: nat := 500
  const SECTORS_PER_TRACK: nat := 32

  function Diff(a: nat, b: nat): nat { if a > b then a - b else b - a }

  /** The distance, either way. */
  lemma DiffIsDistance(a: nat, n: nat)
    ensures Diff(a, a + n) == n == Diff(a + n, a)
  {
  }

  /** The head is at the start of `sector` at time `t`. */
  predicate UnderHead(t: nat, sector: nat) {
    t % ROTATION_TIME == 0 && t / ROTATION_TIME % SECTORS_PER_TRACK == sector % SECTORS_PER_TRACK
  }

  /** `sector` begins to pass under the head at `t`, no earlier than `from` but not later than need be. */
  ghost predicate NextPass(t: nat, from: nat, sector: nat) {
    from <= t && UnderHead(t, sector) && forall u: nat :: from <= u < t ==> !UnderHead(u, sector)
  }

  /** The whole of `sector` went past between `from` and `to`. */
  ghost predicate Passed(sector: nat, from: nat, to: nat) {
    exists t: nat :: from <= t && t + ROTATION_TIME <= to && UnderHead(t, sector)
  }

  /** How many sectors from `from` on to `to`, going round. */
  function ModuloDiff(to: nat, from: nat): (d: nat)
    ensures d < SECTORS_PER_TRACK && (from + d) % SECTORS_PER_TRACK == to % SECTORS_PER_TRACK
  {
    (to % SECTORS_PER_TRACK - from % SECTORS_PER_TRACK + SECTORS_PER_TRACK) % SECTORS_PER_TRACK
  }

  lemma ModuloDiffLeast(to: nat, from: nat, e: nat)
    requires e < ModuloDiff(to, from)
    ensures (from + e) % SECTORS_PER_TRACK != to % SECTORS_PER_TRACK
  {
  }

  /** From an aligned time, the sector comes round after `ModuloDiff` sectors, no sooner. */
  lemma Rotation(from: nat, sector: nat)
    requires from % ROTATION_TIME == 0
    ensures NextPass(from + ModuloDiff(sector, from / ROTATION_TIME) * ROTATION_TIME, from, sector)
  {
    var slot := from / ROTATION_TIME;
    var d := ModuloDiff(sector, slot);
    var t := from + d * ROTATION_TIME;
    assert t == (slot + d) * ROTATION_TIME;
    forall u: nat | from <= u < t ensures !UnderHead(u, sector) {
      if u % ROTATION_TIME == 0 {
        var e := u / ROTATION_TIME - slot;
        assert 0 <= e < d && u / ROTATION_TIME == slot + e;
        ModuloDiffLeast(sector, slot, e);
      }
    }
  }

  /** The next pass is the first one: a pass by `to` exists if and only if the first is over by then. */
  lemma PassedIff(sector: nat, from: nat, to: nat, first: nat)
    requires NextPass(first, from, sector)
    ensures Passed(sector, from, to) <==> first + ROTATION_TIME <= to
  {
  }

  /** Nothing starts to pass between two boundaries. */
  lemma NextPassRounded(t: nat, from: nat, aligned: nat, sector: nat)
    requires from <= aligned < from + ROTATION_TIME && aligned % ROTATION_TIME == 0 && NextPass(t, aligned, sector)
    ensures NextPass(t, from, sector)
  {
    forall u: nat | from <= u < aligned ensures u % ROTATION_TIME != 0 {
    }
  }

  class Disk {
    var active: bool
    var lastSector: nat
    var bufferInit: nat
    /** When the request under way will have been done. */
    ghost var doneAt: nat

    /** The buffer was started at a sector boundary: at the very beginning, or by a seek whose
        request, and so at least one sector's transfer, is over by the end of the one under way. */
    ghost predicate Valid(now: nat)
      reads this
    {
      && bufferInit % ROTATION_TIME == 0
      && (bufferInit == 0 || bufferInit + ROTATION_TIME <= if active then doneAt else now)
    }

    constructor ()
      ensures Valid(0) && !active && lastSector == 0 && bufferInit == 0
    {
      active, lastSector, bufferInit, doneAt := false, 0, 0, 0;
    }

    lemma Later(now: nat, then_: nat)
      requires Valid(now) && now <= then_
      ensures Valid(then_)
    {
    }

    /** The seek time, and the wait until the next sector boundary after it. */
    method TimeToSeek(newSector: nat, now: nat) returns (seek: nat, rotation: nat)
      ensures seek == Diff(newSector / SECTORS_PER_TRACK, lastSector / SECTORS_PER_TRACK) * SEEK_TIME
      ensures (now + seek + rotation) % ROTATION_TIME == 0 && rotation < ROTATION_TIME
    {
      var newTrack := newSector / SECTORS_PER_TRACK;
      var oldTrack := lastSector / SECTORS_PER_TRACK;
      seek := Diff(newTrack, oldTrack) * SEEK_TIME;
      var over := (now + seek) % ROTATION_TIME;
      rotation := 0;
      if over > 0 {
        rotation := ROTATION_TIME - over;
      }
    }

    /** `now` or the next sector boundary after it. */
    static ghost function RoundedUp(now: nat): nat {
      if now % ROTATION_TIME == 0 then now else now + ROTATION_TIME - now % ROTATION_TIME
    }

    /** The latency of a request.  From the buffer, the transfer takes one sector's time;
        this happens exactly for a read on the same track of a sector that is past by the next
        boundary.  Otherwise the transfer begins when the sector next comes under the head
        after the seek, and takes one sector's time. */
    method ComputeLatency(newSector: nat, writing: bool, now: nat) returns (ticks: nat, ghost fast: bool)
      requires Valid(now) && !active
      ensures ticks >= ROTATION_TIME
      ensures fast <==> !writing && newSector / SECTORS_PER_TRACK == lastSector / SECTORS_PER_TRACK && Passed(newSector, bufferInit, RoundedUp(now))
      ensures fast ==> ticks == ROTATION_TIME
      ensures var seek := Diff(newSector / SECTORS_PER_TRACK, lastSector / SECTORS_PER_TRACK) * SEEK_TIME;
        !fast ==> NextPass(now + ticks - ROTATION_TIME, now + seek, newSector)
      ensures var seek := Diff(newSector / SECTORS_PER_TRACK, lastSector / SECTORS_PER_TRACK) * SEEK_TIME;
        !fast ==> RoundedUp(now + seek) + ROTATION_TIME <= now + ticks
    {
      hide UnderHead, NextPass, Passed, ModuloDiff;
      var seek, rotation := TimeToSeek(newSector, now);
      var timeAfter := now + seek + rotation;
      var buffered := InBuffer(newSector, now, timeAfter, seek);
      fast := !writing && buffered;
      if !writing && seek == 0 && buffered {
        return ROTATION_TIME, fast;
      }
      var wait := RotationalDelay(newSector, now + seek, timeAfter);
      ticks := seek + (rotation + wait) + ROTATION_TIME;
    }

    /** Without a seek: has the sector passed since the buffer was started, by the next boundary? */
    method InBuffer(newSector: nat, now: nat, timeAfter: nat, seek: nat) returns (buffered: bool)
      requires Valid(now) && !active && timeAfter % ROTATION_TIME == 0 && now + seek <= timeAfter < now + seek + ROTATION_TIME
      ensures buffered <==> seek == 0 && Passed(newSector, bufferInit, RoundedUp(now))
    {
      hide UnderHead, NextPass, Passed, ModuloDiff;
      if seek != 0 {
        return false;
      }
      Rotation(bufferInit, newSector);
      var first := ModuloDiff(newSector, bufferInit / ROTATION_TIME);
      PassedIff(newSector, bufferInit, timeAfter, bufferInit + first * ROTATION_TIME);
      assert timeAfter == RoundedUp(now);
      WholeSlots(timeAfter, bufferInit, first);
      buffered := (timeAfter - bufferInit) / ROTATION_TIME > first;
    }

    static lemma WholeSlots(timeAfter: nat, from: nat, first: nat)
      requires from <= timeAfter && timeAfter % ROTATION_TIME == 0 && from % ROTATION_TIME == 0
      ensures (timeAfter - from) / ROTATION_TIME > first <==> from + first * ROTATION_TIME + ROTATION_TIME <= timeAfter
    {
    }

    /** From the boundary `timeAfter` until the sector comes under the head. */
    method RotationalDelay(newSector: nat, settled: nat, timeAfter: nat) returns (wait: nat)
      requires timeAfter % ROTATION_TIME == 0 && settled <= timeAfter < settled + ROTATION_TIME
      ensures NextPass(timeAfter + wait, settled, newSector)
    {
      hide UnderHead, NextPass, ModuloDiff;
      Rotation(timeAfter, newSector);
      wait := ModuloDiff(newSector, timeAfter / ROTATION_TIME) * ROTATION_TIME;
      NextPassRounded(timeAfter + wait, settled, timeAfter, newSector);
    }

    method UpdateLast(newSector: nat, now: nat)
      requires bufferInit % ROTATION_TIME == 0
      modifies this`bufferInit, this`lastSector
      ensures lastSector == newSector && bufferInit % ROTATION_TIME == 0
      ensures var seek := Diff(newSector / SECTORS_PER_TRACK, old(lastSector) / SECTORS_PER_TRACK) * SEEK_TIME;
        bufferInit == if seek == 0 then old(bufferInit) else RoundedUp(now + seek)
    {
      var seek, rotate := TimeToSeek(newSector, now);
      if seek != 0 {
        bufferInit := now + seek + rotate;
      }
      lastSector := newSector;
    }

    /** `ReadRequest` and `WriteRequest`: one at a time.  The interrupt is due when the
        sector has been transferred, from the buffer or from under the head. */
    method Request(newSector: nat, writing: bool, now: nat) returns (ticks: nat, ghost fast: bool)
      requires Valid(now) && !active
      modifies this
      ensures active && lastSector == newSector && Valid(now) && doneAt == now + ticks
      ensures fast <==> !writing && newSector / SECTORS_PER_TRACK == old(lastSector) / SECTORS_PER_TRACK
                        && Passed(newSector, old(bufferInit), RoundedUp(now))
      ensures fast ==> ticks == ROTATION_TIME
      ensures var seek := Diff(newSector / SECTORS_PER_TRACK, old(lastSector) / SECTORS_PER_TRACK) * SEEK_TIME;
        && ticks >= ROTATION_TIME && (!fast ==> NextPass(doneAt - ROTATION_TIME, now + seek, newSector))
        && bufferInit == if seek == 0 then old(bufferInit) else RoundedUp(now + seek)
    {
      ticks, fast := ComputeLatency(newSector, writing, now);
      active := true;
      UpdateLast(newSector, now);
      doneAt := now + ticks;
    }

    /** The interrupt of the request, at its time or later. */
    method HandleInterrupt(now: nat)
      requires active && Valid(now) && doneAt <= now
      modifies this`active
      ensures !active && Valid(now)
    {
      active := false;
    }
  }

  /** The track buffer may serve a sector that is still passing: "past by now" fails of
      the fast path exactly when the first pass since the buffer was started is going on. */
  lemma PastByNow(sector: nat, bufferInit: nat, now: nat, first: nat)
    requires bufferInit % ROTATION_TIME == 0 && bufferInit <= now && NextPass(first, bufferInit, sector)
    ensures (Passed(sector, bufferInit, Disk.RoundedUp(now)) ==> Passed(sector, bufferInit, now)) <==> !(first < now < first + ROTATION_TIME)
  {
    PassedIff(sector, bufferInit, now, first);
    PassedIff(sector, bufferInit, Disk.RoundedUp(now), first);
  }

  /** An instance: a new disk asked at time 10 for sector 0, which began to pass at time 0
      and is still passing, takes it from the buffer. */
  method StillPassing() returns (disk: Disk, ticks: nat, ghost fast: bool)
    ensures fresh(disk) && disk.active && disk.Valid(10) && fast && ticks == 500
    ensures Passed(0, 0, Disk.RoundedUp(10)) && !Passed(0, 0, 10)
  {
    disk := new Disk();
    disk.Later(0, 10);
    assert UnderHead(0, 0);
    ticks, fast := disk.Request(0, false, 10);
  }

  /** Another: from time 0, one track on, sector 32 has just gone by when the seek ends at 500; it
      comes round after 31 more sectors and takes one sector's time. */
  method SeekAndWait() returns (disk: Disk, ticks: nat, ghost fast: bool)
    ensures fresh(disk) && disk.active && !fast && ticks == 500 + 31 * 500 + 500 && disk.bufferInit == 500
  {
    disk := new Disk();
    ticks, fast := disk.Request(32, false, 0);
    ghost var t := disk.doneAt - ROTATION_TIME;
    assert UnderHead(16000, 32);
    assert t <= 16000;
    assert 500 <= t && t % 500 == 0 && t / 500 % 32 == 0;
  }

  /** By the end of the transfer it has passed. */
  lemma PastByCompletion(sector: nat, from: nat, now: nat)
    requires Passed(sector, from, Disk.RoundedUp(now))
    ensures Passed(sector, from, now + ROTATION_TIME)
  {
  }
}
