// How long the simulated disk takes: seek, rotation, transfer, and the track buffer.
//
// The clock is a parameter. Time is an unbounded natural number here.

module Disks {
  import opened DiskGeometry

  // Ticks for the disk to turn by one sector, and for the head to move by one track.
  const ROTATION_TIME: nat := 500
  const SEEK_TIME: nat := 500

  function Track(sector: nat): nat {
    sector / SECTORS_PER_TRACK
  }

  function SeekTicks(last: nat, sector: nat): nat {
    (if Track(sector) >= Track(last) then Track(sector) - Track(last) else Track(last) - Track(sector)) * SEEK_TIME
  }

  /** Seek times add up along a way in one direction, and it is 500 ticks from a track to
      the next, either way. */
  lemma SeekAdds(a: nat, b: nat, c: nat)
    ensures a <= b <= c ==> SeekTicks(a, c) == SeekTicks(a, b) + SeekTicks(b, c)
    ensures SeekTicks(a, b) == SeekTicks(b, a)
    ensures SeekTicks(a, a + SECTORS_PER_TRACK) == 500
    ensures Track(a) == Track(b) ==> SeekTicks(a, b) == 0
  {
  }

  /** Ticks from t to the next sector boundary. */
  function Rounding(t: nat): (r: nat)
    ensures r < ROTATION_TIME && (t + r) % ROTATION_TIME == 0
  {
    if t % ROTATION_TIME > 0 then ROTATION_TIME - t % ROTATION_TIME else 0
  }

  function ModuloDiff(to: nat, from: nat): nat {
    (to % SECTORS_PER_TRACK + SECTORS_PER_TRACK - from % SECTORS_PER_TRACK) % SECTORS_PER_TRACK
  }

  // ---------------------------------------------------------------- where the head is

  /** At time t a sector with this place on its track begins to pass under the head. */
  ghost predicate Begins(t: nat, sector: nat) {
    t % ROTATION_TIME == 0 && (t / ROTATION_TIME) % SECTORS_PER_TRACK == sector % SECTORS_PER_TRACK
  }

  /** The sector passes the head completely between two times. */
  ghost predicate Passes(from: nat, to: nat, sector: nat) {
    exists t: nat :: from <= t && t + ROTATION_TIME <= to && Begins(t, sector)
  }

  /** The first time at or after t at which the sector begins to pass. */
  ghost predicate FirstBegin(start: nat, t: nat, sector: nat) {
    start >= t && Begins(start, sector) && forall u: nat :: t <= u < start ==> !Begins(u, sector)
  }

  lemma CountedSectors(k: nat, sector: nat, j: nat)
    requires j <= ModuloDiff(sector, k)
    ensures (k + j) % SECTORS_PER_TRACK == sector % SECTORS_PER_TRACK <==> j == ModuloDiff(sector, k)
  {
  }

  lemma BeginsAt(q: nat, sector: nat)
    ensures Begins(q * ROTATION_TIME, sector) <==> q % SECTORS_PER_TRACK == sector % SECTORS_PER_TRACK
  {
    assert q * ROTATION_TIME / ROTATION_TIME == q;
  }

  /** A request that ends at this time is no slower than one that waits for the sector to
      begin, from t on, and then to pass. */
  ghost predicate NoSlower(end: nat, t: nat, sector: nat) {
    exists start: nat :: FirstBegin(start, t, sector) && end <= start + ROTATION_TIME
  }

  /** Counting sectors from a boundary gives the first time at which the sector begins. */
  lemma CountedIsFirst(boundary: nat, sector: nat)
    requires boundary % ROTATION_TIME == 0
    ensures FirstBegin(boundary + ModuloDiff(sector, boundary / ROTATION_TIME) * ROTATION_TIME, boundary, sector)
  {
    var k, m := boundary / ROTATION_TIME, ModuloDiff(sector, boundary / ROTATION_TIME);
    hide ModuloDiff;
    var start := (k + m) * ROTATION_TIME;
    BeginsAt(k + m, sector);
    CountedSectors(k, sector, m);
    forall u: nat | boundary <= u < start ensures !Begins(u, sector) {
      if u % ROTATION_TIME == 0 {
        var q := u / ROTATION_TIME;
        BeginsAt(q, sector);
        CountedSectors(k, sector, q - k);
      }
    }
  }

  /** There is no boundary before the next one. */
  lemma InSector(t: nat, u: nat)
    requires t <= u < t + Rounding(t)
    ensures u % ROTATION_TIME != 0
  {
    var q := t / ROTATION_TIME;
    assert ROTATION_TIME * q < t <= u < ROTATION_TIME * (q + 1);
  }

  lemma FirstFromEarlier(start: nat, t: nat, sector: nat)
    requires FirstBegin(start, t + Rounding(t), sector)
    ensures FirstBegin(start, t, sector)
  {
    forall u: nat | t <= u < start ensures !Begins(u, sector) {
      if u < t + Rounding(t) {
        InSector(t, u);
      }
    }
  }

  lemma PassesByFirst(start: nat, from: nat, to: nat, sector: nat)
    requires FirstBegin(start, from, sector)
    ensures Passes(from, to, sector) <==> start + ROTATION_TIME <= to
  {
  }

  // ---------------------------------------------------------------- the disk

  class Disk {
    var lastSector: nat
    var bufferInit: nat
    var active: bool

    // When the request in progress ends, and the time of the last request or interrupt.
    ghost var doneAt: nat
    ghost var clock: nat

    /** The track buffer has been filling since a sector boundary that lies before any
        request that can come next. */
    ghost predicate Valid()
      reads this
    {
      && bufferInit % ROTATION_TIME == 0
      && bufferInit <= (if active then doneAt else clock)
      && (active ==> clock <= doneAt)
    }

    /** As the constructor leaves it. */
    ghost predicate New()
      reads this
    {
      lastSector == 0 && bufferInit == 0 && !active && clock == 0
    }

    constructor ()
      ensures Valid() && New()
    {
      lastSector, bufferInit, active := 0, 0, false;
      doneAt, clock := 0, 0;
    }

    method TimeToSeek(now: nat, newSector: nat) returns (seek: nat, rotation: nat)
      ensures seek == SeekTicks(lastSector, newSector) && rotation == Rounding(now + seek)
      ensures Track(newSector) >= Track(lastSector) ==> seek == 500 * (Track(newSector) - Track(lastSector))
      ensures Track(newSector) <= Track(lastSector) ==> seek == 500 * (Track(lastSector) - Track(newSector))
      ensures seek == 0 <==> Track(newSector) == Track(lastSector)
    {
      var newTrack, oldTrack := newSector / SECTORS_PER_TRACK, lastSector / SECTORS_PER_TRACK;
      seek := (if newTrack >= oldTrack then newTrack - oldTrack else oldTrack - newTrack) * SEEK_TIME;
      var over := (now + seek) % ROTATION_TIME;
      rotation := 0;
      if over > 0 {
        rotation := ROTATION_TIME - over;
      }
    }

    /** The track buffer can serve this request: a read of the current track, for a sector
        that has passed the head completely, since the buffer began to fill, by the next
        sector boundary. */
    ghost predicate Buffered(now: nat, sector: nat, writing: bool)
      reads this
    {
      && !writing && Track(sector) == Track(lastSector)
      && Passes(bufferInit, now + Rounding(now), sector)
    }

    /** A request that the buffer serves takes one sector time. Any other ends one sector
        time after the first moment, behind the seek, at which the sector begins to pass.
        The buffer is never slower than that. */
    method ComputeLatency(now: nat, newSector: nat, writing: bool) returns (latency: nat)
      requires Valid() && !active && clock <= now
      ensures Buffered(now, newSector, writing) ==> latency == ROTATION_TIME
      ensures !Buffered(now, newSector, writing) ==>
        && latency >= SeekTicks(lastSector, newSector) + ROTATION_TIME
        && FirstBegin(now + latency - ROTATION_TIME, now + SeekTicks(lastSector, newSector), newSector)
      ensures NoSlower(now + latency, now + SeekTicks(lastSector, newSector), newSector)
    {
      var seek, rotation := TimeToSeek(now, newSector);
      var timeAfter := now + seek + rotation;
      CountedIsFirst(bufferInit, newSector);
      CountedIsFirst(timeAfter, newSector);
      ghost var inBuffer := bufferInit + ModuloDiff(newSector, bufferInit / ROTATION_TIME) * ROTATION_TIME;
      ghost var start := timeAfter + ModuloDiff(newSector, timeAfter / ROTATION_TIME) * ROTATION_TIME;
      FirstFromEarlier(start, now + seek, newSector);
      PassesByFirst(inBuffer, bufferInit, timeAfter, newSector);
      WholeTurns(timeAfter, bufferInit, ModuloDiff(newSector, bufferInit / ROTATION_TIME));
      assert start >= now;
      hide FirstBegin, Passes, ModuloDiff;
      assert FirstBegin(start, now + SeekTicks(lastSector, newSector), newSector);
      if !writing && seek == 0 &&
         (timeAfter - bufferInit) / ROTATION_TIME > ModuloDiff(newSector, bufferInit / ROTATION_TIME) {
        return ROTATION_TIME;
      }
      rotation := rotation + ModuloDiff(newSector, timeAfter / ROTATION_TIME) * ROTATION_TIME;
      latency := seek + rotation + ROTATION_TIME;
    }

    method UpdateLast(now: nat, newSector: nat)
      modifies this
      ensures lastSector == newSector && active == old(active) && doneAt == old(doneAt) && clock == old(clock)
      ensures bufferInit == if Track(newSector) == old(Track(lastSector)) then old(bufferInit)
        else var seek := SeekTicks(old(lastSector), newSector); now + seek + Rounding(now + seek)
    {
      var seek, rotate := TimeToSeek(now, newSector);
      if seek != 0 {
        bufferInit := now + seek + rotate;
      }
      lastSector := newSector;
    }

    /** `ReadRequest` and `WriteRequest`; the precondition is their assertions. The track
        buffer starts over with a seek, at the boundary behind it. */
    method Request(now: nat, sector: nat, writing: bool) returns (ticks: nat)
      requires Valid() && !active && clock <= now && sector < NUM_SECTORS
      modifies this
      ensures Valid() && active && lastSector == sector && clock == now && doneAt == now + ticks
      ensures Track(sector) == old(Track(lastSector)) ==> bufferInit == old(bufferInit)
      ensures Track(sector) != old(Track(lastSector)) ==>
        var ready := now + SeekTicks(old(lastSector), sector);
        ready <= bufferInit < ready + ROTATION_TIME && bufferInit % ROTATION_TIME == 0
    {
      ticks := ComputeLatency(now, sector, writing);
      ghost var ready := now + SeekTicks(lastSector, sector);
      if !Buffered(now, sector, writing) {
        AtBoundary(now + ticks - ROTATION_TIME, ready, sector);
      }
      active, doneAt, clock := true, now + ticks, now;
      UpdateLast(now, sector);
    }

    /** `HandleInterrupt`: the request has ended. */
    method HandleInterrupt()
      requires Valid() && active
      modifies this
      ensures Valid() && !active && clock == old(doneAt)
      ensures lastSector == old(lastSector) && bufferInit == old(bufferInit)
    {
      active := false;
      clock := doneAt;
    }
  }

  lemma WholeTurns(t: nat, from: nat, m: nat)
    requires from <= t && from % ROTATION_TIME == 0
    ensures (t - from) / ROTATION_TIME > m <==> from + m * ROTATION_TIME + ROTATION_TIME <= t
  {
  }

  lemma AtBoundary(start: nat, t: nat, sector: nat)
    requires FirstBegin(start, t, sector)
    ensures start >= t + Rounding(t)
  {
  }

  /** A new disk serves a read of sector 0 at time 10 from the buffer, while the sector is
      still passing the head. */
  lemma EarlyHit(d: Disk)
    requires d.New()
    ensures d.Valid() && d.clock <= 10 && d.Buffered(10, 0, false)
    ensures !Passes(d.bufferInit, 10, 0)
  {
    assert Begins(0, 0);
  }

  /** When a sector has passed: the guard that the code would need. */
  lemma PassesIs(from: nat, to: nat, sector: nat)
    requires from % ROTATION_TIME == 0 && from <= to
    ensures Passes(from, to, sector) <==>
      (to - from) / ROTATION_TIME > ModuloDiff(sector, from / ROTATION_TIME)
  {
    CountedIsFirst(from, sector);
    var m := ModuloDiff(sector, from / ROTATION_TIME);
    PassesByFirst(from + m * ROTATION_TIME, from, to, sector);
    hide Passes, ModuloDiff, FirstBegin;
    WholeTurns(to, from, m);
  }

  /** The buffer serves a sector that has not passed by the time of the request if and only
      if the request is a read of the current track that comes in the middle of a sector,
      and that sector, the first of its kind since the buffer began to fill, is the one. */
  lemma HitExactly(d: Disk, now: nat, sector: nat, writing: bool)
    requires d.Valid() && !d.active && d.clock <= now
    ensures d.Buffered(now, sector, writing) && !Passes(d.bufferInit, now, sector) <==>
      && !writing && Track(sector) == Track(d.lastSector) && now % ROTATION_TIME != 0
      && (now - d.bufferInit) / ROTATION_TIME == ModuloDiff(sector, d.bufferInit / ROTATION_TIME)
  {
    PassesIs(d.bufferInit, now, sector);
    PassesIs(d.bufferInit, now + Rounding(now), sector);
    hide Passes, ModuloDiff;
    RoundedTurns(now, d.bufferInit);
  }

  lemma RoundedTurns(now: nat, from: nat)
    requires from % ROTATION_TIME == 0 && from <= now
    ensures (now + Rounding(now) - from) / ROTATION_TIME ==
      (now - from) / ROTATION_TIME + if now % ROTATION_TIME == 0 then 0 else 1
  {
  }
}
