/**
 The timing of the simulated disk (machine/disk.cc): seek, rotation, transfer and track buffer,
 and the protocol of one request at a time.  Sectors go by one per RotationTime.
 */
module DiskTiming {

  const SECTORS_PER_TRACK: nat := 32
  const NUM_TRACKS: nat := 32
  const ROTATION_TIME: nat := 500
  const SEEK_TIME: nat := 500

  predicate IsSector(s: int) {
    0 <= s < SECTORS_PER_TRACK * NUM_TRACKS
  }

  /** At time start the head is at the beginning of a sector with s's offset in its track. */
  predicate StartsPassing(s: nat, start: nat) {
    start % ROTATION_TIME == 0 && start / ROTATION_TIME % SECTORS_PER_TRACK == s % SECTORS_PER_TRACK
  }

  function SeekDuration(newSector: nat, lastSector: nat): (r: nat) {
    var newTrack, oldTrack := newSector / SECTORS_PER_TRACK, lastSector / SECTORS_PER_TRACK;
    (if newTrack >= oldTrack then newTrack - oldTrack else oldTrack - newTrack) * SEEK_TIME
  }

  /** The number of tracks between tracks t and u. */
  function Apart(t: nat, u: nat): nat {
    if t < u then u - t else t - u
  }

  lemma TrackOf(t: nat, o: nat)
    requires o < 32
    ensures (32 * t + o) / 32 == t
  {
  }

  /** Seeks between sectors o of track t, p of track u and q of track v: they cost the same both ways,
      nothing exactly within a track, 500 ticks between neighbours, and add up over a track in between. */
  lemma SeekLaws(t: nat, o: nat, u: nat, p: nat, v: nat, q: nat)
    requires o < 32 && p < 32 && q < 32
    ensures SeekDuration(32 * t + o, 32 * u + p) == SeekDuration(32 * u + p, 32 * t + o)
    ensures SeekDuration(32 * t + o, 32 * u + p) == 0 <==> t == u
    ensures t == u + 1 ==> SeekDuration(32 * t + o, 32 * u + p) == 500
    ensures u <= v <= t ==> SeekDuration(32 * t + o, 32 * u + p) ==
                            SeekDuration(32 * t + o, 32 * v + q) + SeekDuration(32 * v + q, 32 * u + p)
  {
    TrackOf(t, o);
    TrackOf(u, p);
    TrackOf(v, q);
  }

  lemma SeekIs(t: nat, o: nat, u: nat, p: nat)
    requires o < 32 && p < 32
    ensures SeekDuration(32 * t + o, 32 * u + p) == 500 * Apart(t, u)
  {
    TrackOf(t, o);
    TrackOf(u, p);
  }

  /** How long after the seek until the next sector boundary. */
  function RotationAfter(time: nat): (r: nat)
    ensures r < ROTATION_TIME && (time + r) % ROTATION_TIME == 0
  {
    var over := time % ROTATION_TIME;
    if over > 0 then ROTATION_TIME - over else 0
  }

  function ModuloDiff(to: nat, from: nat): (r: nat)
    ensures r < SECTORS_PER_TRACK && (from + r) % SECTORS_PER_TRACK == to % SECTORS_PER_TRACK
  {
    var toOffset, fromOffset := to % SECTORS_PER_TRACK, from % SECTORS_PER_TRACK;
    Residue(from, toOffset);
    (toOffset - fromOffset + SECTORS_PER_TRACK) % SECTORS_PER_TRACK
  }

  lemma Residue(from: nat, offset: nat)
    requires offset < SECTORS_PER_TRACK
    ensures var ahead := (offset - from % SECTORS_PER_TRACK + SECTORS_PER_TRACK) % SECTORS_PER_TRACK;
            (from + ahead) % SECTORS_PER_TRACK == offset
  {
    var q, m := from / 32, from % 32;
    if m <= offset {
      assert (offset - m + 32) % 32 == offset - m;
      assert from + (offset - m) == 32 * q + offset;
    } else {
      assert (offset - m + 32) % 32 == offset - m + 32;
      assert from + (offset - m + 32) == 32 * (q + 1) + offset;
    }
  }

  /** ModuloDiff is the least number of sectors until the target comes round. */
  lemma ModuloDiffLeast(to: nat, from: nat, k: nat)
    requires (from + k) % SECTORS_PER_TRACK == to % SECTORS_PER_TRACK
    ensures ModuloDiff(to, from) <= k
  {
    if k < SECTORS_PER_TRACK {
      SameResidue(from + ModuloDiff(to, from), from + k);
    }
  }

  lemma SameResidue(x: nat, y: nat)
    requires x % SECTORS_PER_TRACK == y % SECTORS_PER_TRACK && x - y < SECTORS_PER_TRACK && y - x < SECTORS_PER_TRACK
    ensures x == y
  {
    var q, p := x / SECTORS_PER_TRACK, y / SECTORS_PER_TRACK;
    assert x - y == SECTORS_PER_TRACK * (q - p);
  }

  /** Whether a read can be answered from the track buffer, which started filling at bufferInit. */
  predicate BufferHit(newSector: nat, lastSector: nat, bufferInit: nat, now: nat, writing: bool)
    requires bufferInit <= now
  {
    var seek := SeekDuration(newSector, lastSector);
    var timeAfter := now + seek + RotationAfter(now + seek);
    && !writing && seek == 0
    && (timeAfter - bufferInit) / ROTATION_TIME > ModuloDiff(newSector, bufferInit / ROTATION_TIME)
  }

  function Latency(newSector: nat, lastSector: nat, bufferInit: nat, now: nat, writing: bool): (r: nat)
    requires bufferInit <= now
  {
    var seek := SeekDuration(newSector, lastSector);
    var rotation := RotationAfter(now + seek);
    var timeAfter := now + seek + rotation;
    if BufferHit(newSector, lastSector, bufferInit, now, writing) then ROTATION_TIME
    else seek + (rotation + ModuloDiff(newSector, timeAfter / ROTATION_TIME) * ROTATION_TIME) + ROTATION_TIME
  }

  lemma BoundaryStep(t: nat, k: nat)
    requires t % ROTATION_TIME == 0
    ensures (t + k * ROTATION_TIME) % ROTATION_TIME == 0
    ensures (t + k * ROTATION_TIME) / ROTATION_TIME == t / ROTATION_TIME + k
  {
    assert t == ROTATION_TIME * (t / ROTATION_TIME);
    assert t + k * ROTATION_TIME == ROTATION_TIME * (t / ROTATION_TIME + k);
  }

  /** A request, from sector p of track u, for sector o of track t that the buffer does not answer ends
      exactly when the head first finishes passing the sector after seeking over the tracks in between. */
  lemma LatencyIsFirstPass(t: nat, o: nat, u: nat, p: nat, bufferInit: nat, now: nat, writing: bool)
    requires bufferInit <= now && o < 32 && p < 32
    requires !BufferHit(32 * t + o, 32 * u + p, bufferInit, now, writing)
    ensures var there := now + 500 * Apart(t, u);
            var end := now + Latency(32 * t + o, 32 * u + p, bufferInit, now, writing);
            && there <= end - 500 && StartsPassing(o, end - 500)
            && forall at: nat :: there <= at < end - 500 ==> !StartsPassing(o, at)
  {
    var newSector, lastSector := 32 * t + o, 32 * u + p;
    var there := now + SeekDuration(newSector, lastSector);
    SeekIs(t, o, u, p);
    var timeAfter := there + RotationAfter(there);
    var k := ModuloDiff(newSector, timeAfter / ROTATION_TIME);
    BoundaryStep(timeAfter, k);
    forall at: nat | there <= at < timeAfter + k * ROTATION_TIME ensures !StartsPassing(newSector, at) {
      if StartsPassing(newSector, at) {
        FirstBoundary(there, at);
        BoundaryDiff(timeAfter, at);
        ModuloDiffLeast(newSector, timeAfter / ROTATION_TIME, (at - timeAfter) / ROTATION_TIME);
      }
    }
    OffsetPasses(t, o, 0, 0);
  }

  /** No sector boundary lies between a time and the boundary RotationAfter gives. */
  lemma FirstBoundary(time: nat, t: nat)
    requires time <= t && t % ROTATION_TIME == 0
    ensures time + RotationAfter(time) <= t
  {
    var a, b := time / ROTATION_TIME, t / ROTATION_TIME;
    assert time == ROTATION_TIME * a + time % ROTATION_TIME && t == ROTATION_TIME * b;
  }

  lemma BoundaryDiff(t: nat, t': nat)
    requires t % ROTATION_TIME == 0 && t' % ROTATION_TIME == 0 && t <= t'
    ensures t' / ROTATION_TIME == t / ROTATION_TIME + (t' - t) / ROTATION_TIME
    ensures t' == t + (t' - t) / ROTATION_TIME * ROTATION_TIME
  {
    var a, b := t / ROTATION_TIME, t' / ROTATION_TIME;
    assert t == ROTATION_TIME * a && t' == ROTATION_TIME * b;
    assert t' - t == ROTATION_TIME * (b - a);
  }

  /** The sector went by entirely between two times. */
  ghost predicate FullyPassed(s: nat, from: nat, until: nat) {
    exists start: nat :: from <= start && start + ROTATION_TIME <= until && StartsPassing(s, start)
  }

  /** Sectors at the same offset of their tracks go by at the same times. */
  lemma OffsetPasses(t: nat, o: nat, from: nat, until: nat)
    requires o < 32
    ensures forall at: nat :: StartsPassing(o, at) <==> StartsPassing(32 * t + o, at)
    ensures FullyPassed(o, from, until) <==> FullyPassed(32 * t + o, from, until)
  {
    assert (32 * t + o) % 32 == o;
    if FullyPassed(o, from, until) {
      var at: nat :| from <= at && at + ROTATION_TIME <= until && StartsPassing(o, at);
      assert StartsPassing(32 * t + o, at);
    }
    if FullyPassed(32 * t + o, from, until) {
      var at: nat :| from <= at && at + ROTATION_TIME <= until && StartsPassing(32 * t + o, at);
      assert StartsPassing(o, at);
    }
  }

  /** The buffer answers exactly the reads of the track the head is on whose sector has gone by entirely
      since the buffer started filling; that takes the time of one sector. */
  lemma BufferHitIffPassed(t: nat, o: nat, u: nat, p: nat, bufferInit: nat, now: nat, writing: bool)
    requires bufferInit <= now && bufferInit % ROTATION_TIME == 0 && o < 32 && p < 32
    ensures BufferHit(32 * t + o, 32 * u + p, bufferInit, now, writing) <==>
            !writing && t == u && FullyPassed(o, bufferInit, now + RotationAfter(now))
    ensures BufferHit(32 * t + o, 32 * u + p, bufferInit, now, writing) ==>
              Latency(32 * t + o, 32 * u + p, bufferInit, now, writing) == 500
  {
    SeekIs(t, o, u, p);
    if t == u {
      SameTrackHit(32 * t + o, 32 * u + p, bufferInit, now);
      OffsetPasses(t, o, bufferInit, now + RotationAfter(now));
    }
  }

  lemma SameTrackHit(newSector: nat, lastSector: nat, bufferInit: nat, now: nat)
    requires bufferInit <= now && bufferInit % ROTATION_TIME == 0 && SeekDuration(newSector, lastSector) == 0
    ensures BufferHit(newSector, lastSector, bufferInit, now, false) <==>
            FullyPassed(newSector, bufferInit, now + RotationAfter(now))
  {
    var timeAfter := now + RotationAfter(now);
    var k := ModuloDiff(newSector, bufferInit / ROTATION_TIME);
    BoundaryDiff(bufferInit, timeAfter);
    var n := (timeAfter - bufferInit) / ROTATION_TIME;
    if n > k {
      BoundaryStep(bufferInit, k);
      assert StartsPassing(newSector, bufferInit + k * ROTATION_TIME);
      assert FullyPassed(newSector, bufferInit, timeAfter);
    }
    if FullyPassed(newSector, bufferInit, timeAfter) {
      var start: nat :| bufferInit <= start && start + ROTATION_TIME <= timeAfter && StartsPassing(newSector, start);
      BoundaryDiff(bufferInit, start);
      ModuloDiffLeast(newSector, bufferInit / ROTATION_TIME, (start - bufferInit) / ROTATION_TIME);
    }
  }

  /** Taken at the moment of the request itself, a hit promises less: every hit is for a sector that
      has already gone by exactly when the request falls on a sector boundary, or when the buffer
      has been filling for more than a whole turn. */
  lemma HitIsPassedAlready(bufferInit: nat, now: nat)
    requires bufferInit <= now && bufferInit % ROTATION_TIME == 0
    ensures (forall s: nat :: IsSector(s) && BufferHit(s, s, bufferInit, now, false) ==>
               FullyPassed(s, bufferInit, now)) <==>
            now % ROTATION_TIME == 0 || now + RotationAfter(now) - bufferInit > SECTORS_PER_TRACK * ROTATION_TIME
  {
    var timeAfter := now + RotationAfter(now);
    var n := (timeAfter - bufferInit) / ROTATION_TIME;
    BoundaryDiff(bufferInit, timeAfter);
    if now % ROTATION_TIME == 0 {
      forall s: nat ensures BufferHit(s, s, bufferInit, now, false) ==> FullyPassed(s, bufferInit, now) {
        SameTrackHit(s, s, bufferInit, now);
      }
    } else if n > SECTORS_PER_TRACK {
      forall s: nat ensures FullyPassed(s, bufferInit, now) {
        var k := ModuloDiff(s, bufferInit / ROTATION_TIME);
        BoundaryStep(bufferInit, k);
        assert StartsPassing(s, bufferInit + k * ROTATION_TIME);
      }
    } else {
      NotYetPassed(bufferInit, now, n);
    }
  }

  /** Within the first turn, the sector under the head counts as a hit before it has gone by. */
  lemma NotYetPassed(bufferInit: nat, now: nat, n: nat)
    requires bufferInit <= now && bufferInit % ROTATION_TIME == 0 && now % ROTATION_TIME != 0
    requires now + RotationAfter(now) == bufferInit + n * ROTATION_TIME && 0 < n <= SECTORS_PER_TRACK
    ensures exists s: nat ::
              IsSector(s) && BufferHit(s, s, bufferInit, now, false) && !FullyPassed(s, bufferInit, now)
  {
    var from := bufferInit / ROTATION_TIME;
    var s := (from + (n - 1)) % SECTORS_PER_TRACK;
    SameResidue(from + ModuloDiff(s, from), from + (n - 1));
    BoundaryStep(bufferInit, n);
    assert BufferHit(s, s, bufferInit, now, false);
    if FullyPassed(s, bufferInit, now) {
      var start: nat :| bufferInit <= start && start + ROTATION_TIME <= now && StartsPassing(s, start);
      BoundaryDiff(bufferInit, start);
      ModuloDiffLeast(s, from, (start - bufferInit) / ROTATION_TIME);
      assert false;
    }
  }

  /** Every request takes at least one and less than 64 sector times. */
  lemma LatencyBounds(newSector: nat, lastSector: nat, bufferInit: nat, now: nat, writing: bool)
    requires bufferInit <= now && IsSector(newSector) && IsSector(lastSector)
    ensures 500 <= Latency(newSector, lastSector, bufferInit, now, writing) < 32000
  {
    assert SeekDuration(newSector, lastSector) <= 31 * SEEK_TIME;
  }

  // ---- the device ----

  datatype State = State(now: nat, active: bool, doneAt: nat, lastSector: nat, bufferInit: nat)
  datatype Event = Wait(until: nat) | Ask(sector: nat, writing: bool) | Done

  ghost predicate Step(s: State, e: Event, s': State) {
    match e
    case Wait(until) => s.now <= until && s' == s.(now := until)
    case Ask(sector, writing) =>
      && !s.active && IsSector(sector) && s.bufferInit <= s.now
      && var seek := SeekDuration(sector, s.lastSector);
         s' == State(s.now, true, s.now + Latency(sector, s.lastSector, s.bufferInit, s.now, writing), sector,
                     if seek != 0 then s.now + seek + RotationAfter(s.now + seek) else s.bufferInit)
    case Done => s.active && s.doneAt <= s.now && s' == s.(active := false)
  }

  /** What a request, from sector p of track u, for sector o of track t does to the device: it is done
      after one sector time when the buffer answers it and else at the end of the first pass after the
      seek; and the buffer is refilled from the first boundary after a seek on, exactly if there is one. */
  lemma AskInNumbers(s: State, t: nat, o: nat, u: nat, p: nat, writing: bool, s': State)
    requires Step(s, Ask(32 * t + o, writing), s') && s.lastSector == 32 * u + p && o < 32 && p < 32
    requires s.bufferInit % 500 == 0
    ensures s'.active && s'.now == s.now && s'.lastSector == 32 * t + o
    ensures var there := s.now + 500 * Apart(t, u);
            && (if t == u then s'.bufferInit == s.bufferInit
                else s'.bufferInit % 500 == 0 && there <= s'.bufferInit < there + 500)
            && if !writing && t == u && FullyPassed(o, s.bufferInit, s.now + RotationAfter(s.now))
               then s'.doneAt == s.now + 500
               else && there <= s'.doneAt - 500 && StartsPassing(o, s'.doneAt - 500)
                    && forall at: nat :: there <= at < s'.doneAt - 500 ==> !StartsPassing(o, at)
  {
    SeekIs(t, o, u, p);
    BufferHitIffPassed(t, o, u, p, s.bufferInit, s.now, writing);
    if !BufferHit(32 * t + o, 32 * u + p, s.bufferInit, s.now, writing) {
      LatencyIsFirstPass(t, o, u, p, s.bufferInit, s.now, writing);
    }
  }

  /** While idle the buffer has started filling in the past; while active it has by the time the
      request completes. */
  ghost predicate Good(s: State) {
    && IsSector(s.lastSector) && s.bufferInit % ROTATION_TIME == 0
    && s.bufferInit <= if s.active then s.doneAt else s.now
  }

  class Disk {
    var active: bool
    var lastSector: nat
    var bufferInit: nat
    ghost var doneAt: nat      // when the interrupt of the active request is due

    ghost function At(now: nat): State
      reads this
    {
      State(now, active, doneAt, lastSector, bufferInit)
    }

    ghost predicate Valid(now: nat)
      reads this
    {
      Good(At(now))
    }

    constructor ()
      ensures Valid(0) && At(0) == State(0, false, 0, 0, 0)
    {
      active, lastSector, bufferInit, doneAt := false, 0, 0, 0;
    }

    method TimeToSeek(newSector: nat, now: nat) returns (seek: nat, rotation: nat)
      ensures seek == SeekDuration(newSector, lastSector) && rotation == RotationAfter(now + seek)
    {
      var newTrack := newSector / SECTORS_PER_TRACK;
      var oldTrack := lastSector / SECTORS_PER_TRACK;
      seek := (if newTrack >= oldTrack then newTrack - oldTrack else oldTrack - newTrack) * SEEK_TIME;
      var over := (now + seek) % ROTATION_TIME;
      rotation := 0;
      if over > 0 {
        rotation := ROTATION_TIME - over;
      }
    }

    method ComputeLatency(newSector: nat, now: nat, writing: bool) returns (ticks: nat)
      requires bufferInit <= now
      ensures ticks == Latency(newSector, lastSector, bufferInit, now, writing)
    {
      var seek, rotation := TimeToSeek(newSector, now);
      var timeAfter := now + seek + rotation;
      if !writing && seek == 0 &&
         (timeAfter - bufferInit) / ROTATION_TIME > ModuloDiff(newSector, bufferInit / ROTATION_TIME) {
        return ROTATION_TIME;
      }
      rotation := rotation + ModuloDiff(newSector, timeAfter / ROTATION_TIME) * ROTATION_TIME;
      return seek + rotation + ROTATION_TIME;
    }

    method UpdateLast(newSector: nat, now: nat)
      modifies this`bufferInit, this`lastSector
      ensures lastSector == newSector
      ensures var seek := SeekDuration(newSector, old(lastSector));
              bufferInit == if seek != 0 then now + seek + RotationAfter(now + seek) else old(bufferInit)
    {
      var seek, rotate := TimeToSeek(newSector, now);
      if seek != 0 {
        bufferInit := now + seek + rotate;
      }
      lastSector := newSector;
    }

    /** A read or write request: the interrupt is scheduled ticks from now. */
    method Request(sectorNumber: nat, now: nat, writing: bool) returns (ticks: nat)
      requires Valid(now) && !active && IsSector(sectorNumber)
      modifies this
      ensures Valid(now) && Step(old(At(now)), Ask(sectorNumber, writing), At(now)) && doneAt == now + ticks
      ensures ticks == Latency(sectorNumber, old(lastSector), old(bufferInit), now, writing)
      ensures 500 <= ticks < 32000
    {
      ticks := ComputeLatency(sectorNumber, now, writing);
      LatencyBounds(sectorNumber, lastSector, bufferInit, now, writing);
      active := true;
      UpdateLast(sectorNumber, now);
      doneAt := now + ticks;
    }

    /** The interrupt of the active request arrives. */
    method HandleInterrupt(now: nat)
      requires Valid(now) && active && doneAt <= now
      modifies this`active
      ensures Valid(now) && Step(old(At(now)), Done, At(now))
    {
      active := false;
    }
  }

  // ---- every run of requests ----

  ghost predicate Run(ss: seq<State>, es: seq<Event>) {
    |ss| == |es| + 1 && forall i {:trigger es[i]} :: 0 <= i < |es| ==> Step(ss[i], es[i], ss[i + 1])
  }

  lemma StepKeepsGood(s: State, e: Event, s': State)
    requires Good(s) && Step(s, e, s')
    ensures Good(s')
  {
  }

  /** Over every run the track buffer starts at a sector boundary and, whenever the disk is idle,
      not in the future. */
  lemma {:induction false} RunKeepsBuffer(ss: seq<State>, es: seq<Event>, k: nat)
    requires Run(ss, es) && ss[0] == State(0, false, 0, 0, 0) && k < |ss|
    ensures Good(ss[k])
  {
    if k > 0 {
      RunKeepsBuffer(ss, es, k - 1);
      assert Step(ss[k - 1], es[k - 1], ss[k - 1 + 1]);
      StepKeepsGood(ss[k - 1], es[k - 1], ss[k]);
    }
  }
}
