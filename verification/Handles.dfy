/**
 Open files over time: an OpenFile keeps the header it read when it was opened, so writes through it
 go to those sectors whatever has happened to the file since.
 */
module Handles {
  import opened Words
  import opened Associations
  import opened SynchDisks
  import opened BitMaps
  import opened FileHeaders
  import opened OpenFiles
  import opened Directories
  import opened DiskLayouts
  import opened DiskSteps

  // ---- one write ----

  /** No header of a file lies among the sectors of h. */
  ghost predicate MissesHeaders(v: View, h: Header)
    requires v.Shape() && h.Good(v.size)
  {
    forall i :: 0 <= i < |v.table| && v.table[i].inUse ==> v.table[i].sector as nat !in h.Data()
  }

  /** No sector of any file lies among the sectors of h. */
  ghost predicate MissesFiles(v: View, h: Header)
    requires v.Shape() && h.Good(v.size)
  {
    forall i :: 0 <= i < |v.table| ==> v.Owned(i) !! h.Data()
  }

  /** A write that misses the headers leaves everything the file system keeps on the disk alone. */
  lemma MissKeepsView(d: Disk, d': Disk, h: Header)
    requires Inv(d) && h.Good(|d|) && h.Data() !! ViewOf(d).System() && MissesHeaders(ViewOf(d), h)
    requires OutsideUnchanged(d, d', h)
    ensures Readable(d') && ViewOf(d') == ViewOf(d)
  {
    var v := ViewOf(d);
    assert FREE_MAP_SECTOR in v.System() && DIRECTORY_SECTOR in v.System();
    FileBytesFrame(d, d', v.mapHdr);
    FileBytesFrame(d, d', v.dirHdr);
    assert ViewOf(d').hdrs == v.hdrs;
  }

  /** The disk after sector number j of the file of h was filled with the bytes of s. */
  lemma Overwrite(d: Disk, h: Header, j: nat, s: Sector) returns (d': Disk, data: seq<byte>)
    requires h.Good(|d|) && j < h.Count()
    ensures d' == d[h.dataSectors[j] := s] && FileWrite(d, d', h, j * SECTOR_SIZE, data)
  {
    var position := j * SECTOR_SIZE;
    var n := if h.numBytes - position < SECTOR_SIZE then h.numBytes - position else SECTOR_SIZE;
    d', data := d[h.dataSectors[j] := s], s[..n];
    assert h.dataSectors[j] as nat in h.Data();
    assert data[..Clamped(|data|, position, h.numBytes)] == data;
    forall p | 0 <= p < h.numBytes ensures FileBytes(d', h)[p] == Splice(FileBytes(d, h), position, data)[p] {
      SpliceAt(FileBytes(d, h), position, data, p);
    }
  }

  lemma SectorNumber(h: Header, numDisk: nat, k: nat) returns (j: nat)
    requires h.Good(numDisk) && k in h.Data()
    ensures j < h.Count() && h.dataSectors[j] == k
  {
    j :| 0 <= j < h.Count() && h.dataSectors[j] == k;
  }

  /** A sector of all ones is not the header of a file. */
  lemma OnesAreNoHeader(numDisk: nat)
    ensures !DecodeHeader(seq(SECTOR_SIZE, _ => 255)).Good(numDisk)
  {
    var s: Sector := seq(SECTOR_SIZE, _ => 255);
    assert BytesInts(s)[0] == BytesInt(s[0..4]);
    assert BytesNat(s[0..4]) == TWO32 - 1;
  }

  /** Some write through a handle that shares a sector with the header of a file destroys the file. */
  lemma HeaderHit(d: Disk, h: Header, i: nat) returns (d': Disk, position: nat, data: seq<byte>)
    requires Inv(d) && h.Good(|d|) && h.Data() !! ViewOf(d).System()
    requires i < |ViewOf(d).table| && ViewOf(d).table[i].inUse && ViewOf(d).table[i].sector as nat in h.Data()
    ensures FileWrite(d, d', h, position, data) && !Inv(d')
  {
    var v := ViewOf(d);
    var j := SectorNumber(h, |d|, v.table[i].sector as nat);
    position := j * SECTOR_SIZE;
    d', data := Overwrite(d, h, j, seq(SECTOR_SIZE, _ => 255));
    OnesAreNoHeader(|d|);
    SystemFilesKept(d, d', h);
    assert ViewOf(d').hdrs[i] == DecodeHeader(d'[v.table[i].sector]);
  }

  lemma SystemFilesKept(d: Disk, d': Disk, h: Header)
    requires Inv(d) && h.Good(|d|) && h.Data() !! ViewOf(d).System() && OutsideUnchanged(d, d', h)
    ensures Readable(d') && ViewOf(d').table == ViewOf(d).table && ViewOf(d').size == ViewOf(d).size
  {
    var v := ViewOf(d);
    assert FREE_MAP_SECTOR in v.System() && DIRECTORY_SECTOR in v.System();
    FileBytesFrame(d, d', v.mapHdr);
    FileBytesFrame(d, d', v.dirHdr);
  }

  /** Exactly when writes through a handle, current or not, keep the ownership invariant: no header of
      a file lies among the handle's sectors. */
  lemma HandleKeepsOwnership(d: Disk, h: Header)
    requires Inv(d) && h.Good(|d|) && h.Data() !! ViewOf(d).System()
    ensures MissesHeaders(ViewOf(d), h) <==>
            forall d', position: nat, data :: FileWrite(d, d', h, position, data) ==> Inv(d')
  {
    if MissesHeaders(ViewOf(d), h) {
      forall d', position: nat, data | FileWrite(d, d', h, position, data) ensures Inv(d') {
        MissKeepsView(d, d', h);
      }
    } else {
      var i :| 0 <= i < |ViewOf(d).table| && ViewOf(d).table[i].inUse && ViewOf(d).table[i].sector as nat in h.Data();
      var d', position, data := HeaderHit(d, h, i);
    }
  }

  // ---- contents ----

  lemma MissKeepsFiles(d: Disk, d': Disk, h: Header)
    requires Inv(d) && h.Good(|d|) && h.Data() !! ViewOf(d).System() && MissesFiles(ViewOf(d), h)
    requires OutsideUnchanged(d, d', h)
    ensures Inv(d') && Files(d') == Files(d)
  {
    var v := ViewOf(d);
    forall i | 0 <= i < |v.table| && v.table[i].inUse ensures v.table[i].sector as nat !in h.Data() {
      assert v.Owned(i) !! h.Data();
    }
    MissKeepsView(d, d', h);
    forall i | 0 <= i < |v.table| && v.table[i].inUse ensures FileBytes(d', v.hdrs[i]) == FileBytes(d, v.hdrs[i]) {
      assert v.Owned(i) !! h.Data();
      FileBytesFrame(d, d', v.hdrs[i]);
    }
    assert Contents(d') == Contents(d);
  }

  /** Changing the first byte of sector k changes the file that it belongs to. */
  lemma FirstByte(d: Disk, d': Disk, g: Header, k: nat, s: Sector)
    requires g.Good(|d|) && k in g.Data() && d' == d[k := s] && s[0] != d[k][0]
    ensures FileBytes(d', g) != FileBytes(d, g)
  {
    var m := SectorNumber(g, |d|, k);
    var p := m * SECTOR_SIZE;
    assert FileBytes(d', g)[p] == s[0] && FileBytes(d, g)[p] == d[k][0];
  }

  lemma FilesDiffer(d: Disk, d': Disk, i: nat)
    requires Inv(d) && Inv(d') && ViewOf(d') == ViewOf(d) && i < |ViewOf(d).table| && ViewOf(d).table[i].inUse
    requires FileBytes(d', ViewOf(d).hdrs[i]) != FileBytes(d, ViewOf(d).hdrs[i])
    ensures Files(d') != Files(d)
  {
    AssocHas(Keys(ViewOf(d).table), Contents(d), i);
    AssocHas(Keys(ViewOf(d).table), Contents(d'), i);
  }

  /** Some write through a handle that shares a data sector with a file changes what the file holds. */
  lemma DataHit(d: Disk, h: Header, i: nat, k: nat) returns (d': Disk, position: nat, data: seq<byte>)
    requires Inv(d) && h.Good(|d|) && h.Data() !! ViewOf(d).System() && MissesHeaders(ViewOf(d), h)
    requires i < |ViewOf(d).table| && ViewOf(d).table[i].inUse && k in ViewOf(d).hdrs[i].Data() && k in h.Data()
    ensures FileWrite(d, d', h, position, data) && Inv(d') && Files(d') != Files(d)
  {
    var j := SectorNumber(h, |d|, k);
    var other: byte := if d[k][0] == 0 then 1 else 0;
    position := j * SECTOR_SIZE;
    d', data := Overwrite(d, h, j, d[k][0 := other]);
    MissKeepsView(d, d', h);
    FirstByte(d, d', ViewOf(d).hdrs[i], k, d[k][0 := other]);
    FilesDiffer(d, d', i);
  }

  lemma FileHit(d: Disk, h: Header) returns (d': Disk, position: nat, data: seq<byte>)
    requires Inv(d) && h.Good(|d|) && h.Data() !! ViewOf(d).System() && !MissesFiles(ViewOf(d), h)
    ensures FileWrite(d, d', h, position, data) && (!Inv(d') || Files(d') != Files(d))
  {
    var v := ViewOf(d);
    var i :| 0 <= i < |v.table| && !(v.Owned(i) !! h.Data());
    var k :| k in v.Owned(i) && k in h.Data();
    if !MissesHeaders(v, h) {
      var l :| 0 <= l < |v.table| && v.table[l].inUse && v.table[l].sector as nat in h.Data();
      d', position, data := HeaderHit(d, h, l);
    } else {
      d', position, data := DataHit(d, h, i, k);
    }
  }

  /** Exactly when writes through a handle change no file: none of its sectors belongs to one. */
  lemma HandleKeepsFiles(d: Disk, h: Header)
    requires Inv(d) && h.Good(|d|) && h.Data() !! ViewOf(d).System()
    ensures MissesFiles(ViewOf(d), h) <==>
            forall d', position: nat, data :: FileWrite(d, d', h, position, data) ==> Inv(d') && Files(d') == Files(d)
  {
    var v := ViewOf(d);
    if MissesFiles(v, h) {
      forall d', position: nat, data | FileWrite(d, d', h, position, data) ensures Inv(d') && Files(d') == Files(d) {
        MissKeepsFiles(d, d', h);
      }
    } else {
      var d', position, data := FileHit(d, h);
    }
  }

  // ---- reused sectors ----

  lemma MissesAreUnmarked(v: View, h: Header)
    requires v.Consistent() && h.Good(v.size) && h.Data() !! v.System()
    ensures MissesFiles(v, h) <==> h.Data() !! v.marked
  {
    if MissesFiles(v, h) {
      forall k | k in h.Data() ensures k !in v.marked {
        assert forall i :: 0 <= i < |v.table| ==> v.Owned(i) !! h.Data();
      }
    } else {
      var i :| 0 <= i < |v.table| && !(v.Owned(i) !! h.Data());
      var k :| k in v.Owned(i) && k in h.Data();
      assert v.IsOwned(k);
    }
  }

  /** Exactly when writes through a handle change no file, as the free map tells: none of its sectors is
      in use. */
  lemma HandleSafeIfUnmarked(d: Disk, h: Header)
    requires Inv(d) && h.Good(|d|) && h.Data() !! ViewOf(d).System()
    ensures h.Data() !! ViewOf(d).marked <==>
            forall d', position: nat, data :: FileWrite(d, d', h, position, data) ==> Inv(d') && Files(d') == Files(d)
  {
    MissesAreUnmarked(ViewOf(d), h);
    HandleKeepsFiles(d, h);
  }

  lemma FewerElements(a: set<nat>, b: set<nat>)
    requires a <= b
    ensures |a| <= |b|
  {
    assert b == a + (b - a);
  }

  /** When fewer sectors are clear than the handle has, one of them is in use. */
  lemma TooFewClear(d: Disk, h: Header)
    requires Inv(d) && h.Good(|d|) && |Clear(ViewOf(d).marked, |d|)| < h.Count()
    ensures !(h.Data() !! ViewOf(d).marked)
  {
    DataCount(h, |d|);
    if h.Data() !! ViewOf(d).marked {
      FewerElements(h.Data(), Clear(ViewOf(d).marked, |d|));
    }
  }

  // ---- every run ----

  datatype State = State(disk: Disk, handles: seq<Header>)

  datatype Event =
    | Call(r: Request, ok: bool)
    | Open(name: seq<byte>)
    | Close(k: nat)
    | WriteThrough(k: nat, position: nat, data: seq<byte>)

  ghost predicate Next(s: State, e: Event, s': State)
    requires Inv(s.disk)
  {
    match e
    case Call(r, ok) => s'.handles == s.handles && Step(s.disk, r, ok, s'.disk)
    case Open(name) =>
      && s'.disk == s.disk
      && exists slot: nat ::
           IsIndexOf(ViewOf(s.disk).table, name, slot) && s'.handles == s.handles + [ViewOf(s.disk).hdrs[slot]]
    case Close(k) => k < |s.handles| && s' == s.(handles := s.handles[..k] + s.handles[k + 1..])
    case WriteThrough(k, position, data) =>
      && k < |s.handles| && s.handles[k].Good(|s.disk|)
      && s'.handles == s.handles && FileWrite(s.disk, s'.disk, s.handles[k], position, data)
  }

  /** A file of that size needs more sectors for its data than are clear, but not more than are clear
      once the file called name is gone. */
  ghost predicate Refills(d: Disk, name: seq<byte>, size: int)
    requires Inv(d)
  {
    && Key(name) in Files(d)
    && var clear := |Clear(ViewOf(d).marked, |d|)|;
       var freed := DivRoundUp(|Files(d)[Key(name)]|, SECTOR_SIZE);
       clear < DivRoundUp(BytesFor(size), SECTOR_SIZE) <= clear + freed
  }

  /** h was the header of a file, and a sector of it is now in use again. */
  ghost predicate Reused(d: Disk, h: Header)
    requires Inv(d)
  {
    h.Good(|d|) && h.Data() !! ViewOf(d).System() && !(h.Data() !! ViewOf(d).marked)
  }

  /** Removing the file of entry slot and creating one that needs more than was clear before reuses a
      sector of the first. */
  lemma RemoveThenCreate(d0: Disk, d1: Disk, d2: Disk, slot: nat, name: seq<byte>, size: int)
    requires Inv(d0) && RemoveStep(d0, d1, slot)
    requires Inv(d1) && Inv(d2) && Step(d1, Create(name, size), true, d2)
    requires |Clear(ViewOf(d0).marked, |d0|)| < DivRoundUp(BytesFor(size), SECTOR_SIZE)
    ensures Reused(d2, ViewOf(d0).hdrs[slot])
  {
    var v, h := ViewOf(d0), ViewOf(d0).hdrs[slot];
    var to: nat, sector: nat, g: Header :| CreateStep(d1, d2, name, size, to, sector, g);
    RemoveReturns(d0, d1, slot);
    CreateUses(d1, d2, name, size, to, sector, g);
    TooFewClear(d2, h);
    assert v.Owned(slot) !! v.System();
  }

  /** After the removal of a file the same name can be created again, with up to that much more data. */
  lemma CanReplace(d0: Disk, d1: Disk, slot: nat, name: seq<byte>, size: int)
    requires Inv(d0) && IsIndexOf(ViewOf(d0).table, name, slot) && RemoveStep(d0, d1, slot) && Inv(d1)
    requires DivRoundUp(BytesFor(size), SECTOR_SIZE) <=
             |Clear(ViewOf(d0).marked, |d0|)| + ViewOf(d0).hdrs[slot].Count()
    ensures CanCreate(ViewOf(d1), name, size)
  {
    RemoveReturns(d0, d1, slot);
    RemoveRefines(d0, d1, name, slot);
    IndexIsKey(d1, name);
    assert !ViewOf(d1).table[slot].inUse;
  }

  lemma RemovedAndReused(d0: Disk, d1: Disk, d2: Disk, name: seq<byte>, size: int, ok1: bool, ok2: bool, slot: nat)
    requires Inv(d0) && IsIndexOf(ViewOf(d0).table, name, slot) && Step(d0, Remove(name), ok1, d1)
    requires Inv(d1) && Step(d1, Create(name, size), ok2, d2) && Inv(d2)
    requires Refills(d0, name, size)
    ensures ok1 && ok2 && Reused(d2, ViewOf(d0).hdrs[slot])
  {
    assert Matches(ViewOf(d0).table[slot], name) && ok1;
    var at: nat :| IsIndexOf(ViewOf(d0).table, name, at) && RemoveStep(d0, d1, at);
    assert at == slot;
    ContentsAt(d0, name, slot);
    CanReplace(d0, d1, slot, name, size);
    RemoveThenCreate(d0, d1, d2, slot, name, size);
  }

  /** A write through a handle that destroys or changes a file. */
  ghost predicate Damages(s: State, e: Event, s': State)
    requires Inv(s.disk)
  {
    e.WriteThrough? && Next(s, e, s') && (!Inv(s'.disk) || Files(s'.disk) != Files(s.disk))
  }

  /** The write that a handle on reused sectors makes possible. */
  lemma ReusedBreaks(s: State, k: nat) returns (e: Event, s': State)
    requires Inv(s.disk) && k < |s.handles| && Reused(s.disk, s.handles[k])
    ensures Damages(s, e, s')
  {
    MissesAreUnmarked(ViewOf(s.disk), s.handles[k]);
    var d', position, data := FileHit(s.disk, s.handles[k]);
    e, s' := WriteThrough(k, position, data), State(d', s.handles);
  }

  /** Why an open file must not be removed: on every disk, when a file is removed while it is open and its
      name is created again with more data than there had been room for, but not more than there is now,
      then both calls succeed, and some write through the old handle destroys or changes a file. */
  lemma RemovedWhileOpen(s0: State, s1: State, s2: State, s3: State, name: seq<byte>, size: int, ok1: bool, ok2: bool)
    returns (e: Event, s4: State)
    requires Inv(s0.disk) && Refills(s0.disk, name, size) && Next(s0, Open(name), s1)
    requires Next(s1, Call(Remove(name), ok1), s2) && Inv(s2.disk)
    requires Next(s2, Call(Create(name, size), ok2), s3) && Inv(s3.disk)
    ensures ok1 && ok2 && Damages(s3, e, s4)
  {
    var slot: nat :|
      IsIndexOf(ViewOf(s1.disk).table, name, slot) && s1.handles == s0.handles + [ViewOf(s1.disk).hdrs[slot]];
    RemovedAndReused(s1.disk, s2.disk, s3.disk, name, size, ok1, ok2, slot);
    e, s4 := ReusedBreaks(s3, |s0.handles|);
  }

  /** h is the header of a file. */
  ghost predicate Current(d: Disk, h: Header)
    requires Inv(d)
  {
    exists i :: 0 <= i < |ViewOf(d).table| && ViewOf(d).table[i].inUse && ViewOf(d).hdrs[i] == h
  }

  /** No file is removed while it is open. */
  ghost predicate RemovesClosed(s: State, e: Event)
    requires Inv(s.disk)
  {
    e.Call? && e.r.Remove? && e.ok ==>
      forall slot: nat :: IsIndexOf(ViewOf(s.disk).table, e.r.name, slot) ==> ViewOf(s.disk).hdrs[slot] !in s.handles
  }

  ghost predicate Good(s: State) {
    Inv(s.disk) && forall h <- s.handles :: Current(s.disk, h)
  }

  lemma CreateKeepsCurrent(d: Disk, d': Disk, name: seq<byte>, size: int, h: Header)
    requires Inv(d) && Inv(d') && Step(d, Create(name, size), true, d') && Current(d, h)
    ensures Current(d', h)
  {
    var slot: nat, sector: nat, g: Header :| CreateStep(d, d', name, size, slot, sector, g);
    var i :| 0 <= i < |ViewOf(d).table| && ViewOf(d).table[i].inUse && ViewOf(d).hdrs[i] == h;
    assert ViewOf(d').table[i].inUse && ViewOf(d').hdrs[i] == h;
  }

  lemma RemoveKeepsCurrent(d: Disk, d': Disk, slot: nat, h: Header)
    requires Inv(d) && Inv(d') && RemoveStep(d, d', slot) && Current(d, h) && ViewOf(d).hdrs[slot] != h
    ensures Current(d', h)
  {
    var i :| 0 <= i < |ViewOf(d).table| && ViewOf(d).table[i].inUse && ViewOf(d).hdrs[i] == h;
    assert ViewOf(d').table[i].inUse && ViewOf(d').hdrs[i] == h;
  }

  lemma CallKeepsCurrent(s: State, r: Request, ok: bool, s': State, h: Header)
    requires Good(s) && Inv(s'.disk) && Next(s, Call(r, ok), s') && RemovesClosed(s, Call(r, ok)) && h in s.handles
    ensures Current(s'.disk, h)
  {
    if ok {
      match r
      case Create(name, size) => CreateKeepsCurrent(s.disk, s'.disk, name, size, h);
      case Remove(name) =>
        var slot: nat :| IsIndexOf(ViewOf(s.disk).table, name, slot) && RemoveStep(s.disk, s'.disk, slot);
        RemoveKeepsCurrent(s.disk, s'.disk, slot, h);
      case Write(name, position, data) =>
        var slot: nat :|
          IsIndexOf(ViewOf(s.disk).table, name, slot) && WriteStep(s.disk, s'.disk, slot, position, data);
        WriteKeepsView(s.disk, s'.disk, slot, position, data);
    }
  }

  /** A write through a current handle is a write to that file. */
  lemma CurrentWrite(d: Disk, d': Disk, h: Header, position: nat, data: seq<byte>) returns (slot: nat)
    requires Inv(d) && h.Good(|d|) && Current(d, h) && FileWrite(d, d', h, position, data)
    ensures WriteStep(d, d', slot, position, data) && ViewOf(d).hdrs[slot] == h
    ensures Readable(d') && ViewOf(d') == ViewOf(d)
  {
    slot :| 0 <= slot < |ViewOf(d).table| && ViewOf(d).table[slot].inUse && ViewOf(d).hdrs[slot] == h;
    WriteKeepsView(d, d', slot, position, data);
  }

  lemma NextKeepsGood(s: State, e: Event, s': State)
    requires Good(s) && Next(s, e, s') && RemovesClosed(s, e)
    ensures Good(s')
  {
    match e
    case Call(r, ok) =>
      StepKeepsInv(s.disk, r, ok, s'.disk);
      forall h <- s'.handles ensures Current(s'.disk, h) {
        CallKeepsCurrent(s, r, ok, s', h);
      }
    case Open(name) =>
    case Close(k) =>
    case WriteThrough(k, position, data) =>
      var slot := CurrentWrite(s.disk, s'.disk, s.handles[k], position, data);
  }

  ghost predicate Run(ss: seq<State>, es: seq<Event>) {
    && |ss| == |es| + 1 && Inv(ss[0].disk) && ss[0].handles == []
    && forall i {:trigger es[i]} :: 0 <= i < |es| ==>
         Inv(ss[i].disk) ==> Next(ss[i], es[i], ss[i + 1]) && RemovesClosed(ss[i], es[i])
  }

  /** In every run in which no file is removed while it is open, the disk stays consistent and every
      handle is the header of a file, so that no write through one touches another file. */
  lemma {:induction false} RunKeepsHandles(ss: seq<State>, es: seq<Event>, n: nat)
    requires Run(ss, es) && n < |ss|
    ensures Good(ss[n])
  {
    if n > 0 {
      RunKeepsHandles(ss, es, n - 1);
      assert Next(ss[n - 1], es[n - 1], ss[n - 1 + 1]) && RemovesClosed(ss[n - 1], es[n - 1]);
      NextKeepsGood(ss[n - 1], es[n - 1], ss[n]);
    }
  }
}
