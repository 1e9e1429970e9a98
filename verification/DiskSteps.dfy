/**
 What Create, Remove and a write to a file do to a formatted disk, and what every run of
 them keeps.  The abstract file system is a map from names to byte sequences.
 */
module DiskSteps {
  import opened Words
  import opened Associations
  import opened SynchDisks
  import opened BitMaps
  import opened FileHeaders
  import opened OpenFiles
  import opened Directories
  import opened DiskLayouts

  type Disk = seq<Sector>

  /** The free map and directory files can be found and have their proper sizes. */
  ghost predicate Readable(d: Disk) {
    && 2 <= |d| < 0x8000_0000 && |d| % BITS_IN_WORD == 0
    && var m, t := DecodeHeader(d[FREE_MAP_SECTOR]), DecodeHeader(d[DIRECTORY_SECTOR]);
       && m.Good(|d|) && m.numBytes == |d| / 8
       && t.Good(|d|) && 0 <= t.numBytes && t.numBytes % ENTRY_SIZE == 0
  }

  ghost function MarkedOn(d: Disk, mapHdr: Header): set<nat>
    requires mapHdr.Good(|d|) && |d| % BITS_IN_WORD == 0 && mapHdr.numBytes == |d| / 8
  {
    MarkedBits(BytesWords(FileBytes(d, mapHdr)), |d|)
  }

  ghost function HeaderOf(d: Disk, e: Entry): Header {
    if e.inUse && 0 <= e.sector < |d| then DecodeHeader(d[e.sector]) else NoHeader()
  }

  ghost function ViewOf(d: Disk): View
    requires Readable(d)
  {
    var m, t := DecodeHeader(d[FREE_MAP_SECTOR]), DecodeHeader(d[DIRECTORY_SECTOR]);
    var table := DecodeTable(FileBytes(d, t));
    View(|d|, m, t, table, seq(|table|, i requires 0 <= i < |table| => HeaderOf(d, table[i])), MarkedOn(d, m))
  }

  ghost predicate Inv(d: Disk) {
    Readable(d) && ViewOf(d).Consistent()
  }

  /** A file's content only depends on its own data sectors. */
  lemma FileBytesFrame(d: Disk, d': Disk, h: Header)
    requires h.Good(|d|) && |d'| == |d|
    requires forall k :: 0 <= k < |d| && k in h.Data() ==> d'[k] == d[k]
    ensures FileBytes(d', h) == FileBytes(d, h)
  {
    forall p | 0 <= p < h.numBytes ensures d'[h.ByteToSector(p)] == d[h.ByteToSector(p)] {
      assert h.dataSectors[p / SECTOR_SIZE] as nat in h.Data();
    }
  }

  // ---- the three operations ----

  /** A successful Create chose entry slot, header sector and header h. */
  ghost predicate CreateStep(d: Disk, d': Disk, name: seq<byte>, size: int, slot: nat, sector: nat, h: Header)
    requires Inv(d)
  {
    var v := ViewOf(d);
    && |d'| == |d| && Readable(d')
    && v.CanInstall(slot, name, sector, h) && h.numBytes == size
    && ViewOf(d') == v.Created(slot, name, sector, h)
    && forall k :: 0 <= k < |d| && k != sector && k !in v.mapHdr.Data() && k !in v.dirHdr.Data() ==> d'[k] == d[k]
  }

  ghost predicate RemoveStep(d: Disk, d': Disk, slot: nat)
    requires Inv(d)
  {
    var v := ViewOf(d);
    && |d'| == |d| && Readable(d')
    && slot < |v.table| && v.table[slot].inUse
    && ViewOf(d') == v.Removed(slot)
    && forall k :: 0 <= k < |d| && k !in v.mapHdr.Data() && k !in v.dirHdr.Data() ==> d'[k] == d[k]
  }

  /** A write of data at position to the file of entry slot. */
  ghost predicate WriteStep(d: Disk, d': Disk, slot: nat, position: nat, data: seq<byte>)
    requires Inv(d)
  {
    var v := ViewOf(d);
    && slot < |v.table| && v.table[slot].inUse
    && FileWrite(d, d', v.hdrs[slot], position, data)
  }

  /** The length of a file created with the given size. */
  function BytesFor(size: int): nat {
    if size < 0 then 0 else size
  }

  /** Create succeeds exactly when the name is new, an entry is unused and the sectors suffice. */
  ghost predicate CanCreate(v: View, name: seq<byte>, size: int) {
    && IsIndexOf(v.table, name, -1)
    && (exists k :: 0 <= k < |v.table| && !v.table[k].inUse)
    && |Clear(v.marked, v.size)| >= 1 + DivRoundUp(BytesFor(size), SECTOR_SIZE)
  }

  datatype Request =
    | Create(name: seq<byte>, size: int)
    | Remove(name: seq<byte>)
    | Write(name: seq<byte>, position: nat, data: seq<byte>)

  ghost predicate Step(d: Disk, r: Request, ok: bool, d': Disk)
    requires Inv(d)
  {
    CString(r.name) &&
    match r
    case Create(name, size) =>
      && (ok <==> CanCreate(ViewOf(d), name, size))
      && if ok then exists slot: nat, sector: nat, h: Header :: CreateStep(d, d', name, size, slot, sector, h)
         else d' == d
    case Remove(name) =>
      && (ok <==> !IsIndexOf(ViewOf(d).table, name, -1))
      && if ok then exists slot: nat :: IsIndexOf(ViewOf(d).table, name, slot) && RemoveStep(d, d', slot) else d' == d
    case Write(name, position, data) =>
      && (ok <==> !IsIndexOf(ViewOf(d).table, name, -1))
      && if ok then
           exists slot: nat :: IsIndexOf(ViewOf(d).table, name, slot) && WriteStep(d, d', slot, position, data)
         else d' == d
  }

  lemma CreateKeepsInv(d: Disk, d': Disk, name: seq<byte>, size: int, slot: nat, sector: nat, h: Header)
    requires Inv(d) && CreateStep(d, d', name, size, slot, sector, h)
    ensures Inv(d')
  {
    CreatedConsistent(ViewOf(d), slot, name, sector, h);
  }

  lemma RemoveKeepsInv(d: Disk, d': Disk, slot: nat)
    requires Inv(d) && RemoveStep(d, d', slot)
    ensures Inv(d')
  {
    RemovedConsistent(ViewOf(d), slot);
  }

  lemma HeaderApart(v: View, i: nat, slot: nat)
    requires v.Consistent() && i < |v.table| && slot < |v.table| && v.table[i].inUse && v.table[slot].inUse
    ensures v.table[i].sector as nat !in v.hdrs[slot].Data()
  {
    if i != slot {
      assert v.Owned(i) !! v.Owned(slot);
    }
  }

  /** Writing to a file leaves everything the file system keeps on the disk alone. */
  lemma WriteKeepsView(d: Disk, d': Disk, slot: nat, position: nat, data: seq<byte>)
    requires Inv(d) && WriteStep(d, d', slot, position, data)
    ensures Readable(d') && ViewOf(d') == ViewOf(d)
  {
    var v := ViewOf(d);
    assert v.Owned(slot) !! v.System();
    assert v.hdrs[slot].Data() <= v.Owned(slot);
    FileBytesFrame(d, d', v.mapHdr);
    FileBytesFrame(d, d', v.dirHdr);
    forall i | 0 <= i < |v.table| && v.table[i].inUse ensures d'[v.table[i].sector] == d[v.table[i].sector] {
      HeaderApart(v, i, slot);
    }
    assert ViewOf(d').hdrs == v.hdrs;
  }

  lemma StepKeepsInv(d: Disk, r: Request, ok: bool, d': Disk)
    requires Inv(d) && Step(d, r, ok, d')
    ensures Inv(d')
  {
    if ok {
      match r
      case Create(name, size) =>
        var slot: nat, sector: nat, h: Header :| CreateStep(d, d', name, size, slot, sector, h);
        CreateKeepsInv(d, d', name, size, slot, sector, h);
      case Remove(name) =>
        var slot: nat :| IsIndexOf(ViewOf(d).table, name, slot) && RemoveStep(d, d', slot);
        RemoveKeepsInv(d, d', slot);
      case Write(name, position, data) =>
        var slot: nat :| IsIndexOf(ViewOf(d).table, name, slot) && WriteStep(d, d', slot, position, data);
        WriteKeepsView(d, d', slot, position, data);
    }
  }

  /** ds is the sequence of disks that a run of the requests rs goes through. */
  ghost predicate Run(ds: seq<Disk>, rs: seq<Request>, oks: seq<bool>) {
    && |ds| == |rs| + 1 && |oks| == |rs|
    && forall i {:trigger rs[i]} :: 0 <= i < |rs| && Inv(ds[i]) ==> Step(ds[i], rs[i], oks[i], ds[i + 1])
  }

  /** Ownership over whole runs: the marked sectors are always exactly the disjoint union of the
      system's sectors and each file's header and data. */
  lemma {:induction false} RunKeepsOwnership(ds: seq<Disk>, rs: seq<Request>, oks: seq<bool>, k: nat)
    requires Run(ds, rs, oks) && Inv(ds[0]) && k < |ds|
    ensures Inv(ds[k])
  {
    if k > 0 {
      RunKeepsOwnership(ds, rs, oks, k - 1);
      StepKeepsInv(ds[k - 1], rs[k - 1], oks[k - 1], ds[k]);
    }
  }

  // ---- the abstract file system ----

  /** The content of each entry's file. */
  ghost function Contents(d: Disk): seq<seq<byte>>
    requires Inv(d)
  {
    var v := ViewOf(d);
    seq(|v.table|, i requires 0 <= i < |v.table| => if v.table[i].inUse then FileBytes(d, v.hdrs[i]) else [])
  }

  ghost function Files(d: Disk): map<seq<byte>, seq<byte>>
    requires Inv(d)
  {
    Assoc(Keys(ViewOf(d).table), Contents(d))
  }

  /** One request on a map from names to contents. */
  ghost predicate AbstractStep(files: map<seq<byte>, seq<byte>>, r: Request, ok: bool, files': map<seq<byte>,
                               seq<byte>>) {
    var key := Key(r.name);
    if !ok then
      files' == files && (r.Create? || key !in files)
    else
      match r
      case Create(_, size) =>
        key !in files && key in files' && |files'[key]| == BytesFor(size) && files' - {key} == files
      case Remove(_) => key in files && files' == files - {key}
      case Write(_, position, data) =>
        && key in files
        && files' == files[key := Splice(files[key], position, data[..Clamped(|data|, position, |files[key]|)])]
  }

  lemma IndexIsKey(d: Disk, name: seq<byte>)
    requires Inv(d)
    ensures Key(name) in Files(d) <==> !IsIndexOf(ViewOf(d).table, name, -1)
  {
    var t := ViewOf(d).table;
    if !IsIndexOf(t, name, -1) {
      var k :| 0 <= k < |t| && Matches(t[k], name);
      AssocHas(Keys(t), Contents(d), k);
    }
    if Key(name) in Files(d) {
      var i := AssocFrom(Keys(t), Contents(d), Key(name));
      assert Matches(t[i], name);
    }
  }

  /** Rewriting the free map, the directory and sectors of nobody keeps every other file's content. */
  lemma OthersKeepContent(d: Disk, d': Disk, i: nat, spare: set<nat>)
    requires Inv(d) && |d'| == |d|
    requires var v := ViewOf(d);
             && i < |v.table| && v.table[i].inUse && spare !! v.Owned(i)
             && forall k :: 0 <= k < |d| && k !in spare && k !in v.mapHdr.Data() && k !in v.dirHdr.Data() ==>
                  d'[k] == d[k]
    ensures FileBytes(d', ViewOf(d).hdrs[i]) == FileBytes(d, ViewOf(d).hdrs[i])
  {
    var v := ViewOf(d);
    assert v.Owned(i) !! v.System();
    assert v.hdrs[i].Data() <= v.Owned(i);
    FileBytesFrame(d, d', v.hdrs[i]);
  }

  lemma NotOwned(v: View, i: nat, k: nat)
    requires v.Consistent() && i < |v.table| && k !in v.marked
    ensures k !in v.Owned(i)
  {
    if k in v.Owned(i) {
      assert v.IsOwned(k);
    }
  }

  /** When entry i and its header are the same on both disks, and so are its sectors, so is its content. */
  lemma ContentKept(d: Disk, d': Disk, i: nat, spare: set<nat>)
    requires Inv(d) && Inv(d') && |d'| == |d|
    requires var v, v' := ViewOf(d), ViewOf(d');
             && i < |v.table| == |v'.table|
             && v'.table[i] == v.table[i] && v'.hdrs[i] == v.hdrs[i]
             && (v.table[i].inUse ==> spare !! v.Owned(i))
             && forall k :: 0 <= k < |d| && k !in spare && k !in v.mapHdr.Data() && k !in v.dirHdr.Data() ==>
                  d'[k] == d[k]
    ensures Contents(d')[i] == Contents(d)[i]
  {
    if ViewOf(d).table[i].inUse {
      OthersKeepContent(d, d', i, spare);
    }
  }

  lemma CreateKeepsOther(d: Disk, d': Disk, name: seq<byte>, size: int, slot: nat, sector: nat, h: Header, i: nat)
    requires Inv(d) && Inv(d') && CreateStep(d, d', name, size, slot, sector, h)
    requires i < |Contents(d)| && i != slot
    ensures i < |Contents(d')| && Contents(d')[i] == Contents(d)[i]
  {
    NotOwned(ViewOf(d), i, sector);
    ContentKept(d, d', i, {sector});
  }

  lemma CreateContents(d: Disk, d': Disk, name: seq<byte>, size: int, slot: nat, sector: nat, h: Header)
    requires Inv(d) && Inv(d') && CreateStep(d, d', name, size, slot, sector, h)
    ensures Contents(d') == Contents(d)[slot := FileBytes(d', h)]
  {
    var c, c' := Contents(d), Contents(d');
    forall i | 0 <= i < |c| && i != slot ensures c'[i] == c[i] {
      CreateKeepsOther(d, d', name, size, slot, sector, h, i);
    }
    assert c'[slot] == FileBytes(d', h);
  }

  /** Create adds one file of the given size and changes no other, whatever it rewrote. */
  lemma CreateRefines(d: Disk, d': Disk, name: seq<byte>, size: int, slot: nat, sector: nat, h: Header)
    requires Inv(d) && CreateStep(d, d', name, size, slot, sector, h)
    ensures Inv(d') && AbstractStep(Files(d), Create(name, size), true, Files(d'))
  {
    var v := ViewOf(d);
    CreateKeepsInv(d, d', name, size, slot, sector, h);
    CreateContents(d, d', name, size, slot, sector, h);
    CopyKeepsKey(v.table[slot].name, name);
    KeysUpdate(v.table, slot, ViewOf(d').table[slot]);
    AssocAdd(Keys(v.table), Contents(d), slot, Key(name), FileBytes(d', h));
    DropAdded(Files(d), Key(name), FileBytes(d', h));
  }

  lemma ContentsAt(d: Disk, name: seq<byte>, slot: nat)
    requires Inv(d) && IsIndexOf(ViewOf(d).table, name, slot)
    ensures Key(name) in Files(d) && Files(d)[Key(name)] == FileBytes(d, ViewOf(d).hdrs[slot])
  {
    AssocHas(Keys(ViewOf(d).table), Contents(d), slot);
  }

  lemma RemoveContents(d: Disk, d': Disk, slot: nat)
    requires Inv(d) && Inv(d') && RemoveStep(d, d', slot)
    ensures Contents(d) == Contents(d')[slot := FileBytes(d, ViewOf(d).hdrs[slot])]
  {
    var c, c' := Contents(d), Contents(d');
    forall i | 0 <= i < |c| && i != slot ensures c'[i] == c[i] {
      ContentKept(d, d', i, {});
    }
    assert c[slot] == FileBytes(d, ViewOf(d).hdrs[slot]);
  }

  /** Remove takes exactly that file away. */
  lemma RemoveRefines(d: Disk, d': Disk, name: seq<byte>, slot: nat)
    requires Inv(d) && RemoveStep(d, d', slot) && IsIndexOf(ViewOf(d).table, name, slot)
    ensures Inv(d') && AbstractStep(Files(d), Remove(name), true, Files(d'))
  {
    var v, v' := ViewOf(d), ViewOf(d');
    RemoveKeepsInv(d, d', slot);
    RemoveContents(d, d', slot);
    assert v.table == v'.table[slot := v.table[slot]];
    KeysUpdate(v'.table, slot, v.table[slot]);
    AssocAdd(Keys(v'.table), Contents(d'), slot, Key(name), FileBytes(d, v.hdrs[slot]));
    DropAdded(Files(d'), Key(name), FileBytes(d, v.hdrs[slot]));
  }

  lemma WriteKeepsOther(d: Disk, d': Disk, slot: nat, position: nat, data: seq<byte>, i: nat)
    requires Inv(d) && WriteStep(d, d', slot, position, data)
    requires i < |ViewOf(d).table| && ViewOf(d).table[i].inUse && i != slot
    ensures FileBytes(d', ViewOf(d).hdrs[i]) == FileBytes(d, ViewOf(d).hdrs[i])
  {
    var v := ViewOf(d);
    assert v.Owned(i) !! v.Owned(slot);
    assert v.hdrs[i].Data() <= v.Owned(i) && v.hdrs[slot].Data() <= v.Owned(slot);
    FileBytesFrame(d, d', v.hdrs[i]);
  }

  lemma WriteContents(d: Disk, d': Disk, slot: nat, position: nat, data: seq<byte>)
    requires Inv(d) && Inv(d') && WriteStep(d, d', slot, position, data) && ViewOf(d') == ViewOf(d)
    ensures Contents(d') == Contents(d)[slot := FileBytes(d', ViewOf(d).hdrs[slot])]
  {
    var v := ViewOf(d);
    forall i | 0 <= i < |v.table| && v.table[i].inUse && i != slot
      ensures FileBytes(d', v.hdrs[i]) == FileBytes(d, v.hdrs[i])
    {
      WriteKeepsOther(d, d', slot, position, data, i);
    }
  }

  /** A write changes the content of that file only. */
  lemma WriteRefines(d: Disk, d': Disk, name: seq<byte>, slot: nat, position: nat, data: seq<byte>)
    requires Inv(d) && WriteStep(d, d', slot, position, data) && IsIndexOf(ViewOf(d).table, name, slot)
    ensures Inv(d') && AbstractStep(Files(d), Write(name, position, data), true, Files(d'))
  {
    var v := ViewOf(d);
    WriteKeepsView(d, d', slot, position, data);
    WriteContents(d, d', slot, position, data);
    AssocHas(Keys(v.table), Contents(d), slot);
    AssocSet(Keys(v.table), Contents(d), slot, FileBytes(d', v.hdrs[slot]));
  }

  /** Every step of the disk is a step of the abstract file system. */
  lemma StepRefines(d: Disk, r: Request, ok: bool, d': Disk)
    requires Inv(d) && Step(d, r, ok, d')
    ensures Inv(d') && AbstractStep(Files(d), r, ok, Files(d'))
  {
    IndexIsKey(d, r.name);
    StepKeepsInv(d, r, ok, d');
    if ok {
      match r
      case Create(name, size) =>
        var slot: nat, sector: nat, h: Header :| CreateStep(d, d', name, size, slot, sector, h);
        CreateRefines(d, d', name, size, slot, sector, h);
      case Remove(name) =>
        var slot: nat :| IsIndexOf(ViewOf(d).table, name, slot) && RemoveStep(d, d', slot);
        RemoveRefines(d, d', name, slot);
      case Write(name, position, data) =>
        var slot: nat :| IsIndexOf(ViewOf(d).table, name, slot) && WriteStep(d, d', slot, position, data);
        WriteRefines(d, d', name, slot, position, data);
    }
  }

  /** Refinement over whole runs: every run of the disk is a run on a map from names to contents. */
  lemma RunRefines(ds: seq<Disk>, rs: seq<Request>, oks: seq<bool>, k: nat)
    requires Run(ds, rs, oks) && Inv(ds[0]) && k < |rs|
    ensures Inv(ds[k]) && Inv(ds[k + 1])
    ensures AbstractStep(Files(ds[k]), rs[k], oks[k], Files(ds[k + 1]))
  {
    RunKeepsOwnership(ds, rs, oks, k);
    StepRefines(ds[k], rs[k], oks[k], ds[k + 1]);
  }

  /** A successful Create takes exactly one sector for the header and enough for the data. */
  lemma CreateUses(d: Disk, d': Disk, name: seq<byte>, size: int, slot: nat, sector: nat, h: Header)
    requires Inv(d) && CreateStep(d, d', name, size, slot, sector, h)
    ensures var needed := 1 + DivRoundUp(BytesFor(size), SECTOR_SIZE);
            && |ViewOf(d').marked| == |ViewOf(d).marked| + needed
            && |Clear(ViewOf(d').marked, |d|)| == |Clear(ViewOf(d).marked, |d|)| - needed
  {
    var v := ViewOf(d);
    CreateKeepsInv(d, d', name, size, slot, sector, h);
    DataCount(h, |d|);
    assert |v.marked + {sector} + h.Data()| == |v.marked| + 1 + |h.Data()|;
    MarkedInRange(d);
    MarkedInRange(d');
  }

  lemma CountParts(all: set<nat>, left: set<nat>, data: set<nat>, sector: nat)
    requires left == all - data - {sector} && data <= all && sector in all && sector !in data
    ensures |all| == |left| + 1 + |data|
  {
    assert all == left + {sector} + data;
  }

  /** A successful Remove gives back one sector for the header and one for each sector of data. */
  lemma RemoveReturns(d: Disk, d': Disk, slot: nat)
    requires Inv(d) && RemoveStep(d, d', slot)
    ensures |Clear(ViewOf(d').marked, |d|)| == |Clear(ViewOf(d).marked, |d|)| + 1 + ViewOf(d).hdrs[slot].Count()
  {
    var v, left := ViewOf(d), ViewOf(d').marked;
    var data, sector := v.hdrs[slot].Data(), v.table[slot].sector as nat;
    RemoveKeepsInv(d, d', slot);
    DataCount(v.hdrs[slot], |d|);
    OwnedMarked(v, slot);
    CountParts(v.marked, left, data, sector);
    MarkedInRange(d);
    MarkedInRange(d');
  }

  lemma OwnedMarked(v: View, i: nat)
    requires v.Consistent() && i < |v.table| && v.table[i].inUse
    ensures v.hdrs[i].Data() <= v.marked && v.table[i].sector as nat in v.marked
    ensures v.table[i].sector as nat !in v.hdrs[i].Data()
  {
    forall k | k in v.Owned(i) ensures k in v.marked {
      assert v.IsOwned(k);
    }
  }

  lemma MarkedInRange(d: Disk)
    requires Inv(d)
    ensures |Clear(ViewOf(d).marked, |d|)| == |d| - |ViewOf(d).marked|
  {
    ClearCount(ViewOf(d).marked, |d|);
  }

  lemma DataCount(h: Header, n: nat)
    requires h.Good(n)
    ensures |h.Data()| == h.Count()
  {
    SectorCount(h.dataSectors, h.Count(), n);
  }

  lemma {:induction false} SectorCount(table: seq<int32>, n: nat, numDisk: nat)
    requires n <= |table| && DistinctSectors(table, n, numDisk)
    ensures |Sectors(table, n)| == n
  {
    if n > 0 {
      SectorCount(table, n - 1, numDisk);
      SectorsStep(table, n - 1, numDisk);
    }
  }

  /** Create then Remove of the same name restores the free map and every file. */
  lemma CreateThenRemove(d0: Disk, d1: Disk, d2: Disk, name: seq<byte>, size: int)
    requires Inv(d0) && Step(d0, Create(name, size), true, d1)
    requires Inv(d1) && Step(d1, Remove(name), true, d2)
    ensures Inv(d2) && ViewOf(d2).marked == ViewOf(d0).marked && Files(d2) == Files(d0)
  {
    var slot: nat, sector: nat, h: Header :| CreateStep(d0, d1, name, size, slot, sector, h);
    var i: nat :| IsIndexOf(ViewOf(d1).table, name, i) && RemoveStep(d1, d2, i);
    MarksRestored(d0, d1, d2, name, size, slot, sector, h, i);
    StepRefines(d0, Create(name, size), true, d1);
    StepRefines(d1, Remove(name), true, d2);
  }

  lemma MarksRestored(d0: Disk, d1: Disk, d2: Disk, name: seq<byte>, size: int, slot: nat, sector: nat, h: Header,
                      i: nat)
    requires Inv(d0) && CreateStep(d0, d1, name, size, slot, sector, h)
    requires Inv(d1) && IsIndexOf(ViewOf(d1).table, name, i) && RemoveStep(d1, d2, i)
    ensures ViewOf(d2).marked == ViewOf(d0).marked
  {
    IndexAfterAdd(ViewOf(d0).table, ViewOf(d1).table, slot, name, sector, i);
    RemoveUndoesCreate(ViewOf(d0), slot, name, sector, h);
  }

  // ---- from file contents back to the view ----

  /** d' is d after the free map and directory files were rewritten, and sectors of spare. */
  ghost predicate Rewritten(d: Disk, d': Disk, spare: set<nat>, table: seq<Entry>, words: seq<word>)
    requires Inv(d)
  {
    var v := ViewOf(d);
    && |d'| == |d| && spare !! v.System()
    && |table| == |v.table|
    && FileBytes(d', v.dirHdr) == EncodeTable(table)
    && FileBytes(d', v.mapHdr) == IntsBytes(words)
    && forall k :: 0 <= k < |d| && k !in spare && k !in v.mapHdr.Data() && k !in v.dirHdr.Data() ==> d'[k] == d[k]
  }

  lemma SystemHeadersKept(d: Disk, d': Disk, spare: set<nat>, table: seq<Entry>, words: seq<word>)
    requires Inv(d) && Rewritten(d, d', spare, table, words)
    ensures d'[FREE_MAP_SECTOR] == d[FREE_MAP_SECTOR] && d'[DIRECTORY_SECTOR] == d[DIRECTORY_SECTOR]
  {
    var v := ViewOf(d);
    assert FREE_MAP_SECTOR in v.System() && DIRECTORY_SECTOR in v.System();
  }

  lemma WordCount(size: nat, n: nat)
    requires size % BITS_IN_WORD == 0 && size / 8 == 4 * n
    ensures n * BITS_IN_WORD == size
  {
  }

  /** A disk whose two system files hold an encoded table and the words of a free map. */
  lemma ReadsBack(d: Disk, m: Header, t: Header, table: seq<Entry>, words: seq<word>)
    requires 2 <= |d| < 0x8000_0000 && |d| % BITS_IN_WORD == 0
    requires DecodeHeader(d[FREE_MAP_SECTOR]) == m && DecodeHeader(d[DIRECTORY_SECTOR]) == t
    requires m.Good(|d|) && t.Good(|d|) && m.numBytes == |d| / 8 && 0 <= t.numBytes
    requires FileBytes(d, t) == EncodeTable(table) && FileBytes(d, m) == IntsBytes(words)
    ensures Readable(d) && |words| * BITS_IN_WORD == |d|
    ensures var v := ViewOf(d);
            && v.size == |d| && v.mapHdr == m && v.dirHdr == t
            && v.table == table && v.marked == MarkedBits(words, |d|)
            && forall i :: 0 <= i < |table| ==> v.hdrs[i] == HeaderOf(d, table[i])
  {
    WordCount(|d|, |words|);
    SystemFilesReadBack(d, m, t, table, words);
  }

  lemma SystemFilesReadBack(d: Disk, m: Header, t: Header, table: seq<Entry>, words: seq<word>)
    requires m.Good(|d|) && t.Good(|d|) && 0 <= t.numBytes
    requires FileBytes(d, t) == EncodeTable(table) && FileBytes(d, m) == IntsBytes(words)
    ensures t.numBytes % ENTRY_SIZE == 0
    ensures DecodeTable(FileBytes(d, t)) == table && BytesWords(FileBytes(d, m)) == words
  {
    DecodeEncodeTable(table);
    BytesWordsOfIntsBytes(words);
  }

  lemma RewrittenView(d: Disk, d': Disk, spare: set<nat>, table: seq<Entry>, words: seq<word>)
    requires Inv(d) && Rewritten(d, d', spare, table, words)
    ensures Readable(d') && |words| * BITS_IN_WORD == |d|
    ensures var v, v' := ViewOf(d), ViewOf(d');
            && v'.size == v.size && v'.mapHdr == v.mapHdr && v'.dirHdr == v.dirHdr
            && v'.table == table && v'.marked == MarkedBits(words, |d|)
            && forall i :: 0 <= i < |table| ==> v'.hdrs[i] == HeaderOf(d', table[i])
  {
    SystemHeadersKept(d, d', spare, table, words);
    ReadsBack(d', ViewOf(d).mapHdr, ViewOf(d).dirHdr, table, words);
  }

  lemma HeaderKept(d: Disk, d': Disk, spare: set<nat>, table: seq<Entry>, words: seq<word>, i: nat)
    requires Inv(d) && Rewritten(d, d', spare, table, words)
    requires i < |ViewOf(d).table| && ViewOf(d).table[i].inUse && spare !! ViewOf(d).Owned(i)
    ensures d'[ViewOf(d).table[i].sector] == d[ViewOf(d).table[i].sector]
  {
    var v := ViewOf(d);
    var s := v.table[i].sector as nat;
    assert s in v.Owned(i);
    assert v.Owned(i) !! v.System();
  }

  /** The three write-backs at the end of Create amount to a CreateStep. */
  lemma CreateEffect(d: Disk, d': Disk, name: seq<byte>, slot: nat, sector: nat, h: Header, words: seq<word>)
    requires Inv(d) && ViewOf(d).CanInstall(slot, name, sector, h)
    requires Rewritten(d, d', {sector}, ViewOf(d).Created(slot, name, sector, h).table, words)
    requires MarkedBits(words, |words| * BITS_IN_WORD) == ViewOf(d).marked + {sector} + h.Data()
    requires DecodeHeader(d'[sector]) == h
    ensures CreateStep(d, d', name, h.numBytes, slot, sector, h)
  {
    RewrittenView(d, d', {sector}, ViewOf(d).Created(slot, name, sector, h).table, words);
    CreatedHeaders(d, d', name, slot, sector, h, words);
  }

  lemma CreatedHeaders(d: Disk, d': Disk, name: seq<byte>, slot: nat, sector: nat, h: Header, words: seq<word>)
    requires Inv(d) && ViewOf(d).CanInstall(slot, name, sector, h)
    requires Rewritten(d, d', {sector}, ViewOf(d).Created(slot, name, sector, h).table, words)
    requires Readable(d') && ViewOf(d').table == ViewOf(d).Created(slot, name, sector, h).table
    requires DecodeHeader(d'[sector]) == h
    ensures ViewOf(d').hdrs == ViewOf(d).hdrs[slot := h]
  {
    var v, table := ViewOf(d), ViewOf(d').table;
    forall i | 0 <= i < |v.table| && i != slot ensures HeaderOf(d', table[i]) == HeaderOf(d, v.table[i]) {
      if v.table[i].inUse {
        NotOwned(v, i, sector);
        HeaderKept(d, d', {sector}, table, words, i);
      }
    }
  }

  /** The two write-backs at the end of Remove amount to a RemoveStep. */
  lemma RemoveEffect(d: Disk, d': Disk, slot: nat, words: seq<word>)
    requires Inv(d) && slot < |ViewOf(d).table| && ViewOf(d).table[slot].inUse
    requires Rewritten(d, d', {}, ViewOf(d).Removed(slot).table, words)
    requires MarkedBits(words, |words| * BITS_IN_WORD) == ViewOf(d).Removed(slot).marked
    ensures RemoveStep(d, d', slot)
  {
    var v, table := ViewOf(d), ViewOf(d).Removed(slot).table;
    RewrittenView(d, d', {}, table, words);
    RemovedHeaders(d, d', slot, words);
    assert ViewOf(d').hdrs == v.hdrs[slot := NoHeader()];
  }

  lemma RemovedHeaders(d: Disk, d': Disk, slot: nat, words: seq<word>)
    requires Inv(d) && slot < |ViewOf(d).table| && ViewOf(d).table[slot].inUse
    requires Rewritten(d, d', {}, ViewOf(d).Removed(slot).table, words)
    ensures forall i :: 0 <= i < |ViewOf(d).table| && i != slot ==>
              HeaderOf(d', ViewOf(d).table[i]) == ViewOf(d).hdrs[i]
  {
    var v := ViewOf(d);
    forall i | 0 <= i < |v.table| && i != slot ensures HeaderOf(d', v.table[i]) == v.hdrs[i] {
      if v.table[i].inUse {
        HeaderKept(d, d', {}, v.Removed(slot).table, words, i);
      }
    }
  }
}
