/**
 What a formatted disk means.  The free map and the directory are files on the disk they
 describe, with their headers in sectors 0 and 1.  A View collects what the file system
 can read off a disk; Consistent is the ownership invariant of the whole disk.
 */
module DiskLayouts {
  import opened Words
  import opened Associations
  import opened FileHeaders
  import opened Directories

  const FREE_MAP_SECTOR: nat := 0
  const DIRECTORY_SECTOR: nat := 1

  function NoHeader(): Header {
    Header(0, 0, seq(NUM_DIRECT, _ => 0))
  }

  datatype View = View(
    size: nat,               // sectors on the disk
    mapHdr: Header,          // of the free map
    dirHdr: Header,          // of the directory
    table: seq<Entry>,       // the directory
    hdrs: seq<Header>,       // the file header of each entry in use
    marked: set<nat>)        // the free map: sectors in use
  {
    ghost predicate Shape() {
      && |hdrs| == |table|
      && mapHdr.Good(size) && dirHdr.Good(size)
      && forall i :: 0 <= i < |table| && table[i].inUse ==> 0 <= table[i].sector < size && hdrs[i].Good(size)
    }

    /** The sectors of the file system itself. */
    ghost function System(): set<nat>
      requires Shape()
    {
      {FREE_MAP_SECTOR, DIRECTORY_SECTOR} + mapHdr.Data() + dirHdr.Data()
    }

    /** The header sector and data sectors of entry i. */
    ghost function Owned(i: nat): set<nat>
      requires Shape() && i < |table|
    {
      if table[i].inUse then {table[i].sector as nat} + hdrs[i].Data() else {}
    }

    ghost predicate KeysDiffer() {
      Distinct(Keys(table))
    }

    /** No sector belongs to two files, or to a file and the system, or twice to one. */
    ghost predicate Disjoint()
      requires Shape()
    {
      && {FREE_MAP_SECTOR, DIRECTORY_SECTOR} !! mapHdr.Data()
      && {FREE_MAP_SECTOR, DIRECTORY_SECTOR} !! dirHdr.Data()
      && mapHdr.Data() !! dirHdr.Data()
      && (forall i :: 0 <= i < |table| ==> Owned(i) !! System())
      && (forall i, j :: 0 <= i < j < |table| ==> Owned(i) !! Owned(j))
      && (forall i :: 0 <= i < |table| && table[i].inUse ==> table[i].sector as nat !in hdrs[i].Data())
    }

    ghost predicate IsOwned(k: nat)
      requires Shape()
    {
      exists i :: 0 <= i < |table| && k in Owned(i)
    }

    /** The ownership invariant: the marked sectors are exactly the disjoint union of the
        system's sectors and those of the entries in use. */
    ghost predicate Consistent() {
      && Shape() && Disjoint() && KeysDiffer()
      && forall k: nat :: k in marked <==> k in System() || IsOwned(k)
    }

    /** The view after a file header h was installed at sector under entry slot. */
    ghost function Created(slot: nat, name: seq<byte>, sector: nat, h: Header): View
      requires slot < |table| == |hdrs| && sector < 0x8000_0000 && h.numSectors <= |h.dataSectors|
    {
      this.(table := table[slot := Entry(true, sector, StrNCpy(table[slot].name, name))],
            hdrs := hdrs[slot := h],
            marked := marked + {sector} + h.Data())
    }

    /** The view after entry slot was dropped. */
    ghost function Removed(slot: nat): View
      requires slot < |table| == |hdrs| && hdrs[slot].numSectors <= |hdrs[slot].dataSectors|
      requires 0 <= table[slot].sector
    {
      this.(table := table[slot := table[slot].(inUse := false)],
            hdrs := hdrs[slot := NoHeader()],
            marked := marked - hdrs[slot].Data() - {table[slot].sector as nat})
    }

    /** What the choices of a Create must satisfy: a free entry, fresh sectors, a new name. */
    ghost predicate CanInstall(slot: nat, name: seq<byte>, sector: nat, h: Header) {
      && slot < |table| == |hdrs| && !table[slot].inUse
      && sector < size < 0x8000_0000 && h.Good(size)
      && CString(name) && IsIndexOf(table, name, -1)
      && sector !in marked && h.Data() !! marked && sector !in h.Data()
    }
  }

  /** Two views that differ only in entry slot, which is unused in the first. */
  lemma OwnedApart(v: View, v': View, slot: nat, k: nat)
    requires v.Shape() && v'.Shape() && slot < |v.table| == |v'.table|
    requires v.Owned(slot) == {}
    requires forall i :: 0 <= i < |v.table| && i != slot ==> v'.Owned(i) == v.Owned(i)
    ensures v'.IsOwned(k) <==> v.IsOwned(k) || k in v'.Owned(slot)
    ensures v'.Disjoint() && v.IsOwned(k) ==> k !in v'.Owned(slot)
  {
    if v.IsOwned(k) {
      var i :| 0 <= i < |v.table| && k in v.Owned(i);
      assert k in v'.Owned(i);
    }
    if v'.IsOwned(k) {
      var i :| 0 <= i < |v.table| && k in v'.Owned(i);
      assert i != slot ==> k in v.Owned(i);
    }
  }

  lemma CreatedShape(v: View, slot: nat, name: seq<byte>, sector: nat, h: Header)
    requires v.Consistent() && v.CanInstall(slot, name, sector, h)
    ensures var v' := v.Created(slot, name, sector, h);
            && v'.Shape() && v'.System() == v.System()
            && v'.Owned(slot) == {sector} + h.Data()
            && forall i :: 0 <= i < |v.table| && i != slot ==> v'.Owned(i) == v.Owned(i)
  {
  }

  lemma CreatedKeys(v: View, slot: nat, name: seq<byte>, sector: nat, h: Header)
    requires v.Consistent() && v.CanInstall(slot, name, sector, h)
    ensures v.Created(slot, name, sector, h).KeysDiffer()
  {
    CopyKeepsKey(v.table[slot].name, name);
    KeysUpdate(v.table, slot, v.Created(slot, name, sector, h).table[slot]);
    forall k | 0 <= k < |v.table| ensures Keys(v.table)[k] != Some(Key(name)) {
      assert !Matches(v.table[k], name);
    }
  }

  lemma CreatedDisjoint(v: View, slot: nat, name: seq<byte>, sector: nat, h: Header)
    requires v.Consistent() && v.CanInstall(slot, name, sector, h)
    ensures var v' := v.Created(slot, name, sector, h); v'.Shape() && v'.Disjoint()
  {
    var v' := v.Created(slot, name, sector, h);
    CreatedShape(v, slot, name, sector, h);
    forall i | 0 <= i < |v.table| && i != slot ensures v'.Owned(i) !! v'.Owned(slot) {
      forall k | k in v.Owned(i) ensures k in v.marked {
        assert v.IsOwned(k);
      }
    }
  }

  /** Installing a file keeps the ownership invariant. */
  lemma CreatedConsistent(v: View, slot: nat, name: seq<byte>, sector: nat, h: Header)
    requires v.Consistent() && v.CanInstall(slot, name, sector, h)
    ensures v.Created(slot, name, sector, h).Consistent()
  {
    var v' := v.Created(slot, name, sector, h);
    CreatedShape(v, slot, name, sector, h);
    CreatedKeys(v, slot, name, sector, h);
    CreatedDisjoint(v, slot, name, sector, h);
    forall k: nat ensures k in v'.marked <==> k in v'.System() || v'.IsOwned(k) {
      OwnedApart(v, v', slot, k);
      assert k in v.marked <==> k in v.System() || v.IsOwned(k);
    }
  }

  lemma RemovedShape(v: View, slot: nat)
    requires v.Consistent() && slot < |v.table| && v.table[slot].inUse
    ensures var v' := v.Removed(slot);
            && v'.Shape() && v'.System() == v.System()
            && v'.Owned(slot) == {}
            && v'.marked == v.marked - v.Owned(slot)
            && forall i :: 0 <= i < |v.table| && i != slot ==> v'.Owned(i) == v.Owned(i)
  {
  }

  lemma RemovedDisjoint(v: View, slot: nat)
    requires v.Consistent() && slot < |v.table| && v.table[slot].inUse
    ensures var v' := v.Removed(slot); v'.Shape() && v'.Disjoint() && v'.KeysDiffer()
  {
    RemovedShape(v, slot);
    KeysUpdate(v.table, slot, v.table[slot].(inUse := false));
  }

  /** Dropping a file keeps the ownership invariant. */
  lemma RemovedConsistent(v: View, slot: nat)
    requires v.Consistent() && slot < |v.table| && v.table[slot].inUse
    ensures v.Removed(slot).Consistent()
  {
    var v' := v.Removed(slot);
    RemovedShape(v, slot);
    RemovedDisjoint(v, slot);
    forall k: nat ensures k in v'.marked <==> k in v'.System() || v'.IsOwned(k) {
      OwnedApart(v', v, slot, k);
      assert k in v.marked <==> k in v.System() || v.IsOwned(k);
    }
  }

  /** Removing what was just created gives back the free map and the entries in use. */
  lemma RemoveUndoesCreate(v: View, slot: nat, name: seq<byte>, sector: nat, h: Header)
    requires v.Consistent() && v.CanInstall(slot, name, sector, h)
    ensures var v' := v.Created(slot, name, sector, h).Removed(slot);
            && v'.marked == v.marked && |v'.table| == |v.table| && !v'.table[slot].inUse
            && forall i :: 0 <= i < |v.table| && i != slot ==> v'.table[i] == v.table[i] && v'.hdrs[i] == v.hdrs[i]
  {
  }
}
