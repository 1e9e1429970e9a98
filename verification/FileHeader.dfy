/**
 File headers (filesys/filehdr.cc): the table of data sectors of a file, exactly
 one sector long on disk.
 */
module FileHeaders {
  import opened Words
  import opened SynchDisks
  import opened BitMaps

  const NUM_DIRECT: nat := 30
  const MAX_FILE_SIZE: nat := NUM_DIRECT * SECTOR_SIZE

  /** The first n entries of a sector table are different sectors of the disk. */
  ghost predicate DistinctSectors(table: seq<int32>, n: nat, numDisk: nat)
    requires n <= |table|
  {
    && (forall i :: 0 <= i < n ==> 0 <= table[i] < numDisk)
    && (forall i, j :: 0 <= i < j < n ==> table[i] != table[j])
  }

  ghost function Sectors(table: seq<int32>, n: nat): set<nat>
    requires n <= |table|
  {
    set i | 0 <= i < n && 0 <= table[i] :: table[i] as nat
  }

  lemma TakeSector(table: seq<int32>, n: nat, numDisk: nat, x: int32)
    requires n < |table| && DistinctSectors(table, n, numDisk)
    requires 0 <= x < numDisk && x as nat !in Sectors(table, n)
    ensures DistinctSectors(table[n := x], n + 1, numDisk)
    ensures Sectors(table[n := x], n + 1) == Sectors(table, n) + {x as nat}
  {
    var table' := table[n := x];
    assert forall i :: 0 <= i < n ==> table'[i] == table[i];
    forall i | 0 <= i < n ensures table'[i] as nat in Sectors(table, n) && table'[i] != x {
      assert table[i] as nat in Sectors(table, n);
    }
    assert x as nat in Sectors(table', n + 1) by { assert table'[n] == x; }
    forall s <- Sectors(table, n) ensures s in Sectors(table', n + 1) {
      var i :| 0 <= i < n && 0 <= table[i] && s == table[i] as nat;
      assert table'[i] as nat == s;
    }
  }

  lemma SectorsStep(table: seq<int32>, n: nat, numDisk: nat)
    requires n < |table| && DistinctSectors(table, n + 1, numDisk)
    ensures Sectors(table, n + 1) == Sectors(table, n) + {table[n] as nat}
    ensures table[n] as nat !in Sectors(table, n)
  {
  }

  /** The macro divRoundUp on an int, whose division truncates. */
  function SectorsFor(fileSize: int32): int32 {
    if fileSize >= 0 then DivRoundUp(fileSize, SECTOR_SIZE) else 0 - (0 - fileSize as int) / SECTOR_SIZE
  }

  /** The value of a header.  Entries of dataSectors past numSectors are never read; a file of negative
      size has no bytes and no sectors. */
  datatype Header = Header(numBytes: int32, numSectors: int32, dataSectors: seq<int32>) {

    /** A header that describes a file on a disk of numDisk sectors. */
    ghost predicate Good(numDisk: nat)
      ensures Good(numDisk) ==> Count() <= |dataSectors|
    {
      && numBytes <= MAX_FILE_SIZE
      && numSectors == SectorsFor(numBytes)
      && |dataSectors| == NUM_DIRECT
      && DistinctSectors(dataSectors, Count(), numDisk)
    }

    /** The number of bytes in the file. */
    function Length(): nat {
      if numBytes < 0 then 0 else numBytes
    }

    /** The number of data sectors. */
    function Count(): nat {
      if numSectors < 0 then 0 else numSectors
    }

    ghost function Data(): set<nat>
      requires numSectors <= |dataSectors|
    {
      Sectors(dataSectors, Count())
    }

    function ByteToSector(offset: nat): int
      requires offset / SECTOR_SIZE < |dataSectors|
    {
      dataSectors[offset / SECTOR_SIZE]
    }

    function FileLength(): int {
      numBytes
    }
  }

  function EncodeHeader(h: Header): Sector
    requires |h.dataSectors| == NUM_DIRECT
  {
    IntsBytes([h.numBytes, h.numSectors] + h.dataSectors)
  }

  function DecodeHeader(s: Sector): (h: Header)
    ensures |h.dataSectors| == NUM_DIRECT
  {
    var ws := BytesInts(s);
    Header(ws[0], ws[1], ws[2..])
  }

  /** A header written to its sector is read back unchanged. */
  lemma DecodeEncodeHeader(h: Header)
    requires |h.dataSectors| == NUM_DIRECT
    ensures DecodeHeader(EncodeHeader(h)) == h
  {
    var ws: seq<int32> := [h.numBytes, h.numSectors] + h.dataSectors;
    BytesIntsOfIntsBytes(ws);
    assert ws[2..] == h.dataSectors;
  }

  /** Where the fields of a header are in its sector. */
  lemma HeaderLayout(s: Sector, i: nat)
    requires i < NUM_DIRECT
    ensures var h := DecodeHeader(s);
            && h.numBytes == BytesInt(s[0..4]) && h.numSectors == BytesInt(s[4..8])
            && h.dataSectors[i] == BytesInt(s[8 + 4 * i..12 + 4 * i])
  {
    assert BytesInts(s)[i + 2] == BytesInt(s[4 * (i + 2)..4 * (i + 2) + 4]);
    assert BytesInts(s)[0] == BytesInt(s[4 * 0..4 * 0 + 4]) && BytesInts(s)[1] == BytesInt(s[4 * 1..4 * 1 + 4]);
  }

  datatype Allocation = NoSpace | Allocated | Overrun

  class FileHeader {
    var numBytes: int32
    var numSectors: int32
    var dataSectors: seq<int32>

    ghost predicate Valid()
      reads this
    {
      |dataSectors| == NUM_DIRECT
    }

    function Value(): Header
      reads this
    {
      Header(numBytes, numSectors, dataSectors)
    }

    /** A fresh header holds whatever was in memory. */
    constructor ()
      ensures Valid()
    {
      numBytes, numSectors := *, *;
      var garbage := new int32[NUM_DIRECT];
      dataSectors := garbage[..];
    }

    /** The allocation loop: each entry of the table receives the next clear bit. */
    method TakeSectors(freeMap: BitMap)
      requires Valid() && freeMap.Valid() && freeMap.numBits < 0x8000_0000
      requires numSectors <= NUM_DIRECT
      requires numSectors <= |Clear(freeMap.Marked(), freeMap.numBits)|
      modifies this`dataSectors, freeMap.words
      ensures Valid() && DistinctSectors(dataSectors, Value().Count(), freeMap.numBits)
      ensures Value().Data() !! old(freeMap.Marked())
      ensures freeMap.Marked() == old(freeMap.Marked()) + Value().Data()
    {
      ghost var was, clear := freeMap.Marked(), |Clear(freeMap.Marked(), freeMap.numBits)|;
      var i := 0;
      while i < numSectors
        invariant 0 <= i <= Value().Count() && Valid()
        invariant DistinctSectors(dataSectors, i, freeMap.numBits)
        invariant Sectors(dataSectors, i) !! was
        invariant freeMap.Marked() == was + Sectors(dataSectors, i)
        invariant |Clear(freeMap.Marked(), freeMap.numBits)| == clear - i
      {
        ghost var before := freeMap.Marked();
        var sector := freeMap.Find();
        FindUsesOne(before, freeMap.numBits, sector);
        TakeSector(dataSectors, i, freeMap.numBits, sector);
        dataSectors := dataSectors[i := sector];
        i := i + 1;
      }
    }

    /** Takes the data sectors of a file of fileSize bytes out of the free map.  A size that needs more
        sectors than the table has entries makes the source write behind the table. */
    method Allocate(freeMap: BitMap, fileSize: int32) returns (r: Allocation)
      requires Valid() && freeMap.Valid() && freeMap.numBits < 0x8000_0000
      modifies this, freeMap.words
      ensures Valid() && numBytes == fileSize && numSectors == SectorsFor(fileSize)
      ensures r == NoSpace <==> old(|Clear(freeMap.Marked(), freeMap.numBits)|) < numSectors
      ensures r == Overrun <==> r != NoSpace && fileSize > MAX_FILE_SIZE
      ensures r != Allocated ==> freeMap.Marked() == old(freeMap.Marked())
      ensures r == Allocated ==> Value().Good(freeMap.numBits)
      ensures r == Allocated ==> Value().Data() !! old(freeMap.Marked())
      ensures r == Allocated ==> freeMap.Marked() == old(freeMap.Marked()) + Value().Data()
    {
      numBytes := fileSize;
      numSectors := SectorsFor(fileSize);
      var clear := freeMap.NumClear();
      if clear < numSectors {
        return NoSpace;
      }
      if numSectors > NUM_DIRECT {
        return Overrun;
      }
      TakeSectors(freeMap);
      return Allocated;
    }

    /** Gives the data sectors back; each of them is found marked. */
    method Deallocate(freeMap: BitMap)
      requires Value().Good(freeMap.numBits) && freeMap.Valid()
      requires Value().Data() <= freeMap.Marked()
      modifies freeMap.words
      ensures freeMap.Marked() == old(freeMap.Marked()) - Value().Data()
    {
      var i := 0;
      while i < numSectors
        invariant 0 <= i <= Value().Count()
        invariant freeMap.Marked() == old(freeMap.Marked()) - Sectors(dataSectors, i)
      {
        assert dataSectors[i] as nat in Value().Data();
        var marked := freeMap.Test(dataSectors[i]);
        assert marked;
        freeMap.ClearBit(dataSectors[i]);
        SectorsStep(dataSectors, i, freeMap.numBits);
        i := i + 1;
      }
    }

    method FetchFrom(disk: SynchDisk, sector: int)
      requires 0 <= sector < |disk.sectors|
      modifies this
      ensures Valid() && Value() == DecodeHeader(disk.sectors[sector])
    {
      var buf := new byte[SECTOR_SIZE];
      disk.ReadSector(sector, buf, 0);
      assert buf[..] == buf[0..SECTOR_SIZE];
      var h := DecodeHeader(buf[..]);
      numBytes, numSectors, dataSectors := h.numBytes, h.numSectors, h.dataSectors;
    }

    method WriteBack(disk: SynchDisk, sector: int)
      requires Valid() && 0 <= sector < |disk.sectors|
      modifies disk
      ensures disk.sectors == old(disk.sectors)[sector := EncodeHeader(Value())]
      ensures DecodeHeader(disk.sectors[sector]) == Value()
    {
      var image := EncodeHeader(Value());
      var buf := new byte[SECTOR_SIZE](i requires 0 <= i < SECTOR_SIZE => image[i]);
      disk.WriteSector(sector, buf, 0);
      assert buf[0..SECTOR_SIZE] == image;
      DecodeEncodeHeader(Value());
    }
  }
}
