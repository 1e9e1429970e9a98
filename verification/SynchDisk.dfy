/**
 The synchronous disk (filesys/synchdisk.cc): whole sectors are read and written,
 one request at a time.
 */
module SynchDisks {
  import opened Words

  const SECTOR_SIZE: nat := 128

  type Sector = s: seq<byte> | |s| == SECTOR_SIZE witness seq(SECTOR_SIZE, _ => 0 as byte)

  class SynchDisk {
    var sectors: seq<Sector>

    method ReadSector(sectorNumber: int, data: array<byte>, at: nat)
      requires 0 <= sectorNumber < |sectors| && at + SECTOR_SIZE <= data.Length
      modifies data
      ensures data[at..at + SECTOR_SIZE] == sectors[sectorNumber]
      ensures forall i :: 0 <= i < data.Length && !(at <= i < at + SECTOR_SIZE) ==> data[i] == old(data[i])
    {
      var s := sectors[sectorNumber];
      forall i | 0 <= i < SECTOR_SIZE {
        data[at + i] := s[i];
      }
    }

    method WriteSector(sectorNumber: int, data: array<byte>, at: nat)
      requires 0 <= sectorNumber < |sectors| && at + SECTOR_SIZE <= data.Length
      modifies this
      ensures sectors == old(sectors)[sectorNumber := data[at..at + SECTOR_SIZE]]
    {
      sectors := sectors[sectorNumber := data[at..at + SECTOR_SIZE]];
    }
  }
}
