/**
 Open files (filesys/openfile.cc): byte-granular reads and writes over a disk that
 only moves whole sectors.
 */
module OpenFiles {
  import opened Words
  import opened SynchDisks
  import opened FileHeaders

  /** The content of the file that h describes on disk d. */
  function FileBytes(d: seq<Sector>, h: Header): (r: seq<byte>)
    requires h.Good(|d|)
    ensures |r| == h.Length()
  {
    seq(h.Length(), p requires 0 <= p < h.numBytes => d[h.ByteToSector(p)][p % SECTOR_SIZE])
  }

  /** How many bytes a request for numBytes at position should move in a file of the given length. */
  function Clamped(numBytes: int, position: int, length: int): (r: nat)
    ensures r > 0 ==> position < length && (position >= 0 ==> position + r <= length)
  {
    if numBytes <= 0 || position >= length then 0
    else if position + numBytes > length then length - position
    else numBytes
  }

  /** The same test as the source makes it, in 32-bit arithmetic. */
  function Cut(numBytes: int32, position: int32, length: int): (r: int)
  {
    if numBytes <= 0 || position >= length then 0
    else if Wrap(position + numBytes) > length then length - position
    else numBytes
  }

  /** The requests that the source serves: the others make it run outside its buffers. */
  predicate Served(numBytes: int, position: int, length: int) {
    numBytes <= 0 || position >= length || (position >= 0 && IsInt32(position + numBytes))
  }

  /** The test cuts a request to the length of the file exactly when its end is an int. */
  lemma CutIsClamped(numBytes: int32, position: int32, length: int32)
    requires position >= 0
    ensures Cut(numBytes, position, length) == Clamped(numBytes, position, length) <==>
            Served(numBytes, position, length)
  {
    if numBytes > 0 && position < length && !IsInt32(position + numBytes) {
      assert Wrap(position + numBytes) == position + numBytes - TWO32;
    }
  }

  /** content with data laid over it from position on. */
  function Splice(content: seq<byte>, position: nat, data: seq<byte>): (r: seq<byte>)
    requires data != [] ==> position + |data| <= |content|
    ensures |r| == |content|
  {
    if data == [] then content else content[..position] + data + content[position + |data|..]
  }

  lemma SpliceAt(content: seq<byte>, position: nat, data: seq<byte>, p: nat)
    requires data != [] ==> position + |data| <= |content|
    requires p < |content|
    ensures Splice(content, position, data)[p] ==
            if position <= p < position + |data| then data[p - position] else content[p]
  {
  }

  /** Sectors first..last of the file, and no others, may differ between d and d'. */
  ghost predicate OnlyChanges(d: seq<Sector>, d': seq<Sector>, h: Header, first: nat, last: nat)
    requires h.Good(|d|) && last < h.numSectors
  {
    && |d'| == |d|
    && forall k :: 0 <= k < |d| && (forall i :: first <= i <= last ==> h.dataSectors[i] != k) ==> d'[k] == d[k]
  }

  /** Every sector outside the file's data is the same on both disks. */
  ghost predicate OutsideUnchanged(d: seq<Sector>, d': seq<Sector>, h: Header)
    requires h.Good(|d|)
  {
    |d'| == |d| && forall k :: 0 <= k < |d| && k !in h.Data() ==> d'[k] == d[k]
  }

  /** A write of data at position through the header h, as one that is served leaves the disk. */
  ghost predicate FileWrite(d: seq<Sector>, d': seq<Sector>, h: Header, position: nat, data: seq<byte>)
    requires h.Good(|d|)
  {
    && Served(|data|, position, h.numBytes)
    && OutsideUnchanged(d, d', h)
    && FileBytes(d', h) == Splice(FileBytes(d, h), position, data[..Clamped(|data|, position, h.numBytes)])
  }

  /** A write whose data was already cut to the length of the file. */
  lemma CutWrite(d: seq<Sector>, d': seq<Sector>, h: Header, position: int32, data: seq<byte>)
    requires h.Good(|d|) && OutsideUnchanged(d, d', h)
    requires data != [] ==> position >= 0 && position + |data| <= h.numBytes
    requires data != [] ==> FileBytes(d', h) == Splice(FileBytes(d, h), position, data)
    requires data == [] ==> d' == d
    ensures position >= 0 ==> FileWrite(d, d', h, position, data)
  {
    assert data[..|data|] == data;
  }

  lemma OnlyChangesOutside(d: seq<Sector>, d': seq<Sector>, h: Header, n: nat)
    requires h.Good(|d|) && n <= h.Length()
    requires n == 0 ==> d' == d
    requires n > 0 ==> exists first, last {:trigger OnlyChanges(d, d', h, first, last)} ::
      0 <= first && 0 <= last < h.numSectors && OnlyChanges(d, d', h, first, last)
    ensures OutsideUnchanged(d, d', h)
  {
    if n > 0 {
      var first: nat, last: nat :| last < h.numSectors && OnlyChanges(d, d', h, first, last);
      forall k | 0 <= k < |d| && k !in h.Data() ensures d'[k] == d[k] {
        assert forall i :: 0 <= i < h.numSectors ==> h.dataSectors[i] as nat in h.Data();
      }
    }
  }

  /** buf is the content of consecutive sectors of the file, starting with its sector first. */
  ghost predicate Mirrors(buf: seq<byte>, d: seq<Sector>, h: Header, first: nat)
    requires h.Good(|d|) && first * SECTOR_SIZE + |buf| <= h.numSectors * SECTOR_SIZE
  {
    forall q :: 0 <= q < |buf| ==> buf[q] == d[h.dataSectors[first + q / SECTOR_SIZE]][q % SECTOR_SIZE]
  }

  lemma WriteOne(buf: seq<byte>, d: seq<Sector>, h: Header, first: nat, i: nat)
    requires h.Good(|d|) && first <= i < h.numSectors && (i + 1 - first) * SECTOR_SIZE <= |buf|
    requires Mirrors(buf[..(i - first) * SECTOR_SIZE], d, h, first)
    ensures var at := (i - first) * SECTOR_SIZE;
            Mirrors(buf[..at + SECTOR_SIZE], d[h.dataSectors[i] := buf[at..at + SECTOR_SIZE]], h, first)
  {
    var at := (i - first) * SECTOR_SIZE;
    var d' := d[h.dataSectors[i] := buf[at..at + SECTOR_SIZE]];
    forall q | 0 <= q < at + SECTOR_SIZE
      ensures buf[..at + SECTOR_SIZE][q] == d'[h.dataSectors[first + q / SECTOR_SIZE]][q % SECTOR_SIZE]
    {
      if q < at {
        assert buf[..at][q] == d[h.dataSectors[first + q / SECTOR_SIZE]][q % SECTOR_SIZE];
      }
    }
  }

  /** buf, laid over the sectors that a write of n bytes at position touches, holds the file's
      own bytes around the written range. */
  ghost predicate Surrounds(buf: seq<byte>, content: seq<byte>, position: nat, n: nat)
    requires 0 < n && position + n <= |content|
  {
    var base := position / SECTOR_SIZE * SECTOR_SIZE;
    && |buf| == ((position + n - 1) / SECTOR_SIZE + 1) * SECTOR_SIZE - base
    && forall p :: base <= p < base + |buf| && p < |content| && !(position <= p < position + n) ==>
         content[p] == buf[p - base]
  }

  /** buf, which starts at file offset base, holds the file's bytes in the sector at offset lo. */
  ghost predicate HasSector(buf: seq<byte>, content: seq<byte>, base: nat, lo: nat)
    requires base <= lo && lo + SECTOR_SIZE <= base + |buf|
  {
    forall p :: lo <= p < lo + SECTOR_SIZE && p < |content| ==> content[p] == buf[p - base]
  }

  /** The two conditions under which the source reads the end sectors in are enough. */
  lemma PartialCovers(buf: seq<byte>, content: seq<byte>, position: nat, n: nat)
    requires 0 < n && position + n <= |content|
    requires var first, last := position / SECTOR_SIZE, (position + n - 1) / SECTOR_SIZE;
             var firstAligned := position == first * SECTOR_SIZE;
             var lastAligned := position + n == (last + 1) * SECTOR_SIZE;
             var base := first * SECTOR_SIZE;
             && |buf| == (1 + last - first) * SECTOR_SIZE
             && (!firstAligned ==> HasSector(buf, content, base, base))
             && (!lastAligned && (first != last || firstAligned) ==> HasSector(buf, content, base, last * SECTOR_SIZE))
    ensures Surrounds(buf, content, position, n)
  {
  }

  lemma WriteEffectAt(d: seq<Sector>, d': seq<Sector>, h: Header, buf: seq<byte>, position: nat, data: seq<byte>,
                      p: nat)
    requires h.Good(|d|) && |d'| == |d| && p < h.numBytes
    requires 0 < |data| && position + |data| <= h.numBytes
    requires Surrounds(buf, FileBytes(d, h), position, |data|)
    requires buf[position % SECTOR_SIZE..position % SECTOR_SIZE + |data|] == data
    requires OnlyChanges(d, d', h, position / SECTOR_SIZE, (position + |data| - 1) / SECTOR_SIZE)
    requires Mirrors(buf, d', h, position / SECTOR_SIZE)
    ensures FileBytes(d', h)[p] == if position <= p < position + |data| then data[p - position] else FileBytes(d, h)[p]
  {
    var first, last := position / SECTOR_SIZE, (position + |data| - 1) / SECTOR_SIZE;
    var i := p / SECTOR_SIZE;
    if first <= i <= last {
      var q := p - first * SECTOR_SIZE;
      assert first + q / SECTOR_SIZE == i && q % SECTOR_SIZE == p % SECTOR_SIZE;
      assert FileBytes(d', h)[p] == buf[q];
      if position <= p < position + |data| {
        assert q == position % SECTOR_SIZE + (p - position);
        assert buf[q] == data[p - position];
      }
    } else {
      assert d'[h.dataSectors[i]] == d[h.dataSectors[i]];
    }
  }

  /** Writing the touched sectors back from such a buffer splices the data into the file. */
  lemma WriteEffect(d: seq<Sector>, d': seq<Sector>, h: Header, buf: seq<byte>, position: nat, data: seq<byte>)
    requires h.Good(|d|) && |d'| == |d|
    requires 0 < |data| && position + |data| <= h.numBytes
    requires Surrounds(buf, FileBytes(d, h), position, |data|)
    requires buf[position % SECTOR_SIZE..position % SECTOR_SIZE + |data|] == data
    requires OnlyChanges(d, d', h, position / SECTOR_SIZE, (position + |data| - 1) / SECTOR_SIZE)
    requires Mirrors(buf, d', h, position / SECTOR_SIZE)
    ensures FileBytes(d', h) == Splice(FileBytes(d, h), position, data)
  {
    forall p | 0 <= p < h.numBytes ensures FileBytes(d', h)[p] == Splice(FileBytes(d, h), position, data)[p] {
      WriteEffectAt(d, d', h, buf, position, data, p);
      SpliceAt(FileBytes(d, h), position, data, p);
    }
  }

  class OpenFile {
    const disk: SynchDisk
    const hdr: Header        // the header, kept in memory while the file is open
    var seekPosition: int32

    ghost predicate Valid()
      reads disk
    {
      hdr.Good(|disk.sectors|)
    }

    ghost function Content(): seq<byte>
      requires Valid()
      reads disk
    {
      FileBytes(disk.sectors, hdr)
    }

    constructor (disk: SynchDisk, sector: int)
      requires 0 <= sector < |disk.sectors|
      ensures this.disk == disk && hdr == DecodeHeader(disk.sectors[sector]) && seekPosition == 0
    {
      var header := new FileHeader();
      header.FetchFrom(disk, sector);
      this.disk := disk;
      hdr := header.Value();
      seekPosition := 0;
    }

    method Seek(position: int32)
      modifies this
      ensures seekPosition == position
    {
      seekPosition := position;
    }

    /** The tests at the head of ReadAt and WriteAt, with their sum in 32 bits.  A request that is
        still longer than the rest of the file, or starts before it, is the one that is not served. */
    method CheckRequest(numBytes: int32, position: int32) returns (ok: bool, n: nat)
      requires Valid()
      ensures ok <==> Served(numBytes, position, hdr.numBytes)
      ensures n == if ok then Clamped(numBytes, position, hdr.numBytes) else 0
    {
      var fileLength := hdr.FileLength();
      if numBytes <= 0 || position >= fileLength {
        return true, 0;
      }
      var cut: int := numBytes;
      if Wrap(position + numBytes) > fileLength {
        cut := fileLength - position;
      }
      if position < 0 || cut > fileLength - position {
        return false, 0;
      }
      return true, cut;
    }

    /** Delivers exactly the clamped slice of the file into the caller's buffer; not ok says that the
        source would leave its buffers. */
    method ReadAt(into: array<byte>, at: nat, numBytes: int32, position: int32) returns (ok: bool, n: nat)
      requires Valid()
      requires at + Clamped(numBytes, position, hdr.numBytes) <= into.Length
      modifies into
      ensures ok <==> Served(numBytes, position, hdr.numBytes)
      ensures n == if ok then Clamped(numBytes, position, hdr.numBytes) else 0
      ensures forall i :: at <= i < at + n ==> into[i] == Content()[i - at + position]
      ensures forall i :: 0 <= i < into.Length && !(at <= i < at + n) ==> into[i] == old(into[i])
    {
      ok, n := CheckRequest(numBytes, position);
      if n == 0 {
        return;
      }
      var firstSector := position / SECTOR_SIZE;
      var lastSector := (position + n - 1) / SECTOR_SIZE;
      var numSectors := 1 + lastSector - firstSector;
      var buf := new byte[numSectors * SECTOR_SIZE];
      ReadSectors(buf, firstSector, lastSector);
      var skip := position - firstSector * SECTOR_SIZE;
      forall i | 0 <= i < n {
        into[at + i] := buf[skip + i];
      }
    }

    /** Reads sectors first..last of the file, one after the other, into buf. */
    method ReadSectors(buf: array<byte>, first: nat, last: nat)
      requires Valid()
      requires first <= last < hdr.numSectors
      requires buf.Length == (1 + last - first) * SECTOR_SIZE
      modifies buf
      ensures Mirrors(buf[..], disk.sectors, hdr, first)
    {
      var i := first;
      while i <= last
        invariant first <= i <= last + 1
        invariant Mirrors(buf[..(i - first) * SECTOR_SIZE], disk.sectors, hdr, first)
      {
        var at := (i - first) * SECTOR_SIZE;
        ghost var before := buf[..at];
        disk.ReadSector(hdr.ByteToSector(i * SECTOR_SIZE), buf, at);
        assert buf[..at + SECTOR_SIZE] == before + disk.sectors[hdr.dataSectors[i]];
        i := i + 1;
      }
      assert buf[..] == buf[..buf.Length];
    }

    /** Writes buf over sectors first..last of the file. */
    method WriteSectors(buf: array<byte>, first: nat, last: nat)
      requires Valid()
      requires first <= last < hdr.numSectors
      requires buf.Length == (1 + last - first) * SECTOR_SIZE
      modifies disk
      ensures Valid() && OnlyChanges(old(disk.sectors), disk.sectors, hdr, first, last)
      ensures Mirrors(buf[..], disk.sectors, hdr, first)
    {
      var i := first;
      while i <= last
        invariant first <= i <= last + 1 && |disk.sectors| == old(|disk.sectors|)
        invariant i > first ==> OnlyChanges(old(disk.sectors), disk.sectors, hdr, first, i - 1)
        invariant i == first ==> disk.sectors == old(disk.sectors)
        invariant Mirrors(buf[..(i - first) * SECTOR_SIZE], disk.sectors, hdr, first)
      {
        ghost var d := disk.sectors;
        var at := (i - first) * SECTOR_SIZE;
        disk.WriteSector(hdr.ByteToSector(i * SECTOR_SIZE), buf, at);
        WriteOne(buf[..], d, hdr, first, i);
        i := i + 1;
      }
      assert buf[..] == buf[..buf.Length];
    }

    /** Splices the clamped part of the caller's buffer into the file and touches nothing else; not ok
        says that the source would leave its buffers. */
    method WriteAt(from: array<byte>, numBytes: int32, position: int32) returns (ok: bool, n: nat)
      requires Valid()
      requires Clamped(numBytes, position, hdr.numBytes) <= from.Length
      modifies disk
      ensures Valid() && |disk.sectors| == old(|disk.sectors|)
      ensures ok <==> Served(numBytes, position, hdr.numBytes)
      ensures n == if ok then Clamped(numBytes, position, hdr.numBytes) else 0
      ensures n == 0 ==> disk.sectors == old(disk.sectors)
      ensures n > 0 ==> position >= 0 && Content() == Splice(old(Content()), position, from[..n])
      ensures n > 0 ==>
                OnlyChanges(old(disk.sectors), disk.sectors, hdr,
                            position / SECTOR_SIZE, (position + n - 1) / SECTOR_SIZE)
    {
      ok, n := CheckRequest(numBytes, position);
      if n == 0 {
        return;
      }
      WriteRange(from, position, n);
    }

    /** The rest of WriteAt, for a request that was cut to the file. */
    method WriteRange(from: array<byte>, position: nat, n: nat)
      requires Valid() && 0 < n <= from.Length && position + n <= hdr.numBytes
      modifies disk
      ensures Valid() && |disk.sectors| == old(|disk.sectors|)
      ensures Content() == Splice(old(Content()), position, from[..n])
      ensures OnlyChanges(old(disk.sectors), disk.sectors, hdr,
                          position / SECTOR_SIZE, (position + n - 1) / SECTOR_SIZE)
    {
      var firstSector := position / SECTOR_SIZE;
      var lastSector := (position + n - 1) / SECTOR_SIZE;
      var numSectors := 1 + lastSector - firstSector;
      var buf := new byte[numSectors * SECTOR_SIZE];
      FillBuffer(buf, from, position, n, firstSector, lastSector);
      WriteSectors(buf, firstSector, lastSector);
      WriteEffect(old(disk.sectors), disk.sectors, hdr, buf[..], position, from[..n]);
    }

    /** What the touched sectors are to hold: their own bytes with the new data copied over. */
    method FillBuffer(buf: array<byte>, from: array<byte>, position: nat, n: nat, firstSector: nat, lastSector: nat)
      requires Valid() && buf != from
      requires 0 < n <= from.Length && position + n <= hdr.numBytes
      requires firstSector == position / SECTOR_SIZE && lastSector == (position + n - 1) / SECTOR_SIZE
      requires buf.Length == (1 + lastSector - firstSector) * SECTOR_SIZE
      modifies buf
      ensures Surrounds(buf[..], Content(), position, n)
      ensures buf[position % SECTOR_SIZE..position % SECTOR_SIZE + n] == from[..n]
    {
      ReadPartial(buf, position, n, firstSector, lastSector);
      var skip := position - firstSector * SECTOR_SIZE;
      forall i | 0 <= i < n {
        buf[skip + i] := from[i];
      }
    }

    /** Brings in the first and last sectors of a write when it only covers part of them:
        every byte of the file that shares a sector with the write, and is outside it, is then in buf. */
    method ReadPartial(buf: array<byte>, position: nat, n: nat, firstSector: nat, lastSector: nat)
      requires Valid()
      requires 0 < n && position + n <= hdr.numBytes
      requires firstSector == position / SECTOR_SIZE && lastSector == (position + n - 1) / SECTOR_SIZE
      requires buf.Length == (1 + lastSector - firstSector) * SECTOR_SIZE
      modifies buf
      ensures Surrounds(buf[..], Content(), position, n)
    {
      var firstAligned := position == firstSector * SECTOR_SIZE;
      var lastAligned := position + n == (lastSector + 1) * SECTOR_SIZE;
      var base := firstSector * SECTOR_SIZE;
      if !firstAligned {
        ReadSectorAt(buf, base, base);
      }
      if !lastAligned && (firstSector != lastSector || firstAligned) {
        ReadSectorAt(buf, base, lastSector * SECTOR_SIZE);
      }
      PartialCovers(buf[..], Content(), position, n);
    }

    /** Reads the sector of the file at offset lo into a buffer that starts at offset base. */
    method ReadSectorAt(buf: array<byte>, base: nat, lo: nat)
      requires Valid() && base <= lo < hdr.numBytes && lo + SECTOR_SIZE <= base + buf.Length
      modifies buf
      ensures HasSector(buf[..], Content(), base, lo)
      ensures forall i :: 0 <= i < buf.Length && !(lo - base <= i < lo - base + SECTOR_SIZE) ==> buf[i] == old(buf[i])
    {
      var ok, done := ReadAt(buf, lo - base, SECTOR_SIZE, lo);
    }

    method Read(into: array<byte>, numBytes: int32) returns (ok: bool, n: nat)
      requires Valid()
      requires Clamped(numBytes, seekPosition, hdr.numBytes) <= into.Length
      modifies this, into
      ensures Valid() && (ok <==> Served(numBytes, old(seekPosition), hdr.numBytes))
      ensures n == if ok then Clamped(numBytes, old(seekPosition), hdr.numBytes) else 0
      ensures seekPosition == old(seekPosition) + n
      ensures forall i :: 0 <= i < n ==> into[i] == Content()[i + old(seekPosition)]
    {
      ok, n := ReadAt(into, 0, numBytes, seekPosition);
      seekPosition := seekPosition + n;
    }

    method Write(from: array<byte>, numBytes: int32) returns (ok: bool, n: nat)
      requires Valid()
      requires Clamped(numBytes, seekPosition, hdr.numBytes) <= from.Length
      modifies this, disk
      ensures Valid() && |disk.sectors| == old(|disk.sectors|)
      ensures ok <==> Served(numBytes, old(seekPosition), hdr.numBytes)
      ensures n == if ok then Clamped(numBytes, old(seekPosition), hdr.numBytes) else 0
      ensures seekPosition == old(seekPosition) + n
      ensures n == 0 ==> disk.sectors == old(disk.sectors)
      ensures n > 0 ==> old(seekPosition) >= 0 && Content() == Splice(old(Content()), old(seekPosition), from[..n])
      ensures ok && old(seekPosition) >= 0 ==>
                FileWrite(old(disk.sectors), disk.sectors, hdr, old(seekPosition), from[..n])
      ensures OutsideUnchanged(old(disk.sectors), disk.sectors, hdr)
    {
      ghost var d := disk.sectors;
      ok, n := WriteAt(from, numBytes, seekPosition);
      OnlyChangesOutside(d, disk.sectors, hdr, n);
      CutWrite(d, disk.sectors, hdr, seekPosition, from[..n]);
      seekPosition := seekPosition + n;
    }
  }
}
