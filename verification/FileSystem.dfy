/**
 The file system (filesys/filesys.cc): formatting, Create, Open and Remove over the free
 map and directory files.
 */
module FileSystems {
  import opened Words
  import opened Associations
  import opened SynchDisks
  import opened BitMaps
  import opened FileHeaders
  import opened OpenFiles
  import opened Directories
  import opened DiskLayouts
  import opened DiskSteps

  /** BitMap::FetchFrom: the words are read over from the file. */
  method FetchMap(freeMap: BitMap, file: OpenFile)
    requires freeMap.Valid() && file.Valid() && file.hdr.numBytes == 4 * freeMap.words.Length
    modifies freeMap.words
    ensures freeMap.words[..] == BytesWords(file.Content())
  {
    var size := 4 * freeMap.words.Length;
    var buf := new byte[size];
    var ok, n := file.ReadAt(buf, 0, size, 0);
    assert buf[..] == file.Content();
    var words := BytesWords(buf[..]);
    forall i | 0 <= i < freeMap.words.Length {
      freeMap.words[i] := words[i];
    }
  }

  /** BitMap::WriteBack: the words are written over the file. */
  method WriteBackMap(freeMap: BitMap, file: OpenFile)
    requires freeMap.Valid() && file.Valid() && file.hdr.numBytes == 4 * freeMap.words.Length
    modifies file.disk
    ensures file.Valid() && |file.disk.sectors| == old(|file.disk.sectors|)
    ensures file.Content() == IntsBytes(freeMap.words[..])
    ensures OutsideUnchanged(old(file.disk.sectors), file.disk.sectors, file.hdr)
  {
    var image := IntsBytes(freeMap.words[..]);
    var buf := new byte[|image|](i requires 0 <= i < |image| => image[i]);
    ghost var d := file.disk.sectors;
    var ok, n := file.WriteAt(buf, |image|, 0);
    assert buf[..n] == image;
    OnlyChangesOutside(d, file.disk.sectors, file.hdr, |image|);
  }

  lemma RoomForDirectory(marked: set<nat>, mapHdr: Header, n: nat, numDirEntries: nat)
    requires CanFormat(n, numDirEntries) && mapHdr.Good(n) && mapHdr.numBytes == n / 8
    requires {0, 1} !! mapHdr.Data() && marked == {0, 1} + mapHdr.Data()
    requires forall k :: k in marked ==> k < n
    ensures |Clear(marked, n)| >= DivRoundUp(ENTRY_SIZE * numDirEntries, SECTOR_SIZE)
  {
    DataCount(mapHdr, n);
    assert |marked| == 2 + mapHdr.Count();
    ClearCount(marked, n);
  }

  /** The first allocations of formatting: the two header sectors, then the data of the free map. */
  method AllocateMap(freeMap: BitMap, mapHdr: FileHeader, ghost numDirEntries: nat)
    requires freeMap.Valid() && freeMap.Marked() == {} && mapHdr.Valid() && CanFormat(freeMap.numBits, numDirEntries)
    modifies freeMap.words, mapHdr
    ensures mapHdr.Value().Good(freeMap.numBits) && mapHdr.numBytes == freeMap.numBits / 8
    ensures {0, 1} !! mapHdr.Value().Data() && freeMap.Marked() == {0, 1} + mapHdr.Value().Data()
  {
    freeMap.Mark(FREE_MAP_SECTOR);
    freeMap.Mark(DIRECTORY_SECTOR);
    ghost var first := freeMap.Marked();
    assert first == {0, 1};
    ClearCount(first, freeMap.numBits);
    var r := mapHdr.Allocate(freeMap, freeMap.numBits / 8);
    assert r == Allocated;
  }

  /** All the allocations of formatting.  There is enough space, so neither assertion fails. */
  method AllocateSystem(freeMap: BitMap, mapHdr: FileHeader, dirHdr: FileHeader, numDirEntries: nat)
    requires freeMap.Valid() && freeMap.Marked() == {} && mapHdr.Valid() && dirHdr.Valid() && mapHdr != dirHdr
    requires CanFormat(freeMap.numBits, numDirEntries)
    modifies freeMap.words, mapHdr, dirHdr
    ensures mapHdr.Value().Good(freeMap.numBits) && mapHdr.numBytes == freeMap.numBits / 8
    ensures dirHdr.Value().Good(freeMap.numBits) && dirHdr.numBytes == ENTRY_SIZE * numDirEntries
    ensures {0, 1} !! mapHdr.Value().Data() && {0, 1} !! dirHdr.Value().Data()
    ensures mapHdr.Value().Data() !! dirHdr.Value().Data()
    ensures freeMap.Marked() == {0, 1} + mapHdr.Value().Data() + dirHdr.Value().Data()
  {
    AllocateMap(freeMap, mapHdr, numDirEntries);
    ghost var m := mapHdr.Value();
    RoomForDirectory(freeMap.Marked(), m, freeMap.numBits, numDirEntries);
    var r := dirHdr.Allocate(freeMap, ENTRY_SIZE * numDirEntries);
    assert r == Allocated;
    assert mapHdr.Value() == m;
  }

  /** The end of formatting: both system files get their first content. */
  method FlushFormatted(freeMap: BitMap, directory: Directory, mapFile: OpenFile, dirFile: OpenFile)
    requires mapFile.disk == dirFile.disk && mapFile.Valid() && dirFile.Valid() && freeMap.Valid()
    requires freeMap.numBits == |mapFile.disk.sectors|
    requires 2 <= freeMap.numBits < 0x8000_0000 && freeMap.numBits % BITS_IN_WORD == 0
    requires mapFile.hdr.numBytes == freeMap.numBits / 8 && dirFile.hdr.numBytes == ENTRY_SIZE * directory.table.Length
    requires DecodeHeader(mapFile.disk.sectors[FREE_MAP_SECTOR]) == mapFile.hdr
    requires DecodeHeader(mapFile.disk.sectors[DIRECTORY_SECTOR]) == dirFile.hdr
    requires {0, 1} !! mapFile.hdr.Data() && {0, 1} !! dirFile.hdr.Data() && mapFile.hdr.Data() !! dirFile.hdr.Data()
    requires freeMap.Marked() == {0, 1} + mapFile.hdr.Data() + dirFile.hdr.Data()
    requires forall i :: 0 <= i < directory.table.Length ==> !directory.table[i].inUse
    modifies mapFile.disk
    ensures var d := mapFile.disk.sectors;
            && |d| == old(|mapFile.disk.sectors|) && Inv(d)
            && ViewOf(d).mapHdr == mapFile.hdr && ViewOf(d).dirHdr == dirFile.hdr
            && |ViewOf(d).table| == directory.table.Length
            && ViewOf(d).marked == ViewOf(d).System() && Files(d) == map[]
  {
    ghost var d1 := mapFile.disk.sectors;
    WriteBackMap(freeMap, mapFile);
    ghost var d2 := mapFile.disk.sectors;
    directory.WriteBack(dirFile);
    FormatEffect(d1, d2, mapFile.disk.sectors, mapFile.hdr, dirFile.hdr, directory.table[..], freeMap.words[..]);
  }

  /** Formats a disk: an empty directory, and a free map in which only the sectors of the two system
      files are taken. */
  method FormatDisk(disk: SynchDisk, numDirEntries: nat) returns (mapFile: OpenFile, dirFile: OpenFile)
    requires CanFormat(|disk.sectors|, numDirEntries)
    modifies disk
    ensures fresh(mapFile) && fresh(dirFile) && mapFile.disk == disk && dirFile.disk == disk
    ensures |disk.sectors| == old(|disk.sectors|) && Formatted(disk.sectors, numDirEntries)
    ensures mapFile.hdr == ViewOf(disk.sectors).mapHdr && dirFile.hdr == ViewOf(disk.sectors).dirHdr
  {
    var freeMap := new BitMap(|disk.sectors|);
    var directory := new Directory(numDirEntries);
    var mapHdr := new FileHeader();
    var dirHdr := new FileHeader();
    AllocateSystem(freeMap, mapHdr, dirHdr, numDirEntries);
    mapHdr.WriteBack(disk, FREE_MAP_SECTOR);
    dirHdr.WriteBack(disk, DIRECTORY_SECTOR);
    mapFile := new OpenFile(disk, FREE_MAP_SECTOR);
    dirFile := new OpenFile(disk, DIRECTORY_SECTOR);
    FlushFormatted(freeMap, directory, mapFile, dirFile);
  }

  /** Disks on which the free map and a directory of that size have room. */
  predicate CanFormat(size: nat, numDirEntries: nat) {
    && 2 <= size < 0x8000_0000 && size % BITS_IN_WORD == 0
    && size / 8 <= MAX_FILE_SIZE && ENTRY_SIZE * numDirEntries <= MAX_FILE_SIZE
    && 2 + DivRoundUp(size / 8, SECTOR_SIZE) + DivRoundUp(ENTRY_SIZE * numDirEntries, SECTOR_SIZE) <= size
  }

  /** A disk as formatting leaves it. */
  ghost predicate Formatted(d: Disk, numDirEntries: nat) {
    && Inv(d) && |ViewOf(d).table| == numDirEntries && Files(d) == map[]
    && ViewOf(d).marked == ViewOf(d).System()
  }

  datatype CreateResult = Failed | Created | Overruns

  /** What Create does with each size: it is a step of the file system for those that a file can have,
      and a negative one makes an empty file; with larger ones it writes behind its table where it should
      succeed. */
  ghost predicate CreateOutcome(d: Disk, name: seq<byte>, size: int32, r: CreateResult, d': Disk)
    requires Inv(d)
  {
    && (r == Overruns <==> size > MAX_FILE_SIZE && CanCreate(ViewOf(d), name, size))
    && (r != Created ==> d' == d)
    && (r != Overruns ==> Step(d, DiskSteps.Create(name, size), r == Created, d'))
  }

  lemma CreatedOutcome(d: Disk, d': Disk, name: seq<byte>, size: int32, slot: nat, sector: nat, h: Header)
    requires Inv(d) && size <= MAX_FILE_SIZE && CanCreate(ViewOf(d), name, size)
    requires CreateStep(d, d', name, size, slot, sector, h)
    ensures CreateOutcome(d, name, size, Created, d')
  {
  }

  const STDIN: seq<byte> := [115, 116, 100, 105, 110]
  const STDOUT: seq<byte> := [115, 116, 100, 111, 117, 116]

  /** What the two calls of Create for the console amount to. */
  ghost predicate ConsoleCreated(d: Disk, d': Disk) {
    exists d1: Disk, ok1, ok2 ::
      && Inv(d) && Step(d, DiskSteps.Create(STDIN, 0), ok1, d1)
      && Inv(d1) && Step(d1, DiskSteps.Create(STDOUT, 0), ok2, d')
  }

  const MAX_OPEN := 10

  /** The first place for an open file, from the third on; -1 when all are taken. */
  ghost predicate IsFirstFree(file: seq<OpenFile?>, i: int)
    requires |file| == MAX_OPEN
  {
    && (i == -1 <==> forall k :: 2 <= k < MAX_OPEN ==> file[k] != null)
    && (i != -1 ==> 2 <= i < MAX_OPEN && file[i] == null && forall k :: 2 <= k < i ==> file[k] != null)
  }

  /** The places that Open may take. */
  ghost function FreePlaces(file: seq<OpenFile?>): set<nat>
    requires |file| == MAX_OPEN
  {
    set i: nat | 2 <= i < MAX_OPEN && file[i] == null
  }

  /** f was put into the first free place. */
  ghost predicate Placed(file: seq<OpenFile?>, file': seq<OpenFile?>, f: OpenFile)
    requires |file| == MAX_OPEN
  {
    exists at :: IsFirstFree(file, at) && at != -1 && file' == file[at := f]
  }

  /** The console files, as far as they are open, are in the first two places and once more behind. */
  ghost predicate SharedPlaces(file: seq<OpenFile?>)
    requires |file| == MAX_OPEN
  {
    && file[2] == (if file[0] != null then file[0] else file[1])
    && file[3] == (if file[0] != null then file[1] else null)
    && (forall i :: 4 <= i < MAX_OPEN ==> file[i] == null)
    && (file[0] != null ==> file[0] != file[1])
  }

  /** Place k refers to an open file that was also put into the first free place, or to none. */
  ghost predicate OpenedInto(file: seq<OpenFile?>, file': seq<OpenFile?>, k: nat)
    requires |file| == |file'| == MAX_OPEN && k < 2
  {
    if file'[k] == null then file' == file[k := null] else Placed(file[k := file'[k]], file', file'[k])
  }

  lemma PlacedLow(file: seq<OpenFile?>, file': seq<OpenFile?>, k: nat, f: OpenFile)
    requires |file| == MAX_OPEN && k < 2 && Placed(file, file', f)
    ensures OpenedInto(file, file'[k := f], k)
  {
    var at :| IsFirstFree(file, at) && at != -1 && file' == file[at := f];
    assert forall j :: 2 <= j < MAX_OPEN ==> file[k := f][j] == file[j];
    assert file[k := f][at] == null && IsFirstFree(file[k := f], at);
    assert file'[k := f] == file[k := f][at := f];
  }

  lemma BothPlaced(file0: seq<OpenFile?>, file1: seq<OpenFile?>, file2: seq<OpenFile?>)
    requires |file0| == |file1| == |file2| == MAX_OPEN && forall i :: 0 <= i < MAX_OPEN ==> file0[i] == null
    requires OpenedInto(file0, file1, 0) && OpenedInto(file1, file2, 1)
    requires file1[0] != null ==> file1[0] != file2[1]
    ensures SharedPlaces(file2)
  {
    if file1[0] != null {
      var at :| IsFirstFree(file0[0 := file1[0]], at) && at != -1 && file1 == file0[0 := file1[0]][at := file1[0]];
      assert file0[0 := file1[0]][2] == null;
    }
    if file2[1] != null {
      var to :| IsFirstFree(file1[1 := file2[1]], to) && to != -1 && file2 == file1[1 := file2[1]][to := file2[1]];
      assert file1[1 := file2[1]][if file1[0] == null then 2 else 3] == null;
    }
  }

  lemma AllFree(file: seq<OpenFile?>)
    requires |file| == MAX_OPEN && forall i :: 0 <= i < MAX_OPEN ==> file[i] == null
    ensures |FreePlaces(file)| >= 2
  {
    var rest := FreePlaces(file) - {2, 3};
    assert FreePlaces(file) == {2, 3} + rest;
  }

  lemma LowPlace(file: seq<OpenFile?>, k: nat, f: OpenFile?)
    requires |file| == MAX_OPEN && k < 2
    ensures FreePlaces(file[k := f]) == FreePlaces(file)
  {
  }

  lemma PlaceTaken(file: seq<OpenFile?>, at: int)
    requires |file| == MAX_OPEN && IsFirstFree(file, at)
    ensures at == -1 <==> |FreePlaces(file)| == 0
    ensures at != -1 ==> at in FreePlaces(file) && |FreePlaces(file) - {at}| == |FreePlaces(file)| - 1
  {
    if at == -1 {
      assert FreePlaces(file) == {};
    } else {
      assert at in FreePlaces(file);
    }
  }

  class FileSystem {
    const disk: SynchDisk
    const freeMapFile: OpenFile
    const directoryFile: OpenFile
    const file: array<OpenFile?>        // the open files; a closed one leaves null behind

    ghost predicate Valid()
      reads disk
    {
      && file.Length == MAX_OPEN
      && Inv(disk.sectors)
      && freeMapFile.disk == disk && directoryFile.disk == disk
      && freeMapFile.hdr == ViewOf(disk.sectors).mapHdr
      && directoryFile.hdr == ViewOf(disk.sectors).dirHdr
    }

    /** Reads the free map; the bitmap then marks what the disk says is in use. */
    method FetchFreeMap() returns (freeMap: BitMap)
      requires Valid()
      ensures freeMap.Valid() && fresh(freeMap) && fresh(freeMap.words) && freeMap.numBits == |disk.sectors|
      ensures freeMap.Marked() == ViewOf(disk.sectors).marked
    {
      freeMap := new BitMap(|disk.sectors|);
      FetchMap(freeMap, freeMapFile);
    }

    method FetchDirectory() returns (directory: Directory)
      requires Valid()
      ensures fresh(directory) && fresh(directory.table)
      ensures directory.table[..] == ViewOf(disk.sectors).table
    {
      directory := new Directory(directoryFile.hdr.numBytes / ENTRY_SIZE);
      directory.FetchFrom(directoryFile);
    }

    /** Opens the files that hold the free map and the directory of a formatted disk, then creates and
        opens the two console files. */
    constructor Mount(disk: SynchDisk)
      requires Inv(disk.sectors)
      modifies disk
      ensures this.disk == disk && Valid() && ConsoleCreated(old(disk.sectors), disk.sectors)
    {
      this.disk := disk;
      freeMapFile := new OpenFile(disk, FREE_MAP_SECTOR);
      directoryFile := new OpenFile(disk, DIRECTORY_SECTOR);
      file := new OpenFile?[MAX_OPEN](_ => null);
      new;
      InstallConsole();
    }

    /** Formats a disk, whatever it held, then creates and opens the two console files. */
    constructor Format(disk: SynchDisk, numDirEntries: nat)
      requires CanFormat(|disk.sectors|, numDirEntries)
      modifies disk
      ensures this.disk == disk && Valid() && |disk.sectors| == old(|disk.sectors|)
      ensures exists d: Disk :: Formatted(d, numDirEntries) && ConsoleCreated(d, disk.sectors)
    {
      var mapFile, dirFile := FormatDisk(disk, numDirEntries);
      this.disk := disk;
      freeMapFile := mapFile;
      directoryFile := dirFile;
      file := new OpenFile?[MAX_OPEN](_ => null);
      new;
      ghost var d := disk.sectors;
      InstallConsole();
      assert Formatted(d, numDirEntries) && ConsoleCreated(d, disk.sectors);
    }

    /** The end of the constructor: the first two places refer to the console files that exist, and so do
        the first of the other places, which Close can give back while the first two keep their files. */
    method InstallConsole()
      requires Valid() && forall i :: 0 <= i < MAX_OPEN ==> file[i] == null
      modifies file, disk
      ensures Valid() && ConsoleCreated(old(disk.sectors), disk.sectors)
      ensures |disk.sectors| == old(|disk.sectors|)
      ensures file[0] == null <==> IsIndexOf(ViewOf(disk.sectors).table, STDIN, -1)
      ensures file[1] == null <==> IsIndexOf(ViewOf(disk.sectors).table, STDOUT, -1)
      ensures SharedPlaces(file[..])
    {
      AllFree(file[..]);
      CreateConsole();
      OpenBoth(STDIN, STDOUT);
    }

    method OpenBoth(first: seq<byte>, second: seq<byte>)
      requires Valid() && CString(first) && CString(second) && |FreePlaces(file[..])| >= 2
      requires forall i :: 0 <= i < MAX_OPEN ==> file[i] == null
      modifies file
      ensures file[0] == null <==> IsIndexOf(ViewOf(disk.sectors).table, first, -1)
      ensures file[1] == null <==> IsIndexOf(ViewOf(disk.sectors).table, second, -1)
      ensures SharedPlaces(file[..])
    {
      OpenInto(0, first);
      ghost var places := file[..];
      OpenInto(1, second);
      BothPlaced(old(file[..]), places, file[..]);
    }

    method OpenInto(k: nat, name: seq<byte>)
      requires Valid() && CString(name) && k < 2 && |FreePlaces(file[..])| > 0
      modifies file
      ensures file[k] == null <==> IsIndexOf(ViewOf(disk.sectors).table, name, -1)
      ensures OpenedInto(old(file[..]), file[..], k) && (file[k] != null ==> fresh(file[k]))
      ensures |FreePlaces(file[..])| >= |FreePlaces(old(file[..]))| - 1
    {
      var console, slot := Open(name);
      ghost var places := file[..];
      file[k] := console;
      assert file[..] == places[k := console];
      LowPlace(places, k, console);
      if console != null {
        PlacedLow(old(file[..]), places, k, console);
      }
    }

    method CreateConsole()
      requires Valid()
      modifies disk
      ensures Valid() && ConsoleCreated(old(disk.sectors), disk.sectors)
      ensures |disk.sectors| == old(|disk.sectors|)
    {
      var ok1 := CreateEmpty(STDIN);
      ghost var d1 := disk.sectors;
      var ok2 := CreateEmpty(STDOUT);
      assert Step(d1, DiskSteps.Create(STDOUT, 0), ok2, disk.sectors);
    }

    method CreateEmpty(name: seq<byte>) returns (ok: bool)
      requires Valid() && CString(name)
      modifies disk
      ensures Valid() && Step(old(disk.sectors), DiskSteps.Create(name, 0), ok, disk.sectors)
      ensures |disk.sectors| == old(|disk.sectors|)
    {
      var r := Create(name, 0);
      ok := r == Created;
    }

    /** Creates a file of the given size, or fails and leaves the disk as it was. */
    method Create(name: seq<byte>, initialSize: int32) returns (r: CreateResult)
      requires Valid() && CString(name)
      modifies disk
      ensures Valid() && CreateOutcome(old(disk.sectors), name, initialSize, r, disk.sectors)
    {
      var directory := FetchDirectory();
      var found, at := directory.Find(name);
      if found != -1 {
        return Failed;
      }
      r := CreateNew(name, initialSize, directory);
    }

    /** Create for a name that is not in the directory. */
    method CreateNew(name: seq<byte>, initialSize: int32, directory: Directory) returns (r: CreateResult)
      requires Valid() && CString(name)
      requires directory.table[..] == ViewOf(disk.sectors).table && IsIndexOf(directory.table[..], name, -1)
      modifies disk, directory.table
      ensures Valid() && CreateOutcome(old(disk.sectors), name, initialSize, r, disk.sectors)
    {
      var freeMap := FetchFreeMap();
      var sector := freeMap.Find();
      if sector == -1 {
        return Failed;
      }
      var added, slot := directory.Add(name, sector);
      if !added {
        return Failed;
      }
      r := InstallFile(name, initialSize, sector, directory, freeMap, slot);
    }

    /** The rest of Create, once a header sector and an entry were found. */
    method InstallFile(name: seq<byte>, initialSize: int32, sector: int32, directory: Directory, freeMap: BitMap,
                       ghost slot: int)
      returns (r: CreateResult)
      requires Valid() && CString(name) && IsIndexOf(ViewOf(disk.sectors).table, name, -1)
      requires freeMap.Valid() && freeMap.numBits == |disk.sectors|
      requires IsLeastClear(ViewOf(disk.sectors).marked, |disk.sectors|, sector) && sector != -1
      requires freeMap.Marked() == ViewOf(disk.sectors).marked + {sector as nat}
      requires AddedAt(ViewOf(disk.sectors).table, directory.table[..], slot, name, sector)
      modifies disk, freeMap.words
      ensures Valid() && CreateOutcome(old(disk.sectors), name, initialSize, r, disk.sectors)
    {
      ghost var d := disk.sectors;
      FindUsesOne(ViewOf(d).marked, |d|, sector);
      var hdr := new FileHeader();
      var allocation := hdr.Allocate(freeMap, initialSize);
      assert CanCreate(ViewOf(d), name, initialSize) <==> allocation != NoSpace by {
        assert !ViewOf(d).table[slot].inUse;
      }
      if allocation != Allocated {
        return if allocation == NoSpace then Failed else Overruns;
      }
      FlushCreated(name, sector, hdr, directory, freeMap, slot);
      CreatedOutcome(d, disk.sectors, name, initialSize, slot, sector, hdr.Value());
      r := Created;
    }

    /** The end of a successful Create: header, directory and free map are written back. */
    method FlushCreated(name: seq<byte>, sector: int32, hdr: FileHeader, directory: Directory, freeMap: BitMap,
                        ghost slot: nat)
      requires Valid() && hdr.Valid() && freeMap.Valid() && freeMap.numBits == |disk.sectors| && 0 <= sector
      requires ViewOf(disk.sectors).CanInstall(slot, name, sector, hdr.Value())
      requires directory.table[..] == ViewOf(disk.sectors).Created(slot, name, sector, hdr.Value()).table
      requires freeMap.Marked() == ViewOf(disk.sectors).Created(slot, name, sector, hdr.Value()).marked
      modifies disk
      ensures Valid()
      ensures CreateStep(old(disk.sectors), disk.sectors, name, hdr.numBytes, slot, sector, hdr.Value())
    {
      ghost var d := disk.sectors;
      hdr.WriteBack(disk, sector);
      ghost var d1 := disk.sectors;
      directory.WriteBack(directoryFile);
      ghost var d2 := disk.sectors;
      WriteBackMap(freeMap, freeMapFile);
      CreateFlush(d, d1, d2, disk.sectors, sector, hdr.Value(), directory.table[..], freeMap.words[..]);
      CreateEffect(d, disk.sectors, name, slot, sector, hdr.Value(), freeMap.words[..]);
      CreateKeepsInv(d, disk.sectors, name, hdr.numBytes, slot, sector, hdr.Value());
    }

    /** Removes a file; false says there was none of that name. */
    method Remove(name: seq<byte>) returns (success: bool)
      requires Valid() && CString(name)
      modifies disk
      ensures Valid()
      ensures Step(old(disk.sectors), DiskSteps.Remove(name), success, disk.sectors)
    {
      var directory := FetchDirectory();
      var sector, at := directory.Find(name);
      if sector == -1 {
        return false;
      }
      RemoveAt(directory, name, sector, at);
      return true;
    }

    /** The rest of Remove, once the name was found in entry slot. */
    method RemoveAt(directory: Directory, name: seq<byte>, sector: int32, ghost slot: nat)
      requires Valid() && CString(name) && directory.table[..] == ViewOf(disk.sectors).table
      requires IsIndexOf(ViewOf(disk.sectors).table, name, slot) && sector == ViewOf(disk.sectors).table[slot].sector
      modifies disk, directory.table
      ensures Valid() && RemoveStep(old(disk.sectors), disk.sectors, slot)
    {
      var freeMap := Release(sector, slot);
      var removed, at := directory.Remove(name);
      FlushRemoved(directory, freeMap, slot);
    }

    /** Frees the sectors of a file in memory: first its data, then its header. */
    method Release(sector: int32, ghost slot: nat) returns (freeMap: BitMap)
      requires Valid()
      requires slot < |ViewOf(disk.sectors).table| && ViewOf(disk.sectors).table[slot].inUse
      requires sector == ViewOf(disk.sectors).table[slot].sector
      ensures freeMap.Valid() && fresh(freeMap) && fresh(freeMap.words) && freeMap.numBits == |disk.sectors|
      ensures freeMap.Marked() == ViewOf(disk.sectors).Removed(slot).marked
    {
      var fileHdr := new FileHeader();
      fileHdr.FetchFrom(disk, sector);
      freeMap := FetchFreeMap();
      OwnedMarked(ViewOf(disk.sectors), slot);
      fileHdr.Deallocate(freeMap);
      freeMap.ClearBit(sector);
    }

    /** The end of Remove: free map and directory are written back. */
    method FlushRemoved(directory: Directory, freeMap: BitMap, ghost slot: nat)
      requires Valid() && freeMap.Valid() && freeMap.numBits == |disk.sectors|
      requires slot < |ViewOf(disk.sectors).table| && ViewOf(disk.sectors).table[slot].inUse
      requires directory.table[..] == ViewOf(disk.sectors).Removed(slot).table
      requires freeMap.Marked() == ViewOf(disk.sectors).Removed(slot).marked
      modifies disk
      ensures Valid() && RemoveStep(old(disk.sectors), disk.sectors, slot)
    {
      ghost var d := disk.sectors;
      WriteBackMap(freeMap, freeMapFile);
      ghost var d1 := disk.sectors;
      directory.WriteBack(directoryFile);
      RemoveFlush(d, d1, disk.sectors, directory.table[..], freeMap.words[..]);
      RemoveEffect(d, disk.sectors, slot, freeMap.words[..]);
      RemoveKeepsInv(d, disk.sectors, slot);
    }

    /** The search for a place in the table of open files. */
    method FindPlace() returns (i: int)
      requires file.Length == MAX_OPEN
      ensures IsFirstFree(file[..], i)
    {
      i := 2;
      while i < MAX_OPEN
        invariant 2 <= i <= MAX_OPEN
        invariant forall k :: 2 <= k < i ==> file[k] != null
      {
        if file[i] == null {
          return i;
        }
        i := i + 1;
      }
      return -1;
    }

    /** The header sector of a name, -1 when there is no such file. */
    method FindFile(name: seq<byte>) returns (sector: int32, ghost slot: int)
      requires Valid() && CString(name)
      ensures IsIndexOf(ViewOf(disk.sectors).table, name, slot)
      ensures if slot == -1 then sector == -1 else sector == ViewOf(disk.sectors).table[slot].sector
      ensures slot != -1 ==>
                0 <= sector < |disk.sectors| && DecodeHeader(disk.sectors[sector]) == ViewOf(disk.sectors).hdrs[slot]
    {
      var directory := FetchDirectory();
      sector, slot := directory.Find(name);
    }

    /** Opens a file by name into the first free place of the table of open files; null says that
        there is no such file or no such place. */
    method Open(name: seq<byte>) returns (f: OpenFile?, ghost slot: int)
      requires Valid() && CString(name)
      modifies file
      ensures Valid() && IsIndexOf(ViewOf(disk.sectors).table, name, slot)
      ensures f == null <==> slot == -1 || |FreePlaces(old(file[..]))| == 0
      ensures f == null ==> file[..] == old(file[..])
      ensures f != null ==> Placed(old(file[..]), file[..], f)
      ensures file[0] == old(file[0]) && file[1] == old(file[1])
      ensures |FreePlaces(file[..])| == |FreePlaces(old(file[..]))| - if f != null then 1 else 0
      ensures f != null ==> fresh(f) && f.disk == disk && f.seekPosition == 0
      ensures f != null ==> f.hdr == ViewOf(disk.sectors).hdrs[slot]
    {
      var sector;
      sector, slot := FindFile(name);
      var i := FindPlace();
      PlaceTaken(file[..], i);
      if sector >= 0 && i != -1 {
        f := new OpenFile(disk, sector);
        file[i] := f;
        assert file[..] == old(file[..])[i := f];
        assert FreePlaces(file[..]) == FreePlaces(old(file[..])) - {i};
      } else {
        f := null;
      }
    }

    /** The system call: only this gives a place back. */
    method Close(id: int32) returns (ok: bool)
      requires Valid()
      modifies file
      ensures Valid() && (ok <==> 2 <= id < MAX_OPEN && old(file[..])[id] != null)
      ensures file[..] == if ok then old(file[..])[id := null] else old(file[..])
    {
      if id < 2 || id > 9 || file[id] == null {
        return false;
      }
      file[id] := null;
      ok := true;
    }
  }

  /** What formatting leaves behind is consistent and empty. */
  lemma FormatEffect(d1: Disk, d2: Disk, d3: Disk, m: Header, t: Header, table: seq<Entry>, words: seq<word>)
    requires 2 <= |d1| < 0x8000_0000 && |d1| % BITS_IN_WORD == 0 && |words| * BITS_IN_WORD == |d1|
    requires m.Good(|d1|) && t.Good(|d1|) && m.numBytes == |d1| / 8 && t.numBytes == ENTRY_SIZE * |table|
    requires {0, 1} !! m.Data() && {0, 1} !! t.Data() && m.Data() !! t.Data()
    requires DecodeHeader(d1[FREE_MAP_SECTOR]) == m && DecodeHeader(d1[DIRECTORY_SECTOR]) == t
    requires OutsideUnchanged(d1, d2, m) && FileBytes(d2, m) == IntsBytes(words)
    requires OutsideUnchanged(d2, d3, t) && FileBytes(d3, t) == EncodeTable(table)
    requires forall i :: 0 <= i < |table| ==> !table[i].inUse
    requires MarkedBits(words, |d1|) == {0, 1} + m.Data() + t.Data()
    ensures Inv(d3) && ViewOf(d3).mapHdr == m && ViewOf(d3).dirHdr == t && ViewOf(d3).table == table
    ensures ViewOf(d3).marked == ViewOf(d3).System() && Files(d3) == map[]
  {
    FileBytesFrame(d2, d3, m);
    ReadsBack(d3, m, t, table, words);
    var v := ViewOf(d3);
    assert v.Shape();
    forall i | 0 <= i < |table| ensures v.Owned(i) == {} && Keys(table)[i].None? {
    }
    assert v.Consistent();
  }

  lemma CreateFlush(d: Disk, d1: Disk, d2: Disk, d3: Disk, sector: nat, h: Header, table: seq<Entry>, words: seq<word>)
    requires Inv(d) && sector < |d| && sector !in ViewOf(d).marked && |h.dataSectors| == NUM_DIRECT
    requires |table| == |ViewOf(d).table|
    requires d1 == d[sector := EncodeHeader(h)]
    requires OutsideUnchanged(d1, d2, ViewOf(d).dirHdr) && FileBytes(d2, ViewOf(d).dirHdr) == EncodeTable(table)
    requires OutsideUnchanged(d2, d3, ViewOf(d).mapHdr) && FileBytes(d3, ViewOf(d).mapHdr) == IntsBytes(words)
    ensures Rewritten(d, d3, {sector}, table, words) && DecodeHeader(d3[sector]) == h
  {
    var v := ViewOf(d);
    assert sector !in v.System();
    FileBytesFrame(d2, d3, v.dirHdr);
    DecodeEncodeHeader(h);
  }

  lemma RemoveFlush(d: Disk, d1: Disk, d2: Disk, table: seq<Entry>, words: seq<word>)
    requires Inv(d) && |table| == |ViewOf(d).table|
    requires OutsideUnchanged(d, d1, ViewOf(d).mapHdr) && FileBytes(d1, ViewOf(d).mapHdr) == IntsBytes(words)
    requires OutsideUnchanged(d1, d2, ViewOf(d).dirHdr) && FileBytes(d2, ViewOf(d).dirHdr) == EncodeTable(table)
    ensures Rewritten(d, d2, {}, table, words)
  {
    FileBytesFrame(d1, d2, ViewOf(d).mapHdr);
  }

  // ---- the console files ----

  lemma NothingInUse(d: Disk, i: nat)
    requires Inv(d) && Files(d) == map[] && i < |ViewOf(d).table|
    ensures !ViewOf(d).table[i].inUse
  {
    if ViewOf(d).table[i].inUse {
      AssocHas(Keys(ViewOf(d).table), Contents(d), i);
    }
  }

  /** What a Create leaves for the next one. */
  lemma RoomAfter(d: Disk, d1: Disk, name: seq<byte>, slot: nat, sector: nat, h: Header)
    requires Inv(d) && Inv(d1) && CreateStep(d, d1, name, 0, slot, sector, h)
    requires Files(d) == map[] && |ViewOf(d).table| >= 2
    ensures exists k :: 0 <= k < |ViewOf(d1).table| && !ViewOf(d1).table[k].inUse
    ensures |Clear(ViewOf(d1).marked, |d1|)| == |Clear(ViewOf(d).marked, |d|)| - 1
  {
    CreateUses(d, d1, name, 0, slot, sector, h);
    var k := if slot == 0 then 1 else 0;
    NothingInUse(d, k);
    assert !ViewOf(d1).table[k].inUse;
  }

  lemma FirstConsoleFile(d: Disk, ok: bool, d1: Disk)
    requires Inv(d) && Files(d) == map[] && |ViewOf(d).table| >= 2 && |Clear(ViewOf(d).marked, |d|)| >= 2
    requires Inv(d1) && Step(d, DiskSteps.Create(STDIN, 0), ok, d1)
    ensures ok && Files(d1) == map[Key(STDIN) := []]
    ensures exists k :: 0 <= k < |ViewOf(d1).table| && !ViewOf(d1).table[k].inUse
    ensures |Clear(ViewOf(d1).marked, |d1|)| >= 1
  {
    IndexIsKey(d, STDIN);
    NothingInUse(d, 0);
    assert ok;
    StepRefines(d, DiskSteps.Create(STDIN, 0), true, d1);
    OnlyKey(Files(d), Files(d1), Key(STDIN));
    var slot: nat, sector: nat, h: Header :| CreateStep(d, d1, STDIN, 0, slot, sector, h);
    RoomAfter(d, d1, STDIN, slot, sector, h);
  }

  lemma SecondConsoleFile(d1: Disk, ok: bool, d': Disk)
    requires Inv(d1) && Files(d1) == map[Key(STDIN) := []] && |Clear(ViewOf(d1).marked, |d1|)| >= 1
    requires exists k :: 0 <= k < |ViewOf(d1).table| && !ViewOf(d1).table[k].inUse
    requires Step(d1, DiskSteps.Create(STDOUT, 0), ok, d')
    ensures ok && Inv(d') && Files(d') == map[Key(STDIN) := [], Key(STDOUT) := []]
  {
    assert Key(STDIN)[3] != Key(STDOUT)[3];
    IndexIsKey(d1, STDOUT);
    assert ok;
    StepRefines(d1, DiskSteps.Create(STDOUT, 0), true, d');
    OnlyKey(Files(d1), Files(d'), Key(STDOUT));
  }

  /** On a formatted disk with two entries and two sectors to spare both console files are there, and
      nothing else. */
  lemma ConsoleFiles(d: Disk, d': Disk, n: nat)
    requires Formatted(d, n) && n >= 2 && |Clear(ViewOf(d).marked, |d|)| >= 2 && ConsoleCreated(d, d')
    ensures Inv(d') && Files(d') == map[Key(STDIN) := [], Key(STDOUT) := []]
  {
    var d1: Disk, ok1, ok2 :|
      Step(d, DiskSteps.Create(STDIN, 0), ok1, d1) && Inv(d1) && Step(d1, DiskSteps.Create(STDOUT, 0), ok2, d');
    FirstConsoleFile(d, ok1, d1);
    SecondConsoleFile(d1, ok2, d');
  }

  /** Adding one empty file. */
  lemma OnlyKey(m: map<seq<byte>, seq<byte>>, m': map<seq<byte>, seq<byte>>, key: seq<byte>)
    requires key in m' && |m'[key]| == 0 && m' - {key} == m
    ensures m' == m[key := []]
  {
    SetAdded(m, m', key, []);
    assert m'[key := []] == m';
  }
}
