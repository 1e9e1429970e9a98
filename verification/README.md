# A verified model of the Nachos 3.4 teaching operating system

The project models the kernel and the simulated machine of this Nachos tree, and proves what they
promise. It has five parts.

* **File system.** `Words`, `BitMap`, `SynchDisk`, `FileHeader`, `OpenFile`, `Directory`,
  `DiskLayout`, `DiskSteps`, `FileSystem`, `Transfer`, `Handles`. Everything is bytes in 128-byte
  sectors: the free map and the directory are files of the same disk. The two main theorems are about
  every run of Create, Remove and writes: the free map is exactly the disjoint union of what the system
  and each file own (`RunKeepsOwnership`), and the run is a run on a plain map from names to contents
  (`RunRefines`). The methods of the classes are proved to take just these steps. `Handles` adds open
  files that keep the header they read when they were opened.
* **Memory.** `Translate`, `AddrSpace`. Translation by page table or TLB, and the NOFF loader: after
  its page splitting, a program sees its flat image; frames of live spaces are never shared, over
  every sequence of loads and destructions.
* **Processor.** `Bitwise`, `Decode`, `Mult`, `Cpu`, `CpuRuns`, `InstructionSet`. What every word does, in
  terms of its bits, the registers and the bytes of memory; exact overflow traps, precise exceptions,
  the two delay slots, R0 and the pending load over every run of several programs with interrupts,
  system calls and context switches.
* **Threads and processes.** `Kernel`, `ProcessTable`. Semaphores, sleep and wakeup, the order of the
  ready list and of each queue, progress, deletion of finished threads; Exec, Join and Exit over every
  interleaving.
* **Devices and data.** `LinkedList`, `Interrupt`, `DiskTiming`, `Decimal`.

Objects that the source updates in place are classes here, proved against functions or relations on
values; the theorems about runs are lemmas about these. `Associations` is a small helper.

## How the model reads the source

* Integers are C's 32-bit ints and unsigned ints. Where the source relies on wrap-around the model
  writes it out; signed overflow, which C leaves undefined, wraps. The tick counters of the clock and
  of the disk are unbounded: that they overflow after 2^31 ticks is not modelled.
* A disk has any number of sectors that is a multiple of 32, as NumSectors is. Names are C strings.
  The padding bytes of a directory entry are written as zeros. `BitMap.Clear` is `ClearBit` here.
* Where the source would leave its buffers or tables the model says so in a result (`ok` of ReadAt and
  WriteAt, `Overrun`, `Overruns`, `OutOfBounds`) and leaves the state alone.
* A write that ends inside the last sector of a file leaves the bytes behind the end of the file as
  they may be, since the source writes back whole sectors from a buffer it did not fill.
* Memory has any number of frames. The loader is modelled for headers that a linker produces: code at
  address 0 and sizes whose sum is an int.
* A handler of an interrupt may schedule any later interrupts and ask for a yield. The yield inside
  OneTick is reported as a flag. `pending` is a sequence here; that the linked list does the same is
  proved in `LinkedList`.
* P is cut where it sleeps: a woken thread re-tests before it does anything else. Any interleaving of
  whole steps may happen.
* In the process table a P completes when its semaphore is positive. Exit and Join are cut at every
  access to another process. `child` and `joined` in a control block are records for the proofs.
* A system call handler may write any register except R0 and LoadReg, and user memory of the running
  program. All handlers of this tree write only register 2 and the program counters.

## Where the source does not do what it promises

Each of these is stated with its exact condition.

* Read and Write clamp a request to the file only when position plus size is an int; a larger request
  leaves its buffers (`CutIsClamped`, `ReadAt`, `WriteAt`).
* Create accepts negative sizes: the file has a header and nothing in it, and the disk stays
  consistent. With sizes above MaxFileSize it writes behind its table when the disk has room (`Create`).
* An open file can be removed. Writes through it afterwards can destroy other files, exactly when its
  sectors are in use again (`HandleKeepsOwnership`, `HandleKeepsFiles`, `HandleSafeIfUnmarked`), and on
  every disk that is full enough that happens when the name is created again (`RemovedWhileOpen`).
* Copy and Print delete the open file and leave its place in the table of open files taken, so each of
  them uses up one of eight places, of which the console has two (`Copy`, `Print`).
* The loader puts initialised data right after the code, wherever the header wants it
  (`ImageIsSegmentImage`).
* The track buffer rounds the time of a request up, so a sector still passing counts as buffered
  (`HitIsPassedAlready`, `NotYetPassed`).
* PrintNum prints only a sign for the most negative int, and overruns its buffer for the other numbers
  up to -10^9 (`PrintNum`). Of what it prints, ReadNum gets back exactly the numbers of at most nine
  characters (`ReadBack`).
* A finished thread is only deleted by a thread that resumes. One that starts and finishes before that
  takes its place, and it is never deleted (`NothingForgotten`, `FreshThreadForgets`).
* OR and SRL do not compute what the MIPS manual says (`OrIsOr`, `SrlIsLogical`). LWL, LWR, SWL and
  SWR stop the simulator on the addresses they exist for (`InstructionStops`).
* Join is right among disciplined processes: one child to be joined at a time, each joined once, no
  exit before that, and no two processes of one program. A step that is not disciplined, from any
  consistent table, can be followed by disciplined steps into trouble, and only such a step can
  (`DisciplineIsExact`): a code of 0 from a child that still runs (`TwoChildrenBreak`), a wait for a
  child that is gone (`SecondJoinBreaks`), a child without a parent (`EarlyExitBreaks`), or a process
  taken for another (`SameNameBreaks`).
* Exec by a thread that is not in the table costs a slot (`ExecUpdate`).

## Model

| member | source | states |
|---|---|---|
| `BitMaps.OneBit` | nachos/nachos-3.4/code/userprog/bitmap.cc:46-65 | setting or resetting a bit of a word changes that digit and no other |
| `BitMaps.OneBitWeight` | nachos/nachos-3.4/code/userprog/bitmap.cc:46-65 | as numbers, setting a clear bit adds its weight and resetting a set one takes it away |
| `BitMaps.MarkWordSet` | nachos/nachos-3.4/code/userprog/bitmap.cc:46-51 | marking bit `which` in the packed words adds exactly `which` to the abstract set |
| `BitMaps.ClearWordSet` | nachos/nachos-3.4/code/userprog/bitmap.cc:60-65 | clearing bit `which` removes exactly `which` from the abstract set |
| `BitMaps.ClearCount` | nachos/nachos-3.4/code/userprog/bitmap.cc:111-119 | clear and marked bits together make up all of them |
| `BitMaps.FindUsesOne` | nachos/nachos-3.4/code/userprog/bitmap.cc:94-119 | while the clear count is positive a search succeeds with a bit that was clear and lowers the count by exactly one |
| `BitMaps.BitMap.constructor` | nachos/nachos-3.4/code/userprog/bitmap.cc:20-27 | whatever the fresh words held, no bit is marked |
| `BitMaps.MapLayout` | nachos/nachos-3.4/code/userprog/bitmap.cc:149-166 | in the file of a map, sector k is marked exactly when bit k % 8 of byte k / 8 is set |
| `BitMaps.BitMap.Mark` | nachos/nachos-3.4/code/userprog/bitmap.cc:46-51 | the marked set gains one element |
| `BitMaps.BitMap.ClearBit` | nachos/nachos-3.4/code/userprog/bitmap.cc:60-65 | the marked set loses one element |
| `BitMaps.BitMap.Test` | nachos/nachos-3.4/code/userprog/bitmap.cc:74-83 | true exactly for the marked bits |
| `BitMaps.BitMap.Find` | nachos/nachos-3.4/code/userprog/bitmap.cc:94-103 | marks and returns the least clear bit; -1, and no change, exactly when none is clear |
| `BitMaps.BitMap.NumClear` | nachos/nachos-3.4/code/userprog/bitmap.cc:111-119 | the cardinality of the complement of the marked set |
| `SynchDisks.SynchDisk.ReadSector` | nachos/nachos-3.4/code/filesys/synchdisk.cc:72-79 | the sector arrives in the buffer at its place and nothing else in the buffer changes |
| `SynchDisks.SynchDisk.WriteSector` | nachos/nachos-3.4/code/filesys/synchdisk.cc:90-97 | that sector is replaced, all others stay |
| `FileHeaders.DecodeEncodeHeader` | nachos/nachos-3.4/code/filesys/filehdr.cc:77-94 | a header written to its sector is read back unchanged |
| `FileHeaders.HeaderLayout` | nachos/nachos-3.4/code/filesys/filehdr.cc:77-94 | the header is the 32 ints of its sector: length, number of sectors, sector table |
| `FileHeaders.FileHeader.TakeSectors` | nachos/nachos-3.4/code/filesys/filehdr.cc:49-50 | the allocation loop fills the table with different sectors that were all clear, and marks exactly these |
| `FileHeaders.FileHeader.Allocate` | nachos/nachos-3.4/code/filesys/filehdr.cc:41-52 | for every size: no space exactly when the clear sectors do not suffice, and then the map is unchanged; otherwise the data sectors are distinct, were free and are now marked (none for a negative size), and the table overflows exactly for sizes above MaxFileSize |
| `FileHeaders.FileHeader.Deallocate` | nachos/nachos-3.4/code/filesys/filehdr.cc:61-68 | every sector is found marked (the assertion holds) and exactly the data sectors are freed |
| `FileHeaders.FileHeader.FetchFrom` | nachos/nachos-3.4/code/filesys/filehdr.cc:77-81 | the header becomes the value the sector encodes |
| `FileHeaders.FileHeader.WriteBack` | nachos/nachos-3.4/code/filesys/filehdr.cc:90-94 | the sector decodes to this header and no other sector changes |
| `OpenFiles.SpliceAt` | nachos/nachos-3.4/code/filesys/openfile.cc:155-195 | byte by byte what a splice is: new data inside the range, old content outside |
| `OpenFiles.PartialCovers` | nachos/nachos-3.4/code/filesys/openfile.cc:176-184 | the two conditions for reading the end sectors in suffice: every old byte that shares a sector with the write is in the buffer |
| `OpenFiles.WriteEffect` | nachos/nachos-3.4/code/filesys/openfile.cc:176-195 | writing such a buffer back over the touched sectors splices the data into the file |
| `OpenFiles.OpenFile.constructor` | nachos/nachos-3.4/code/filesys/openfile.cc:30-36 | the header is the one the sector encodes and the position is 0 |
| `OpenFiles.OpenFile.Seek` | nachos/nachos-3.4/code/filesys/openfile.cc:64-68 | the next sequential access starts at the given position |
| `OpenFiles.CutIsClamped` | nachos/nachos-3.4/code/filesys/openfile.cc:132-135 | the 32-bit test cuts a request to the length of the file exactly when the request moves nothing or its end is an int |
| `OpenFiles.OpenFile.CheckRequest` | nachos/nachos-3.4/code/filesys/openfile.cc:132-135 | the clamped size of a request, for all ints, or that it is not served |
| `OpenFiles.OpenFile.ReadAt` | nachos/nachos-3.4/code/filesys/openfile.cc:125-153 | delivers exactly the slice of the file clamped to its length, for any alignment, and leaves the rest of the buffer alone; not served exactly when the request starts before the file or its end is no int |
| `OpenFiles.OpenFile.ReadSectors` | nachos/nachos-3.4/code/filesys/openfile.cc:143-147 | consecutive sectors of the file land one after the other in the buffer |
| `OpenFiles.OpenFile.WriteSectors` | nachos/nachos-3.4/code/filesys/openfile.cc:189-192 | the buffer lands on exactly the named sectors of the file |
| `OpenFiles.OpenFile.ReadPartial` | nachos/nachos-3.4/code/filesys/openfile.cc:170-184 | after reading in partly covered end sectors, all bytes around the write are the file's own |
| `OpenFiles.OpenFile.FillBuffer` | nachos/nachos-3.4/code/filesys/openfile.cc:174-187 | the buffer holds the new data with the file's own bytes around it |
| `OpenFiles.OpenFile.WriteAt` | nachos/nachos-3.4/code/filesys/openfile.cc:155-195 | the content becomes the old content with the clamped data spliced in, for any alignment; no sector outside the touched ones changes; not served, and no change, exactly as for ReadAt |
| `OpenFiles.OpenFile.WriteRange` | nachos/nachos-3.4/code/filesys/openfile.cc:170-195 | the splice, for a request already cut to the file |
| `OpenFiles.OpenFile.ReadSectorAt` | nachos/nachos-3.4/code/filesys/openfile.cc:179-184 | one sector of the file lands at its place in the buffer |
| `OpenFiles.OpenFile.Read` | nachos/nachos-3.4/code/filesys/openfile.cc:83-89 | the slice at the seek position, which then moves by the bytes read; not served exactly as for ReadAt |
| `OpenFiles.OpenFile.Write` | nachos/nachos-3.4/code/filesys/openfile.cc:91-97 | splices at the seek position, which then moves by the bytes written, through the header the handle holds; no sector outside that header's data changes; not served exactly as for ReadAt |
| `Transfers.ChunkedWrite` | nachos/nachos-3.4/code/filesys/openfile.cc:91-97 | any chunking of a sequence of Writes has the effect of one Write, also where the end of the file cuts it off; all are served exactly when every one that starts inside the file ends at an int |
| `Transfers.WriteChunks` | nachos/nachos-3.4/code/filesys/openfile.cc:91-97 | one Write after the other leaves content and position as the function that ChunkedWrite is about, and stops exactly where a request is not served |
| `Transfers.ChunkedRead` | nachos/nachos-3.4/code/filesys/openfile.cc:83-89 | any chunking of a sequence of Reads delivers what one Read would; all are served under the same condition |
| `Transfers.ReadChunks` | nachos/nachos-3.4/code/filesys/openfile.cc:83-89 | one Read after the other delivers the bytes and position of the function that ChunkedRead is about, and stops exactly where a request is not served |
| `Transfers.WriteThenRead` | nachos/nachos-3.4/code/filesys/openfile.cc:83-97 | what any Writes put into a file with room for it, any Reads of the same total size get back |
| `Directories.CompareIsKeyEquality` | nachos/nachos-3.4/code/filesys/directory.cc:90-97 | the strncmp of the source decides equality of the first nine characters |
| `Directories.CopyKeepsKey` | nachos/nachos-3.4/code/filesys/directory.cc:129-143 | strncpy into an entry keeps exactly those nine characters |
| `Directories.DecodeEncodeTable` | nachos/nachos-3.4/code/filesys/directory.cc:63-80 | a directory written to its file is read back unchanged |
| `Directories.EntryLayout` | nachos/nachos-3.4/code/filesys/directory.h:32-39 | each entry is 20 bytes of the file: the flag, the sector from byte 4 on, the name from byte 8 on |
| `Directories.IndexAfterAdd` | nachos/nachos-3.4/code/filesys/directory.cc:90-143 | a name is found again exactly in the entry it was added to |
| `Directories.Directory.constructor` | nachos/nachos-3.4/code/filesys/directory.cc:38-44 | no entry is in use |
| `Directories.Directory.FindIndex` | nachos/nachos-3.4/code/filesys/directory.cc:90-97 | the first entry in use with that name, or -1 exactly when there is none |
| `Directories.Directory.Find` | nachos/nachos-3.4/code/filesys/directory.cc:108-116 | the header sector of that entry, or -1 |
| `Directories.Directory.Add` | nachos/nachos-3.4/code/filesys/directory.cc:129-143 | succeeds exactly when the name is new and an entry is unused; takes the first unused entry and changes no other |
| `Directories.Directory.Remove` | nachos/nachos-3.4/code/filesys/directory.cc:153-162 | succeeds exactly when the name is there; frees that entry and changes no other |
| `Directories.Directory.FetchFrom` | nachos/nachos-3.4/code/filesys/directory.cc:63-67 | the table becomes what the file encodes |
| `Directories.Directory.WriteBack` | nachos/nachos-3.4/code/filesys/directory.cc:76-80 | the file encodes the table and nothing outside the file changes |
| `DiskLayouts.CreatedConsistent` | nachos/nachos-3.4/code/filesys/filesys.cc:204-218 | installing a file keeps the ownership invariant: marked sectors are the disjoint union of system, header and data sectors |
| `DiskLayouts.RemovedConsistent` | nachos/nachos-3.4/code/filesys/filesys.cc:309-317 | dropping a file keeps it |
| `DiskLayouts.RemoveUndoesCreate` | nachos/nachos-3.4/code/filesys/filesys.cc:185-325 | removing what was just created gives back the free map and the entries in use |
| `DiskSteps.WriteKeepsView` | nachos/nachos-3.4/code/filesys/openfile.cc:155-195 | writing to one file leaves free map, directory and every header alone |
| `DiskSteps.StepKeepsInv` | nachos/nachos-3.4/code/filesys/filesys.cc:185-325 | every request, successful or not, keeps the ownership invariant |
| `DiskSteps.RunKeepsOwnership` | nachos/nachos-3.4/code/filesys/filesys.cc:16-29 | in every state of every run of Create, Remove and writes the free map is exactly the disjoint union of what the system and each file own |
| `DiskSteps.CreateRefines` | nachos/nachos-3.4/code/filesys/filesys.cc:185-226 | Create adds one file of the given size, an empty one for a negative size, to the map from names to contents and changes no other content |
| `DiskSteps.RemoveRefines` | nachos/nachos-3.4/code/filesys/filesys.cc:294-325 | Remove takes exactly that name away |
| `DiskSteps.WriteRefines` | nachos/nachos-3.4/code/filesys/openfile.cc:155-195 | a write changes the content under that name only, by a splice |
| `DiskSteps.StepRefines` | nachos/nachos-3.4/code/filesys/filesys.cc:185-325 | every step on the disk is a step of the abstract file system |
| `DiskSteps.RunRefines` | nachos/nachos-3.4/code/filesys/filesys.cc:16-29 | every run on the disk is a run on a map from names to byte sequences |
| `DiskSteps.CreateUses` | nachos/nachos-3.4/code/filesys/filesys.cc:204-211 | a successful Create takes one sector for the header and just enough for the data off those that are clear |
| `DiskSteps.RemoveReturns` | nachos/nachos-3.4/code/filesys/filesys.cc:301-325 | a successful Remove gives back one sector for the header and one for each data sector |
| `DiskSteps.CreateThenRemove` | nachos/nachos-3.4/code/filesys/filesys.cc:185-325 | Create, of any size, then Remove of a name restores the free map and every file |
| `DiskSteps.ReadsBack` | nachos/nachos-3.4/code/filesys/filesys.cc:137-142 | what the two system files encode is what the next mount sees |
| `DiskSteps.CreateEffect` | nachos/nachos-3.4/code/filesys/filesys.cc:216-218 | the three write-backs together amount to installing the file |
| `DiskSteps.RemoveEffect` | nachos/nachos-3.4/code/filesys/filesys.cc:319-320 | the two write-backs together amount to dropping it |
| `FileSystems.FetchMap` | nachos/nachos-3.4/code/userprog/bitmap.cc:148-152 | the words are read over from the file |
| `FileSystems.WriteBackMap` | nachos/nachos-3.4/code/userprog/bitmap.cc:161-165 | the file holds the words and nothing outside it changes |
| `FileSystems.AllocateSystem` | nachos/nachos-3.4/code/filesys/filesys.cc:93-100 | neither assertion fails: the two system files get distinct sectors apart from sectors 0 and 1 |
| `FileSystems.FlushFormatted` | nachos/nachos-3.4/code/filesys/filesys.cc:115-126 | after both first write-backs the disk is consistent and empty |
| `FileSystems.FormatEffect` | nachos/nachos-3.4/code/filesys/filesys.cc:83-126 | what formatting leaves is consistent, has no files and marks only the system's sectors |
| `FileSystems.FormatDisk` | nachos/nachos-3.4/code/filesys/filesys.cc:83-126 | from any disk with room for the system files: a consistent, empty file system |
| `FileSystems.FileSystem.Format` | nachos/nachos-3.4/code/filesys/filesys.cc:80-148 | from any such disk: a freshly formatted file system to which the two console files were added |
| `FileSystems.FileSystem.Mount` | nachos/nachos-3.4/code/filesys/filesys.cc:137-148 | opening a consistent disk finds its free map and directory; the console files are created unless they exist |
| `FileSystems.FileSystem.InstallConsole` | nachos/nachos-3.4/code/filesys/filesys.cc:143-148 | two calls of Create; the first two places refer to the console files exactly when these exist, and the first places from 2 on refer to the same objects |
| `FileSystems.ConsoleFiles` | nachos/nachos-3.4/code/filesys/filesys.cc:145-146 | on a formatted disk with two entries and two sectors to spare the file system then holds exactly the two empty console files |
| `FileSystems.FileSystem.FetchFreeMap` | nachos/nachos-3.4/code/filesys/filesys.cc:202-203 | the bitmap marks what the disk says is in use |
| `FileSystems.FileSystem.FetchDirectory` | nachos/nachos-3.4/code/filesys/filesys.cc:196-197 | the directory is the table on the disk |
| `FileSystems.FileSystem.Create` | nachos/nachos-3.4/code/filesys/filesys.cc:185-226 | for every size: fails, and the disk is unchanged, exactly when the name is taken, no entry is unused or the sectors do not suffice; otherwise it is a step of the file system for every size up to MaxFileSize, negative ones included, and overflows its table for larger ones; the disk stays consistent |
| `FileSystems.FileSystem.CreateNew` | nachos/nachos-3.4/code/filesys/filesys.cc:202-223 | the same for a name already known to be new |
| `FileSystems.FileSystem.InstallFile` | nachos/nachos-3.4/code/filesys/filesys.cc:210-221 | the same once a header sector and an entry were found |
| `FileSystems.FileSystem.FlushCreated` | nachos/nachos-3.4/code/filesys/filesys.cc:216-218 | the flush at the end of Create installs the file and keeps the invariant |
| `FileSystems.FileSystem.Remove` | nachos/nachos-3.4/code/filesys/filesys.cc:294-325 | succeeds exactly when the name exists, and then drops that file only |
| `FileSystems.FileSystem.RemoveAt` | nachos/nachos-3.4/code/filesys/filesys.cc:309-320 | drops the file of the entry found and keeps the invariant |
| `FileSystems.FileSystem.Release` | nachos/nachos-3.4/code/filesys/filesys.cc:309-316 | the free map loses exactly the sectors of the file |
| `FileSystems.FileSystem.FlushRemoved` | nachos/nachos-3.4/code/filesys/filesys.cc:319-320 | the flush at the end of Remove drops the file and keeps the invariant |
| `FileSystems.FileSystem.Open` | nachos/nachos-3.4/code/filesys/filesys.cc:238-257 | the file of the first entry with that name, at position 0, in the first free place of the table of open files; null exactly when there is no such file or no free place |
| `FileSystems.FileSystem.FindPlace` | nachos/nachos-3.4/code/filesys/filesys.cc:248-249 | the first free place from the third on, or -1 exactly when there is none |
| `FileSystems.FileSystem.FindFile` | nachos/nachos-3.4/code/filesys/filesys.cc:245-247 | the header sector of the name, or -1 |
| `FileSystems.FileSystem.Close` | nachos/nachos-3.4/code/userprog/exception.cc:245-267 | gives a place back exactly when it is one of the eight and in use |
| `Transfers.CopyChunk` | nachos/nachos-3.4/code/filesys/fstest.cc:63-64 | one round of the copying loop extends the copied prefix |
| `Transfers.CopyLoop` | nachos/nachos-3.4/code/filesys/fstest.cc:61-65 | the file ends up with exactly the source bytes and nothing else changes |
| `Transfers.CreateThenFill` | nachos/nachos-3.4/code/filesys/fstest.cc:52-65 | creating and filling a file maps its name to the source bytes and changes no other file |
| `Transfers.Copy` | nachos/nachos-3.4/code/filesys/fstest.cc:31-70 | not created exactly when Create cannot succeed, too long above MaxFileSize, not opened (the assertion fails) exactly when no place is left, and then the file was created; otherwise the name maps to exactly the source bytes; each copy uses up one place |
| `Transfers.CopyInto` | nachos/nachos-3.4/code/filesys/fstest.cc:58-65 | opens a file of the right size and makes the source its content |
| `Transfers.FillOpened` | nachos/nachos-3.4/code/filesys/fstest.cc:61-65 | the content under that name is the source, no other changes |
| `Transfers.OpenNamed` | nachos/nachos-3.4/code/filesys/filesys.cc:238-257 | the open file holds what the map from names to contents says |
| `Transfers.PrintLoop` | nachos/nachos-3.4/code/filesys/fstest.cc:89-93 | the loop outputs the whole content |
| `Transfers.Print` | nachos/nachos-3.4/code/filesys/fstest.cc:77-97 | outputs exactly the content under that name; nothing exactly when there is none or no place is left; each print uses up one place |
| `Handles.HandleKeepsOwnership` | nachos/nachos-3.4/code/filesys/openfile.cc:30-36 | writes through a header read earlier keep the ownership invariant, all of them, exactly when no header of a file lies among its sectors |
| `Handles.HandleKeepsFiles` | nachos/nachos-3.4/code/filesys/openfile.cc:30-36 | they change no file exactly when none of its sectors belongs to a file |
| `Handles.HandleSafeIfUnmarked` | nachos/nachos-3.4/code/filesys/openfile.cc:30-36 | the same as the free map tells it: exactly when none of its sectors is marked |
| `Handles.HeaderHit` | nachos/nachos-3.4/code/filesys/openfile.cc:155-195 | some write through a handle that shares a sector with a file's header destroys the file |
| `Handles.DataHit` | nachos/nachos-3.4/code/filesys/openfile.cc:155-195 | some write through a handle that shares a data sector with a file changes what the file holds |
| `Handles.RemoveThenCreate` | nachos/nachos-3.4/code/filesys/filesys.cc:185-325 | a Create that needs more data sectors than were clear before a Remove reuses a sector of the removed file |
| `Handles.CanReplace` | nachos/nachos-3.4/code/filesys/filesys.cc:185-325 | after the removal of a file its name can be created again with as much data as is then clear |
| `Handles.RemovedWhileOpen` | nachos/nachos-3.4/code/filesys/filesys.cc:185-325 | on every disk: Open, then Remove, then Create of that name with more data than had been clear but not more than is now; both calls succeed and some write through the old handle destroys or changes a file |
| `Handles.CurrentWrite` | nachos/nachos-3.4/code/filesys/openfile.cc:91-97 | a write through a handle that is still current is a write to that file |
| `Handles.RunKeepsHandles` | nachos/nachos-3.4/code/filesys/filesys.cc:185-325 | in every run of Create, Remove, Open, Close and writes in which no file is removed while open, the disk stays consistent and every handle is the header of a file |
| `Translation.TranslateInBounds` | nachos/nachos-3.4/code/machine/translate.cc:240-252 | an access of 1, 2 or 4 bytes that translates stays inside memory and inside its page (the final assertion holds) |
| `Translation.TranslateOutcome` | nachos/nachos-3.4/code/machine/translate.cc:186-255 | which exception a translation raises, in order: misaligned, past the end of the table, no valid entry of the page, read-only, no such frame; else the frame of the first valid entry and the offset |
| `Translation.TlbAgreesWithTable` | nachos/nachos-3.4/code/machine/translate.cc:211-234 | a TLB whose entries copy the page table either faults or gives the page table's answer |
| `Translation.TouchKeepsTranslation` | nachos/nachos-3.4/code/machine/translate.cc:248-250 | use and dirty bits never change a later translation |
| `Translation.SpacesIsolated` | nachos/nachos-3.4/code/machine/translate.cc:137-169 | a write through one table changes no read through a table with other frames |
| `Translation.DisjointAccess` | nachos/nachos-3.4/code/machine/translate.cc:87-169 | within one space, by page table or TLB, in which no frame stands for two pages, a write changes no read that it does not overlap |
| `Translation.ReadAfterWrite` | nachos/nachos-3.4/code/machine/translate.cc:87-169 | a value written and read back comes back cut to its size, with the sign of a char |
| `Translation.Machine.constructor` | nachos/nachos-3.4/code/machine/machine.cc:55-76 | memory starts as zeros |
| `Translation.Machine.TranslateAddress` | nachos/nachos-3.4/code/machine/translate.cc:186-255 | the imperative form, with its TLB search, computes the translation; one entry becomes used, and dirty if it was or on a write, and nothing else changes |
| `Translation.Machine.SearchTlb` | nachos/nachos-3.4/code/machine/translate.cc:223-227 | finds the first valid entry for the page, or reports that there is none |
| `Translation.Machine.ReadMem` | nachos/nachos-3.4/code/machine/translate.cc:87-122 | the value at the address, or the exception of the translation, by page table or TLB |
| `Translation.Machine.WriteMem` | nachos/nachos-3.4/code/machine/translate.cc:137-169 | writes just those bytes, or reports the exception and writes nothing, by page table or TLB |
| `AddrSpaces.SplitFits` | nachos/nachos-3.4/code/userprog/addrspace.cc:173-186 | the remainder computations of the loader, in wrap-around arithmetic, cut code and data into pieces that fit end to end, also with no code, exact pages or data that fits the shared page |
| `AddrSpaces.LastPiece` | nachos/nachos-3.4/code/userprog/addrspace.cc:173-184 | the size of the last page comes out between 1 and a page, or a whole page for an empty segment |
| `AddrSpaces.PhysicalInjective` | nachos/nachos-3.4/code/userprog/addrspace.cc:158-169 | different virtual addresses are different physical ones |
| `AddrSpaces.ChunkLoaded` | nachos/nachos-3.4/code/userprog/addrspace.cc:188-206 | one ReadAt into a page extends the loaded image by its bytes |
| `AddrSpaces.PageAdded` | nachos/nachos-3.4/code/userprog/addrspace.cc:158-169 | one more page takes a fresh frame and zeroes it, and no other memory |
| `AddrSpaces.AllocatePages` | nachos/nachos-3.4/code/userprog/addrspace.cc:158-169 | every page gets its own frame that was clear, zeroed; exactly these are marked |
| `AddrSpaces.LoadCode` | nachos/nachos-3.4/code/userprog/addrspace.cc:188-192 | all code is in place |
| `AddrSpaces.LoadShared` | nachos/nachos-3.4/code/userprog/addrspace.cc:194-199 | the start of the data follows the code in the shared page |
| `AddrSpaces.LoadData` | nachos/nachos-3.4/code/userprog/addrspace.cc:201-206 | all initialised data is in place |
| `AddrSpaces.LoadSegments` | nachos/nachos-3.4/code/userprog/addrspace.cc:173-206 | memory seen through the page table is the flat image, and only frames of the table changed |
| `AddrSpaces.LoadProgram` | nachos/nachos-3.4/code/userprog/addrspace.cc:158-206 | allocation and loading together: fresh frames, through which the program reads exactly its own bytes of the file |
| `AddrSpaces.ReadHeader` | nachos/nachos-3.4/code/userprog/addrspace.cc:136-136 | the header is the decoded start of the file; every field is the int at its position in it |
| `AddrSpaces.HeaderLayout` | nachos/nachos-3.4/code/bin/noff.h:12-25 | the ten ints of the header: magic number, then address, file position and size of code, initialised and uninitialised data |
| `AddrSpaces.CountPages` | nachos/nachos-3.4/code/userprog/addrspace.cc:136-147 | the page count is that of the three segment sizes in the file and a stack of 1024 bytes, rounded up to pages of 128 |
| `AddrSpaces.ImageIsProgram` | nachos/nachos-3.4/code/userprog/addrspace.cc:158-206 | a program reads at every address below its code size the byte of the file that many bytes behind the code, then those of the initialised data, then zeros |
| `AddrSpaces.ImageThroughTranslate` | nachos/nachos-3.4/code/userprog/addrspace.cc:173-206 | every byte a program reads in its space is the byte of its image |
| `AddrSpaces.ImageIsSegmentImage` | nachos/nachos-3.4/code/userprog/addrspace.cc:188-206 | the loader ignores the data segment's address: the loaded image is the one the header describes exactly when the data segment is empty or starts right after the code |
| `AddrSpaces.AddrSpace.Load` | nachos/nachos-3.4/code/userprog/addrspace.cc:123-210 | on the bytes of the file: aborts exactly without the magic number; loads exactly when the pages that the segment sizes ask for are clear, and then every address reads its byte of the file in frames that were free; else changes nothing; a step of the runs below |
| `AddrSpaces.AddrSpace.Destroy` | nachos/nachos-3.4/code/userprog/addrspace.cc:217-221 | exactly the frames of the space are given back, a step of the runs below |
| `AddrSpaces.AddrSpace.RestoreState` | nachos/nachos-3.4/code/userprog/addrspace.cc:274-278 | the machine translates through this space's table |
| `AddrSpaces.LoadKeepsSpaces` | nachos/nachos-3.4/code/userprog/addrspace.cc:158-169 | a load keeps the frame map the disjoint union of the live spaces' frames |
| `AddrSpaces.DestroyKeepsSpaces` | nachos/nachos-3.4/code/userprog/addrspace.cc:217-221 | a destruction keeps it |
| `AddrSpaces.RunKeepsSpaces` | nachos/nachos-3.4/code/userprog/addrspace.cc:123-221 | over every sequence of loads, refusals and destructions the frame map is the disjoint union of the live spaces' frames |
| `AddrSpaces.RunIsolates` | nachos/nachos-3.4/code/userprog/addrspace.cc:123-221 | in every reachable state a write by one live space changes no read of another |
| `LinkedLists.InsertSplits` | nachos/nachos-3.4/code/threads/list.cc:178-202 | insertion adds the element at one place, behind all keys that are not greater before it |
| `LinkedLists.InsertSorted` | nachos/nachos-3.4/code/threads/list.cc:178-202 | a sorted list stays sorted and equal keys keep their order of insertion |
| `LinkedLists.InsertMultiset` | nachos/nachos-3.4/code/threads/list.cc:178-202 | nothing is lost or duplicated |
| `LinkedLists.List.Append` | nachos/nachos-3.4/code/threads/list.cc:76-88 | the item becomes the last |
| `LinkedLists.List.Prepend` | nachos/nachos-3.4/code/threads/list.cc:102-114 | the item becomes the first |
| `LinkedLists.List.IsEmpty` | nachos/nachos-3.4/code/threads/list.cc:154-161 | true exactly when nothing is on the list |
| `LinkedLists.List.Remove` | nachos/nachos-3.4/code/threads/list.cc:124-128 | the first item, and the list without it |
| `LinkedLists.List.SortedInsert` | nachos/nachos-3.4/code/threads/list.cc:178-202 | the linked list becomes the insertion into its sequence |
| `LinkedLists.List.FindPlace` | nachos/nachos-3.4/code/threads/list.cc:192-193 | the scan stops at the last element whose key is not greater |
| `LinkedLists.List.LinkMiddle` | nachos/nachos-3.4/code/threads/list.cc:193-197 | the new element stands between its neighbours and no other link changes |
| `LinkedLists.List.LinkLast` | nachos/nachos-3.4/code/threads/list.cc:199-200 | the new element is the last |
| `LinkedLists.List.SortedRemove` | nachos/nachos-3.4/code/threads/list.cc:217-237 | the first element with its key, and the list without it; nothing on an empty list |
| `Interrupts.ScheduleKeepsInv` | nachos/nachos-3.4/code/machine/interrupt.cc:264-275 | scheduling keeps the pending list sorted, the history conserved and the clock right |
| `Interrupts.ScheduledAt` | nachos/nachos-3.4/code/machine/interrupt.cc:264-276 | a request n ticks ahead adds exactly one pending interrupt, due at now plus n |
| `Interrupts.CheckIfDueKeepsInv` | nachos/nachos-3.4/code/machine/interrupt.cc:290-336 | every call keeps order, conservation and clock, in all three outcomes |
| `Interrupts.IdleGoesToFirst` | nachos/nachos-3.4/code/machine/interrupt.cc:293-346 | an idle machine advances to the first interrupt, charges the wait as idle time and fires it, unless it is the timer alone |
| `Interrupts.FiringUsesOne` | nachos/nachos-3.4/code/machine/interrupt.cc:290-336 | firing without advancing the clock uses up one due interrupt, so the firing loop ends |
| `Interrupts.StopMeansNothingDue` | nachos/nachos-3.4/code/machine/interrupt.cc:290-336 | when a call fires nothing, nothing is due, unless an idle machine has only the timer left |
| `Interrupts.FiringKeeps` | nachos/nachos-3.4/code/machine/interrupt.cc:169-170 | the firing loop keeps the clock still and appends to the history one event per round |
| `Interrupts.OneTickFiresAllDue` | nachos/nachos-3.4/code/machine/interrupt.cc:150-179 | one tick adds ten to total and system time in the kernel and one to total and user time in a user program, fires exactly as many interrupts as are due by then and leaves none due |
| `Interrupts.RunKeepsTime` | nachos/nachos-3.4/code/machine/interrupt.cc:150-336 | over every run interrupts fire in time order and never early, none is lost or duplicated, and total time is idle plus system plus user time |
| `Interrupts.RunCharges` | nachos/nachos-3.4/code/machine/stats.h:52-53 | over every run system time is ten for every tick in the kernel and user time one for every other tick |
| `Interrupts.RunIdles` | nachos/nachos-3.4/code/machine/interrupt.cc:150-336 | and all the rest of the total is idle time |
| `Interrupts.Interrupt.constructor` | nachos/nachos-3.4/code/machine/interrupt.cc:60-67 | interrupts off, nothing pending |
| `Interrupts.Interrupt.ScheduleInterrupt` | nachos/nachos-3.4/code/machine/interrupt.cc:264-275 | the interrupt joins the pending list at now plus the delay |
| `Interrupts.Interrupt.CheckDue` | nachos/nachos-3.4/code/machine/interrupt.cc:290-336 | the imperative form agrees with the step whatever the handler schedules |
| `Interrupts.Interrupt.FireUnlessLast` | nachos/nachos-3.4/code/machine/interrupt.cc:315-335 | fires the head unless it is the timer of an otherwise finished idle machine |
| `Interrupts.Interrupt.FireDue` | nachos/nachos-3.4/code/machine/interrupt.cc:169-170 | the loop terminates and amounts to firing until nothing is due |
| `Interrupts.Interrupt.Advance` | nachos/nachos-3.4/code/machine/interrupt.cc:150-179 | time advances by the tick of the mode, everything due fires, and a wanted yield is reported once |
| `Interrupts.Interrupt.Idle` | nachos/nachos-3.4/code/machine/interrupt.cc:210-234 | time jumps to the next interrupt; the machine halts exactly when there is none or only the timer |
| `Interrupts.Interrupt.SetLevel` | nachos/nachos-3.4/code/machine/interrupt.cc:114-127 | enabling interrupts that were off is the only change of level that lets time pass |
| `Multiplier.HalveTimes` | nachos/nachos-3.4/code/machine/mipssim.cc:663-678 | one step takes the current multiple for the lowest bit and halves what is left |
| `Multiplier.AddPair` | nachos/nachos-3.4/code/machine/mipssim.cc:665-668 | adding two words with the carry test adds the numbers |
| `Multiplier.ShiftPair` | nachos/nachos-3.4/code/machine/mipssim.cc:672-676 | shifting both words with the carried bit doubles the number |
| `Multiplier.NegatePair` | nachos/nachos-3.4/code/machine/mipssim.cc:682-688 | complementing both words and adding one negates the number |
| `Multiplier.MultiplyUnsigned` | nachos/nachos-3.4/code/machine/mipssim.cc:659-678 | the loop, with its early exit, computes the exact product of two words |
| `Multiplier.SignedResult` | nachos/nachos-3.4/code/machine/mipssim.cc:643-688 | the sign put back on the product of the magnitudes gives the signed product, also for the most negative numbers |
| `Multiplier.Mult` | nachos/nachos-3.4/code/machine/mipssim.cc:635-692 | HI and LO receive the exact 64-bit product, signed or unsigned |
| `DiskTiming.ModuloDiff` | nachos/nachos-3.4/code/machine/disk.cc:202-209 | advancing by the result reaches a sector at the target's offset |
| `DiskTiming.ModuloDiffLeast` | nachos/nachos-3.4/code/machine/disk.cc:202-209 | and no smaller advance does |
| `DiskTiming.RotationAfter` | nachos/nachos-3.4/code/machine/disk.cc:186-192 | less than one sector time, and then a boundary |
| `DiskTiming.SeekLaws` | nachos/nachos-3.4/code/machine/disk.cc:182-184 | seeks cost the same both ways, nothing exactly within a track, 500 ticks to a neighbour, and add up over a track in between |
| `DiskTiming.LatencyIsFirstPass` | nachos/nachos-3.4/code/machine/disk.cc:232-253 | a request the buffer does not answer ends when the head first finishes passing the sector after 500 ticks for every track in between |
| `DiskTiming.BufferHitIffPassed` | nachos/nachos-3.4/code/machine/disk.cc:239-246 | exactly the reads of the same track whose sector has gone by entirely between the start of the buffer and the next boundary are hits, and these take 500 ticks |
| `DiskTiming.HitIsPassedAlready` | nachos/nachos-3.4/code/machine/disk.cc:239-246 | measured at the moment of the request itself, hits are right for every sector of the disk exactly when the request comes on a boundary or after more than a whole turn |
| `DiskTiming.NotYetPassed` | nachos/nachos-3.4/code/machine/disk.cc:239-246 | otherwise a sector of the disk, the one still under the head, counts as a hit |
| `DiskTiming.LatencyBounds` | nachos/nachos-3.4/code/machine/disk.cc:232-253 | every request takes at least 500 and less than 32000 ticks |
| `DiskTiming.AskInNumbers` | nachos/nachos-3.4/code/machine/disk.cc:115-271 | what a request does to the device, by track and offset: when it is done, and that the buffer restarts at the first boundary after a seek, exactly if there is one |
| `DiskTiming.Disk.TimeToSeek` | nachos/nachos-3.4/code/machine/disk.cc:179-194 | seek time and the wait for the next boundary |
| `DiskTiming.Disk.ComputeLatency` | nachos/nachos-3.4/code/machine/disk.cc:232-253 | the latency of the request |
| `DiskTiming.Disk.UpdateLast` | nachos/nachos-3.4/code/machine/disk.cc:261-271 | the buffer restarts exactly on a seek |
| `DiskTiming.Disk.Request` | nachos/nachos-3.4/code/machine/disk.cc:115-153 | a step of the runs below: one request at a time, its interrupt in the future and bounded, the buffer restarted exactly on a seek |
| `DiskTiming.Disk.HandleInterrupt` | nachos/nachos-3.4/code/machine/disk.cc:161-166 | the disk is idle again, a step of the runs below |
| `DiskTiming.RunKeepsBuffer` | nachos/nachos-3.4/code/machine/disk.cc:115-271 | over every run the buffer starts on a boundary and, whenever the disk is idle, not in the future |
| `Decimals.ParseOfText` | nachos/nachos-3.4/code/userprog/exception.cc:62-113 | reading the decimal text of any integer gives the integer back |
| `Decimals.TextOfParse` | nachos/nachos-3.4/code/userprog/exception.cc:62-113 | printing what was read gives the text back, for every text without leading zeros or a sign on zero |
| `Decimals.TextFits` | nachos/nachos-3.4/code/userprog/exception.cc:86-113 | the text fits the ten-byte buffer exactly for numbers above -10^9 |
| `Decimals.WriteDigits` | nachos/nachos-3.4/code/userprog/exception.cc:98-101 | the digit loop writes the digits least significant first |
| `Decimals.SwapEnds` | nachos/nachos-3.4/code/userprog/exception.cc:104-108 | the swap loop reverses in place |
| `Decimals.PrintNum` | nachos/nachos-3.4/code/userprog/exception.cc:86-113 | for every int: the decimal text, only the sign for the most negative one, and an overrun exactly for the others up to -10^9 |
| `Decimals.ReadNum` | nachos/nachos-3.4/code/userprog/exception.cc:62-85 | the value of an optional sign and digits; nothing for no input; a stop for anything else |
| `Decimals.ReadBack` | nachos/nachos-3.4/code/userprog/exception.cc:62-113 | of the numbers that can be printed, exactly those between -10^8 and 10^9 are read back from the first nine characters |
| `Decimals.RoundTrip` | nachos/nachos-3.4/code/userprog/exception.cc:62-113 | the same of the two programs one after the other |
| `Kernels.StepKeepsStructure` | nachos/nachos-3.4/code/threads/thread.cc:58-226 | every step keeps each live thread in exactly one place and deletes only finished, non-current threads |
| `Kernels.StepKeepsInv` | nachos/nachos-3.4/code/threads/synch.cc:64-98 | every step keeps the semaphore accounting too |
| `Kernels.RunKeepsInv` | nachos/nachos-3.4/code/threads/synch.cc:64-98 | in every interleaving of any number of threads each semaphore's value is its initial value plus Vs minus completed Ps and never negative, and each live thread is in exactly one place |
| `Kernels.NoLostWakeup` | nachos/nachos-3.4/code/threads/synch.cc:64-98 | whenever threads wait while the value is positive, a woken thread is ready or running to take it |
| `Kernels.DeadStayAway` | nachos/nachos-3.4/code/threads/scheduler.cc:90-135 | a deleted thread is never current, ready or queued again |
| `Kernels.FinishedFate` | nachos/nachos-3.4/code/threads/scheduler.cc:116-127 | a finished thread is deleted by the next thread that resumes, unless another finishes before that: then it is forgotten |
| `Kernels.NothingForgotten` | nachos/nachos-3.4/code/threads/thread.cc:143-154 | over every run no finished thread is forgotten if and only if none finishes while another waits to be deleted |
| `Kernels.FreshThreadForgets` | nachos/nachos-3.4/code/threads/scheduler.cc:116-127 | from every consistent state: a thread finishes, the next has not run before and finishes too, and the first is forgotten |
| `Kernels.StepIsFifo` | nachos/nachos-3.4/code/threads/scheduler.cc:53-74 | a step leaves the front of the ready list alone or dispatches exactly its head |
| `Kernels.StepSwitches` | nachos/nachos-3.4/code/threads/thread.cc:184-188 | a step that gives up the processor (yield, finish, a P that sleeps, the end of idling) makes the head of the ready list current and is one dispatch, any other is none; the rest moves up, and a yielding, new or woken thread is last |
| `Kernels.NobodyReady` | nachos/nachos-3.4/code/threads/thread.cc:211-226 | with nothing ready a yield changes nothing, and a sleep or finish leaves the machine idle |
| `Kernels.ForkedExists` | nachos/nachos-3.4/code/threads/thread.cc:87-99 | exactly the new thread is added |
| `Kernels.DispatchInOrder` | nachos/nachos-3.4/code/threads/scheduler.cc:53-74 | over every run, however long, the thread at index i of the ready list is the one switched to at the (i+1)-th dispatch from then on |
| `Kernels.GiveUpsDispatch` | nachos/nachos-3.4/code/threads/scheduler.cc:53-135 | over every run, as long as a ready thread waits for its turn, dispatches are as many as steps that give up the processor |
| `Kernels.ReadyRuns` | nachos/nachos-3.4/code/threads/scheduler.cc:53-135 | progress in every run: the thread at index i of the ready list has run once i + 1 steps have given up the processor |
| `Kernels.StepQueues` | nachos/nachos-3.4/code/threads/synch.cc:64-98 | P takes a unit exactly when there is one and else queues last; V adds one and makes the thread that waited longest ready; nothing else changes a semaphore |
| `Kernels.WokenInOrder` | nachos/nachos-3.4/code/threads/synch.cc:64-98 | over every run, as many threads from the front of a queue are gone as there were Vs, and the others are still first |
| `Kernels.WokenIsReady` | nachos/nachos-3.4/code/threads/synch.cc:87-98 | the thread at index i of a queue is made ready by exactly the (i+1)-th V |
| `Kernels.ThreadSystem.constructor` | nachos/nachos-3.4/code/threads/thread.cc:35-44 | the main thread runs, all else is empty, and the invariant holds |
| `Kernels.ThreadSystem.ReadyToRun` | nachos/nachos-3.4/code/threads/scheduler.cc:53-60 | the thread is last on the ready list |
| `Kernels.ThreadSystem.FindNextToRun` | nachos/nachos-3.4/code/threads/scheduler.cc:70-74 | the head leaves the ready list; nothing on an empty one |
| `Kernels.ThreadSystem.RunThread` | nachos/nachos-3.4/code/threads/scheduler.cc:90-135 | switches, and a thread that resumes deletes the finished one, which is never the current one |
| `Kernels.ThreadSystem.ForkThread` | nachos/nachos-3.4/code/threads/thread.cc:87-99 | the step of the model, invariant kept |
| `Kernels.ThreadSystem.YieldThread` | nachos/nachos-3.4/code/threads/thread.cc:174-190 | the step of the model, invariant kept |
| `Kernels.ThreadSystem.SleepThread` | nachos/nachos-3.4/code/threads/thread.cc:211-226 | dispatches the head, or idles when nothing is ready |
| `Kernels.ThreadSystem.FinishThread` | nachos/nachos-3.4/code/threads/thread.cc:143-154 | the thread is marked for deletion by the next and never runs again |
| `Kernels.ThreadSystem.TestSemaphore` | nachos/nachos-3.4/code/threads/synch.cc:64-77 | one round of the loop in P: take a unit, or queue and sleep; invariant kept |
| `Kernels.ThreadSystem.V` | nachos/nachos-3.4/code/threads/synch.cc:87-98 | the first waiter becomes ready and the value grows; invariant kept |
| `Kernels.ThreadSystem.Resume` | nachos/nachos-3.4/code/threads/thread.cc:220-225 | the idle loop goes on once a thread is ready |
| `ProcessTables.StepKeepsInv` | nachos/nachos-3.4/code/threads/ptable.cc:20-121 | every step of disciplined processes is safe and keeps the handshake invariant |
| `ProcessTables.RunKeepsInv` | nachos/nachos-3.4/code/threads/ptable.cc:20-121 | so does every run, in any interleaving |
| `ProcessTables.JoinReturnsExitCode` | nachos/nachos-3.4/code/threads/ptable.cc:88-103 | Join has read exactly the code its child passed to Exit, and the child is still there, waiting to be let go |
| `ProcessTables.FreedAfterJoin` | nachos/nachos-3.4/code/threads/ptable.cc:80-84 | a process frees its slot only after its parent read its code |
| `ProcessTables.RunIsSafe` | nachos/nachos-3.4/code/threads/ptable.cc:68-103 | no step ever touches a control block that is gone |
| `ProcessTables.CallerFound` | nachos/nachos-3.4/code/threads/ptable.cc:46-49 | the search by name finds the caller exactly when no later slot holds a process of that name |
| `ProcessTables.RunFindsCaller` | nachos/nachos-3.4/code/threads/ptable.cc:70-94 | in every disciplined run each process is found by its own name |
| `ProcessTables.SoundIsSafe` | nachos/nachos-3.4/code/threads/ptable.cc:68-103 | where every Join waits for or has read a child of its own, nothing that may happen next touches a control block that is gone |
| `ProcessTables.TwoChildrenBreak` | nachos/nachos-3.4/code/threads/ptable.cc:46-66 | from every consistent table: after an Exec of a program of its own by a process with a child still to be joined, disciplined steps alone lead to a Join that has read 0 from a child that has not called Exit |
| `ProcessTables.SameNameBreaks` | nachos/nachos-3.4/code/threads/ptable.cc:46-66 | after an Exec of a program that a live process runs, the search of the table for one of the two finds the other |
| `ProcessTables.SecondJoinBreaks` | nachos/nachos-3.4/code/threads/ptable.cc:88-103 | from every consistent table: a second Join of a child leads to a parent that waits for a child that is gone |
| `ProcessTables.SecondJoinTouchesFreed` | nachos/nachos-3.4/code/threads/ptable.cc:88-103 | and, when another child exits, to a parent that reads a control block that is gone |
| `ProcessTables.EarlyExitBreaks` | nachos/nachos-3.4/code/threads/ptable.cc:68-86 | from every consistent table: an Exit before the child was joined leads to a child whose parent is gone |
| `ProcessTables.OrphanTouchesFreed` | nachos/nachos-3.4/code/threads/ptable.cc:68-86 | and, when that child exits, to the release of a control block that is gone |
| `ProcessTables.DisciplineIsExact` | nachos/nachos-3.4/code/threads/ptable.cc:20-103 | from every consistent table: every disciplined future of a step is sound (every process is found by its own name, waits for or has read a child of its own, and has a parent to release) if and only if the step is disciplined |
| `ProcessTables.PTable.constructor` | nachos/nachos-3.4/code/threads/ptable.cc:4-11 | only the main process, in slot 0 |
| `ProcessTables.PTable.FindCaller` | nachos/nachos-3.4/code/threads/ptable.cc:46-49 | the last slot with that name, or -1 |
| `ProcessTables.PTable.ExecUpdate` | nachos/nachos-3.4/code/threads/ptable.cc:20-66 | refuses exactly in the listed cases; otherwise a new process of the caller in the least free slot; a slot is lost, its bit marked with no process behind it, exactly when the caller is not in the table and nothing before the search refused; every other refusal leaves the bitmap alone |
| `ProcessTables.PTable.BeginExit` | nachos/nachos-3.4/code/threads/ptable.cc:68-79 | unknown caller, main process or the start of the exit handshake |
| `ProcessTables.PTable.BeginJoin` | nachos/nachos-3.4/code/threads/ptable.cc:88-97 | refuses exactly what is not the caller's child; indexes the table with -1 exactly when a caller that is not in the table names the main process |
| `ProcessTables.PTable.Advance` | nachos/nachos-3.4/code/threads/ptable.cc:80-102 | each later action of Exit and Join is the step of the model, and the bitmap marks exactly the slots in use |
| `ProcessTables.PTable.Remove` | nachos/nachos-3.4/code/threads/ptable.cc:115-121 | frees that slot only; nothing for an empty or impossible slot |
| `Decoding.DecodeIsHandled` | nachos/nachos-3.4/code/machine/mipssim.cc:589-626 | whatever word is fetched, the decoded operation has a case in the switch |
| `Decoding.DecodeCompose` | nachos/nachos-3.4/code/machine/mipssim.h:117-150 | every field that was put into a word is read back from it, the constant with its sign |
| `Decoding.DecodeImmediate` | nachos/nachos-3.4/code/machine/mipssim.cc:589-626 | a word with a signed half-word constant is decoded to its fields |
| `Decoding.DecodeJump` | nachos/nachos-3.4/code/machine/mipssim.cc:589-626 | a jump word is decoded to its target |
| `Bitwise.ApplyBit` | nachos/nachos-3.4/code/machine/mipssim.cc:153-155 | a bitwise operator acts on each of the 32 digits by itself |
| `Bitwise.XorSign` | nachos/nachos-3.4/code/machine/mipssim.cc:127-128 | the masked xor of two ints tells whether their signs differ |
| `ProcessorRuns.AddTraps` | nachos/nachos-3.4/code/machine/mipssim.cc:125-133 | ADD traps exactly when the sum is not a 32-bit number, and otherwise assigns the exact sum |
| `ProcessorRuns.AddImmediateTraps` | nachos/nachos-3.4/code/machine/mipssim.cc:135-143 | the same for ADDI |
| `ProcessorRuns.SubtractTraps` | nachos/nachos-3.4/code/machine/mipssim.cc:457-465 | the same for SUB and the difference |
| `ProcessorRuns.DivideSigned` | nachos/nachos-3.4/code/machine/mipssim.cc:195-203 | LO and HI hold a quotient and remainder, the remainder below the divisor and with the dividend's sign |
| `ProcessorRuns.DivideUnsigned` | nachos/nachos-3.4/code/machine/mipssim.cc:205-217 | quotient and remainder of the unsigned values |
| `ProcessorRuns.SrlIsLogical` | nachos/nachos-3.4/code/machine/mipssim.cc:445-455 | SRL and SRLV shift the sign in: they are logical shifts exactly for shifts by zero and non-negative words |
| `ProcessorRuns.OrIsOr` | nachos/nachos-3.4/code/machine/mipssim.cc:375-377 | OR reads its first operand twice: it is the bitwise or exactly when the second operand adds no bit |
| `ProcessorRuns.InstructionIsLawful` | nachos/nachos-3.4/code/machine/mipssim.cc:93-565 | every instruction either stops the simulator, or traps with memory, both program counters and all other registers as they were, or completes with the counters advanced, the pending load delivered and at most one other general register changed |
| `ProcessorRuns.InstructionStops` | nachos/nachos-3.4/code/machine/mipssim.cc:280-532 | the simulator stops exactly on an unaligned LWL, LWR, SWL or SWR |
| `ProcessorRuns.BranchDelay` | nachos/nachos-3.4/code/machine/mipssim.cc:560-564 | the instruction after a branch runs before its target, and a trap there keeps the target |
| `ProcessorRuns.LoadDelay` | nachos/nachos-3.4/code/machine/mipssim.cc:575-582 | the instruction after a load does not see the value, and after it, whatever it was, the register holds it |
| `ProcessorRuns.InstructionIsolated` | nachos/nachos-3.4/code/machine/mipssim.cc:93-565 | an instruction of one program changes no read of a program with other frames |
| `ProcessorRuns.NextKeepsValid` | nachos/nachos-3.4/code/machine/mipssim.cc:93-582 | instructions, interrupts, kernel writes and switches keep R0 zero and the pending load a general register |
| `ProcessorRuns.RunKeepsRegisters` | nachos/nachos-3.4/code/machine/mipssim.cc:93-582 | so it is at every boundary of every run, for the running and for every switched-out program |
| `ProcessorRuns.RunIsolates` | nachos/nachos-3.4/code/machine/mipssim.cc:93-582 | over any stretch of a run in which a program does not run, nothing it can read changes |
| `Processor.SameMappingPerforms` | nachos/nachos-3.4/code/machine/translate.cc:248-250 | use and dirty bits make no difference to what an instruction does |
| `Processor.ProductWords` | nachos/nachos-3.4/code/machine/mipssim.cc:361-369 | the two words of an exact product are the ones HI and LO are specified to hold |
| `Processor.Cpu.constructor` | nachos/nachos-3.4/code/machine/machine.cc:59-60 | all registers zero |
| `Processor.Cpu.ApplyDelayedLoad` | nachos/nachos-3.4/code/machine/mipssim.cc:575-582 | the pending load is delivered, the next one recorded and R0 zeroed |
| `Processor.Cpu.RaiseException` | nachos/nachos-3.4/code/machine/machine.cc:100-111 | the faulting address is recorded and the pending load delivered |
| `Processor.Cpu.RetireInstruction` | nachos/nachos-3.4/code/machine/mipssim.cc:555-565 | the pending load, then the program counters |
| `Processor.Cpu.MultiplyRegisters` | nachos/nachos-3.4/code/machine/mipssim.cc:361-369 | HI and LO of the product by the shift-and-add loop |
| `Processor.Cpu.LoadRegister` | nachos/nachos-3.4/code/machine/mipssim.cc:231-343 | the load, or its exception, as specified |
| `Processor.Cpu.StoreValue` | nachos/nachos-3.4/code/machine/mipssim.cc:383-475 | the store, or its exception, as specified |
| `Processor.Cpu.MergeWord` | nachos/nachos-3.4/code/machine/mipssim.cc:477-532 | read, merge, write back, with either exception, as specified |
| `Processor.Cpu.OneInstruction` | nachos/nachos-3.4/code/machine/mipssim.cc:93-565 | in place on the registers, memory and page table, exactly the specified result |
| `InstructionSet.CompareBranches` | nachos/nachos-3.4/code/machine/mipssim.cc:161-194 | words of operation 4 to 7: the next program counter but one is four times the signed half word on exactly when the registers are equal, differ, or the first is at most or above zero, else four on; no register changes |
| `InstructionSet.SignBranches` | nachos/nachos-3.4/code/machine/mipssim.cc:166-188 | operation 1: the same by the sign of the register, with or without the return address in register 31, which is stored first; other fields are illegal |
| `InstructionSet.FarJumps` | nachos/nachos-3.4/code/machine/mipssim.cc:219-223 | operations 2 and 3: the target within the 2^28 bytes of the instruction after the next, with or without the return address |
| `InstructionSet.RegisterJumps` | nachos/nachos-3.4/code/machine/mipssim.cc:225-229 | functions 8 and 9: to the address in a register, with or without the return address, which is stored first |
| `InstructionSet.SumsAndComparisons` | nachos/nachos-3.4/code/machine/mipssim.cc:125-469 | functions 32 to 35, 42 and 43: the exact sum, difference or comparison is in the register, wrapped around, or an overflow trap exactly where it does not fit and is checked |
| `InstructionSet.LogicInstructions` | nachos/nachos-3.4/code/machine/mipssim.cc:153-540 | functions 36 to 39: and, the first operand itself, exclusive or, nor |
| `InstructionSet.ShiftInstructions` | nachos/nachos-3.4/code/machine/mipssim.cc:395-455 | functions 0, 2 to 4, 6 and 7: times or divided, rounding down, by the power of two of the constant or of the low five bits of a register |
| `InstructionSet.MoveInstructions` | nachos/nachos-3.4/code/machine/mipssim.cc:345-359 | functions 16 to 19: copies from and to HI and LO |
| `InstructionSet.MultiplyAndDivide` | nachos/nachos-3.4/code/machine/mipssim.cc:195-369 | functions 24 to 27: HI and LO hold the whole signed or unsigned product, or remainder and quotient, and zeros for a zero divisor |
| `InstructionSet.ExceptionInstructions` | nachos/nachos-3.4/code/machine/mipssim.cc:534-549 | function 12 traps as a system call, and the reserved ones as illegal |
| `InstructionSet.ConstantInstructions` | nachos/nachos-3.4/code/machine/mipssim.cc:135-544 | operations 8 to 15: sum, comparisons, bitwise operations and upper half with the constant, signed or bare as the source has it |
| `InstructionSet.ReservedInstructions` | nachos/nachos-3.4/code/machine/mipssim.cc:546-549 | every other operation is illegal |
| `InstructionSet.LoadInstructions` | nachos/nachos-3.4/code/machine/mipssim.cc:231-278 | operations 32, 33, 35, 36 and 37: the one, two or four bytes at the physical address as a signed or unsigned number are the pending load, or the exception of the translation |
| `InstructionSet.StoreInstructions` | nachos/nachos-3.4/code/machine/mipssim.cc:383-475 | operations 40, 41 and 43: those bytes of memory, and no others, become the low part of the register, or the exception of the translation |
| `InstructionSet.PartialLoads` | nachos/nachos-3.4/code/machine/mipssim.cc:280-343 | operations 34 and 38: the simulator stops off a word boundary; on one, the whole word, or the register with the highest byte of the word as its lowest |
| `InstructionSet.PartialStores` | nachos/nachos-3.4/code/machine/mipssim.cc:477-532 | operations 42 and 46: likewise, the whole register, or its lowest byte as the highest of the word in memory |
| `InstructionSet.FetchTraps` | nachos/nachos-3.4/code/machine/mipssim.cc:101-103 | a program counter that cannot be translated traps with that exception |

## Left out

- ExecUpdate: the thread and address space of the new process are not part of it; PCB::Exec cannot fail for a fresh control block, and its failure branch is not modelled.
- Load: only for executables at least as long as their header, which the source would use uninitialised, and for code at address 0; for another address the source adds it to every physical address, into frames it does not own.
- DivideSigned: the most negative number divided by -1 is undefined in C; the model wraps.
- Advance: the Yield at the end of OneTick is reported as a flag; its effect is YieldThread of the thread system.
- Close: that the object is deleted, with what it leaves in the places that refer to it too (`InstallConsole` says which).
- Open: the second Open, with a type, is the same code; the type of an open file is not modelled.
- ReadSector: the lock and the semaphore that make a request synchronous; requests are atomic.
- OneInstruction: conformance with the MIPS manual beyond the statements above.
- RunKeepsRegisters: a program keeps its page table or TLB contents; refilling the TLB after a fault is not an event of the run.
- Truncation of a file, and crash consistency, which the source disclaims.
- The loader that takes an open file, an older form that assumes one program.
- Locks, condition variables, synchronised lists, the network and the post office.
- User semaphores by name (the semaphore table), which add a name search to P and V.
- Copying of strings between user and kernel memory, byte by byte through translation.
- Console and terminal devices, statistics, the timer device, debugging output and command lines.
- The assembly of the context switch; a switch is an atomic change of the current thread.
- The object file converter and disassembler of the tool directory.
