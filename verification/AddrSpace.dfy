/**
 Address spaces (userprog/addrspace.cc): loading a NOFF program page by page into whatever
 physical frames are free, and giving the frames back.
 */
module AddrSpaces {
  import opened Words
  import opened Associations
  import opened BitMaps
  import opened OpenFiles
  import opened Translation

  const USER_STACK_SIZE: nat := 1024
  const NOFF_MAGIC: int := 0xbadfad
  const NOFF_HEADER_SIZE: nat := 40

  datatype Segment = Segment(virtualAddr: int32, inFileAddr: int32, size: int32)
  datatype Noff = Noff(magic: int32, code: Segment, initData: Segment, uninitData: Segment) {

    /** What a linker produces: code at address 0, sizes that fit an int. */
    predicate WellFormed() {
      && code.virtualAddr == 0
      && 0 <= code.size && 0 <= initData.size && 0 <= uninitData.size
      && 0 <= code.inFileAddr && 0 <= initData.inFileAddr
      && code.size + initData.size + uninitData.size + USER_STACK_SIZE < 0x7fff_ff80
      && code.inFileAddr + code.size < 0x7fff_ff80 && initData.inFileAddr + initData.size < 0x7fff_ff80
    }

    function NumPages(): nat
      requires WellFormed()
    {
      DivRoundUp(code.size + initData.size + uninitData.size + USER_STACK_SIZE, PAGE_SIZE)
    }
  }

  function DecodeNoff(b: seq<byte>): Noff
    requires |b| == NOFF_HEADER_SIZE
  {
    var w := BytesInts(b);
    Noff(w[0], Segment(w[1], w[2], w[3]), Segment(w[4], w[5], w[6]), Segment(w[7], w[8], w[9]))
  }

  /** The int at position p of a file. */
  function IntAt(content: seq<byte>, p: nat): int32
    requires p + 4 <= |content|
  {
    BytesInt(content[p..p + 4])
  }

  /** The header is ten ints: the magic number, then address, position and size of each segment. */
  lemma HeaderLayout(content: seq<byte>)
    requires |content| >= NOFF_HEADER_SIZE
    ensures var noff := DecodeNoff(content[..NOFF_HEADER_SIZE]);
            && noff.magic == IntAt(content, 0)
            && noff.code == Segment(IntAt(content, 4), IntAt(content, 8), IntAt(content, 12))
            && noff.initData == Segment(IntAt(content, 16), IntAt(content, 20), IntAt(content, 24))
            && noff.uninitData == Segment(IntAt(content, 28), IntAt(content, 32), IntAt(content, 36))
  {
    forall i: nat | i < 10 ensures BytesInts(content[..NOFF_HEADER_SIZE])[i] == IntAt(content, 4 * i) {
      assert content[..NOFF_HEADER_SIZE][4 * i..4 * i + 4] == content[4 * i..4 * i + 4];
    }
  }

  /** A byte of the executable; reading past its end leaves the zero that was there. */
  function FileByte(content: seq<byte>, p: int): byte {
    if 0 <= p < |content| then content[p] else 0
  }

  /** The flat program image: code, then initialised data, then zeros. */
  function Image(noff: Noff, content: seq<byte>, a: nat): byte {
    if a < noff.code.size then FileByte(content, noff.code.inFileAddr + a)
    else if a < noff.code.size + noff.initData.size then
      FileByte(content, noff.initData.inFileAddr + (a - noff.code.size))
    else 0
  }

  /** The frames a page table uses are different frames of the machine. */
  ghost predicate GoodTable(table: seq<TranslationEntry>, memorySize: nat) {
    && Injective(table)
    && forall i :: 0 <= i < |table| ==>
         && table[i].valid && !table[i].readOnly
         && 0 <= table[i].physicalPage && (table[i].physicalPage + 1) * PAGE_SIZE <= memorySize
  }

  /** The physical address of virtual address a. */
  function Physical(table: seq<TranslationEntry>, a: nat): int
    requires a / PAGE_SIZE < |table|
  {
    table[a / PAGE_SIZE].physicalPage * PAGE_SIZE + a % PAGE_SIZE
  }

  /** Memory seen through the page table holds the image below limit and zeros from there on. */
  ghost predicate LoadedUpTo(memory: seq<byte>, table: seq<TranslationEntry>, noff: Noff, content: seq<byte>,
                             limit: nat)
    requires GoodTable(table, |memory|)
  {
    forall a: nat :: a < |table| * PAGE_SIZE ==>
      memory[Physical(table, a)] == if a < limit then Image(noff, content, a) else 0
  }

  /** Memory differs at most in the frames of the table. */
  ghost predicate OnlyFrames(memory: seq<byte>, memory': seq<byte>, table: seq<TranslationEntry>) {
    && |memory'| == |memory|
    && forall k :: 0 <= k < |memory| && k / PAGE_SIZE !in Frames(table) ==> memory'[k] == memory[k]
  }

  /** Two virtual addresses meet in physical memory only if they are the same. */
  lemma PhysicalInjective(table: seq<TranslationEntry>, memorySize: nat, a: nat, b: nat)
    requires GoodTable(table, memorySize) && a / PAGE_SIZE < |table| && b / PAGE_SIZE < |table|
    requires Physical(table, a) == Physical(table, b)
    ensures a == b
  {
    assert table[a / PAGE_SIZE].physicalPage == table[b / PAGE_SIZE].physicalPage;
  }

  /** The count bytes of the image from limit on stand in the file from position on. */
  ghost predicate Supplies(noff: Noff, content: seq<byte>, limit: nat, count: nat, position: nat) {
    forall a: nat :: limit <= a < limit + count ==> Image(noff, content, a) == FileByte(content, a - limit + position)
  }

  /** What one ReadAt into a page does to the loaded image. */
  lemma ChunkLoaded(m: seq<byte>, m': seq<byte>, table: seq<TranslationEntry>, noff: Noff, content: seq<byte>,
                    limit: nat, count: nat, position: nat)
    requires GoodTable(table, |m|) && |m'| == |m| && limit / PAGE_SIZE < |table|
    requires limit % PAGE_SIZE + count <= PAGE_SIZE
    requires LoadedUpTo(m, table, noff, content, limit)
    requires Supplies(noff, content, limit, count, position)
    requires var n, at := Clamped(count, position, |content|), Physical(table, limit);
             && (forall k :: at <= k < at + n ==> m'[k] == content[k - at + position])
             && (forall k :: 0 <= k < |m| && !(at <= k < at + n) ==> m'[k] == m[k])
    ensures LoadedUpTo(m', table, noff, content, limit + count)
  {
    var n, at := Clamped(count, position, |content|), Physical(table, limit);
    forall a: nat | a < |table| * PAGE_SIZE
      ensures m'[Physical(table, a)] == if a < limit + count then Image(noff, content, a) else 0
    {
      var k := Physical(table, a);
      if at <= k < at + n {
        assert Physical(table, limit + (k - at)) == k;
        PhysicalInjective(table, |m|, a, limit + (k - at));
      } else if limit <= a < limit + count {
        assert k == at + (a - limit);
      }
    }
  }

  /** The boundaries between the pieces of the loader: whole pages of code, the page shared by
      code and data, whole pages of data. */
  datatype Split = Split(numCodePage: nat, lastCodePageSize: int, firstDataPageSize: int, numDataPage: nat,
                         lastDataPageSize: int)

  /** The source computes these in 32 bits; for an image without code, numCodePage - 1 wraps
      around and lastCodePageSize still comes out as a full page. */
  function SplitOf(noff: Noff): Split
    requires noff.WellFormed()
  {
    var numCodePage := DivRoundUp(noff.code.size, PAGE_SIZE);
    var lastCodePageSize := Wrap(noff.code.size - (numCodePage - 1) % TWO32 * PAGE_SIZE);
    var tempDataSize := noff.initData.size - (PAGE_SIZE - lastCodePageSize);
    if tempDataSize < 0 then
      Split(numCodePage, lastCodePageSize, noff.initData.size, 0, 0)
    else
      var numDataPage := DivRoundUp(tempDataSize, PAGE_SIZE);
      Split(numCodePage, lastCodePageSize, PAGE_SIZE - lastCodePageSize, numDataPage,
            Wrap(tempDataSize - (numDataPage - 1) % TWO32 * PAGE_SIZE))
  }

  /** How the pieces fit together: each starts where the one before it ended. */
  ghost predicate Fits(noff: Noff, s: Split)
    requires noff.WellFormed()
  {
    && 0 < s.lastCodePageSize <= PAGE_SIZE
    && noff.code.size == (s.numCodePage - 1) * PAGE_SIZE + s.lastCodePageSize
    && 0 <= s.firstDataPageSize <= PAGE_SIZE - s.lastCodePageSize
    && (s.numDataPage > 0 ==> 0 < s.lastDataPageSize <= PAGE_SIZE)
    && (s.numDataPage > 0 ==> noff.code.size + s.firstDataPageSize == s.numCodePage * PAGE_SIZE)
    && noff.initData.size == s.firstDataPageSize +
         (if s.numDataPage == 0 then 0 else (s.numDataPage - 1) * PAGE_SIZE + s.lastDataPageSize)
    && s.numCodePage + s.numDataPage <= noff.NumPages()
    && (s.lastCodePageSize < PAGE_SIZE ==> s.numCodePage > 0)
  }

  /** The remainder computations of the loader cover code and data exactly. */
  lemma SplitFits(noff: Noff)
    requires noff.WellFormed()
    ensures Fits(noff, SplitOf(noff))
  {
    LastPiece(noff.code.size);
    var temp := noff.initData.size - (PAGE_SIZE - SplitOf(noff).lastCodePageSize);
    if temp >= 0 {
      LastPiece(temp);
    }
  }

  /** The size of the last page's share of n bytes, in wrap-around arithmetic. */
  lemma LastPiece(n: nat)
    requires n < 0x7fff_ff80
    ensures var pages := DivRoundUp(n, PAGE_SIZE);
            var last := Wrap(n - (pages - 1) % TWO32 * PAGE_SIZE);
            && n == (pages - 1) * PAGE_SIZE + last && 0 < last <= PAGE_SIZE
  {
    var pages := DivRoundUp(n, PAGE_SIZE);
    if n == 0 {
      assert (pages - 1) % TWO32 == TWO32 - 1;
      WrapUnique(n - (TWO32 - 1) * PAGE_SIZE, PAGE_SIZE, 0 - PAGE_SIZE as int);
    } else {
      assert (pages - 1) % TWO32 == pages - 1;
    }
  }

  lemma WrapUnique(n: int, r: int, q: int)
    requires IsInt32(r) && n == r + q * TWO32
    ensures Wrap(n) == r
  {
  }

  // ---- the page table ----

  function FreshEntry(page: nat, frame: nat): TranslationEntry
    requires page < 0x8000_0000 && frame < 0x8000_0000
  {
    TranslationEntry(page, frame, true, false, false, false)
  }

  /** Every byte seen through the page table is zero. */
  ghost predicate Zeroed(memory: seq<byte>, table: seq<TranslationEntry>)
    requires GoodTable(table, |memory|)
  {
    forall a: nat :: a < |table| * PAGE_SIZE ==> memory[Physical(table, a)] == 0
  }

  /** A page table under construction: its frames were clear in was and are the only memory touched. */
  ghost predicate Allocated(table: seq<TranslationEntry>, was: set<nat>, marked: set<nat>, m0: seq<byte>,
                            m: seq<byte>) {
    && GoodTable(table, |m0|) && Frames(table) !! was && marked == was + Frames(table)
    && OnlyFrames(m0, m, table) && Zeroed(m, table) && Unused(table)
  }

  /** Entry i is for page i, which has not been used yet. */
  ghost predicate Unused(table: seq<TranslationEntry>) {
    forall i :: 0 <= i < |table| ==> table[i].virtualPage == i && !table[i].use && !table[i].dirty
  }

  lemma FramesAppend(table: seq<TranslationEntry>, e: TranslationEntry)
    ensures Frames(table + [e]) == Frames(table) + {Unsigned(e.physicalPage) as nat}
  {
    var t := table + [e];
    forall f | f in Frames(table) ensures f in Frames(t) {
      var i :| 0 <= i < |table| && f == Unsigned(table[i].physicalPage);
      assert t[i] == table[i];
    }
    assert t[|table|] == e;
  }

  /** One more page: a fresh frame, zeroed. */
  lemma PageAdded(table: seq<TranslationEntry>, was: set<nat>, marked: set<nat>, m0: seq<byte>, m: seq<byte>,
                  m': seq<byte>, frame: nat)
    requires Allocated(table, was, marked, m0, m) && |table| < 0x8000_0000 && frame < 0x8000_0000
    requires frame !in marked && (frame + 1) * PAGE_SIZE <= |m0| == |m'|
    requires forall k :: 0 <= k < |m'| ==> m'[k] == if k / PAGE_SIZE == frame then 0 else m[k]
    ensures Allocated(table + [FreshEntry(|table|, frame)], was, marked + {frame}, m0, m')
  {
    var e := FreshEntry(|table|, frame);
    var t := table + [e];
    FramesAppend(table, e);
    forall i | 0 <= i < |table| ensures t[i].physicalPage != frame {
      assert Unsigned(table[i].physicalPage) as nat in Frames(table);
    }
    forall a: nat | a < |t| * PAGE_SIZE ensures m'[Physical(t, a)] == 0 {
      if a / PAGE_SIZE < |table| {
        assert Physical(t, a) == Physical(table, a);
      }
    }
  }

  /** The allocation loop: one clear frame per page, each filled with zeros. */
  method AllocatePages(memory: array<byte>, frames: BitMap, numPages: nat) returns (table: array<TranslationEntry>)
    requires frames.Valid() && memory.Length == frames.numBits * PAGE_SIZE && frames.numBits < 0x8000_0000
    requires numPages <= |Clear(frames.Marked(), frames.numBits)| && numPages < 0x8000_0000
    modifies memory, frames.words
    ensures fresh(table) && table.Length == numPages
    ensures Allocated(table[..], old(frames.Marked()), frames.Marked(), old(memory[..]), memory[..])
  {
    ghost var was, m0, clear := frames.Marked(), memory[..], |Clear(frames.Marked(), frames.numBits)|;
    table := new TranslationEntry[numPages];
    var i := 0;
    while i < numPages
      invariant 0 <= i <= numPages && fresh(table)
      invariant Allocated(table[..i], was, frames.Marked(), m0, memory[..])
      invariant |Clear(frames.Marked(), frames.numBits)| == clear - i
    {
      AllocatePage(memory, frames, table, i, was, m0);
      i := i + 1;
    }
    assert table[..] == table[..numPages];
  }

  method AllocatePage(memory: array<byte>, frames: BitMap, table: array<TranslationEntry>, i: nat,
                      ghost was: set<nat>, ghost m0: seq<byte>)
    requires frames.Valid() && memory.Length == frames.numBits * PAGE_SIZE && frames.numBits < 0x8000_0000
    requires i < table.Length && i < 0x8000_0000 && |Clear(frames.Marked(), frames.numBits)| > 0
    requires |m0| == memory.Length && Allocated(table[..i], was, frames.Marked(), m0, memory[..])
    modifies memory, frames.words, table
    ensures Allocated(table[..i + 1], was, frames.Marked(), m0, memory[..])
    ensures |Clear(frames.Marked(), frames.numBits)| == old(|Clear(frames.Marked(), frames.numBits)|) - 1
  {
    ghost var marked, m := frames.Marked(), memory[..];
    var frame := frames.Find();
    FindUsesOne(marked, frames.numBits, frame);
    frames.Mark(frame);
    assert frames.Marked() == marked + {frame as nat};
    ghost var before := table[..i];
    table[i] := FreshEntry(i, frame);
    forall k | 0 <= k < PAGE_SIZE {
      memory[frame * PAGE_SIZE + k] := 0;
    }
    PageAdded(before, was, marked, m0, m, memory[..], frame);
    assert table[..i + 1] == before + [FreshEntry(i, frame)];
  }

  // ---- loading ----

  lemma PhysicalInFrame(table: seq<TranslationEntry>, memorySize: nat, a: nat)
    requires GoodTable(table, memorySize) && a / PAGE_SIZE < |table|
    ensures Physical(table, a) / PAGE_SIZE in Frames(table)
    ensures 0 <= Physical(table, a) && Physical(table, a) + (PAGE_SIZE - a % PAGE_SIZE) <= memorySize
  {
    assert Unsigned(table[a / PAGE_SIZE].physicalPage) as nat in Frames(table);
  }

  /** Loading has reached limit, and of the memory m0 only the frames of the table have changed. */
  ghost predicate Progress(m0: seq<byte>, m: seq<byte>, table: seq<TranslationEntry>, noff: Noff, content: seq<byte>,
                           limit: int) {
    && 0 <= limit && |m| == |m0| && GoodTable(table, |m|)
    && LoadedUpTo(m, table, noff, content, limit) && OnlyFrames(m0, m, table)
  }

  /** Reads count bytes of the file at position into the image, which so far reaches up to limit. */
  method LoadChunk(executable: OpenFile, memory: array<byte>, table: array<TranslationEntry>,
                   limit: nat, count: nat, position: nat, ghost noff: Noff, ghost m0: seq<byte>)
    requires executable.Valid()
    requires limit / PAGE_SIZE < table.Length && limit % PAGE_SIZE + count <= PAGE_SIZE
    requires Progress(m0, memory[..], table[..], noff, executable.Content(), limit)
    requires Supplies(noff, executable.Content(), limit, count, position)
    requires IsInt32(position + count)
    modifies memory
    ensures Progress(m0, memory[..], table[..], noff, executable.Content(), limit + count)
  {
    ghost var m := memory[..];
    var at := table[limit / PAGE_SIZE].physicalPage * PAGE_SIZE + limit % PAGE_SIZE;
    PhysicalInFrame(table[..], memory.Length, limit);
    var ok, n := executable.ReadAt(memory, at, count, position);
    ChunkLoaded(m, memory[..], table[..], noff, executable.Content(), limit, count, position);
    assert forall k :: at <= k < at + n ==> k / PAGE_SIZE == at / PAGE_SIZE;
  }

  lemma CodeSupplied(noff: Noff, content: seq<byte>, limit: nat, count: nat)
    requires noff.WellFormed() && limit + count <= noff.code.size
    ensures Supplies(noff, content, limit, count, noff.code.inFileAddr + limit)
  {
  }

  lemma DataSupplied(noff: Noff, content: seq<byte>, limit: nat, count: nat)
    requires noff.WellFormed() && noff.code.size <= limit && limit + count <= noff.code.size + noff.initData.size
    ensures Supplies(noff, content, limit, count, noff.initData.inFileAddr + (limit - noff.code.size))
  {
  }

  /** The first loop: code page by code page. */
  method LoadCode(executable: OpenFile, memory: array<byte>, table: array<TranslationEntry>, noff: Noff, s: Split,
                  ghost m0: seq<byte>)
    requires executable.Valid() && noff.WellFormed() && Fits(noff, s) && table.Length == noff.NumPages()
    requires Progress(m0, memory[..], table[..], noff, executable.Content(), 0)
    modifies memory
    ensures Progress(m0, memory[..], table[..], noff, executable.Content(), noff.code.size)
  {
    ghost var content := executable.Content();
    var i := 0;
    while i < s.numCodePage
      invariant 0 <= i <= s.numCodePage
      invariant Progress(m0, memory[..], table[..], noff, content,
                         if i < s.numCodePage then i * PAGE_SIZE else noff.code.size)
    {
      LoadCodePage(executable, memory, table, noff, s, i, m0);
      i := i + 1;
    }
  }

  method LoadCodePage(executable: OpenFile, memory: array<byte>, table: array<TranslationEntry>, noff: Noff, s: Split,
                      i: nat, ghost m0: seq<byte>)
    requires executable.Valid() && noff.WellFormed() && Fits(noff, s)
    requires table.Length == noff.NumPages() && i < s.numCodePage
    requires Progress(m0, memory[..], table[..], noff, executable.Content(), i * PAGE_SIZE)
    modifies memory
    ensures Progress(m0, memory[..], table[..], noff, executable.Content(),
                     if i + 1 < s.numCodePage then (i + 1) * PAGE_SIZE else noff.code.size)
  {
    var count := if i < s.numCodePage - 1 then PAGE_SIZE else s.lastCodePageSize;
    CodeSupplied(noff, executable.Content(), i * PAGE_SIZE, count);
    LoadChunk(executable, memory, table, i * PAGE_SIZE, count, noff.code.inFileAddr + i * PAGE_SIZE, noff, m0);
  }

  /** The second loop: whole pages of data after the shared page. */
  method LoadData(executable: OpenFile, memory: array<byte>, table: array<TranslationEntry>, noff: Noff, s: Split,
                  ghost m0: seq<byte>)
    requires executable.Valid() && noff.WellFormed() && Fits(noff, s) && table.Length == noff.NumPages()
    requires Progress(m0, memory[..], table[..], noff, executable.Content(), noff.code.size + s.firstDataPageSize)
    modifies memory
    ensures Progress(m0, memory[..], table[..], noff, executable.Content(), noff.code.size + noff.initData.size)
  {
    ghost var content := executable.Content();
    var i, j := s.numCodePage, 0;
    while j < s.numDataPage
      invariant 0 <= j <= s.numDataPage && i == s.numCodePage + j
      invariant Progress(m0, memory[..], table[..], noff, content,
                         if j < s.numDataPage then i * PAGE_SIZE else noff.code.size + noff.initData.size)
    {
      LoadDataPage(executable, memory, table, noff, s, i, j, m0);
      i := i + 1;
      j := j + 1;
    }
  }

  /** A piece of data fills a page of the space and of the file. */
  lemma DataPiece(noff: Noff, s: Split, i: nat, j: nat, count: nat)
    requires noff.WellFormed() && Fits(noff, s) && j < s.numDataPage && i == s.numCodePage + j
    requires count == if j < s.numDataPage - 1 then PAGE_SIZE else s.lastDataPageSize
    ensures var limit := i * PAGE_SIZE;
            && limit / PAGE_SIZE < noff.NumPages() && limit % PAGE_SIZE + count <= PAGE_SIZE
            && noff.initData.inFileAddr + j * PAGE_SIZE + s.firstDataPageSize ==
               noff.initData.inFileAddr + (limit - noff.code.size)
            && noff.code.size <= limit
            && limit + count == if j + 1 < s.numDataPage then (i + 1) * PAGE_SIZE
                                else noff.code.size + noff.initData.size
    ensures i * PAGE_SIZE + count <= noff.code.size + noff.initData.size
  {
  }

  method LoadDataPage(executable: OpenFile, memory: array<byte>, table: array<TranslationEntry>, noff: Noff, s: Split,
                      i: nat, j: nat, ghost m0: seq<byte>)
    requires executable.Valid() && noff.WellFormed() && Fits(noff, s) && table.Length == noff.NumPages()
    requires j < s.numDataPage && i == s.numCodePage + j
    requires Progress(m0, memory[..], table[..], noff, executable.Content(), i * PAGE_SIZE)
    modifies memory
    ensures Progress(m0, memory[..], table[..], noff, executable.Content(),
                     if j + 1 < s.numDataPage then (i + 1) * PAGE_SIZE else noff.code.size + noff.initData.size)
  {
    var count := if j < s.numDataPage - 1 then PAGE_SIZE else s.lastDataPageSize;
    DataPiece(noff, s, i, j, count);
    DataSupplied(noff, executable.Content(), i * PAGE_SIZE, count);
    LoadChunk(executable, memory, table, i * PAGE_SIZE, count,
              noff.initData.inFileAddr + j * PAGE_SIZE + s.firstDataPageSize, noff, m0);
  }

  /** Code, the page that code and data share, then data: together the whole image. */
  method LoadSegments(executable: OpenFile, memory: array<byte>, table: array<TranslationEntry>, noff: Noff)
    requires executable.Valid() && GoodTable(table[..], memory.Length) && Zeroed(memory[..], table[..])
    requires noff.WellFormed() && table.Length == noff.NumPages()
    modifies memory
    ensures HoldsImage(memory[..], table[..], noff, executable.Content())
    ensures OnlyFrames(old(memory[..]), memory[..], table[..])
  {
    SplitFits(noff);
    var s := SplitOf(noff);
    ghost var m0 := memory[..];
    LoadCode(executable, memory, table, noff, s, m0);
    LoadShared(executable, memory, table, noff, s, m0);
    LoadData(executable, memory, table, noff, s, m0);
  }

  /** The page that holds the end of the code and the start of the data. */
  method LoadShared(executable: OpenFile, memory: array<byte>, table: array<TranslationEntry>, noff: Noff, s: Split,
                    ghost m0: seq<byte>)
    requires executable.Valid() && noff.WellFormed() && Fits(noff, s) && table.Length == noff.NumPages()
    requires Progress(m0, memory[..], table[..], noff, executable.Content(), noff.code.size)
    modifies memory
    ensures Progress(m0, memory[..], table[..], noff, executable.Content(), noff.code.size + s.firstDataPageSize)
  {
    if s.lastCodePageSize < PAGE_SIZE {
      if s.firstDataPageSize > 0 {
        var limit := (s.numCodePage - 1) * PAGE_SIZE + s.lastCodePageSize;
        DataSupplied(noff, executable.Content(), limit, s.firstDataPageSize);
        LoadChunk(executable, memory, table, limit, s.firstDataPageSize, noff.initData.inFileAddr, noff, m0);
      }
    }
  }

  /** Memory, seen through the page table, is the flat program image. */
  ghost predicate HoldsImage(memory: seq<byte>, table: seq<TranslationEntry>, noff: Noff, content: seq<byte>)
    requires GoodTable(table, |memory|)
  {
    forall a: nat :: a < |table| * PAGE_SIZE ==> memory[Physical(table, a)] == Image(noff, content, a)
  }

  /** So a user program that reads any byte of its space gets the byte of its image. */
  lemma ImageThroughTranslate(memory: seq<byte>, table: seq<TranslationEntry>, noff: Noff, content: seq<byte>, a: int32)
    requires GoodTable(table, |memory|) && |memory| % PAGE_SIZE == 0 && HoldsImage(memory, table, noff, content)
    requires 0 <= a < |table| * PAGE_SIZE
    ensures Read(Mmu(false, table), memory, a, 1) == Some(Value([Image(noff, content, a)]))
  {
    var t := Translate(false, table, |memory| / PAGE_SIZE, a, 1, false);
    assert t == Translated(a / PAGE_SIZE, Physical(table, a));
    assert memory[t.physAddr..t.physAddr + 1] == [memory[Physical(table, a)]];
  }

  /** The bytes of the executable that a program finds at address a of its space, in terms of the file:
      the code, then the initialised data right behind it, then zeros. */
  function ProgramByte(content: seq<byte>, a: nat): byte
    requires |content| >= 40
  {
    var codeSize, dataSize := IntAt(content, 12), IntAt(content, 24);
    if a < codeSize then FileByte(content, IntAt(content, 8) + a)
    else if a < codeSize + dataSize then FileByte(content, IntAt(content, 20) + (a - codeSize))
    else 0
  }

  /** A well-formed executable, in terms of the file. */
  predicate Executable(content: seq<byte>) {
    && |content| >= 40 && IntAt(content, 0) == 0xbadfad
    && IntAt(content, 4) == 0
    && 0 <= IntAt(content, 12) && 0 <= IntAt(content, 24) && 0 <= IntAt(content, 36)
    && 0 <= IntAt(content, 8) && 0 <= IntAt(content, 20)
    && IntAt(content, 12) + IntAt(content, 24) + IntAt(content, 36) + 1024 < 0x7fff_ff80
    && IntAt(content, 8) + IntAt(content, 12) < 0x7fff_ff80 && IntAt(content, 20) + IntAt(content, 24) < 0x7fff_ff80
  }

  /** The pages a program needs: its segments and a stack of 1024 bytes, in pages of 128. */
  function PagesNeeded(content: seq<byte>): nat
    requires Executable(content)
  {
    (IntAt(content, 12) + IntAt(content, 24) + IntAt(content, 36) + 1024 + 127) / 128
  }

  lemma RoundedUp(n: nat)
    ensures DivRoundUp(n, 128) == (n + 127) / 128
  {
    var q, m := n / 128, n % 128;
    assert n + 127 == 128 * q + (m + 127);
  }

  lemma ExecutableIsWellFormed(content: seq<byte>)
    requires Executable(content)
    ensures var noff := DecodeNoff(content[..NOFF_HEADER_SIZE]);
            noff.magic == NOFF_MAGIC && noff.WellFormed() && noff.NumPages() == PagesNeeded(content)
  {
    HeaderLayout(content);
    RoundedUp(IntAt(content, 12) + IntAt(content, 24) + IntAt(content, 36) + 1024);
  }

  /** A space for the program: it has the pages the program needs, and what is read at any address of it
      is the program's byte. */
  ghost predicate RunsProgram(memory: seq<byte>, table: seq<TranslationEntry>, content: seq<byte>)
  {
    && |memory| % PAGE_SIZE == 0
    && Executable(content) && |table| == PagesNeeded(content) && GoodTable(table, |memory|) && Unused(table)
    && forall a: int32 :: 0 <= a < |table| * 128 ==>
         Read(Mmu(false, table), memory, a, 1) == Some(Value([ProgramByte(content, a)]))
  }

  lemma WholeFrames(n: nat)
    ensures n * PAGE_SIZE % PAGE_SIZE == 0
  {
  }

  lemma ImageIsProgram(memory: seq<byte>, numFrames: nat, table: seq<TranslationEntry>, content: seq<byte>)
    requires Executable(content) && |table| == PagesNeeded(content)
    requires GoodTable(table, |memory|) && |memory| == numFrames * PAGE_SIZE && Unused(table)
    requires HoldsImage(memory, table, DecodeNoff(content[..NOFF_HEADER_SIZE]), content)
    ensures RunsProgram(memory, table, content)
  {
    HeaderLayout(content);
    WholeFrames(numFrames);
    forall a: int32 | 0 <= a < |table| * 128
      ensures Read(Mmu(false, table), memory, a, 1) == Some(Value([ProgramByte(content, a)]))
    {
      ImageThroughTranslate(memory, table, DecodeNoff(content[..NOFF_HEADER_SIZE]), content, a);
    }
  }

  /** The segments at the addresses the header gives them. */
  function SegmentImage(noff: Noff, content: seq<byte>, a: nat): byte {
    if noff.code.virtualAddr <= a < noff.code.virtualAddr + noff.code.size then
      FileByte(content, noff.code.inFileAddr + (a - noff.code.virtualAddr))
    else if noff.initData.virtualAddr <= a < noff.initData.virtualAddr + noff.initData.size then
      FileByte(content, noff.initData.inFileAddr + (a - noff.initData.virtualAddr))
    else 0
  }

  /** The loader ignores the data segment's address: for every possible file the loaded image is the
      one the header asks for exactly when the data segment is empty or starts right after the code. */
  lemma ImageIsSegmentImage(noff: Noff)
    requires noff.WellFormed()
    ensures (forall content, a: nat :: Image(noff, content, a) == SegmentImage(noff, content, a))
            <==> noff.initData.size == 0 || noff.initData.virtualAddr == noff.code.size
  {
    if noff.initData.size > 0 && noff.initData.virtualAddr != noff.code.size {
      // the first or the last byte of the data is where the header does not want any
      var i := if noff.initData.virtualAddr > noff.code.size then 0 else noff.initData.size - 1;
      var at := noff.initData.inFileAddr + i;
      var content := seq(at + 1, p => if p == at then 1 as byte else 0);
      assert Image(noff, content, noff.code.size + i) != SegmentImage(noff, content, noff.code.size + i);
    }
  }

  datatype LoadResult = Aborted | Refused | Loaded

  class AddrSpace {
    var numPages: nat
    var pageTable: array<TranslationEntry>

    constructor ()
      ensures numPages == 0 && fresh(pageTable)
    {
      numPages := 0;
      pageTable := new TranslationEntry[0];
    }

    /** Loads the program, so that it reads its own bytes everywhere, or refuses when the clear frames do
        not suffice and changes no frame.  An executable that is not in NOFF format stops the system. */
    method Load(memory: array<byte>, frames: BitMap, executable: OpenFile, ghost live: seq<seq<TranslationEntry>>)
      returns (r: LoadResult)
      requires frames.Valid() && memory.Length == frames.numBits * PAGE_SIZE && frames.numBits < 0x8000_0000
      requires executable.Valid() && |executable.Content()| >= 40
      requires IntAt(executable.Content(), 0) == 0xbadfad ==> Executable(executable.Content())
      modifies this, memory, frames.words
      ensures r == Aborted <==> IntAt(executable.Content(), 0) != 0xbadfad
      ensures r != Aborted ==>
                (r == Loaded <==>
                 PagesNeeded(executable.Content()) <= old(|Clear(frames.Marked(), frames.numBits)|))
      ensures r == Loaded ==> numPages == pageTable.Length && fresh(pageTable)
      ensures r == Loaded ==> RunsProgram(memory[..], pageTable[..], executable.Content())
      ensures r == Refused ==> numPages == 0
      ensures r != Loaded ==> memory[..] == old(memory[..]) && frames.Marked() == old(frames.Marked())
      ensures r == Loaded ==> Frames(pageTable[..]) !! old(frames.Marked())
      ensures r == Loaded ==> frames.Marked() == old(frames.Marked()) + Frames(pageTable[..])
      ensures r == Loaded ==> OnlyFrames(old(memory[..]), memory[..], pageTable[..])
      ensures SpaceStep(Spaces(old(frames.Marked()), live),
                        if r == Loaded then LoadedSpace(pageTable[..]) else RefusedSpace,
                        Spaces(frames.Marked(), if r == Loaded then live + [pageTable[..]] else live), memory.Length)
    {
      var isNoff, noff, needed := CountPages(executable);
      if !isNoff {
        return Aborted;
      }
      numPages := needed;
      var clear := frames.NumClear();
      if numPages > clear {
        numPages := 0;
        return Refused;
      }
      pageTable := LoadProgram(memory, frames, executable, noff);
      return Loaded;
    }

    /** Gives every frame of the space back. */
    method Destroy(frames: BitMap, ghost live: seq<seq<TranslationEntry>>, ghost k: nat)
      requires frames.Valid() && numPages == pageTable.Length && k < |live| && live[k] == pageTable[..]
      requires GoodTable(pageTable[..], frames.numBits * PAGE_SIZE)
      modifies frames.words
      ensures frames.Marked() == old(frames.Marked()) - Frames(pageTable[..])
      ensures SpaceStep(Spaces(old(frames.Marked()), live), DestroyedSpace(k),
                        Spaces(frames.Marked(), live[..k] + live[k + 1..]), frames.numBits * PAGE_SIZE)
    {
      var i := 0;
      while i < numPages
        invariant 0 <= i <= numPages
        invariant frames.Marked() == old(frames.Marked()) - Frames(pageTable[..i])
      {
        frames.ClearBit(pageTable[i].physicalPage);
        assert pageTable[..i + 1] == pageTable[..i] + [pageTable[i]];
        FramesAppend(pageTable[..i], pageTable[i]);
        i := i + 1;
      }
      assert pageTable[..] == pageTable[..numPages];
    }

    /** The machine translates through this space from now on. */
    method RestoreState(machine: Machine)
      modifies machine
      ensures machine.entries == pageTable
    {
      machine.entries := pageTable;
    }
  }

  method ReadHeader(executable: OpenFile) returns (noff: Noff)
    requires executable.Valid() && |executable.Content()| >= NOFF_HEADER_SIZE
    ensures noff == DecodeNoff(executable.Content()[..NOFF_HEADER_SIZE])
    ensures var content := executable.Content();
            && noff.magic == IntAt(content, 0)
            && noff.code == Segment(IntAt(content, 4), IntAt(content, 8), IntAt(content, 12))
            && noff.initData == Segment(IntAt(content, 16), IntAt(content, 20), IntAt(content, 24))
            && noff.uninitData == Segment(IntAt(content, 28), IntAt(content, 32), IntAt(content, 36))
  {
    HeaderLayout(executable.Content());
    var buf := new byte[NOFF_HEADER_SIZE];
    var ok, n := executable.ReadAt(buf, 0, NOFF_HEADER_SIZE, 0);
    assert buf[..] == executable.Content()[..NOFF_HEADER_SIZE];
    noff := DecodeNoff(buf[..]);
  }

  /** The first half of the loader: the header, and how many pages its segments and the stack need. */
  method CountPages(executable: OpenFile) returns (isNoff: bool, noff: Noff, numPages: nat)
    requires executable.Valid() && |executable.Content()| >= 40
    requires IntAt(executable.Content(), 0) == 0xbadfad ==> Executable(executable.Content())
    ensures isNoff <==> IntAt(executable.Content(), 0) == 0xbadfad
    ensures noff == DecodeNoff(executable.Content()[..NOFF_HEADER_SIZE])
    ensures isNoff ==> noff.WellFormed() && numPages == noff.NumPages() == PagesNeeded(executable.Content())
  {
    noff := ReadHeader(executable);
    isNoff, numPages := noff.magic == NOFF_MAGIC, 0;
    if isNoff {
      ExecutableIsWellFormed(executable.Content());
      var size := noff.code.size + noff.initData.size + noff.uninitData.size + USER_STACK_SIZE;
      numPages := DivRoundUp(size, PAGE_SIZE);
    }
  }

  /** Allocation and loading of a program for which there is room. */
  method LoadProgram(memory: array<byte>, frames: BitMap, executable: OpenFile, noff: Noff)
    returns (table: array<TranslationEntry>)
    requires frames.Valid() && memory.Length == frames.numBits * PAGE_SIZE && frames.numBits < 0x8000_0000
    requires executable.Valid() && noff.WellFormed()
    requires Executable(executable.Content()) && noff == DecodeNoff(executable.Content()[..NOFF_HEADER_SIZE])
    requires noff.NumPages() <= |Clear(frames.Marked(), frames.numBits)|
    modifies memory, frames.words
    ensures fresh(table) && RunsProgram(memory[..], table[..], executable.Content())
    ensures Frames(table[..]) !! old(frames.Marked()) && frames.Marked() == old(frames.Marked()) + Frames(table[..])
    ensures OnlyFrames(old(memory[..]), memory[..], table[..])
  {
    table := AllocatePages(memory, frames, noff.NumPages());
    LoadSegments(executable, memory, table, noff);
    ExecutableIsWellFormed(executable.Content());
    ImageIsProgram(memory[..], frames.numBits, table[..], executable.Content());
  }

  // ---- every sequence of loads and destructions ----

  ghost predicate HasFrame(live: seq<seq<TranslationEntry>>, f: nat) {
    exists i :: 0 <= i < |live| && f in Frames(live[i])
  }

  datatype Spaces = Spaces(marked: set<nat>, live: seq<seq<TranslationEntry>>) {

    /** The marked frames are exactly the disjoint union of the frames of the live spaces. */
    ghost predicate Consistent(memorySize: nat) {
      && (forall i :: 0 <= i < |live| ==> GoodTable(live[i], memorySize))
      && (forall i, j :: 0 <= i < j < |live| ==> Frames(live[i]) !! Frames(live[j]))
      && forall f: nat :: f in marked <==> HasFrame(live, f)
    }
  }

  datatype SpaceEvent = LoadedSpace(table: seq<TranslationEntry>) | RefusedSpace | DestroyedSpace(i: nat)

  /** What Load and Destroy do to the frame map and the live page tables. */
  ghost predicate SpaceStep(s: Spaces, e: SpaceEvent, s': Spaces, memorySize: nat) {
    match e
    case LoadedSpace(table) =>
      && GoodTable(table, memorySize) && Frames(table) !! s.marked
      && s' == Spaces(s.marked + Frames(table), s.live + [table])
    case RefusedSpace => s' == s
    case DestroyedSpace(i) => i < |s.live| && s' == Spaces(s.marked - Frames(s.live[i]), s.live[..i] + s.live[i + 1..])
  }

  lemma LoadKeepsSpaces(s: Spaces, table: seq<TranslationEntry>, memorySize: nat)
    requires s.Consistent(memorySize) && GoodTable(table, memorySize) && Frames(table) !! s.marked
    ensures Spaces(s.marked + Frames(table), s.live + [table]).Consistent(memorySize)
  {
    var live := s.live + [table];
    forall i | 0 <= i < |s.live| ensures Frames(live[i]) !! Frames(table) {
      assert live[i] == s.live[i];
    }
    forall f: nat ensures f in s.marked + Frames(table) <==> HasFrame(live, f) {
      if f in s.marked {
        assert HasFrame(s.live, f);
        var i :| 0 <= i < |s.live| && f in Frames(s.live[i]);
        assert f in Frames(live[i]);
      }
      if f in Frames(table) {
        assert f in Frames(live[|s.live|]);
      }
    }
  }

  lemma DestroyKeepsSpaces(s: Spaces, i: nat, memorySize: nat)
    requires s.Consistent(memorySize) && i < |s.live|
    ensures Spaces(s.marked - Frames(s.live[i]), s.live[..i] + s.live[i + 1..]).Consistent(memorySize)
  {
    var live := s.live[..i] + s.live[i + 1..];
    assert forall j :: 0 <= j < |live| ==> live[j] == s.live[if j < i then j else j + 1];
    forall f: nat ensures f in s.marked - Frames(s.live[i]) <==> HasFrame(live, f) {
      DestroyOwner(s, i, memorySize, f);
    }
  }

  lemma OwnerStays(live: seq<seq<TranslationEntry>>, i: nat, f: nat)
    requires i < |live| && HasFrame(live, f) && f !in Frames(live[i])
    ensures HasFrame(live[..i] + live[i + 1..], f)
  {
    var left := live[..i] + live[i + 1..];
    var j :| 0 <= j < |live| && f in Frames(live[j]);
    var j' := if j < i then j else j - 1;
    assert left[j'] == live[j];
  }

  lemma DestroyOwner(s: Spaces, i: nat, memorySize: nat, f: nat)
    requires s.Consistent(memorySize) && i < |s.live|
    ensures var live := s.live[..i] + s.live[i + 1..];
            f in s.marked - Frames(s.live[i]) <==> HasFrame(live, f)
  {
    var live := s.live[..i] + s.live[i + 1..];
    if f in s.marked && f !in Frames(s.live[i]) {
      OwnerStays(s.live, i, f);
    }
    if j :| 0 <= j < |live| && f in Frames(live[j]) {
      var j' := if j < i then j else j + 1;
      assert live[j] == s.live[j'];
      assert Frames(s.live[i]) !! Frames(s.live[j']);
      assert HasFrame(s.live, f);
    }
  }

  ghost predicate SpaceRun(ss: seq<Spaces>, es: seq<SpaceEvent>, memorySize: nat) {
    |ss| == |es| + 1 && forall i {:trigger es[i]} :: 0 <= i < |es| ==> SpaceStep(ss[i], es[i], ss[i + 1], memorySize)
  }

  /** Over every sequence of loads, refusals and destructions the frame map is the disjoint union
      of the live spaces' frames. */
  lemma {:induction false} RunKeepsSpaces(ss: seq<Spaces>, es: seq<SpaceEvent>, memorySize: nat, k: nat)
    requires SpaceRun(ss, es, memorySize) && ss[0] == Spaces({}, []) && k < |ss|
    ensures ss[k].Consistent(memorySize)
  {
    if k > 0 {
      RunKeepsSpaces(ss, es, memorySize, k - 1);
      assert SpaceStep(ss[k - 1], es[k - 1], ss[k - 1 + 1], memorySize);
      match es[k - 1]
      case LoadedSpace(table) => LoadKeepsSpaces(ss[k - 1], table, memorySize);
      case RefusedSpace =>
      case DestroyedSpace(i) => DestroyKeepsSpaces(ss[k - 1], i, memorySize);
    }
  }

  /** In every reachable state, a write by one live space changes no read of another. */
  lemma RunIsolates(ss: seq<Spaces>, es: seq<SpaceEvent>, memory: seq<byte>, k: nat, i: nat, j: nat,
                    a: int32, s: int, value: int, b: int32, t: int)
    requires |memory| % PAGE_SIZE == 0 && SpaceRun(ss, es, |memory|) && ss[0] == Spaces({}, []) && k < |ss|
    requires i < |ss[k].live| && j < |ss[k].live| && i != j && s in {1, 2, 4} && t in {1, 2, 4}
    ensures var mine, other := Mmu(false, ss[k].live[i]), Mmu(false, ss[k].live[j]);
            Read(other, Written(mine, memory, a, s, value), b, t) == Read(other, memory, b, t)
  {
    RunKeepsSpaces(ss, es, |memory|, k);
    SpacesIsolated(Mmu(false, ss[k].live[i]), Mmu(false, ss[k].live[j]), memory, a, s, value, b, t);
  }
}
