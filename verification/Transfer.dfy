/**
 Moving whole files in chunks: what any sequence of Writes and Reads adds up to, and the two
 programs that do it, Copy and Print (filesys/fstest.cc).
 */
module Transfers {
  import opened Words
  import opened Associations
  import opened FileHeaders
  import opened OpenFiles
  import opened Directories
  import opened DiskSteps
  import opened FileSystems

  // ---- sequences of Writes and Reads ----

  function Concat(chunks: seq<seq<byte>>): seq<byte> {
    if chunks == [] then [] else chunks[0] + Concat(chunks[1..])
  }

  function Sum(sizes: seq<nat>): nat {
    if sizes == [] then 0 else sizes[0] + Sum(sizes[1..])
  }

  /** The content and seek position after writing the chunks one after the other; None when one of
      the requests is not served. */
  function WriteAll(content: seq<byte>, position: nat, chunks: seq<seq<byte>>): (r: Option<(seq<byte>, nat)>)
    decreases chunks
  {
    if chunks == [] then Some((content, position)) else
    if !Served(|chunks[0]|, position, |content|) then None else
    var w := WriteOnce(content, position, chunks[0]);
    WriteAll(w.0, w.1, chunks[1..])
  }

  /** The bytes delivered, and the seek position, after reads of the given sizes; None when one of
      the requests is not served. */
  function ReadAll(content: seq<byte>, position: nat, sizes: seq<nat>): (r: Option<(seq<byte>, nat)>)
    decreases sizes
  {
    if sizes == [] then Some(([], position)) else
    if !Served(sizes[0], position, |content|) then None else
    var r := ReadOnce(content, position, sizes[0]);
    var rest := ReadAll(content, r.1, sizes[1..]);
    if rest.None? then None else Some((r.0 + rest.value.0, rest.value.1))
  }

  function Lengths(chunks: seq<seq<byte>>): seq<nat> {
    seq(|chunks|, i requires 0 <= i < |chunks| => |chunks[i]|)
  }

  /** Every request that starts inside the file ends at an int, when they follow each other. */
  predicate EndsFit(position: nat, sizes: seq<nat>, length: nat)
    decreases sizes
  {
    sizes == [] ||
    ((position >= length || IsInt32(position + sizes[0])) && EndsFit(position + sizes[0], sizes[1..], length))
  }

  lemma {:induction false} PastEndFits(position: nat, sizes: seq<nat>, length: nat)
    requires position >= length
    ensures EndsFit(position, sizes, length)
    decreases sizes
  {
    if sizes != [] {
      PastEndFits(position + sizes[0], sizes[1..], length);
    }
  }

  /** The ends of a run fit when its first request is served and the rest fits, wherever the first was cut. */
  lemma FitsAfterCut(position: nat, sizes: seq<nat>, length: nat)
    requires sizes != [] && IsInt32(length)
    ensures EndsFit(position, sizes, length) <==>
            && Served(sizes[0], position, length)
            && EndsFit(position + Clamped(sizes[0], position, length), sizes[1..], length)
  {
    var n := Clamped(sizes[0], position, length);
    if n != sizes[0] {
      PastEndFits(position + n, sizes[1..], length);
      PastEndFits(position + sizes[0], sizes[1..], length);
    }
  }

  /** n bytes from position on; none are asked for past the end. */
  function Slice(content: seq<byte>, position: nat, n: nat): seq<byte>
    requires n > 0 ==> position + n <= |content|
  {
    if n == 0 then [] else content[position..position + n]
  }

  lemma SliceJoin(content: seq<byte>, position: nat, n: nat, m: nat)
    requires n + m > 0 ==> position + n + m <= |content|
    ensures Slice(content, position, n) + Slice(content, position + n, m) == Slice(content, position, n + m)
  {
  }

  /** Two adjacent requests, each clamped, move what one request would. */
  lemma ClampedSum(x: nat, y: nat, position: nat, length: nat)
    ensures Clamped(x + y, position, length) ==
            Clamped(x, position, length) + Clamped(y, position + Clamped(x, position, length), length)
    ensures Clamped(x, position, length) < x ==> Clamped(y, position + Clamped(x, position, length), length) == 0
  {
  }

  lemma SpliceJoin(content: seq<byte>, position: nat, a: seq<byte>, b: seq<byte>)
    requires a + b != [] ==> position + |a| + |b| <= |content|
    ensures Splice(Splice(content, position, a), position + |a|, b) == Splice(content, position, a + b)
  {
    if a == [] {
      assert a + b == b;
    } else if b == [] {
      assert a + b == a;
    }
  }

  lemma TakeJoin(a: seq<byte>, b: seq<byte>, n: nat, m: nat)
    requires n <= |a| && m <= |b| && (n < |a| ==> m == 0)
    ensures (a + b)[..n + m] == a[..n] + b[..m]
  {
  }

  /** The content and seek position after one Write. */
  function WriteOnce(content: seq<byte>, position: nat, data: seq<byte>): (seq<byte>, nat) {
    var n := Clamped(|data|, position, |content|);
    (Splice(content, position, data[..n]), position + n)
  }

  lemma TwoWrites(content: seq<byte>, position: nat, a: seq<byte>, b: seq<byte>)
    ensures var w := WriteOnce(content, position, a); WriteOnce(w.0, w.1, b) == WriteOnce(content, position, a + b)
  {
    var n := Clamped(|a|, position, |content|);
    var m := Clamped(|b|, position + n, |content|);
    ClampedSum(|a|, |b|, position, |content|);
    TakeJoin(a, b, n, m);
    SpliceJoin(content, position, a[..n], b[..m]);
  }

  /** Any chunking of a sequence of Writes has the effect of a single one, and all of them are served
      exactly when their ends are ints. */
  lemma {:induction false} ChunkedWrite(content: seq<byte>, position: nat, chunks: seq<seq<byte>>)
    requires IsInt32(|content|)
    ensures WriteAll(content, position, chunks) ==
            if EndsFit(position, Lengths(chunks), |content|) then Some(WriteOnce(content, position, Concat(chunks)))
            else None
    decreases chunks
  {
    if chunks != [] {
      var a, b := chunks[0], Concat(chunks[1..]);
      var w := WriteOnce(content, position, a);
      ChunkedWrite(w.0, w.1, chunks[1..]);
      assert Lengths(chunks)[1..] == Lengths(chunks[1..]);
      FitsAfterCut(position, Lengths(chunks), |content|);
      TwoWrites(content, position, a, b);
    }
  }

  /** The bytes and seek position after one Read. */
  function ReadOnce(content: seq<byte>, position: nat, size: nat): (seq<byte>, nat) {
    var n := Clamped(size, position, |content|);
    (Slice(content, position, n), position + n)
  }

  lemma TwoReads(content: seq<byte>, position: nat, x: nat, y: nat)
    ensures var r := ReadOnce(content, position, x);
            var q := ReadOnce(content, r.1, y);
            (r.0 + q.0, q.1) == ReadOnce(content, position, x + y)
  {
    var n := Clamped(x, position, |content|);
    ClampedSum(x, y, position, |content|);
    SliceJoin(content, position, n, Clamped(y, position + n, |content|));
  }

  /** Any chunking of a sequence of Reads delivers the same bytes as a single one, and all of them are
      served exactly when their ends are ints. */
  lemma {:induction false} ChunkedRead(content: seq<byte>, position: nat, sizes: seq<nat>)
    requires IsInt32(|content|)
    ensures ReadAll(content, position, sizes) ==
            if EndsFit(position, sizes, |content|) then Some(ReadOnce(content, position, Sum(sizes))) else None
    decreases sizes
  {
    if sizes != [] {
      ChunkedRead(content, ReadOnce(content, position, sizes[0]).1, sizes[1..]);
      TwoReads(content, position, sizes[0], Sum(sizes[1..]));
      FitsAfterCut(position, sizes, |content|);
    }
  }

  /** Requests that stay inside a file never fail to fit. */
  lemma {:induction false} InsideFits(position: nat, sizes: seq<nat>, length: nat)
    requires position + Sum(sizes) <= length && IsInt32(length)
    ensures EndsFit(position, sizes, length)
    decreases sizes
  {
    if sizes != [] {
      InsideFits(position + sizes[0], sizes[1..], length);
    }
  }

  lemma {:induction false} LengthOfConcat(chunks: seq<seq<byte>>)
    ensures Sum(Lengths(chunks)) == |Concat(chunks)|
  {
    if chunks != [] {
      LengthOfConcat(chunks[1..]);
      assert Lengths(chunks)[1..] == Lengths(chunks[1..]);
    }
  }

  /** What any sequence of Writes put into a file with room for it, any sequence of Reads of the
      same total size gets back. */
  lemma WriteThenRead(content: seq<byte>, position: nat, chunks: seq<seq<byte>>, sizes: seq<nat>)
    requires IsInt32(|content|) && position + |Concat(chunks)| <= |content| && Sum(sizes) == |Concat(chunks)|
    ensures var w := WriteAll(content, position, chunks);
            w.Some? && var r := ReadAll(w.value.0, position, sizes); r.Some? && r.value.0 == Concat(chunks)
  {
    var data := Concat(chunks);
    LengthOfConcat(chunks);
    InsideFits(position, Lengths(chunks), |content|);
    InsideFits(position, sizes, |content|);
    ChunkedWrite(content, position, chunks);
    ChunkedRead(Splice(content, position, data), position, sizes);
    assert Clamped(|data|, position, |content|) == |data|;
    assert data[..|data|] == data;
  }

  /** One Write. */
  method WriteChunk(openFile: OpenFile, chunk: seq<byte>) returns (ok: bool)
    requires openFile.Valid() && openFile.seekPosition >= 0 && IsInt32(|chunk|)
    modifies openFile, openFile.disk
    ensures openFile.Valid() && OutsideUnchanged(old(openFile.disk.sectors), openFile.disk.sectors, openFile.hdr)
    ensures ok <==> Served(|chunk|, old(openFile.seekPosition), old(|openFile.Content()|))
    ensures ok ==> (openFile.Content(), openFile.seekPosition) ==
                   WriteOnce(old(openFile.Content()), old(openFile.seekPosition), chunk)
  {
    var buffer := new byte[|chunk|](i requires 0 <= i < |chunk| => chunk[i]);
    assert buffer[..] == chunk;
    var n;
    ok, n := openFile.Write(buffer, |chunk|);
    assert buffer[..n] == chunk[..n];
  }

  /** One Write after the other, up to the first that is not served. */
  method WriteChunks(openFile: OpenFile, chunks: seq<seq<byte>>) returns (ok: bool)
    requires openFile.Valid() && openFile.seekPosition >= 0
    requires forall i :: 0 <= i < |chunks| ==> IsInt32(|chunks[i]|)
    modifies openFile, openFile.disk
    ensures openFile.Valid() && OutsideUnchanged(old(openFile.disk.sectors), openFile.disk.sectors, openFile.hdr)
    ensures var w := WriteAll(old(openFile.Content()), old(openFile.seekPosition), chunks);
            (ok <==> w.Some?) && (ok ==> (openFile.Content(), openFile.seekPosition) == w.value)
    decreases |chunks|
  {
    ok := true;
    if chunks != [] {
      ok := WriteChunk(openFile, chunks[0]);
      if ok {
        ok := WriteChunks(openFile, chunks[1..]);
      }
    }
  }

  /** One Read. */
  method ReadNext(openFile: OpenFile, size: nat) returns (ok: bool, piece: seq<byte>)
    requires openFile.Valid() && openFile.seekPosition >= 0 && IsInt32(size)
    modifies openFile
    ensures openFile.Valid() && (ok <==> Served(size, old(openFile.seekPosition), |openFile.Content()|))
    ensures ok ==> (piece, openFile.seekPosition) == ReadOnce(openFile.Content(), old(openFile.seekPosition), size)
  {
    var buffer := new byte[size];
    var n;
    ok, n := openFile.Read(buffer, size);
    piece := buffer[..n];
    assert ok ==> piece == Slice(openFile.Content(), old(openFile.seekPosition), n);
  }

  /** One Read after the other, up to the first that is not served. */
  method ReadChunks(openFile: OpenFile, sizes: seq<nat>) returns (ok: bool, output: seq<byte>)
    requires openFile.Valid() && openFile.seekPosition >= 0
    requires forall i :: 0 <= i < |sizes| ==> IsInt32(sizes[i])
    modifies openFile
    ensures openFile.Valid()
    ensures var r := ReadAll(openFile.Content(), old(openFile.seekPosition), sizes);
            (ok <==> r.Some?) && (ok ==> (output, openFile.seekPosition) == r.value)
    decreases |sizes|
  {
    ok, output := true, [];
    if sizes != [] {
      ok, output := ReadNext(openFile, sizes[0]);
      if ok {
        var rest;
        ok, rest := ReadChunks(openFile, sizes[1..]);
        output := output + rest;
      }
    }
  }

  // ---- Copy and Print ----

  const TRANSFER_SIZE: nat := 10

  lemma PrefixGrows(content: seq<byte>, source: seq<byte>, done: nat, n: nat)
    requires |content| == |source| && 0 < n && done + n <= |source| && content[..done] == source[..done]
    ensures Splice(content, done, source[done..done + n])[..done + n] == source[..done + n]
  {
    assert source[..done + n] == source[..done] + source[done..done + n];
  }

  /** One round of the copying loop: up to TransferSize bytes are read and written. */
  method CopyChunk(openFile: OpenFile, source: seq<byte>, done: nat) returns (now: nat)
    requires done < |source| && openFile.seekPosition == done && openFile.hdr.Length() == |source|
    requires openFile.Valid() && openFile.Content()[..done] == source[..done]
    modifies openFile, openFile.disk
    ensures done < now <= |source| && openFile.seekPosition == now
    ensures openFile.Valid() && openFile.Content()[..now] == source[..now]
    ensures OutsideUnchanged(old(openFile.disk.sectors), openFile.disk.sectors, openFile.hdr)
  {
    var amountRead := if |source| - done < TRANSFER_SIZE then |source| - done else TRANSFER_SIZE;
    var buffer := new byte[TRANSFER_SIZE](i => if 0 <= i < amountRead then source[done + i] else 0);
    assert buffer[..amountRead] == source[done..done + amountRead];
    PrefixGrows(openFile.Content(), source, done, amountRead);
    var ok, n := openFile.Write(buffer, amountRead);
    now := done + n;
  }

  /** The copying loop: TransferSize bytes at a time into a file of just that length. */
  method CopyLoop(openFile: OpenFile, source: seq<byte>)
    requires openFile.Valid() && openFile.seekPosition == 0 && openFile.hdr.Length() == |source|
    modifies openFile, openFile.disk
    ensures openFile.Valid() && openFile.Content() == source
    ensures OutsideUnchanged(old(openFile.disk.sectors), openFile.disk.sectors, openFile.hdr)
  {
    var done := 0;
    while done < |source|
      invariant 0 <= done <= |source| && openFile.seekPosition == done
      invariant openFile.Valid() && openFile.Content()[..done] == source[..done]
      invariant OutsideUnchanged(old(openFile.disk.sectors), openFile.disk.sectors, openFile.hdr)
    {
      done := CopyChunk(openFile, source, done);
    }
    assert source[..|source|] == source && openFile.Content()[..|source|] == openFile.Content();
  }

  /** One Read of the printing loop. */
  method ReadChunk(openFile: OpenFile, buffer: array<byte>) returns (n: nat)
    requires openFile.Valid() && 0 <= openFile.seekPosition <= openFile.hdr.Length() && buffer.Length == TRANSFER_SIZE
    modifies openFile, buffer
    ensures openFile.Valid()
    ensures n == Clamped(TRANSFER_SIZE, old(openFile.seekPosition), openFile.hdr.numBytes)
    ensures openFile.seekPosition == old(openFile.seekPosition) + n
    ensures n > 0 ==> buffer[..n] == openFile.Content()[old(openFile.seekPosition)..openFile.seekPosition]
  {
    var ok;
    ok, n := openFile.Read(buffer, TRANSFER_SIZE);
  }

  lemma NextPiece(content: seq<byte>, from: nat, to: nat)
    requires from <= to <= |content|
    ensures content[..from] + content[from..to] == content[..to]
  {
  }

  /** The printing loop: everything from the seek position on. */
  method PrintLoop(openFile: OpenFile) returns (output: seq<byte>)
    requires openFile.Valid() && openFile.seekPosition == 0
    modifies openFile
    ensures openFile.Valid() && output == openFile.Content()
  {
    output := [];
    var buffer := new byte[TRANSFER_SIZE];
    var amountRead := ReadChunk(openFile, buffer);
    while amountRead > 0
      invariant openFile.Valid()
      invariant openFile.seekPosition == |output| + amountRead <= openFile.hdr.Length()
      invariant amountRead == Clamped(TRANSFER_SIZE, |output|, openFile.hdr.numBytes)
      invariant output == openFile.Content()[..|output|]
      invariant amountRead > 0 ==> buffer[..amountRead] == openFile.Content()[|output|..|output| + amountRead]
      decreases openFile.hdr.Length() - |output|
    {
      NextPiece(openFile.Content(), |output|, |output| + amountRead);
      output := output + buffer[..amountRead];
      amountRead := ReadChunk(openFile, buffer);
    }
    assert openFile.Content()[..|output|] == openFile.Content();
  }

  /** Filling a file with exactly its size in bytes replaces its content. */
  lemma FillRefines(d1: Disk, d2: Disk, to: seq<byte>, source: seq<byte>, slot: nat)
    requires Inv(d1) && IsIndexOf(ViewOf(d1).table, to, slot)
    requires var h := ViewOf(d1).hdrs[slot]; OutsideUnchanged(d1, d2, h) && FileBytes(d2, h) == source
    ensures Inv(d2) && ViewOf(d2) == ViewOf(d1) && Files(d2) == Files(d1)[Key(to) := source]
  {
    FullSplice(FileBytes(d1, ViewOf(d1).hdrs[slot]), source);
    WriteKeepsView(d1, d2, slot, 0, source);
    ContentsAt(d1, to, slot);
    WriteRefines(d1, d2, to, slot, 0, source);
  }

  lemma FullSplice(content: seq<byte>, source: seq<byte>)
    requires |content| == |source|
    ensures Splice(content, 0, source[..Clamped(|source|, 0, |content|)]) == source
  {
    assert source[..|source|] == source;
  }

  /** Creating a file and then filling it. */
  lemma CreateThenFill(d0: Disk, d1: Disk, d2: Disk, to: seq<byte>, source: seq<byte>)
    requires Inv(d0) && Step(d0, Request.Create(to, |source|), true, d1)
    requires Inv(d1) && Inv(d2) && Files(d2) == Files(d1)[Key(to) := source]
    ensures Files(d2) == Files(d0)[Key(to) := source]
  {
    StepRefines(d0, Request.Create(to, |source|), true, d1);
    SetAdded(Files(d0), Files(d1), Key(to), source);
  }

  datatype CopyResult = NotCreated | TooLong | NotOpened | Copied

  /** Copies bytes from outside into a new file of the same length.  It is not opened, which fails an
      assertion, when no place for an open file is left; and the place it takes is never given back. */
  method Copy(fs: FileSystem, source: seq<byte>, to: seq<byte>) returns (r: CopyResult)
    requires fs.Valid() && CString(to) && IsInt32(|source|)
    modifies fs.file, fs.disk
    ensures fs.Valid()
    ensures r == NotCreated <==> !CanCreate(old(ViewOf(fs.disk.sectors)), to, |source|)
    ensures r == TooLong <==> r != NotCreated && |source| > MAX_FILE_SIZE
    ensures r == Copied <==> r != NotCreated && r != TooLong && |FreePlaces(old(fs.file[..]))| > 0
    ensures r == NotCreated || r == TooLong ==> fs.disk.sectors == old(fs.disk.sectors)
    ensures r == NotOpened ==> Step(old(fs.disk.sectors), Request.Create(to, |source|), true, fs.disk.sectors)
    ensures r == Copied ==> Files(fs.disk.sectors) == old(Files(fs.disk.sectors))[Key(to) := source]
    ensures |FreePlaces(fs.file[..])| == |FreePlaces(old(fs.file[..]))| - if r == Copied then 1 else 0
  {
    ghost var d0 := fs.disk.sectors;
    var created := fs.Create(to, |source|);
    if created != Created {
      return if created == Failed then NotCreated else TooLong;
    }
    ghost var d1 := fs.disk.sectors;
    StepRefines(d0, Request.Create(to, |source|), true, d1);
    var ok := CopyInto(fs, source, to);
    if !ok {
      return NotOpened;
    }
    CreateThenFill(d0, d1, fs.disk.sectors, to, source);
    r := Copied;
  }

  /** Opens a file of just the right size and fills it. */
  method CopyInto(fs: FileSystem, source: seq<byte>, to: seq<byte>) returns (ok: bool)
    requires fs.Valid() && CString(to)
    requires Key(to) in Files(fs.disk.sectors) && |Files(fs.disk.sectors)[Key(to)]| == |source|
    modifies fs.file, fs.disk
    ensures fs.Valid() && (ok <==> |FreePlaces(old(fs.file[..]))| > 0)
    ensures !ok ==> fs.disk.sectors == old(fs.disk.sectors)
    ensures var was := old(Files(fs.disk.sectors));
            Files(fs.disk.sectors) == if ok then was[Key(to) := source] else was
    ensures |FreePlaces(fs.file[..])| == |FreePlaces(old(fs.file[..]))| - if ok then 1 else 0
  {
    var openFile, slot := OpenNamed(fs, to);
    ok := openFile != null;
    if ok {
      FillOpened(fs, openFile, source, to, slot);
    }
  }

  /** Fills an open file of just the right size. */
  method FillOpened(fs: FileSystem, f: OpenFile, source: seq<byte>, to: seq<byte>, ghost slot: nat)
    requires fs.Valid() && f.disk == fs.disk && f.Valid() && f.seekPosition == 0 && f.hdr.Length() == |source|
    requires IsIndexOf(ViewOf(fs.disk.sectors).table, to, slot) && f.hdr == ViewOf(fs.disk.sectors).hdrs[slot]
    modifies f, fs.disk
    ensures fs.Valid() && Files(fs.disk.sectors) == old(Files(fs.disk.sectors))[Key(to) := source]
    ensures fs.file[..] == old(fs.file[..])
  {
    ghost var d := fs.disk.sectors;
    CopyLoop(f, source);
    FillRefines(d, fs.disk.sectors, to, source, slot);
  }

  /** Everything a file holds; nothing when there is no such file, or no place left to open it, and
      the place it takes is never given back. */
  method Print(fs: FileSystem, name: seq<byte>) returns (found: bool, output: seq<byte>)
    requires fs.Valid() && CString(name)
    modifies fs.file
    ensures fs.Valid()
    ensures found <==> Key(name) in Files(fs.disk.sectors) && |FreePlaces(old(fs.file[..]))| > 0
    ensures found ==> output == Files(fs.disk.sectors)[Key(name)]
    ensures |FreePlaces(fs.file[..])| == |FreePlaces(old(fs.file[..]))| - if found then 1 else 0
  {
    var openFile, slot := OpenNamed(fs, name);
    if openFile == null {
      return false, [];
    }
    output := PrintLoop(openFile);
    found := true;
  }

  /** Open, in terms of the map from names to contents. */
  method OpenNamed(fs: FileSystem, name: seq<byte>) returns (f: OpenFile?, ghost slot: int)
    requires fs.Valid() && CString(name)
    modifies fs.file
    ensures fs.Valid()
    ensures f != null <==> Key(name) in Files(fs.disk.sectors) && |FreePlaces(old(fs.file[..]))| > 0
    ensures |FreePlaces(fs.file[..])| == |FreePlaces(old(fs.file[..]))| - if f != null then 1 else 0
    ensures f != null ==> fresh(f) && f.disk == fs.disk && f.seekPosition == 0 && f.Valid()
    ensures f != null ==> f.Content() == Files(fs.disk.sectors)[Key(name)]
    ensures f != null ==> IsIndexOf(ViewOf(fs.disk.sectors).table, name, slot) && slot != -1
    ensures f != null ==> f.hdr == ViewOf(fs.disk.sectors).hdrs[slot]
  {
    IndexIsKey(fs.disk.sectors, name);
    f, slot := fs.Open(name);
    if f != null {
      ContentsAt(fs.disk.sectors, name, slot);
    }
  }
}
