/**
 The directory (filesys/directory.cc): a fixed table of entries, each a name and the
 sector of a file header.  Names are C strings, stored and compared on their first
 nine characters.
 */
module Directories {
  import opened Words
  import opened Associations
  import opened OpenFiles

  const FILE_NAME_MAX_LEN: nat := 9
  const ENTRY_SIZE: nat := 20

  type Name = s: seq<byte> | |s| == FILE_NAME_MAX_LEN + 1 witness seq(FILE_NAME_MAX_LEN + 1, _ => 0 as byte)

  /** Only entries in use are ever looked at. */
  datatype Entry = Entry(inUse: bool, sector: int32, name: Name)

  // ---- names ----

  /** strncmp(stored, name, n) == 0, where stored is cut to its first n bytes and name is a C string. */
  predicate StrNCmpEqual(stored: seq<byte>, name: seq<byte>)
    decreases stored
  {
    stored == [] ||
    var c := if name == [] then 0 else name[0];
    stored[0] == c && (c == 0 || StrNCmpEqual(stored[1..], name[1..]))
  }

  /** strncpy(dest, name, FileNameMaxLen): the rest is filled with zeros, the last byte is left alone. */
  function StrNCpy(dest: Name, name: seq<byte>): Name {
    seq(FILE_NAME_MAX_LEN + 1, i requires 0 <= i <= FILE_NAME_MAX_LEN =>
      if i == FILE_NAME_MAX_LEN then dest[i] else if i < |name| then name[i] else 0)
  }

  /** The part of a name that matters. */
  function Key(name: seq<byte>): seq<byte> {
    if |name| <= FILE_NAME_MAX_LEN then name else name[..FILE_NAME_MAX_LEN]
  }

  /** The characters up to the first zero. */
  function UpToZero(s: seq<byte>): (k: seq<byte>)
    ensures k <= s && 0 !in k
  {
    if s == [] || s[0] == 0 then [] else [s[0]] + UpToZero(s[1..])
  }

  function StoredKey(stored: Name): seq<byte> {
    UpToZero(stored[..FILE_NAME_MAX_LEN])
  }

  predicate CString(name: seq<byte>) {
    0 !in name
  }

  lemma {:induction false} ComparePrefix(stored: seq<byte>, name: seq<byte>)
    requires CString(name)
    ensures StrNCmpEqual(stored, name) <==> UpToZero(stored) == if |name| <= |stored| then name else name[..|stored|]
  {
    if stored != [] && name != [] {
      ComparePrefix(stored[1..], name[1..]);
      var key := if |name| <= |stored| then name else name[..|stored|];
      assert key == [name[0]] + if |name| <= |stored| then name[1..] else name[1..][..|stored| - 1];
      assert UpToZero(stored) != [] ==> UpToZero(stored)[1..] == UpToZero(stored[1..]);
    }
  }

  /** The comparison of the source decides equality of the first nine characters. */
  lemma CompareIsKeyEquality(stored: Name, name: seq<byte>)
    requires CString(name)
    ensures StrNCmpEqual(stored[..FILE_NAME_MAX_LEN], name) <==> StoredKey(stored) == Key(name)
  {
    ComparePrefix(stored[..FILE_NAME_MAX_LEN], name);
  }

  lemma {:induction false} PaddedKey(s: seq<byte>, name: seq<byte>)
    requires CString(name)
    requires forall i :: 0 <= i < |s| ==> s[i] == if i < |name| then name[i] else 0
    ensures StrNCmpEqual(s, name)
  {
    if s != [] && name != [] {
      PaddedKey(s[1..], name[1..]);
    }
  }

  /** A stored name carries the first nine characters of what was copied into it. */
  lemma CopyKeepsKey(dest: Name, name: seq<byte>)
    requires CString(name)
    ensures StoredKey(StrNCpy(dest, name)) == Key(name)
  {
    PaddedKey(StrNCpy(dest, name)[..FILE_NAME_MAX_LEN], name);
    CompareIsKeyEquality(StrNCpy(dest, name), name);
  }

  // ---- the directory as file content ----

  /** sizeof(DirectoryEntry) bytes; the compiler's padding is written as zeros. */
  function EncodeEntry(e: Entry): (b: seq<byte>)
    ensures |b| == ENTRY_SIZE
  {
    [if e.inUse then 1 else 0, 0, 0, 0] + IntBytes(e.sector) + e.name + [0, 0]
  }

  function DecodeEntry(b: seq<byte>): Entry
    requires |b| == ENTRY_SIZE
  {
    Entry(b[0] != 0, BytesInt(b[4..8]), b[8..18])
  }

  lemma DecodeEncodeEntry(e: Entry)
    ensures DecodeEntry(EncodeEntry(e)) == e
  {
    var b := EncodeEntry(e);
    assert b[4..8] == IntBytes(e.sector);
    assert b[8..18] == e.name;
    BytesIntOfIntBytes(e.sector);
  }

  function EncodeTable(t: seq<Entry>): (b: seq<byte>)
    ensures |b| == ENTRY_SIZE * |t|
  {
    seq(ENTRY_SIZE * |t|, k requires 0 <= k < ENTRY_SIZE * |t| => EncodeEntry(t[k / ENTRY_SIZE])[k % ENTRY_SIZE])
  }

  function DecodeTable(b: seq<byte>): (t: seq<Entry>)
    ensures |t| == |b| / ENTRY_SIZE
  {
    seq(|b| / ENTRY_SIZE, i requires 0 <= i < |b| / ENTRY_SIZE =>
      DecodeEntry(b[ENTRY_SIZE * i..ENTRY_SIZE * i + ENTRY_SIZE]))
  }

  /** Where the fields of entry i are in the directory file. */
  lemma EntryLayout(b: seq<byte>, i: nat)
    requires 20 * i + 20 <= |b|
    ensures var t := DecodeTable(b);
            && i < |t| && (t[i].inUse <==> b[20 * i] != 0)
            && t[i].sector == BytesInt(b[20 * i + 4..20 * i + 8]) && t[i].name == b[20 * i + 8..20 * i + 18]
  {
    SliceOfSlice(b, 20 * i, 20, 4, 8);
    SliceOfSlice(b, 20 * i, 20, 8, 18);
  }

  lemma SliceOfSlice(b: seq<byte>, at: nat, n: nat, low: nat, high: nat)
    requires at + n <= |b| && low <= high <= n
    ensures b[at..at + n][low..high] == b[at + low..at + high]
  {
    var s, t := b[at..at + n][low..high], b[at + low..at + high];
    forall k | 0 <= k < high - low ensures s[k] == t[k] {
      assert s[k] == b[at..at + n][low + k];
    }
  }

  lemma EncodeTableSlice(t: seq<Entry>, i: nat)
    requires i < |t|
    ensures EncodeTable(t)[ENTRY_SIZE * i..ENTRY_SIZE * i + ENTRY_SIZE] == EncodeEntry(t[i])
  {
    forall r | 0 <= r < ENTRY_SIZE ensures EncodeTable(t)[ENTRY_SIZE * i + r] == EncodeEntry(t[i])[r] {
      assert (ENTRY_SIZE * i + r) / ENTRY_SIZE == i && (ENTRY_SIZE * i + r) % ENTRY_SIZE == r;
    }
  }

  /** A directory written to its file is read back unchanged. */
  lemma DecodeEncodeTable(t: seq<Entry>)
    ensures DecodeTable(EncodeTable(t)) == t
  {
    var b := EncodeTable(t);
    forall i | 0 <= i < |t| ensures DecodeTable(b)[i] == t[i] {
      EncodeTableSlice(t, i);
      DecodeEncodeEntry(t[i]);
    }
  }

  // ---- the table ----

  predicate Matches(e: Entry, name: seq<byte>) {
    e.inUse && StoredKey(e.name) == Key(name)
  }

  /** i is the first entry that holds name; -1 says there is none. */
  ghost predicate IsIndexOf(t: seq<Entry>, name: seq<byte>, i: int) {
    if i == -1 then forall k :: 0 <= k < |t| ==> !Matches(t[k], name)
    else 0 <= i < |t| && Matches(t[i], name) && forall k :: 0 <= k < i ==> !Matches(t[k], name)
  }

  /** t' is t with its first unused entry, i, now holding name. */
  ghost predicate AddedAt(t: seq<Entry>, t': seq<Entry>, i: int, name: seq<byte>, sector: int32) {
    && 0 <= i < |t| && !t[i].inUse
    && (forall k :: 0 <= k < i ==> t[k].inUse)
    && t' == t[i := Entry(true, sector, StrNCpy(t[i].name, name))]
  }

  /** The names in the directory, entry by entry. */
  function KeyOf(e: Entry): Option<seq<byte>> {
    if e.inUse then Some(StoredKey(e.name)) else None
  }

  function Keys(t: seq<Entry>): (ks: seq<Option<seq<byte>>>)
    ensures |ks| == |t|
  {
    seq(|t|, i requires 0 <= i < |t| => KeyOf(t[i]))
  }

  lemma KeysUpdate(t: seq<Entry>, i: nat, e: Entry)
    requires i < |t|
    ensures Keys(t[i := e]) == Keys(t)[i := KeyOf(e)]
  {
  }

  /** A name is found again exactly where it was added. */
  lemma IndexAfterAdd(t: seq<Entry>, t': seq<Entry>, slot: int, name: seq<byte>, sector: int32, i: int)
    requires CString(name) && IsIndexOf(t, name, -1)
    requires 0 <= slot < |t| && t' == t[slot := Entry(true, sector, StrNCpy(t[slot].name, name))]
    requires IsIndexOf(t', name, i)
    ensures i == slot
  {
    CopyKeepsKey(t[slot].name, name);
    assert Matches(t'[slot], name);
  }

  class Directory {
    const table: array<Entry>

    /** Every entry starts unused; its other fields hold whatever was in memory. */
    constructor (size: nat)
      ensures table.Length == size && fresh(table)
      ensures forall i :: 0 <= i < size ==> !table[i].inUse
    {
      table := new Entry[size];
      new;
      for i := 0 to size
        invariant forall k :: 0 <= k < i ==> !table[k].inUse
      {
        table[i] := table[i].(inUse := false);
      }
    }

    method FindIndex(name: seq<byte>) returns (i: int)
      requires CString(name)
      ensures IsIndexOf(table[..], name, i)
    {
      i := 0;
      while i < table.Length
        invariant 0 <= i <= table.Length
        invariant forall k :: 0 <= k < i ==> !Matches(table[k], name)
      {
        var e := table[i];
        CompareIsKeyEquality(e.name, name);
        if e.inUse && StrNCmpEqual(e.name[..FILE_NAME_MAX_LEN], name) {
          return;
        }
        i := i + 1;
      }
      i := -1;
    }

    method Find(name: seq<byte>) returns (sector: int32, ghost i: int)
      requires CString(name)
      ensures IsIndexOf(table[..], name, i)
      ensures sector == if i == -1 then -1 else table[i].sector
    {
      var index := FindIndex(name);
      i := index;
      sector := if index != -1 then table[index].sector else -1;
    }

    method Add(name: seq<byte>, newSector: int32) returns (ok: bool, ghost slot: int)
      requires CString(name)
      modifies table
      ensures ok <==> IsIndexOf(old(table[..]), name, -1) && exists k :: 0 <= k < table.Length && !old(table[k].inUse)
      ensures ok ==> AddedAt(old(table[..]), table[..], slot, name, newSector)
      ensures !ok ==> table[..] == old(table[..])
    {
      slot := -1;
      var index := FindIndex(name);
      if index != -1 {
        return false, -1;
      }
      var i := 0;
      while i < table.Length
        invariant 0 <= i <= table.Length
        invariant forall k :: 0 <= k < i ==> table[k].inUse
      {
        if !table[i].inUse {
          table[i] := Entry(true, newSector, StrNCpy(table[i].name, name));
          return true, i;
        }
        i := i + 1;
      }
      return false, -1;
    }

    method Remove(name: seq<byte>) returns (ok: bool, ghost slot: int)
      requires CString(name)
      modifies table
      ensures IsIndexOf(old(table[..]), name, slot)
      ensures ok <==> slot != -1
      ensures table[..] == if ok then old(table[..])[slot := old(table[slot]).(inUse := false)] else old(table[..])
    {
      var i := FindIndex(name);
      slot := i;
      if i == -1 {
        return false, -1;
      }
      table[i] := table[i].(inUse := false);
      return true, i;
    }

    /** Reads the table back from the directory file. */
    method FetchFrom(file: OpenFile)
      requires file.Valid() && file.hdr.numBytes == table.Length * ENTRY_SIZE
      modifies table
      ensures table[..] == DecodeTable(file.Content())
    {
      var size := table.Length * ENTRY_SIZE;
      var buf := new byte[size];
      var ok, n := file.ReadAt(buf, 0, size, 0);
      assert buf[..] == file.Content();
      var t := DecodeTable(buf[..]);
      forall i | 0 <= i < table.Length {
        table[i] := t[i];
      }
    }

    /** Writes the table over the directory file. */
    method WriteBack(file: OpenFile)
      requires file.Valid() && file.hdr.numBytes == table.Length * ENTRY_SIZE
      modifies file.disk
      ensures file.Valid() && |file.disk.sectors| == old(|file.disk.sectors|)
      ensures file.Content() == EncodeTable(table[..])
      ensures OutsideUnchanged(old(file.disk.sectors), file.disk.sectors, file.hdr)
    {
      var image := EncodeTable(table[..]);
      var buf := new byte[|image|](i requires 0 <= i < |image| => image[i]);
      ghost var d := file.disk.sectors;
      var ok, n := file.WriteAt(buf, |image|, 0);
      assert buf[..n] == image;
      OnlyChangesOutside(d, file.disk.sectors, file.hdr, |image|);
    }
  }
}
