/**
 Address translation and user memory (machine/translate.cc), with either a linear page table
 or a TLB.
 */
module Translation {
  import opened Words
  import opened Associations

  const PAGE_SIZE: nat := 128

  datatype TranslationEntry = TranslationEntry(
    virtualPage: int32, physicalPage: int32, valid: bool, readOnly: bool, use: bool, dirty: bool)

  datatype ExceptionType =
    | NoException
    | SyscallException
    | PageFaultException
    | ReadOnlyException
    | BusErrorException
    | AddressErrorException
    | OverflowException
    | IllegalInstrException

  datatype Lookup = Fault(exception: ExceptionType) | Entry(index: nat)

  /** Page table mode: the page number is an index. */
  function LookupTable(table: seq<TranslationEntry>, vpn: nat): (r: Lookup)
    ensures r.Entry? ==> r.index < |table|
  {
    if vpn >= |table| then Fault(AddressErrorException)
    else if !table[vpn].valid then Fault(PageFaultException)
    else Entry(vpn)
  }

  /** TLB mode: the first valid entry for the page, searching from i on. */
  function LookupTlb(tlb: seq<TranslationEntry>, vpn: nat, i: nat): (r: Lookup)
    requires i <= |tlb|
    ensures r.Entry? ==> r.index < |tlb| && tlb[r.index].valid && Unsigned(tlb[r.index].virtualPage) == vpn
    ensures r.Fault? ==> r.exception == PageFaultException
    decreases |tlb| - i
  {
    if i == |tlb| then Fault(PageFaultException)
    else if tlb[i].valid && Unsigned(tlb[i].virtualPage) == vpn then Entry(i)
    else LookupTlb(tlb, vpn, i + 1)
  }

  predicate Misaligned(virtAddr: int32, size: int) {
    (size == 4 && Unsigned(virtAddr) % 4 != 0) || (size == 2 && Unsigned(virtAddr) % 2 != 0)
  }

  /** The outcome of a translation: an exception, or the entry used and the physical address. */
  datatype Outcome = Raised(exception: ExceptionType) | Translated(index: nat, physAddr: nat)

  function Translate(usesTlb: bool, table: seq<TranslationEntry>, numPhysPages: nat,
                     virtAddr: int32, size: int, writing: bool): (r: Outcome)
    ensures r.Translated? ==> r.index < |table|
  {
    if Misaligned(virtAddr, size) then Raised(AddressErrorException) else
    var vpn, offset := Unsigned(virtAddr) / PAGE_SIZE, Unsigned(virtAddr) % PAGE_SIZE;
    var found := if usesTlb then LookupTlb(table, vpn, 0) else LookupTable(table, vpn);
    if found.Fault? then Raised(found.exception) else
    var e := table[found.index];
    if e.readOnly && writing then Raised(ReadOnlyException)
    else if Unsigned(e.physicalPage) >= numPhysPages then Raised(BusErrorException)
    else Translated(found.index, Unsigned(e.physicalPage) * PAGE_SIZE + offset)
  }

  lemma WordInPage(u: nat)
    requires u % 4 == 0
    ensures u % PAGE_SIZE + 4 <= PAGE_SIZE
  {
    var q, w := u / 128, u / 4;
    assert u % 128 == 4 * (w - 32 * q);
  }

  lemma ShortInPage(u: nat)
    requires u % 2 == 0
    ensures u % PAGE_SIZE + 2 <= PAGE_SIZE
  {
    var q, w := u / 128, u / 2;
    assert u % 128 == 2 * (w - 64 * q);
  }

  /** Accesses of 1, 2 or 4 bytes stay inside physical memory, and inside their page. */
  lemma TranslateInBounds(usesTlb: bool, table: seq<TranslationEntry>, numPhysPages: nat, virtAddr: int32, size: int,
                          writing: bool)
    requires size in {1, 2, 4}
    requires Translate(usesTlb, table, numPhysPages, virtAddr, size, writing).Translated?
    ensures var r := Translate(usesTlb, table, numPhysPages, virtAddr, size, writing);
            && r.physAddr + size <= numPhysPages * PAGE_SIZE
            && r.physAddr % PAGE_SIZE + size <= PAGE_SIZE
            && r.physAddr % PAGE_SIZE == Unsigned(virtAddr) % PAGE_SIZE
            && r.physAddr / PAGE_SIZE == Unsigned(table[r.index].physicalPage) < numPhysPages
  {
    if size == 4 {
      WordInPage(Unsigned(virtAddr));
    } else if size == 2 {
      ShortInPage(Unsigned(virtAddr));
    }
  }

  /** Every valid TLB entry says what the page table says about its page. */
  ghost predicate Coherent(tlb: seq<TranslationEntry>, table: seq<TranslationEntry>) {
    forall i :: 0 <= i < |tlb| && tlb[i].valid ==>
      var vpn := Unsigned(tlb[i].virtualPage);
      && vpn < |table| && table[vpn].valid
      && table[vpn].physicalPage == tlb[i].physicalPage && table[vpn].readOnly == tlb[i].readOnly
  }

  /** A coherent TLB that does not fault gives the page table's answer. */
  lemma TlbAgreesWithTable(tlb: seq<TranslationEntry>, table: seq<TranslationEntry>, numPhysPages: nat,
                           virtAddr: int32, size: int, writing: bool)
    requires Coherent(tlb, table)
    ensures var t := Translate(true, tlb, numPhysPages, virtAddr, size, writing);
            var p := Translate(false, table, numPhysPages, virtAddr, size, writing);
            t == Raised(PageFaultException) || t == p || (t.Translated? && p.Translated? && t.physAddr == p.physAddr)
  {
    var vpn := Unsigned(virtAddr) / PAGE_SIZE;
    var found := LookupTlb(tlb, vpn, 0);
    if found.Entry? {
      assert tlb[found.index].valid;
    }
  }

  /** The use bit of the entry is set, and on a write the dirty bit. */
  function Touch(e: TranslationEntry, writing: bool): TranslationEntry {
    e.(use := true, dirty := e.dirty || writing)
  }

  lemma {:induction false} TouchKeepsTlb(tlb: seq<TranslationEntry>, k: nat, writing: bool, vpn: nat, i: nat)
    requires k < |tlb| && i <= |tlb|
    ensures LookupTlb(tlb[k := Touch(tlb[k], writing)], vpn, i) == LookupTlb(tlb, vpn, i)
    decreases |tlb| - i
  {
    if i < |tlb| {
      TouchKeepsTlb(tlb, k, writing, vpn, i + 1);
    }
  }

  /** The use and dirty bits set by one access never change the outcome of a later one. */
  lemma TouchKeepsTranslation(usesTlb: bool, table: seq<TranslationEntry>, k: nat, touch: bool, numPhysPages: nat,
                              virtAddr: int32, size: int, writing: bool)
    requires k < |table|
    ensures Translate(usesTlb, table[k := Touch(table[k], touch)], numPhysPages, virtAddr, size, writing) ==
            Translate(usesTlb, table, numPhysPages, virtAddr, size, writing)
  {
    TouchKeepsTlb(table, k, touch, Unsigned(virtAddr) / PAGE_SIZE, 0);
  }

  /** Two tables that differ at most in use and dirty bits. */
  ghost predicate SameMapping(a: seq<TranslationEntry>, b: seq<TranslationEntry>) {
    |a| == |b| && forall i :: 0 <= i < |a| ==> b[i] == a[i].(use := b[i].use, dirty := b[i].dirty)
  }

  lemma {:induction false} SameMappingLooksUp(a: seq<TranslationEntry>, b: seq<TranslationEntry>, vpn: nat, i: nat)
    requires SameMapping(a, b) && i <= |a|
    ensures LookupTlb(a, vpn, i) == LookupTlb(b, vpn, i)
    decreases |a| - i
  {
    if i < |a| {
      SameMappingLooksUp(a, b, vpn, i + 1);
    }
  }

  lemma SameMappingTranslates(usesTlb: bool, a: seq<TranslationEntry>, b: seq<TranslationEntry>, numPhysPages: nat,
                              virtAddr: int32, size: int, writing: bool)
    requires SameMapping(a, b)
    ensures Translate(usesTlb, a, numPhysPages, virtAddr, size, writing) ==
            Translate(usesTlb, b, numPhysPages, virtAddr, size, writing)
  {
    SameMappingLooksUp(a, b, Unsigned(virtAddr) / PAGE_SIZE, 0);
  }

  // ---- reading and writing through a page table or a TLB ----

  datatype Mmu = Mmu(usesTlb: bool, entries: seq<TranslationEntry>)

  /** What ReadMem makes of the bytes: a signed char, an unsigned short or an int. */
  function Value(b: seq<byte>): (v: int32)
    requires |b| in {1, 2, 4}
  {
    if |b| == 1 then if b[0] < 128 then b[0] as int else b[0] as int - 256
    else if |b| == 2 then b[0] as int + 0x100 * (b[1] as int)
    else BytesInt(b)
  }

  function Read(mmu: Mmu, memory: seq<byte>, virtAddr: int32, size: int): (r: Option<int32>)
    requires size in {1, 2, 4} && |memory| % PAGE_SIZE == 0
  {
    var t := Translate(mmu.usesTlb, mmu.entries, |memory| / PAGE_SIZE, virtAddr, size, false);
    if t.Raised? then None else
    TranslateInBounds(mmu.usesTlb, mmu.entries, |memory| / PAGE_SIZE, virtAddr, size, false);
    Some(Value(memory[t.physAddr..t.physAddr + size]))
  }

  /** Memory after a write; a translation that fails changes nothing. */
  function Written(mmu: Mmu, memory: seq<byte>, virtAddr: int32, size: int, value: int): (m: seq<byte>)
    requires size in {1, 2, 4} && |memory| % PAGE_SIZE == 0
    ensures |m| == |memory|
  {
    var t := Translate(mmu.usesTlb, mmu.entries, |memory| / PAGE_SIZE, virtAddr, size, true);
    if t.Raised? then memory else
    TranslateInBounds(mmu.usesTlb, mmu.entries, |memory| / PAGE_SIZE, virtAddr, size, true);
    memory[..t.physAddr] + IntBytes(value)[..size] + memory[t.physAddr + size..]
  }

  ghost function Frames(table: seq<TranslationEntry>): set<nat> {
    set i | 0 <= i < |table| :: Unsigned(table[i].physicalPage) as nat
  }

  /** Different pages have different frames. */
  ghost predicate Injective(table: seq<TranslationEntry>) {
    forall i, j :: 0 <= i < j < |table| ==> table[i].physicalPage != table[j].physicalPage
  }

  /** A read is not affected by a write whose physical bytes lie elsewhere. */
  lemma ReadUnaffected(mmu: Mmu, memory: seq<byte>, memory': seq<byte>, virtAddr: int32, size: int)
    requires size in {1, 2, 4} && |memory| == |memory'| && |memory| % PAGE_SIZE == 0
    requires var t := Translate(mmu.usesTlb, mmu.entries, |memory| / PAGE_SIZE, virtAddr, size, false);
             t.Translated? ==>
               forall k :: t.physAddr <= k < t.physAddr + size && k < |memory| ==> memory'[k] == memory[k]
    ensures Read(mmu, memory', virtAddr, size) == Read(mmu, memory, virtAddr, size)
  {
    var t := Translate(mmu.usesTlb, mmu.entries, |memory| / PAGE_SIZE, virtAddr, size, false);
    if t.Translated? {
      TranslateInBounds(mmu.usesTlb, mmu.entries, |memory| / PAGE_SIZE, virtAddr, size, false);
      assert memory'[t.physAddr..t.physAddr + size] == memory[t.physAddr..t.physAddr + size];
    }
  }

  /** A write only changes bytes of the frame its page maps to. */
  lemma WrittenFrame(mmu: Mmu, memory: seq<byte>, virtAddr: int32, size: int, value: int, k: nat)
    requires size in {1, 2, 4} && |memory| % PAGE_SIZE == 0 && k < |memory|
    requires Written(mmu, memory, virtAddr, size, value)[k] != memory[k]
    ensures var t := Translate(mmu.usesTlb, mmu.entries, |memory| / PAGE_SIZE, virtAddr, size, true);
            && t.Translated? && (!mmu.usesTlb ==> t.index == Unsigned(virtAddr) / PAGE_SIZE)
            && t.physAddr <= k < t.physAddr + size
            && k / PAGE_SIZE == Unsigned(mmu.entries[t.index].physicalPage)
            && k / PAGE_SIZE in Frames(mmu.entries)
  {
    TranslateInBounds(mmu.usesTlb, mmu.entries, |memory| / PAGE_SIZE, virtAddr, size, true);
  }

  /** Writing in one address space changes no read in another. */
  lemma SpacesIsolated(mine: Mmu, other: Mmu, memory: seq<byte>,
                       a: int32, s: int, value: int, b: int32, t: int)
    requires s in {1, 2, 4} && t in {1, 2, 4} && |memory| % PAGE_SIZE == 0
    requires Frames(mine.entries) !! Frames(other.entries)
    ensures Read(other, Written(mine, memory, a, s, value), b, t) == Read(other, memory, b, t)
  {
    var memory' := Written(mine, memory, a, s, value);
    var r := Translate(other.usesTlb, other.entries, |memory| / PAGE_SIZE, b, t, false);
    if r.Translated? {
      TranslateInBounds(other.usesTlb, other.entries, |memory| / PAGE_SIZE, b, t, false);
      forall k | r.physAddr <= k < r.physAddr + t ensures memory'[k] == memory[k] {
        assert k / PAGE_SIZE in Frames(other.entries);
        if memory'[k] != memory[k] {
          WrittenFrame(mine, memory, a, s, value, k);
        }
      }
    }
    ReadUnaffected(other, memory, memory', b, t);
  }

  /** The page that entry i is for. */
  function PageOf(mmu: Mmu, i: nat): nat
    requires i < |mmu.entries|
  {
    if mmu.usesTlb then Unsigned(mmu.entries[i].virtualPage) else i
  }

  /** No frame stands for two pages. */
  ghost predicate OnePagePerFrame(mmu: Mmu) {
    forall i, j :: 0 <= i < j < |mmu.entries| && mmu.entries[i].valid && mmu.entries[j].valid ==>
      mmu.entries[i].physicalPage == mmu.entries[j].physicalPage ==> PageOf(mmu, i) == PageOf(mmu, j)
  }

  /** Entry i is the one that the lookup of a page uses. */
  ghost predicate Serves(mmu: Mmu, page: nat, i: nat) {
    && i < |mmu.entries| && mmu.entries[i].valid && PageOf(mmu, i) == page
    && forall j :: 0 <= j < i && mmu.entries[j].valid ==> PageOf(mmu, j) != page
  }

  lemma {:induction false} TlbFinds(mmu: Mmu, page: nat, i: nat)
    requires mmu.usesTlb && i <= |mmu.entries|
    requires forall j :: 0 <= j < i && mmu.entries[j].valid ==> PageOf(mmu, j) != page
    ensures var found := LookupTlb(mmu.entries, page, i);
            if found.Entry? then Serves(mmu, page, found.index)
            else forall j :: 0 <= j < |mmu.entries| && mmu.entries[j].valid ==> PageOf(mmu, j) != page
    decreases |mmu.entries| - i
  {
    if i < |mmu.entries| && !(mmu.entries[i].valid && PageOf(mmu, i) == page) {
      TlbFinds(mmu, page, i + 1);
    }
  }

  /** The exceptions of a translation, in the order in which they are looked for, and the frame and offset
      when there is none. */
  lemma TranslateOutcome(mmu: Mmu, numPhysPages: nat, virtAddr: int32, size: int, writing: bool)
    ensures var r := Translate(mmu.usesTlb, mmu.entries, numPhysPages, virtAddr, size, writing);
            var u := Unsigned(virtAddr);
            if (size == 4 && u % 4 != 0) || (size == 2 && u % 2 != 0) then r == Raised(AddressErrorException)
            else if !mmu.usesTlb && u >= 128 * |mmu.entries| then r == Raised(AddressErrorException)
            else if !(exists i :: 0 <= i < |mmu.entries| && mmu.entries[i].valid && PageOf(mmu, i) == u / 128) then
              r == Raised(PageFaultException)
            else
              exists i: nat :: Serves(mmu, u / 128, i) && r == EntryOutcome(mmu.entries[i], i, numPhysPages, u, writing)
  {
    var page := Unsigned(virtAddr) / PAGE_SIZE;
    if mmu.usesTlb {
      TlbFinds(mmu, page, 0);
      var found := LookupTlb(mmu.entries, page, 0);
      assert found.Entry? ==> Serves(mmu, page, found.index);
    } else {
      assert page < |mmu.entries| && mmu.entries[page].valid ==> Serves(mmu, page, page);
    }
  }

  /** What the entry makes of an address in its page. */
  function EntryOutcome(e: TranslationEntry, i: nat, numPhysPages: nat, u: nat, writing: bool): Outcome {
    if e.readOnly && writing then Raised(ReadOnlyException)
    else if Unsigned(e.physicalPage) >= numPhysPages then Raised(BusErrorException)
    else Translated(i, 128 * Unsigned(e.physicalPage) + u % 128)
  }

  lemma TranslatedPage(mmu: Mmu, numPhysPages: nat, virtAddr: int32, size: int, writing: bool)
    requires Translate(mmu.usesTlb, mmu.entries, numPhysPages, virtAddr, size, writing).Translated?
    ensures var i := Translate(mmu.usesTlb, mmu.entries, numPhysPages, virtAddr, size, writing).index;
            i < |mmu.entries| && mmu.entries[i].valid && PageOf(mmu, i) == Unsigned(virtAddr) / PAGE_SIZE
  {
  }

  /** Within one space, accesses that do not overlap do not meet in memory. */
  lemma DisjointPhysical(mmu: Mmu, numPhysPages: nat, a: int32, s: int, b: int32, t: int)
    requires s in {1, 2, 4} && t in {1, 2, 4} && OnePagePerFrame(mmu)
    requires Unsigned(a) + s <= Unsigned(b) || Unsigned(b) + t <= Unsigned(a)
    ensures var p := Translate(mmu.usesTlb, mmu.entries, numPhysPages, a, s, true);
            var q := Translate(mmu.usesTlb, mmu.entries, numPhysPages, b, t, false);
            p.Translated? && q.Translated? ==> p.physAddr + s <= q.physAddr || q.physAddr + t <= p.physAddr
  {
    var p := Translate(mmu.usesTlb, mmu.entries, numPhysPages, a, s, true);
    var q := Translate(mmu.usesTlb, mmu.entries, numPhysPages, b, t, false);
    if p.Translated? && q.Translated? {
      TranslatedPage(mmu, numPhysPages, a, s, true);
      TranslatedPage(mmu, numPhysPages, b, t, false);
      TranslateInBounds(mmu.usesTlb, mmu.entries, numPhysPages, a, s, true);
      TranslateInBounds(mmu.usesTlb, mmu.entries, numPhysPages, b, t, false);
      if p.physAddr / PAGE_SIZE != q.physAddr / PAGE_SIZE {
        FramesApart(p.physAddr, s, q.physAddr, t);
      }
    }
  }

  lemma FramesApart(p: nat, s: nat, q: nat, t: nat)
    requires p % PAGE_SIZE + s <= PAGE_SIZE && q % PAGE_SIZE + t <= PAGE_SIZE && p / PAGE_SIZE != q / PAGE_SIZE
    ensures p + s <= q || q + t <= p
  {
  }

  /** Within one space, a write changes no read at addresses it does not overlap. */
  lemma DisjointAccess(mmu: Mmu, memory: seq<byte>, a: int32, s: int, value: int, b: int32, t: int)
    requires s in {1, 2, 4} && t in {1, 2, 4} && |memory| % PAGE_SIZE == 0 && OnePagePerFrame(mmu)
    requires Unsigned(a) + s <= Unsigned(b) || Unsigned(b) + t <= Unsigned(a)
    ensures Read(mmu, Written(mmu, memory, a, s, value), b, t) == Read(mmu, memory, b, t)
  {
    DisjointPhysical(mmu, |memory| / PAGE_SIZE, a, s, b, t);
    ReadUnaffected(mmu, memory, Written(mmu, memory, a, s, value), b, t);
  }

  /** A value written and read back through the same mapping comes back cut to its size. */
  lemma ReadAfterWrite(mmu: Mmu, memory: seq<byte>, a: int32, size: int, value: int32)
    requires size in {1, 2, 4} && |memory| % PAGE_SIZE == 0
    requires Translate(mmu.usesTlb, mmu.entries, |memory| / PAGE_SIZE, a, size, true).Translated?
    ensures Read(mmu, Written(mmu, memory, a, size, value), a, size) == Some(
      if size == 4 then value else if size == 2 then value % 0x1_0000
      else if value % 256 < 128 then value % 256 else value % 256 - 256)
  {
    var t := Translate(mmu.usesTlb, mmu.entries, |memory| / PAGE_SIZE, a, size, true);
    var memory' := Written(mmu, memory, a, size, value);
    assert Translate(mmu.usesTlb, mmu.entries, |memory| / PAGE_SIZE, a, size, false) == t;
    TranslateInBounds(mmu.usesTlb, mmu.entries, |memory| / PAGE_SIZE, a, size, true);
    var b := IntBytes(value)[..size];
    assert memory'[t.physAddr..t.physAddr + size] == b;
    ValueOfBytes(value, size);
  }

  lemma ValueOfBytes(value: int32, size: int)
    requires size in {1, 2, 4}
    ensures Value(IntBytes(value)[..size]) ==
      if size == 4 then value else if size == 2 then value % 0x1_0000
      else if value % 256 < 128 then value % 256 else value % 256 - 256
  {
    var b := IntBytes(value);
    if size == 4 {
      assert b[..4] == b;
      BytesIntOfIntBytes(value);
    } else {
      LowBytes(value);
    }
  }

  lemma LowBytes(value: int)
    ensures var b := IntBytes(value);
            b[0] as int == value % 256 && b[0] as int + 0x100 * (b[1] as int) == value % 0x1_0000
  {
    var u := value % TWO32;
    var q := value / TWO32;
    Remainder256(value, 0x100_0000 * q + u / 256, u % 256);
    var v := u / 256;
    Remainder65536(value, 0x1_0000 * q + v / 256, u % 256 + 256 * (v % 256));
  }

  lemma Remainder256(x: int, q: int, r: int)
    requires x == 256 * q + r && 0 <= r < 256
    ensures x % 256 == r
  {
  }

  lemma Remainder65536(x: int, q: int, r: int)
    requires x == 0x1_0000 * q + r && 0 <= r < 0x1_0000
    ensures x % 0x1_0000 == r
  {
  }

  // ---- the machine ----

  class Machine {
    const mainMemory: array<byte>
    const usesTlb: bool
    var entries: array<TranslationEntry>   // the TLB, or the page table of the running space

    constructor (numPhysPages: nat, usesTlb: bool, entries: array<TranslationEntry>)
      ensures mainMemory.Length == numPhysPages * PAGE_SIZE && this.usesTlb == usesTlb && this.entries == entries
      ensures forall i :: 0 <= i < mainMemory.Length ==> mainMemory[i] == 0
    {
      mainMemory := new byte[numPhysPages * PAGE_SIZE](_ => 0);
      this.usesTlb := usesTlb;
      this.entries := entries;
    }

    ghost predicate Valid() {
      mainMemory.Length % PAGE_SIZE == 0
    }

    /** Translate as the source runs it, with the TLB search loop, use and dirty bits. */
    method TranslateAddress(virtAddr: int32, size: int, writing: bool) returns (exception: ExceptionType, physAddr: int)
      requires Valid() && size in {1, 2, 4}
      modifies entries
      ensures var r := Translate(usesTlb, old(entries[..]), mainMemory.Length / PAGE_SIZE, virtAddr, size, writing);
              if r.Raised? then exception == r.exception != NoException && entries[..] == old(entries[..])
              else exception == NoException && physAddr == r.physAddr
                   && entries[..] == old(entries[..])[r.index := Touch(old(entries[..])[r.index], writing)]
                   && entries[r.index].use && entries[r.index].dirty == (writing || old(entries[..])[r.index].dirty)
    {
      physAddr := 0;
      var u := Unsigned(virtAddr);
      if (size == 4 && u % 4 != 0) || (size == 2 && u % 2 != 0) {
        return AddressErrorException, 0;
      }
      var vpn, offset := u / PAGE_SIZE, u % PAGE_SIZE;
      var entry := -1;
      if !usesTlb {
        if vpn >= entries.Length {
          return AddressErrorException, 0;
        } else if !entries[vpn].valid {
          return PageFaultException, 0;
        }
        entry := vpn;
      } else {
        entry := SearchTlb(vpn);
        if entry == -1 {
          return PageFaultException, 0;
        }
      }
      if entries[entry].readOnly && writing {
        return ReadOnlyException, 0;
      }
      var pageFrame := Unsigned(entries[entry].physicalPage);
      if pageFrame >= mainMemory.Length / PAGE_SIZE {
        return BusErrorException, 0;
      }
      TranslateInBounds(usesTlb, entries[..], mainMemory.Length / PAGE_SIZE, virtAddr, size, writing);
      entries[entry] := entries[entry].(use := true);
      if writing {
        entries[entry] := entries[entry].(dirty := true);
      }
      physAddr := pageFrame * PAGE_SIZE + offset;
      assert 0 <= physAddr && physAddr + size <= mainMemory.Length;
      return NoException, physAddr;
    }

    method SearchTlb(vpn: nat) returns (entry: int)
      ensures var r := LookupTlb(entries[..], vpn, 0); if r.Fault? then entry == -1 else entry == r.index
    {
      var i := 0;
      while i < entries.Length
        invariant 0 <= i <= entries.Length
        invariant LookupTlb(entries[..], vpn, 0) == LookupTlb(entries[..], vpn, i)
      {
        if entries[i].valid && Unsigned(entries[i].virtualPage) == vpn {
          return i;
        }
        i := i + 1;
      }
      return -1;
    }

    method ReadMem(addr: int32, size: int) returns (exception: ExceptionType, value: int32)
      requires Valid() && size in {1, 2, 4}
      modifies entries
      ensures SameMapping(old(entries[..]), entries[..])
      ensures var t := Translate(usesTlb, old(entries[..]), mainMemory.Length / PAGE_SIZE, addr, size, false);
              exception == if t.Raised? then t.exception else NoException
      ensures var r := Read(Mmu(usesTlb, old(entries[..])), mainMemory[..], addr, size);
              if exception == NoException then r == Some(value) else r == None
    {
      value := 0;
      var physicalAddress;
      exception, physicalAddress := TranslateAddress(addr, size, false);
      if exception != NoException {
        return;
      }
      TranslateInBounds(usesTlb, old(entries[..]), mainMemory.Length / PAGE_SIZE, addr, size, false);
      var data := mainMemory[physicalAddress..physicalAddress + size];
      assert data == mainMemory[..][physicalAddress..physicalAddress + size];
      value := Value(data);
    }

    method WriteMem(addr: int32, size: int, value: int32) returns (exception: ExceptionType)
      requires Valid() && size in {1, 2, 4}
      modifies entries, mainMemory
      ensures SameMapping(old(entries[..]), entries[..])
      ensures mainMemory[..] == Written(Mmu(usesTlb, old(entries[..])), old(mainMemory[..]), addr, size, value)
      ensures var t := Translate(usesTlb, old(entries[..]), mainMemory.Length / PAGE_SIZE, addr, size, true);
              exception == if t.Raised? then t.exception else NoException
    {
      var physicalAddress;
      exception, physicalAddress := TranslateAddress(addr, size, true);
      if exception != NoException {
        return;
      }
      TranslateInBounds(usesTlb, old(entries[..]), mainMemory.Length / PAGE_SIZE, addr, size, true);
      StoreBytes(physicalAddress, IntBytes(value)[..size]);
    }

    method StoreBytes(at: nat, data: seq<byte>)
      requires at + |data| <= mainMemory.Length
      modifies mainMemory
      ensures mainMemory[..] == old(mainMemory[..])[..at] + data + old(mainMemory[..])[at + |data|..]
    {
      forall i | 0 <= i < |data| {
        mainMemory[at + i] := data[i];
      }
    }
  }
}
