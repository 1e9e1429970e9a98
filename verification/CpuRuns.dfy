/**
 What the simulated processor promises: exact overflow traps, precise exceptions, the two delay
 slots, and the registers and memory of several programs over whole runs.
 */
module ProcessorRuns {
  import opened Words
  import opened Bitwise
  import opened Decoding
  import opened Multiplier
  import opened Translation
  import opened Processor

  // ---- arithmetic ----

  /** A sum wraps around exactly when its terms agree in sign and it does not agree with them. */
  lemma SumSign(x: int32, y: int32)
    ensures !IsInt32(x + y) <==> (x < 0) == (y < 0) && (x < 0) != (Wrap(x + y) < 0)
  {
    var n := x as int + y;
    if n >= 0x8000_0000 {
      assert Wrap(n) == n - TWO32;
    } else if n < -0x8000_0000 {
      assert Wrap(n) == n + TWO32;
    }
  }

  /** The sign tests of ADD trap exactly when the sum does not fit. */
  lemma AddTraps(dest: RegNum, x: int32, y: int32)
    ensures SignedAdd(dest, x, y) == if IsInt32(x + y) then Assign(dest, x + y) else Raise(OverflowException, 0)
  {
    XorSign(x, y);
    XorSign(x, Wrap(x + y));
    SumSign(x, y);
  }

  lemma AddImmediateTraps(dest: RegNum, x: int32, extra: int32)
    ensures SignedAddImmediate(dest, x, extra) ==
            if IsInt32(x + extra) then Assign(dest, x + extra) else Raise(OverflowException, 0)
  {
    XorSign(x, extra);
    XorSign(extra, Wrap(x + extra));
    SumSign(x, extra);
  }

  lemma DifferenceSign(x: int32, y: int32)
    ensures !IsInt32(x - y) <==> (x < 0) != (y < 0) && (x < 0) != (Wrap(x - y) < 0)
  {
    var n := x as int - y;
    if n >= 0x8000_0000 {
      assert Wrap(n) == n - TWO32;
    } else if n < -0x8000_0000 {
      assert Wrap(n) == n + TWO32;
    }
  }

  lemma SubtractTraps(dest: RegNum, x: int32, y: int32)
    ensures SignedSubtract(dest, x, y) == if IsInt32(x - y) then Assign(dest, x - y) else Raise(OverflowException, 0)
  {
    XorSign(x, y);
    XorSign(x, Wrap(x - y));
    DifferenceSign(x, y);
  }

  /** DIV leaves the quotient in LO and the remainder, with the dividend's sign, in HI; only the
      one quotient that does not fit is excepted. */
  lemma DivideSigned(x: int32, y: int32)
    requires y != 0 && !(x == -0x8000_0000 && y == -1)
    ensures var d := Divide(x, y);
            && d.HiLo? && x == y * d.lo + d.hi
            && (if y < 0 then y < d.hi < 0 - y else 0 - y < d.hi < y)
            && (x >= 0 ==> d.hi >= 0) && (x <= 0 ==> d.hi <= 0)
  {
    QuotientBounds(x, y);
  }

  lemma QuotientBounds(x: int32, y: int32)
    requires y != 0 && !(x == -0x8000_0000 && y == -1)
    ensures var q, m := Quotient(x, y), x - y * Quotient(x, y);
            && IsInt32(q) && IsInt32(m)
            && (if y < 0 then y < m < 0 - y else 0 - y < m < y)
            && (x >= 0 ==> m >= 0) && (x <= 0 ==> m <= 0)
  {
    var a: nat := if x < 0 then 0 - x as int else x;
    var b: nat := if y < 0 then 0 - y as int else y;
    var q, m := Divided(a, b);
    SignedProduct(x < 0, y < 0, b, q);
  }

  lemma Divided(a: nat, b: nat) returns (q: nat, m: nat)
    requires b > 0
    ensures q == a / b && m == a % b && a == b * q + m && m < b && q <= a && (b > 1 ==> 2 * q <= a)
  {
    q, m := a / b, a % b;
    Division(a, b, q, m);
  }

  lemma Division(a: nat, b: nat, q: nat, m: int)
    requires b > 0 && a == b * q + m && 0 <= m < b
    ensures q <= a && (b > 1 ==> 2 * q <= a)
  {
    MulAtLeast(b, q);
    if b > 1 {
      MulAtLeast(b - 1, q);
      assert b * q == (b - 1) * q + q;
    }
  }

  lemma SignedProduct(p: bool, n: bool, b: nat, q: nat)
    ensures var y, z := if n then 0 - b else b, if p != n then 0 - q else q;
            y * z == if p then 0 - b * q else b * q
  {
  }

  /** DIVU is division of the unsigned values. */
  lemma DivideUnsigned(x: word, y: word)
    requires y != 0
    ensures var d := Divide(x, y);
            d.HiLo? && Unsigned(d.hi) == x % y && Unsigned(d.lo) == x / y
  {
    var q, m := Divided(x, y);
    assert Quotient(x, y) == q;
    UnsignedWrapped(q);
    UnsignedWrapped(m);
  }

  lemma UnsignedWrapped(w: word)
    ensures Unsigned(Wrap(w)) == w
  {
  }

  /** The operation the MIPS manual calls SRL: zeroes come in from the left. */
  function LogicalShiftRight(y: int32, k: nat): int32 {
    Wrap(Unsigned(y) / Pow2(k))
  }

  /** SRL and SRLV shift in copies of the sign: right exactly for shifts of zero and words with a clear sign. */
  lemma SrlIsLogical(y: int32, k: nat)
    requires k < 32
    ensures ShiftRight(y, k) == LogicalShiftRight(y, k) <==> k == 0 || y >= 0
  {
    if k > 0 && y < 0 {
      HighQuotient(y, 2 * Pow2(k - 1));
      LowQuotient(y, 2 * Pow2(k - 1));
    }
  }

  lemma HighQuotient(y: int32, p: nat)
    requires y < 0 && p >= 2
    ensures 0 <= Wrap(Unsigned(y) / p)
  {
    Division(Unsigned(y), p, Unsigned(y) / p, Unsigned(y) % p);
  }

  lemma LowQuotient(y: int32, p: nat)
    requires y < 0 && p >= 2
    ensures Wrap(y / p) < 0
  {
    var q := y / p;
    assert y == p * q + y % p;
  }

  /** OR reads its first operand twice: right exactly when the second adds no bit. */
  lemma OrIsOr(rd: RegNum, x: int32, y: int32)
    ensures RegisterPlan(OR, rd, x, y) == Assign(rd, Or(x, y)) <==> Covers(x, y)
  {
    OrSelf(x);
    OrCovered(x, y);
  }

  // ---- one instruction ----

  /** The registers that only the processor's own bookkeeping writes. */
  predicate Bookkeeping(k: nat) {
    k == LOAD_REG || k == LOAD_VALUE_REG || k == BAD_VADDR_REG
  }

  /** A trap changes nothing but this: the pending load is delivered and the faulting address
      recorded.  In particular both program counters still say where to resume. */
  ghost predicate Precise(r: Registers, r': Registers)
    requires Shape(r)
  {
    && |r'| == |r| && r'[0] == 0 && r'[LOAD_REG] == 0
    && (r[LOAD_REG] != 0 ==> r'[r[LOAD_REG]] == r[LOAD_VALUE_REG])
    && forall k :: 0 < k < |r| && k != r[LOAD_REG] && !Bookkeeping(k) ==> r'[k] == r[k]
  }

  /** A completed instruction: the program counters advance, the pending load arrives, and at
      most one general register d changes besides. */
  ghost predicate Completed(r: Registers, r': Registers, d: nat)
    requires Shape(r)
  {
    && Good(r')
    && r'[PREV_PC_REG] == r[PC_REG] && r'[PC_REG] == r[NEXT_PC_REG]
    && (r[LOAD_REG] != 0 ==> r'[r[LOAD_REG]] == r[LOAD_VALUE_REG])
    && r'[BAD_VADDR_REG] == r[BAD_VADDR_REG]
    && forall k :: 0 < k < 32 && k != r[LOAD_REG] && k != d ==> r'[k] == r[k]
  }

  lemma TrapIsPrecise(r: Registers, badVAddr: int32)
    requires Shape(r)
    ensures Precise(r, DelayedLoad(r[BAD_VADDR_REG := badVAddr], 0, 0))
  {
  }

  /** Retiring after a write of register d, or of HI and LO. */
  lemma RetireCompletes(r: Registers, r1: Registers, d: nat, pcAfter: int32, loadReg: RegNum, loadValue: int32)
    requires Shape(r) && |r1| == |r|
    requires forall k :: 0 <= k < |r| && k != d && k != HI_REG && k != LO_REG ==> r1[k] == r[k]
    requires d < PC_REG
    ensures Completed(r, Retire(r1, pcAfter, loadReg, loadValue), d)
    ensures Retire(r1, pcAfter, loadReg, loadValue)[NEXT_PC_REG] == pcAfter
    ensures Retire(r1, pcAfter, loadReg, loadValue)[LOAD_REG] == loadReg
    ensures Retire(r1, pcAfter, loadReg, loadValue)[LOAD_VALUE_REG] == loadValue
  {
  }

  /** What every instruction does to the registers and to the size of memory. */
  ghost predicate Lawful(r: Registers, memory: seq<byte>, res: Result)
    requires Shape(r)
  {
    match res
    case Stopped => true
    case Trapped(which, r', memory') => which != NoException && memory' == memory && Precise(r, r')
    case Advanced(r', memory') => |memory'| == |memory| && exists d: nat :: Completed(r, r', d)
  }

  lemma LoadIsLawful(i: Instruction, r: Registers, mmu: Mmu, memory: seq<byte>, addr: int32, size: int)
    requires Shape(r) && |memory| % PAGE_SIZE == 0 && size in {1, 2, 4}
    ensures Lawful(r, memory, ExecuteLoad(i, r, mmu, memory, addr, size))
  {
    TrapIsPrecise(r, addr);
    if Translate(mmu.usesTlb, mmu.entries, |memory| / PAGE_SIZE, addr, size, false).Translated? {
      RetireCompletes(r, r, 0, Following(r[NEXT_PC_REG]), i.rt, Loaded(i, r, Read(mmu, memory, addr, size).value));
    }
  }

  lemma StoreIsLawful(r: Registers, mmu: Mmu, memory: seq<byte>, addr: int32, size: int, value: int32)
    requires Shape(r) && |memory| % PAGE_SIZE == 0 && size in {1, 2, 4}
    ensures Lawful(r, memory, ExecuteStore(r, mmu, memory, addr, size, value))
  {
    TrapIsPrecise(r, addr);
    RetireCompletes(r, r, 0, Following(r[NEXT_PC_REG]), 0, 0);
  }

  lemma MergeIsLawful(i: Instruction, r: Registers, mmu: Mmu, memory: seq<byte>, addr: int32)
    requires Shape(r) && |memory| % PAGE_SIZE == 0
    ensures Lawful(r, memory, ExecuteMerge(i, r, mmu, memory, addr))
  {
    TrapIsPrecise(r, addr);
    if Translate(mmu.usesTlb, mmu.entries, |memory| / PAGE_SIZE, addr, 4, false).Translated? {
      StoreIsLawful(r, mmu, memory, addr, 4, Merged(i, Read(mmu, memory, addr, 4).value, r[i.rt]));
    }
  }

  lemma PerformIsLawful(p: Plan, i: Instruction, r: Registers, mmu: Mmu, memory: seq<byte>)
    requires p.Good() && Shape(r) && |memory| % PAGE_SIZE == 0
    ensures Lawful(r, memory, Perform(p, i, r, mmu, memory))
  {
    var next := Following(r[NEXT_PC_REG]);
    match p
    case Stop =>
    case Raise(which, addr) => TrapIsPrecise(r, addr);
    case Assign(dest, value) => RetireCompletes(r, r[dest := value], dest, next, 0, 0);
    case Jump(pcAfter) => RetireCompletes(r, r, 0, pcAfter, 0, 0);
    case Link(dest, value, pcAfter) => RetireCompletes(r, r[dest := value], dest, pcAfter, 0, 0);
    case HiLo(hi, lo) => RetireCompletes(r, WithHiLo(r, hi, lo), 0, next, 0, 0);
    case Multiply(s) =>
      var product := Product(r[i.rs], r[i.rt], s);
      RetireCompletes(r, WithHiLo(r, Wrap(product / TWO32), Wrap(product % TWO32)), 0, next, 0, 0);
    case Load(addr, size) => LoadIsLawful(i, r, mmu, memory, addr, size);
    case Store(addr, size, value) => StoreIsLawful(r, mmu, memory, addr, size, value);
    case Merge(addr) => MergeIsLawful(i, r, mmu, memory, addr);
  }

  /** Every instruction, whatever its word: it either traps precisely or completes. */
  lemma InstructionIsLawful(r: Registers, mmu: Mmu, memory: seq<byte>)
    requires Shape(r) && |memory| % PAGE_SIZE == 0
    ensures Lawful(r, memory, ResultOf(r, mmu, memory))
  {
    TrapIsPrecise(r, r[PC_REG]);
    if Translate(mmu.usesTlb, mmu.entries, |memory| / PAGE_SIZE, r[PC_REG], 4, false).Translated? {
      var i := Decode(Unsigned(Read(mmu, memory, r[PC_REG], 4).value));
      PerformIsLawful(PlanOf(i, r), i, r, mmu, memory);
    }
  }

  /** The simulator gives up exactly on an unaligned LWL, LWR, SWL or SWR. */
  lemma InstructionStops(r: Registers, mmu: Mmu, memory: seq<byte>)
    requires Shape(r) && |memory| % PAGE_SIZE == 0
    requires Translate(mmu.usesTlb, mmu.entries, |memory| / PAGE_SIZE, r[PC_REG], 4, false).Translated?
    ensures var i := Decode(Unsigned(Read(mmu, memory, r[PC_REG], 4).value));
            ResultOf(r, mmu, memory).Stopped? <==>
            i.op.Memory? && IsPartialWord(i.op.memory) && Unsigned(Wrap(r[i.rs] + i.extra)) % 4 != 0
  {
    DecodeIsHandled(Unsigned(Read(mmu, memory, r[PC_REG], 4).value));
  }

  // ---- the delay slots ----

  /** A branch or jump: the instruction after it is still executed, and only then its target. */
  lemma BranchDelay(p: Plan, i: Instruction, r: Registers, mmu: Mmu, memory: seq<byte>)
    requires p.Good() && (p.Jump? || p.Link?) && Shape(r) && |memory| % PAGE_SIZE == 0
    ensures var s := Perform(p, i, r, mmu, memory);
            && s.Advanced? && Good(s.regs) && s.regs[PC_REG] == r[NEXT_PC_REG] && s.memory == memory
            && var next := ResultOf(s.regs, mmu, memory);
               && (next.Advanced? ==> Good(next.regs) && next.regs[PC_REG] == p.pcAfter)
               && (next.Trapped? ==>
                   Good(next.regs) && next.regs[PC_REG] == r[NEXT_PC_REG] && next.regs[NEXT_PC_REG] == p.pcAfter)
  {
    if p.Jump? {
      RetireCompletes(r, r, 0, p.pcAfter, 0, 0);
    } else {
      RetireCompletes(r, r[p.dest := p.value], p.dest, p.pcAfter, 0, 0);
    }
    InstructionIsLawful(Perform(p, i, r, mmu, memory).regs, mmu, memory);
  }

  /** A load: the next instruction still sees the register without the loaded value, and after it,
      whatever it was, the register holds the value. */
  lemma LoadDelay(i: Instruction, r: Registers, mmu: Mmu, memory: seq<byte>, addr: int32, size: int)
    requires Shape(r) && |memory| % PAGE_SIZE == 0 && size in {1, 2, 4} && i.rt != 0
    requires Translate(mmu.usesTlb, mmu.entries, |memory| / PAGE_SIZE, addr, size, false).Translated?
    ensures var s := Perform(Load(addr, size), i, r, mmu, memory);
            && s.Advanced? && Good(s.regs) && s.memory == memory
            && s.regs[i.rt] == (if r[LOAD_REG] == i.rt then r[LOAD_VALUE_REG] else r[i.rt])
            && var next := ResultOf(s.regs, mmu, memory);
               !next.Stopped? ==>
                 Good(next.regs) && next.regs[i.rt] == Loaded(i, r, Read(mmu, memory, addr, size).value)
  {
    RetireCompletes(r, r, 0, Following(r[NEXT_PC_REG]), i.rt, Loaded(i, r, Read(mmu, memory, addr, size).value));
    var s := Perform(Load(addr, size), i, r, mmu, memory);
    InstructionIsLawful(s.regs, mmu, memory);
  }

  // ---- several programs ----

  /** What an instruction writes stays in the frames of its own space. */
  lemma InstructionIsolated(r: Registers, mine: Mmu, other: Mmu, memory: seq<byte>, b: int32, t: int)
    requires Shape(r) && |memory| % PAGE_SIZE == 0 && t in {1, 2, 4} && Frames(mine.entries) !! Frames(other.entries)
    ensures var s := ResultOf(r, mine, memory);
            !s.Stopped? ==> |s.memory| == |memory| && Read(other, s.memory, b, t) == Read(other, memory, b, t)
  {
    InstructionIsLawful(r, mine, memory);
    if Translate(mine.usesTlb, mine.entries, |memory| / PAGE_SIZE, r[PC_REG], 4, false).Translated? {
      var i := Decode(Unsigned(Read(mine, memory, r[PC_REG], 4).value));
      PlanIsolated(PlanOf(i, r), i, r, mine, other, memory, b, t);
    }
  }

  lemma PlanIsolated(p: Plan, i: Instruction, r: Registers, mine: Mmu, other: Mmu,
                     memory: seq<byte>, b: int32, t: int)
    requires p.Good() && Shape(r) && |memory| % PAGE_SIZE == 0 && t in {1, 2, 4}
    requires Frames(mine.entries) !! Frames(other.entries)
    requires var s := Perform(p, i, r, mine, memory); !s.Stopped? ==> |s.memory| == |memory|
    ensures var s := Perform(p, i, r, mine, memory);
            !s.Stopped? ==> Read(other, s.memory, b, t) == Read(other, memory, b, t)
  {
    match p
    case Store(addr, size, value) => SpacesIsolated(mine, other, memory, addr, size, value, b, t);
    case Merge(addr) =>
      if Translate(mine.usesTlb, mine.entries, |memory| / PAGE_SIZE, addr, 4, false).Translated? {
        SpacesIsolated(mine, other, memory, addr, 4, Merged(i, Read(mine, memory, addr, 4).value, r[i.rt]), b, t);
      }
    case _ =>
  }

  /** The processor, the saved registers of every program, and their page tables. */
  datatype System = System(
    regs: Registers, current: nat, saved: seq<Registers>, tables: seq<Mmu>, memory: seq<byte>)
  {
    ghost predicate Valid() {
      && current < |saved| == |tables| && |memory| % PAGE_SIZE == 0
      && Good(regs) && (forall p :: 0 <= p < |saved| ==> Good(saved[p]))
      && (forall p, q :: 0 <= p < q < |tables| ==> Frames(tables[p].entries) !! Frames(tables[q].entries))
    }
  }

  datatype Event =
    | Instruct
    | Interrupted                          // DelayedLoad(0, 0) before a handler runs
    | WriteRegister(num: nat, value: int32)   // by a system call handler
    | WriteUser(addr: int32, size: int, value: int32)   // by a system call handler
    | Switch(to: nat)

  ghost predicate Next(s: System, e: Event, s': System)
    requires s.Valid()
  {
    match e
    case Instruct =>
      var n := ResultOf(s.regs, s.tables[s.current], s.memory);
      !n.Stopped? && s' == s.(regs := n.regs, memory := n.memory)
    case Interrupted => s' == s.(regs := DelayedLoad(s.regs, 0, 0))
    case WriteRegister(num, value) =>
      num < NUM_TOTAL_REGS && num != 0 && num != LOAD_REG && s' == s.(regs := s.regs[num := value])
    case WriteUser(addr, size, value) =>
      size in {1, 2, 4} && s' == s.(memory := Written(s.tables[s.current], s.memory, addr, size, value))
    case Switch(to) =>
      to < |s.saved| && var saved := s.saved[s.current := s.regs];
                        s' == s.(saved := saved, regs := saved[to], current := to)
  }

  lemma NextKeepsValid(s: System, e: Event, s': System)
    requires s.Valid() && Next(s, e, s')
    ensures s'.Valid() && |s'.memory| == |s.memory| && s'.tables == s.tables
  {
    if e.Instruct? {
      InstructionIsLawful(s.regs, s.tables[s.current], s.memory);
    }
  }

  /** While another program runs, nothing a program can read changes. */
  lemma NextIsolates(s: System, e: Event, s': System, q: nat, b: int32, t: int)
    requires s.Valid() && Next(s, e, s') && q < |s.tables| && q != s.current && t in {1, 2, 4}
    ensures |s'.memory| == |s.memory| && Read(s.tables[q], s'.memory, b, t) == Read(s.tables[q], s.memory, b, t)
  {
    var mine, other := s.tables[s.current], s.tables[q];
    assert Frames(mine.entries) !! Frames(other.entries) by {
      if q < s.current {
        assert Frames(s.tables[q].entries) !! Frames(s.tables[s.current].entries);
      }
    }
    match e
    case Instruct => InstructionIsolated(s.regs, mine, other, s.memory, b, t);
    case WriteUser(addr, size, value) => SpacesIsolated(mine, other, s.memory, addr, size, value, b, t);
    case _ =>
  }

  ghost predicate Run(ss: seq<System>, es: seq<Event>) {
    && |ss| == |es| + 1 && ss[0].Valid()
    && forall i {:trigger es[i]} :: 0 <= i < |es| ==> ss[i].Valid() ==> Next(ss[i], es[i], ss[i + 1])
  }

  /** At every boundary of every run R0 is zero and a pending load aims at a general register, for
      the running program and for every one that is switched out. */
  lemma {:induction false} RunKeepsRegisters(ss: seq<System>, es: seq<Event>, n: nat)
    requires Run(ss, es) && n < |ss|
    ensures ss[n].Valid() && |ss[n].memory| == |ss[0].memory| && ss[n].tables == ss[0].tables
  {
    if n > 0 {
      RunKeepsRegisters(ss, es, n - 1);
      assert Next(ss[n - 1], es[n - 1], ss[n - 1 + 1]);
      NextKeepsValid(ss[n - 1], es[n - 1], ss[n]);
    }
  }

  /** Between two moments of a run at which, and between which, program q is not running, its
      memory is unchanged. */
  lemma {:induction false} RunIsolates(ss: seq<System>, es: seq<Event>, m: nat, n: nat, q: nat, b: int32, t: int)
    requires Run(ss, es) && m <= n < |ss| && ss[0].Valid() && q < |ss[0].tables| && t in {1, 2, 4}
    requires forall k :: m <= k < n ==> ss[k].current != q
    ensures ss[m].Valid() && ss[n].Valid()
    ensures Read(ss[0].tables[q], ss[n].memory, b, t) == Read(ss[0].tables[q], ss[m].memory, b, t)
    decreases n
  {
    RunKeepsRegisters(ss, es, m);
    RunKeepsRegisters(ss, es, n);
    if m < n {
      RunKeepsRegisters(ss, es, n - 1);
      RunIsolates(ss, es, m, n - 1, q, b, t);
      assert Next(ss[n - 1], es[n - 1], ss[n - 1 + 1]);
      NextIsolates(ss[n - 1], es[n - 1], ss[n], q, b, t);
    }
  }
}
