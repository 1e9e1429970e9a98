/**
 What each instruction word does, in terms of the numbers in the word, the registers and the bytes of
 memory (machine/mipssim.cc).  Statements are about a word at the program counter; the operations that
 the decoder and the switch make of it do not occur in them.
 */
module InstructionSet {
  import opened Words
  import opened Associations
  import opened Bitwise
  import opened Decoding
  import opened Multiplier
  import opened Translation
  import opened Processor
  import opened ProcessorRuns

  /** The word w is at the program counter. */
  ghost predicate Fetches(r: Registers, mmu: Mmu, memory: seq<byte>, w: word) {
    Shape(r) && |memory| % PAGE_SIZE == 0 && Read(mmu, memory, r[PC_REG], 4) == Some(Signed(w))
  }

  lemma Fetched(r: Registers, mmu: Mmu, memory: seq<byte>, w: word)
    requires Fetches(r, mmu, memory, w)
    ensures ResultOf(r, mmu, memory) == Perform(PlanOf(Decode(w), r), Decode(w), r, mmu, memory)
  {
    UnsignedWrapped(w);
  }

  /** A word of operation field 0: two operands, a result register, a shift and a function. */
  datatype RegisterWord = RegisterWord(rs: RegNum, rt: RegNum, rd: RegNum, shift: RegNum, funct: Function) {
    function Value(): word {
      0x20_0000 * rs + 0x1_0000 * rt + 0x800 * rd + 0x40 * shift + funct
    }

    predicate Is(i: Instruction) {
      i == Instruction(SpecialTable(funct), rs, rt, rd, shift)
    }
  }

  type Function = n: nat | n < 64

  lemma FetchedRegister(r: Registers, mmu: Mmu, memory: seq<byte>, w: RegisterWord) returns (i: Instruction)
    requires Fetches(r, mmu, memory, w.Value())
    ensures w.Is(i) && ResultOf(r, mmu, memory) == Perform(PlanOf(i, r), i, r, mmu, memory)
  {
    i := Decode(w.Value());
    Fetched(r, mmu, memory, w.Value());
    assert w.Value() == Compose(0, w.rs, w.rt, w.rd, w.shift, w.funct);
    DecodeCompose(0, w.rs, w.rt, w.rd, w.shift, w.funct);
  }

  lemma FetchedImmediate(r: Registers, mmu: Mmu, memory: seq<byte>, op: nat, rs: RegNum, rt: RegNum, half: int)
    returns (i: Instruction)
    requires 0 < op < 64 && op != 2 && op != 3 && -0x8000 <= half < 0x8000
    requires Fetches(r, mmu, memory, ImmediateWord(op, rs, rt, half))
    ensures i.op == (if op == 1 then BranchTable(rt) else OpTable(op).0) && i.rs == rs && i.rt == rt && i.extra == half
    ensures ResultOf(r, mmu, memory) == Perform(PlanOf(i, r), i, r, mmu, memory)
  {
    i := Decode(ImmediateWord(op, rs, rt, half));
    Fetched(r, mmu, memory, ImmediateWord(op, rs, rt, half));
    DecodeImmediate(op, rs, rt, half);
  }

  lemma FetchedJump(r: Registers, mmu: Mmu, memory: seq<byte>, op: nat, target: nat) returns (i: Instruction)
    requires 2 <= op <= 3 && target < 0x400_0000 && Fetches(r, mmu, memory, JumpWord(op, target))
    ensures i.op == OpTable(op).0 && i.extra == target
    ensures ResultOf(r, mmu, memory) == Perform(PlanOf(i, r), i, r, mmu, memory)
  {
    i := Decode(JumpWord(op, target));
    Fetched(r, mmu, memory, JumpWord(op, target));
    DecodeJump(op, target);
  }

  // ---- the kinds of effects ----

  /** The address n bytes behind that of the next instruction. */
  function After(r: Registers, n: int): int32
    requires Shape(r)
  {
    Wrap(r[NEXT_PC_REG] + n)
  }

  /** The instruction completes without touching memory; of the registers other than the program
      counters, only d changes, apart from a pending load, which arrives. */
  ghost predicate Completes(r: Registers, memory: seq<byte>, res: Result, d: nat, pcAfter: int32)
    requires Shape(r)
  {
    && res.Advanced? && res.memory == memory && Completed(r, res.regs, d)
    && res.regs[NEXT_PC_REG] == pcAfter && res.regs[LOAD_REG] == 0
    && (d != HI_REG ==> res.regs[HI_REG] == r[HI_REG]) && (d != LO_REG ==> res.regs[LO_REG] == r[LO_REG])
  }

  /** Register d receives the value, unless it is R0 or the pending load goes there. */
  ghost predicate Sets(r: Registers, memory: seq<byte>, res: Result, d: nat, value: int)
    requires Shape(r)
  {
    && Completes(r, memory, res, d, After(r, 4))
    && (d != 0 && d != r[LOAD_REG] && d < PC_REG ==> res.regs[d] == value)
  }

  /** Execution goes on at pcAfter once the next instruction is done. */
  ghost predicate Jumps(r: Registers, memory: seq<byte>, res: Result, pcAfter: int32)
    requires Shape(r)
  {
    Completes(r, memory, res, 0, pcAfter)
  }

  /** A branch: by half words from the next instruction on if it is taken, else straight on. */
  ghost predicate Branches(r: Registers, memory: seq<byte>, res: Result, taken: bool, half: int)
    requires Shape(r)
  {
    Jumps(r, memory, res, After(r, if taken then 4 * half else 4))
  }

  /** The same, with the return address in register d. */
  ghost predicate Links(r: Registers, memory: seq<byte>, res: Result, d: nat, pcAfter: int32)
    requires Shape(r)
  {
    && Completes(r, memory, res, d, pcAfter)
    && (d != 0 && d != r[LOAD_REG] && d < 32 ==> res.regs[d] == After(r, 4))
  }

  /** Only HI and LO change. */
  ghost predicate SetsHiLo(r: Registers, memory: seq<byte>, res: Result)
    requires Shape(r)
  {
    && res.Advanced? && res.memory == memory && Completed(r, res.regs, 0)
    && res.regs[NEXT_PC_REG] == After(r, 4) && res.regs[LOAD_REG] == 0
  }

  /** The instruction traps, and only the faulting address is recorded. */
  ghost predicate Traps(r: Registers, memory: seq<byte>, res: Result, which: ExceptionType, badVAddr: int32)
    requires Shape(r)
  {
    && res.Trapped? && res.which == which && res.memory == memory
    && Precise(r, res.regs) && res.regs[BAD_VADDR_REG] == badVAddr
  }

  lemma AssignSets(i: Instruction, r: Registers, mmu: Mmu, memory: seq<byte>, d: nat, value: int32)
    requires Shape(r) && |memory| % PAGE_SIZE == 0 && d < PC_REG
    ensures Sets(r, memory, Perform(Assign(d, value), i, r, mmu, memory), d, value)
  {
    RetireCompletes(r, r[d := value], d, Following(r[NEXT_PC_REG]), 0, 0);
  }

  lemma JumpJumps(i: Instruction, r: Registers, mmu: Mmu, memory: seq<byte>, pcAfter: int32)
    requires Shape(r) && |memory| % PAGE_SIZE == 0
    ensures Jumps(r, memory, Perform(Jump(pcAfter), i, r, mmu, memory), pcAfter)
  {
    RetireCompletes(r, r, 0, pcAfter, 0, 0);
  }

  lemma LinkLinks(i: Instruction, r: Registers, mmu: Mmu, memory: seq<byte>, d: RegNum, pcAfter: int32)
    requires Shape(r) && |memory| % PAGE_SIZE == 0
    ensures Links(r, memory, Perform(Link(d, Following(r[NEXT_PC_REG]), pcAfter), i, r, mmu, memory), d, pcAfter)
  {
    RetireCompletes(r, r[d := Following(r[NEXT_PC_REG])], d, pcAfter, 0, 0);
  }

  lemma RaiseTraps(i: Instruction, r: Registers, mmu: Mmu, memory: seq<byte>, which: ExceptionType, badVAddr: int32)
    requires Shape(r) && |memory| % PAGE_SIZE == 0 && which != NoException
    ensures Traps(r, memory, Perform(Raise(which, badVAddr), i, r, mmu, memory), which, badVAddr)
  {
    TrapIsPrecise(r, badVAddr);
  }

  // ---- branches and jumps ----

  /** Operation fields 4 to 7, BEQ, BNE, BLEZ and BGTZ: when they are taken. */
  predicate Taken(op: nat, x: int, y: int) {
    match op
    case 4 => x == y
    case 5 => x != y
    case 6 => x <= 0
    case _ => x > 0
  }

  lemma ComparePlan(i: Instruction, r: Registers, op: nat)
    requires Shape(r) && 4 <= op <= 7 && i.op == OpTable(op).0
    ensures PlanOf(i, r) == Jump(After(r, if Taken(op, r[i.rs], r[i.rt]) then 4 * i.extra else 4))
  {
  }

  lemma CompareBranches(r: Registers, mmu: Mmu, memory: seq<byte>, op: nat, rs: RegNum, rt: RegNum, half: int)
    requires 4 <= op <= 7 && -0x8000 <= half < 0x8000
    requires Fetches(r, mmu, memory, ImmediateWord(op, rs, rt, half))
    ensures Branches(r, memory, ResultOf(r, mmu, memory), Taken(op, r[rs], r[rt]), half)
  {
    var i := FetchedImmediate(r, mmu, memory, op, rs, rt, half);
    ComparePlan(i, r, op);
    JumpJumps(i, r, mmu, memory, After(r, if Taken(op, r[rs], r[rt]) then 4 * half else 4));
  }

  /** Operation field 1: BLTZ, BGEZ, and the two that link, which store the return address first. */
  ghost predicate SignBranch(r: Registers, memory: seq<byte>, res: Result, rs: RegNum, rt: RegNum, half: int)
    requires Shape(r)
  {
    var x := if rs == 31 then After(r, 4) else r[rs];
    && (rt == 0 ==> Branches(r, memory, res, r[rs] < 0, half))
    && (rt == 1 ==> Branches(r, memory, res, r[rs] >= 0, half))
    && (rt == 16 ==> Links(r, memory, res, 31, After(r, if x < 0 then 4 * half else 4)))
    && (rt == 17 ==> Links(r, memory, res, 31, After(r, if x >= 0 then 4 * half else 4)))
    && (rt !in {0, 1, 16, 17} ==> Traps(r, memory, res, IllegalInstrException, 0))
  }

  lemma SignPlan(i: Instruction, r: Registers)
    requires Shape(r) && i.op == BranchTable(i.rt)
    ensures var x, p := if i.rs == 31 then After(r, 4) else r[i.rs], PlanOf(i, r);
            && (i.rt == 0 ==> p == Jump(After(r, if r[i.rs] < 0 then 4 * i.extra else 4)))
            && (i.rt == 1 ==> p == Jump(After(r, if r[i.rs] >= 0 then 4 * i.extra else 4)))
            && (i.rt == 16 ==> p == Link(31, After(r, 4), After(r, if x < 0 then 4 * i.extra else 4)))
            && (i.rt == 17 ==> p == Link(31, After(r, 4), After(r, if x >= 0 then 4 * i.extra else 4)))
            && (i.rt !in {0, 1, 16, 17} ==> p == Raise(IllegalInstrException, 0))
  {
    SignBitIsSign(r[i.rs]);
    SignBitIsSign(After(r, 4));
  }

  lemma SignBranchPlan(i: Instruction, r: Registers, mmu: Mmu, memory: seq<byte>)
    requires Shape(r) && |memory| % PAGE_SIZE == 0 && i.op == BranchTable(i.rt)
    ensures SignBranch(r, memory, Perform(PlanOf(i, r), i, r, mmu, memory), i.rs, i.rt, i.extra)
  {
    SignPlan(i, r);
    var p := PlanOf(i, r);
    if i.rt <= 1 {
      JumpJumps(i, r, mmu, memory, p.pcAfter);
    } else if i.rt == 16 || i.rt == 17 {
      LinkLinks(i, r, mmu, memory, 31, p.pcAfter);
    } else {
      RaiseTraps(i, r, mmu, memory, IllegalInstrException, 0);
    }
  }

  lemma SignBranches(r: Registers, mmu: Mmu, memory: seq<byte>, op: nat, rs: RegNum, rt: RegNum, half: int)
    requires op == 1 && -0x8000 <= half < 0x8000 && Fetches(r, mmu, memory, ImmediateWord(op, rs, rt, half))
    ensures SignBranch(r, memory, ResultOf(r, mmu, memory), rs, rt, half)
  {
    var i := FetchedImmediate(r, mmu, memory, op, rs, rt, half);
    SignBranchPlan(i, r, mmu, memory);
  }

  /** Operation fields 2 and 3: J and JAL stay in the 2^28 bytes of the instruction after the next. */
  function FarPc(r: Registers, target: nat): int32
    requires Shape(r)
  {
    var after := Unsigned(After(r, 4));
    Wrap(after - after % 0x1000_0000 + 4 * target)
  }

  lemma FarJumpPlan(i: Instruction, r: Registers, op: nat)
    requires Shape(r) && 2 <= op <= 3 && i.op == OpTable(op).0 && 0 <= i.extra < 0x400_0000
    ensures PlanOf(i, r) == if op == 2 then Jump(FarPc(r, i.extra)) else Link(31, After(r, 4), FarPc(r, i.extra))
  {
    FarTarget(r[NEXT_PC_REG], i.extra);
  }

  lemma FarTarget(next: int32, target: nat)
    requires target < 0x400_0000
    ensures var after := Unsigned(Following(next));
            JumpTarget(next, target) == Wrap(after - after % 0x1000_0000 + 4 * target)
  {
  }

  lemma FarJumps(r: Registers, mmu: Mmu, memory: seq<byte>, op: nat, target: nat)
    requires 2 <= op <= 3 && target < 0x400_0000 && Fetches(r, mmu, memory, JumpWord(op, target))
    ensures op == 2 ==> Jumps(r, memory, ResultOf(r, mmu, memory), FarPc(r, target))
    ensures op == 3 ==> Links(r, memory, ResultOf(r, mmu, memory), 31, FarPc(r, target))
  {
    var i := FetchedJump(r, mmu, memory, op, target);
    FarJumpPlan(i, r, op);
    JumpJumps(i, r, mmu, memory, FarPc(r, target));
    LinkLinks(i, r, mmu, memory, 31, FarPc(r, target));
  }

  /** Function fields 8 and 9: JR and JALR, which stores the return address first. */
  ghost predicate RegisterJump(r: Registers, memory: seq<byte>, res: Result, rs: RegNum, rd: RegNum, funct: nat)
    requires Shape(r)
  {
    && (funct == 8 ==> Jumps(r, memory, res, r[rs]))
    && (funct == 9 ==> Links(r, memory, res, rd, if rs == rd then After(r, 4) else r[rs]))
  }

  lemma RegisterJumpPlan(i: Instruction, r: Registers, mmu: Mmu, memory: seq<byte>, funct: nat)
    requires Shape(r) && |memory| % PAGE_SIZE == 0 && 8 <= funct <= 9 && i.op == SpecialTable(funct)
    ensures RegisterJump(r, memory, Perform(PlanOf(i, r), i, r, mmu, memory), i.rs, i.rd, funct)
  {
    if funct == 8 {
      JumpJumps(i, r, mmu, memory, r[i.rs]);
    } else {
      LinkLinks(i, r, mmu, memory, i.rd, PlanOf(i, r).pcAfter);
    }
  }

  lemma RegisterJumps(r: Registers, mmu: Mmu, memory: seq<byte>, w: RegisterWord)
    requires 8 <= w.funct <= 9 && Fetches(r, mmu, memory, w.Value())
    ensures RegisterJump(r, memory, ResultOf(r, mmu, memory), w.rs, w.rd, w.funct)
  {
    var i := FetchedRegister(r, mmu, memory, w);
    RegisterJumpPlan(i, r, mmu, memory, w.funct);
  }

  // ---- arithmetic ----

  /** Function fields 32 to 35, 42 and 43: the exact results of ADD, ADDU, SUB, SUBU, SLT and SLTU. */
  function Exact(funct: nat, x: int, y: int): int {
    if funct <= 33 then x + y
    else if funct <= 35 then x - y
    else if funct == 42 then if x < y then 1 else 0
    else if x % TWO32 < y % TWO32 then 1 else 0
  }

  /** The result, unless ADD or SUB does not fit: then the instruction traps. */
  ghost predicate SetsExactly(r: Registers, memory: seq<byte>, res: Result, d: nat, value: int, checked: bool)
    requires Shape(r)
  {
    if checked && !IsInt32(value) then Traps(r, memory, res, OverflowException, 0)
    else Sets(r, memory, res, d, Wrap(value))
  }

  lemma UnsignedIsMod(x: int32)
    ensures Unsigned(x) == x % TWO32
  {
  }

  lemma SumValue(op: RegisterOp, funct: nat, rd: RegNum, x: int32, y: int32)
    requires funct in {32, 33, 34, 35, 42, 43} && SpecialTable(funct) == Register(op)
    ensures var value := Exact(funct, x, y);
            RegisterPlan(op, rd, x, y) == if funct in {32, 34} && !IsInt32(value) then Raise(OverflowException, 0)
                                          else Assign(rd, Wrap(value))
  {
    if funct == 32 {
      AddTraps(rd, x, y);
    } else if funct == 34 {
      SubtractTraps(rd, x, y);
    } else {
      UnsignedIsMod(x);
      UnsignedIsMod(y);
    }
  }

  lemma SumPlan(i: Instruction, r: Registers, w: RegisterWord)
    requires Shape(r) && w.Is(i) && w.funct in {32, 33, 34, 35, 42, 43}
    ensures var value := Exact(w.funct, r[w.rs], r[w.rt]);
            PlanOf(i, r) == if w.funct in {32, 34} && !IsInt32(value) then Raise(OverflowException, 0)
                            else Assign(w.rd, Wrap(value))
  {
    SumValue(i.op.register, w.funct, w.rd, r[w.rs], r[w.rt]);
  }

  lemma SumsAndComparisons(r: Registers, mmu: Mmu, memory: seq<byte>, w: RegisterWord)
    requires w.funct in {32, 33, 34, 35, 42, 43} && Fetches(r, mmu, memory, w.Value())
    ensures SetsExactly(r, memory, ResultOf(r, mmu, memory), w.rd, Exact(w.funct, r[w.rs], r[w.rt]),
                        w.funct in {32, 34})
  {
    var i := FetchedRegister(r, mmu, memory, w);
    SumPlan(i, r, w);
    RaiseTraps(i, r, mmu, memory, OverflowException, 0);
    AssignSets(i, r, mmu, memory, w.rd, Wrap(Exact(w.funct, r[w.rs], r[w.rt])));
  }

  /** Function fields 36 to 39: AND, OR, which copies its first operand, XOR and NOR. */
  function ByBits(funct: nat, x: int32, y: int32): int32 {
    match funct
    case 36 => And(x, y)
    case 37 => x
    case 38 => Xor(x, y)
    case _ => Nor(x, y)
  }

  lemma LogicPlan(i: Instruction, r: Registers, w: RegisterWord)
    requires Shape(r) && w.Is(i) && 36 <= w.funct <= 39
    ensures PlanOf(i, r) == Assign(w.rd, ByBits(w.funct, r[w.rs], r[w.rt]))
  {
    OrSelf(r[w.rs]);
    assert PlanOf(i, r) == RegisterPlan(i.op.register, w.rd, r[w.rs], r[w.rt]);
  }

  lemma LogicInstructions(r: Registers, mmu: Mmu, memory: seq<byte>, w: RegisterWord)
    requires 36 <= w.funct <= 39 && Fetches(r, mmu, memory, w.Value())
    ensures Sets(r, memory, ResultOf(r, mmu, memory), w.rd, ByBits(w.funct, r[w.rs], r[w.rt]))
  {
    var i := FetchedRegister(r, mmu, memory, w);
    LogicPlan(i, r, w);
    AssignSets(i, r, mmu, memory, w.rd, ByBits(w.funct, r[w.rs], r[w.rt]));
  }

  /** Function fields 0, 2, 3, 4, 6 and 7: the shifts, by the constant or by the low five bits of rs.  All
      shifts to the right copy the sign. */
  function Shifted(funct: nat, y: int32, k: nat): int {
    if funct % 4 == 0 then Wrap(y * Pow2(k)) else y / Pow2(k)
  }

  function Distance(r: Registers, w: RegisterWord): nat
    requires Shape(r)
  {
    if w.funct < 4 then w.shift else r[w.rs] % 32
  }

  lemma ShiftPlan(i: Instruction, r: Registers, w: RegisterWord)
    requires Shape(r) && w.Is(i) && w.funct in {0, 2, 3, 4, 6, 7}
    ensures var value := Shifted(w.funct, r[w.rt], Distance(r, w));
            IsInt32(value) && PlanOf(i, r) == Assign(w.rd, value)
  {
    ShiftFits(w.funct, r[w.rt], Distance(r, w));
    if w.funct < 4 {
      ConstantShift(i, r[w.rs], r[w.rt], w);
    } else {
      RegisterShift(i, r[w.rs], r[w.rt], w);
    }
  }

  lemma ConstantShift(i: Instruction, x: int32, y: int32, w: RegisterWord)
    requires w.Is(i) && w.funct in {0, 2, 3}
    ensures i.op.Immediate?
    ensures ImmediatePlan(i.op.immediate, i, x, y) ==
            Assign(w.rd, if w.funct == 0 then ShiftLeft(y, w.shift) else ShiftRight(y, w.shift))
  {
  }

  lemma RegisterShift(i: Instruction, x: int32, y: int32, w: RegisterWord)
    requires w.Is(i) && w.funct in {4, 6, 7}
    ensures i.op.Register?
    ensures RegisterPlan(i.op.register, w.rd, x, y) ==
            Assign(w.rd, if w.funct == 4 then ShiftLeft(y, x % 32) else ShiftRight(y, x % 32))
  {
  }

  lemma ShiftFits(funct: nat, y: int32, k: nat)
    ensures var value := Shifted(funct, y, k);
            IsInt32(value) && value == if funct % 4 == 0 then ShiftLeft(y, k) else ShiftRight(y, k)
  {
    QuotientFits(y, Pow2(k));
  }

  lemma QuotientFits(y: int32, p: nat)
    requires p > 0
    ensures IsInt32(y / p)
  {
    if y < 0 {
      NatQuotient(-1 - y as int, p);
      FloorOfNegative(y, p);
    } else {
      NatQuotient(y, p);
    }
  }

  lemma NatQuotient(n: nat, p: nat)
    requires p > 0
    ensures 0 <= n / p <= n
  {
    var q, m := Divided(n, p);
  }

  lemma FloorOfNegative(y: int, p: nat)
    requires p > 0 && y < 0
    ensures y / p == -1 - (-1 - y) / p
  {
    var q, m := (-1 - y) / p, (-1 - y) % p;
    assert y == p * (-1 - q) + (p - 1 - m);
    var k := y / p - (-1 - q);
    assert p * k == p - 1 - m - y % p;
  }

  lemma ShiftInstructions(r: Registers, mmu: Mmu, memory: seq<byte>, w: RegisterWord)
    requires w.funct in {0, 2, 3, 4, 6, 7} && Fetches(r, mmu, memory, w.Value())
    ensures Sets(r, memory, ResultOf(r, mmu, memory), w.rd, Shifted(w.funct, r[w.rt], Distance(r, w)))
  {
    var i := FetchedRegister(r, mmu, memory, w);
    ShiftPlan(i, r, w);
    AssignSets(i, r, mmu, memory, w.rd, Shifted(w.funct, r[w.rt], Distance(r, w)));
  }

  /** Function fields 16 to 19: moves between HI and LO, registers 32 and 33, and the others. */
  ghost predicate Move(r: Registers, memory: seq<byte>, res: Result, w: RegisterWord)
    requires Shape(r)
  {
    && (w.funct == 16 ==> Sets(r, memory, res, w.rd, r[32]))
    && (w.funct == 17 ==> Sets(r, memory, res, 32, r[w.rs]))
    && (w.funct == 18 ==> Sets(r, memory, res, w.rd, r[33]))
    && (w.funct == 19 ==> Sets(r, memory, res, 33, r[w.rs]))
  }

  lemma MovePlan(i: Instruction, r: Registers, mmu: Mmu, memory: seq<byte>, w: RegisterWord)
    requires Shape(r) && |memory| % PAGE_SIZE == 0 && w.Is(i) && 16 <= w.funct <= 19
    ensures Move(r, memory, Perform(PlanOf(i, r), i, r, mmu, memory), w)
  {
    var p := PlanOf(i, r);
    AssignSets(i, r, mmu, memory, p.dest, p.value);
  }

  lemma MoveInstructions(r: Registers, mmu: Mmu, memory: seq<byte>, w: RegisterWord)
    requires 16 <= w.funct <= 19 && Fetches(r, mmu, memory, w.Value())
    ensures Move(r, memory, ResultOf(r, mmu, memory), w)
  {
    var i := FetchedRegister(r, mmu, memory, w);
    MovePlan(i, r, mmu, memory, w);
  }

  /** Function fields 24 to 27: MULT and MULTU leave the whole product in HI and LO; DIV and DIVU leave the
      quotient in LO and the remainder, with the sign of the dividend, in HI, and zeros for a zero divisor. */
  ghost predicate ProductOrQuotient(r: Registers, memory: seq<byte>, res: Result, w: RegisterWord)
    requires Shape(r)
  {
    && SetsHiLo(r, memory, res)
    && var x, y, hi, lo := r[w.rs], r[w.rt], res.regs[32], res.regs[33];
       && (w.funct == 24 ==> hi * TWO32 + Unsigned(lo) == x * y)
       && (w.funct == 25 ==> Unsigned(hi) * TWO32 + Unsigned(lo) == Unsigned(x) * Unsigned(y))
       && (w.funct >= 26 && y == 0 ==> hi == 0 && lo == 0)
       && (w.funct == 26 && y != 0 && !(x == -0x8000_0000 && y == -1) ==>
             && x == y * lo + hi && (x >= 0 ==> hi >= 0) && (x <= 0 ==> hi <= 0)
             && (if y < 0 then y < hi < 0 - y else 0 - y < hi < y))
       && (w.funct == 27 && y != 0 ==>
             Unsigned(lo) == Unsigned(x) / Unsigned(y) && Unsigned(hi) == Unsigned(x) % Unsigned(y))
  }

  lemma HiLoSets(i: Instruction, r: Registers, mmu: Mmu, memory: seq<byte>, hi: int32, lo: int32)
    requires Shape(r) && |memory| % PAGE_SIZE == 0
    ensures var res := Perform(HiLo(hi, lo), i, r, mmu, memory);
            SetsHiLo(r, memory, res) && res.regs[32] == hi && res.regs[33] == lo
  {
    RetireCompletes(r, WithHiLo(r, hi, lo), 0, Following(r[NEXT_PC_REG]), 0, 0);
  }

  lemma MultiplyPlan(i: Instruction, r: Registers, mmu: Mmu, memory: seq<byte>, w: RegisterWord)
    requires Shape(r) && |memory| % PAGE_SIZE == 0 && w.Is(i) && 24 <= w.funct <= 25
    ensures ProductOrQuotient(r, memory, Perform(PlanOf(i, r), i, r, mmu, memory), w)
  {
    var product := Product(r[w.rs], r[w.rt], w.funct == 24);
    HiLoSets(i, r, mmu, memory, Wrap(product / TWO32), Wrap(product % TWO32));
    ProductParts(r[w.rs], r[w.rt]);
  }

  /** The two words of a product. */
  lemma ProductParts(x: int32, y: int32)
    ensures Wrap(x * y / TWO32) * TWO32 + Unsigned(Wrap(x * y % TWO32)) == x * y
    ensures var u := Unsigned(x) * Unsigned(y);
            Unsigned(Wrap(u / TWO32)) * TWO32 + Unsigned(Wrap(u % TWO32)) == u
  {
    SignedProductFits(x, y);
    UnsignedProductFits(Unsigned(x), Unsigned(y));
    TwoWords(x * y);
    TwoWords(Unsigned(x) * Unsigned(y));
  }

  lemma TwoWords(p: int)
    ensures IsInt32(p / TWO32) ==> Wrap(p / TWO32) * TWO32 + Unsigned(Wrap(p % TWO32)) == p
    ensures 0 <= p / TWO32 < TWO32 ==> Unsigned(Wrap(p / TWO32)) * TWO32 + Unsigned(Wrap(p % TWO32)) == p
  {
    var hi, lo := p / TWO32, p % TWO32;
    assert Unsigned(Wrap(lo)) == lo;
    assert 0 <= hi < TWO32 ==> Unsigned(Wrap(hi)) == hi;
  }

  lemma SignedProductFits(x: int32, y: int32)
    ensures IsInt32(x * y / TWO32)
  {
    var a: nat, b: nat := if x < 0 then 0 - x as int else x, if y < 0 then 0 - y as int else y;
    MulMonotone(a, 0x8000_0000, b);
    assert x * y == a * b || x * y == 0 - a * b;
  }

  lemma UnsignedProductFits(x: word, y: word)
    ensures 0 <= x * y / TWO32 < TWO32
  {
    MulMonotone(x, TWO32, y);
  }

  lemma DividePlan(i: Instruction, r: Registers, mmu: Mmu, memory: seq<byte>, w: RegisterWord)
    requires Shape(r) && |memory| % PAGE_SIZE == 0 && w.Is(i) && 26 <= w.funct <= 27
    ensures ProductOrQuotient(r, memory, Perform(PlanOf(i, r), i, r, mmu, memory), w)
  {
    var x, y, p := r[w.rs], r[w.rt], PlanOf(i, r);
    HiLoSets(i, r, mmu, memory, p.hi, p.lo);
    if w.funct == 27 && y != 0 {
      DivideUnsigned(Unsigned(x), Unsigned(y));
    } else if w.funct == 26 && y != 0 && !(x == -0x8000_0000 && y == -1) {
      DivideSigned(x, y);
    }
  }

  lemma MultiplyAndDivide(r: Registers, mmu: Mmu, memory: seq<byte>, w: RegisterWord)
    requires 24 <= w.funct <= 27 && Fetches(r, mmu, memory, w.Value())
    ensures ProductOrQuotient(r, memory, ResultOf(r, mmu, memory), w)
  {
    var i := FetchedRegister(r, mmu, memory, w);
    if w.funct <= 25 {
      MultiplyPlan(i, r, mmu, memory, w);
    } else {
      DividePlan(i, r, mmu, memory, w);
    }
  }

  /** Function fields without an instruction, and that of BREAK. */
  predicate Reserved(funct: nat) {
    || funct in {1, 5, 10, 11, 13, 14, 15, 40, 41}
    || 20 <= funct < 24 || 28 <= funct < 32 || 44 <= funct
  }

  lemma ExceptionPlan(i: Instruction, r: Registers, w: RegisterWord)
    requires Shape(r) && w.Is(i)
    ensures w.funct == 12 ==> PlanOf(i, r) == Raise(SyscallException, 0)
    ensures Reserved(w.funct) ==> PlanOf(i, r) == Raise(IllegalInstrException, 0)
  {
  }

  /** Function field 12 is a system call, and the reserved ones are illegal. */
  lemma ExceptionInstructions(r: Registers, mmu: Mmu, memory: seq<byte>, w: RegisterWord)
    requires Fetches(r, mmu, memory, w.Value())
    ensures w.funct == 12 ==> Traps(r, memory, ResultOf(r, mmu, memory), SyscallException, 0)
    ensures Reserved(w.funct) ==> Traps(r, memory, ResultOf(r, mmu, memory), IllegalInstrException, 0)
  {
    var i := FetchedRegister(r, mmu, memory, w);
    ExceptionPlan(i, r, w);
    RaiseTraps(i, r, mmu, memory, SyscallException, 0);
    RaiseTraps(i, r, mmu, memory, IllegalInstrException, 0);
  }

  /** Operation fields 8 to 15: the exact results of ADDI, ADDIU, SLTI, SLTIU, ANDI, ORI, XORI and LUI.  The
      constant is signed in the first four, even where the comparison is unsigned, and a bare half word in
      the others. */
  function WithConstant(op: nat, x: int32, half: int): int
    requires -0x8000 <= half < 0x8000
  {
    match op
    case 8 => x + half
    case 9 => x + half
    case 10 => if x < half then 1 else 0
    case 11 => if x % TWO32 < half % TWO32 then 1 else 0
    case 12 => And(x, half % 0x1_0000)
    case 13 => Or(x, half % 0x1_0000)
    case 14 => Xor(x, half % 0x1_0000)
    case _ => 0x1_0000 * half
  }

  lemma ConstantValue(op: ImmediateOp, field: nat, i: Instruction, x: int32, y: int32)
    requires 8 <= field <= 15 && OpTable(field).0 == Immediate(op) && -0x8000 <= i.extra < 0x8000
    ensures var value := WithConstant(field, x, i.extra);
            ImmediatePlan(op, i, x, y) == if field == 8 && !IsInt32(value) then Raise(OverflowException, 0)
                                          else Assign(i.rt, Wrap(value))
  {
    if field == 8 {
      AddImmediateTraps(i.rt, x, i.extra);
    } else if field == 11 {
      UnsignedIsMod(x);
      UnsignedIsMod(i.extra);
    } else if 12 <= field <= 14 {
      ConstantLogic(op, field, i, x, y);
    }
  }

  lemma ConstantLogic(op: ImmediateOp, field: nat, i: Instruction, x: int32, y: int32)
    requires 12 <= field <= 14 && OpTable(field).0 == Immediate(op) && -0x8000 <= i.extra < 0x8000
    ensures ImmediatePlan(op, i, x, y) == Assign(i.rt, Wrap(WithConstant(field, x, i.extra)))
  {
  }

  lemma ConstantPlan(i: Instruction, r: Registers, op: nat)
    requires Shape(r) && 8 <= op <= 15 && i.op == OpTable(op).0 && -0x8000 <= i.extra < 0x8000
    ensures var value := WithConstant(op, r[i.rs], i.extra);
            PlanOf(i, r) == if op == 8 && !IsInt32(value) then Raise(OverflowException, 0)
                            else Assign(i.rt, Wrap(value))
  {
    ConstantValue(i.op.immediate, op, i, r[i.rs], r[i.rt]);
  }

  lemma ConstantInstructions(r: Registers, mmu: Mmu, memory: seq<byte>, op: nat, rs: RegNum, rt: RegNum, half: int)
    requires 8 <= op <= 15 && -0x8000 <= half < 0x8000
    requires Fetches(r, mmu, memory, ImmediateWord(op, rs, rt, half))
    ensures SetsExactly(r, memory, ResultOf(r, mmu, memory), rt, WithConstant(op, r[rs], half), op == 8)
  {
    var i := FetchedImmediate(r, mmu, memory, op, rs, rt, half);
    ConstantPlan(i, r, op);
    RaiseTraps(i, r, mmu, memory, OverflowException, 0);
    AssignSets(i, r, mmu, memory, rt, Wrap(WithConstant(op, r[rs], half)));
  }

  lemma ReservedPlan(i: Instruction, r: Registers, op: nat)
    requires 16 <= op < 32 || op in {39, 44, 45} || 47 <= op < 64
    requires Shape(r) && i.op == OpTable(op).0
    ensures PlanOf(i, r) == Raise(IllegalInstrException, 0)
  {
  }

  /** Operation fields without an instruction, and those of the coprocessors. */
  lemma ReservedInstructions(r: Registers, mmu: Mmu, memory: seq<byte>, op: nat, rs: RegNum, rt: RegNum, half: int)
    requires 16 <= op < 32 || op in {39, 44, 45} || 47 <= op < 64
    requires -0x8000 <= half < 0x8000 && Fetches(r, mmu, memory, ImmediateWord(op, rs, rt, half))
    ensures Traps(r, memory, ResultOf(r, mmu, memory), IllegalInstrException, 0)
  {
    var i := FetchedImmediate(r, mmu, memory, op, rs, rt, half);
    ReservedPlan(i, r, op);
    RaiseTraps(i, r, mmu, memory, IllegalInstrException, 0);
  }

  // ---- memory ----

  /** The value of n bytes of memory from p on, the least significant first. */
  function Little(memory: seq<byte>, p: nat, n: nat): nat
    requires p + n <= |memory|
    decreases n
  {
    if n == 0 then 0 else memory[p] as int + 256 * Little(memory, p + 1, n - 1)
  }

  /** The same, read as a signed number of that width. */
  function LittleSigned(memory: seq<byte>, p: nat, n: nat): int
    requires p + n <= |memory|
  {
    var v := Little(memory, p, n);
    if 2 * v >= Pow2(8 * n) then v - Pow2(8 * n) else v
  }

  lemma OneByte(memory: seq<byte>, p: nat)
    requires p + 1 <= |memory|
    ensures Little(memory, p, 1) == memory[p] as int && Pow2(8) == 0x100
  {
    assert Pow2(4) == 16;
  }

  lemma TwoBytes(memory: seq<byte>, p: nat)
    requires p + 2 <= |memory|
    ensures Little(memory, p, 2) == memory[p] as int + 0x100 * (memory[p + 1] as int) && Pow2(16) == 0x1_0000
  {
    OneByte(memory, p + 1);
    assert Pow2(12) == 0x1000;
  }

  lemma FourBytes(memory: seq<byte>, p: nat)
    requires p + 4 <= |memory|
    ensures Little(memory, p, 4) == BytesNat(memory[p..p + 4]) && Pow2(32) == TWO32
    ensures Little(memory, p, 3) ==
            memory[p] as int + 0x100 * (memory[p + 1] as int) + 0x1_0000 * (memory[p + 2] as int)
  {
    PowOf32();
    TwoBytes(memory, p + 1);
    TwoBytes(memory, p + 2);
    assert Little(memory, p + 1, 3) == memory[p + 1] as int + 0x100 * Little(memory, p + 2, 2);
  }

  /** How many bytes the operation fields 32, 33, 35 to 37, 40, 41 and 43 move. */
  function Width(op: nat): (n: nat)
    ensures n in {1, 2, 4}
  {
    if op in {32, 36, 40} then 1 else if op in {33, 37, 41} then 2 else 4
  }

  /** The address a load or store uses. */
  function Address(r: Registers, rs: RegNum, half: int): int32
    requires Shape(r)
  {
    Wrap(r[rs] + half)
  }

  /** The translation of an address for an access of n bytes. */
  function Located(mmu: Mmu, memory: seq<byte>, addr: int32, n: int, writing: bool): Outcome {
    Translate(mmu.usesTlb, mmu.entries, |memory| / PAGE_SIZE, addr, n, writing)
  }

  /** The physical address, if there is one. */
  function Place(mmu: Mmu, memory: seq<byte>, addr: int32, n: nat, writing: bool): (p: nat)
    requires n in {1, 2, 4} && |memory| % PAGE_SIZE == 0
    ensures Located(mmu, memory, addr, n, writing).Translated? ==> p + n <= |memory|
  {
    var t := Located(mmu, memory, addr, n, writing);
    if t.Raised? then 0 else
    TranslateInBounds(mmu.usesTlb, mmu.entries, |memory| / PAGE_SIZE, addr, n, writing);
    t.physAddr
  }

  // ---- loads ----

  /** From the next instruction but one on the register holds the value, unless the translation of the
      address for reading traps. */
  ghost predicate Delivers(r: Registers, mmu: Mmu, memory: seq<byte>, res: Result, d: nat, addr: int32, n: nat,
                           value: int)
    requires Shape(r)
  {
    var t := Located(mmu, memory, addr, n, false);
    if t.Raised? then Traps(r, memory, res, t.exception, addr)
    else
      && res.Advanced? && res.memory == memory && Completed(r, res.regs, 0)
      && res.regs[NEXT_PC_REG] == After(r, 4) && res.regs[HI_REG] == r[HI_REG] && res.regs[LO_REG] == r[LO_REG]
      && res.regs[LOAD_REG] == d && res.regs[LOAD_VALUE_REG] == value
  }

  lemma LoadDelivers(i: Instruction, r: Registers, mmu: Mmu, memory: seq<byte>, addr: int32, n: nat, value: int32)
    requires Shape(r) && |memory| % PAGE_SIZE == 0 && n in {1, 2, 4}
    requires Located(mmu, memory, addr, n, false).Translated? ==>
               value == Loaded(i, r, Read(mmu, memory, addr, n).value)
    ensures Delivers(r, mmu, memory, Perform(Load(addr, n), i, r, mmu, memory), i.rt, addr, n, value)
  {
    TrapIsPrecise(r, addr);
    RetireCompletes(r, r, 0, Following(r[NEXT_PC_REG]), i.rt, value);
  }

  /** The number at an address, signed for the operation fields 32, 33 and 35, LB, LH and LW, and not for
      36 and 37, LBU and LHU. */
  function NumberAt(mmu: Mmu, memory: seq<byte>, addr: int32, op: nat): int
    requires |memory| % PAGE_SIZE == 0
  {
    if Located(mmu, memory, addr, Width(op), false).Raised? then 0 else
    var p := Place(mmu, memory, addr, Width(op), false);
    if op >= 36 then Little(memory, p, Width(op)) else LittleSigned(memory, p, Width(op))
  }

  lemma ByteLoaded(i: Instruction, r: Registers, memory: seq<byte>, p: nat)
    requires Shape(r) && p + 1 <= |memory|
    ensures i.op == Memory(LB) ==> Loaded(i, r, Value(memory[p..p + 1])) == LittleSigned(memory, p, 1)
    ensures i.op == Memory(LBU) ==> Loaded(i, r, Value(memory[p..p + 1])) == Little(memory, p, 1)
  {
    OneByte(memory, p);
  }

  lemma HalfLoaded(i: Instruction, r: Registers, memory: seq<byte>, p: nat)
    requires Shape(r) && p + 2 <= |memory|
    ensures i.op == Memory(LH) ==> Loaded(i, r, Value(memory[p..p + 2])) == LittleSigned(memory, p, 2)
    ensures i.op == Memory(LHU) ==> Loaded(i, r, Value(memory[p..p + 2])) == Little(memory, p, 2)
  {
    TwoBytes(memory, p);
  }

  lemma WordLoaded(memory: seq<byte>, p: nat)
    requires p + 4 <= |memory|
    ensures Value(memory[p..p + 4]) == LittleSigned(memory, p, 4)
  {
    FourBytes(memory, p);
  }

  lemma NumberLoaded(i: Instruction, r: Registers, mmu: Mmu, memory: seq<byte>, addr: int32, op: nat)
    requires Shape(r) && |memory| % PAGE_SIZE == 0 && op in {32, 33, 35, 36, 37} && i.op == OpTable(op).0
    requires Located(mmu, memory, addr, Width(op), false).Translated?
    ensures Loaded(i, r, Read(mmu, memory, addr, Width(op)).value) == NumberAt(mmu, memory, addr, op)
  {
    var p := Place(mmu, memory, addr, Width(op), false);
    ReadsAt(mmu, memory, addr, Width(op));
    if Width(op) == 1 {
      ByteLoaded(i, r, memory, p);
    } else if Width(op) == 2 {
      HalfLoaded(i, r, memory, p);
    } else {
      WordLoaded(memory, p);
    }
  }

  lemma ReadsAt(mmu: Mmu, memory: seq<byte>, addr: int32, n: nat)
    requires |memory| % PAGE_SIZE == 0 && n in {1, 2, 4} && Located(mmu, memory, addr, n, false).Translated?
    ensures var p := Place(mmu, memory, addr, n, false); Read(mmu, memory, addr, n) == Some(Value(memory[p..p + n]))
  {
  }

  lemma NumberFits(mmu: Mmu, memory: seq<byte>, addr: int32, op: nat)
    requires |memory| % PAGE_SIZE == 0 && op in {32, 33, 35, 36, 37}
    ensures IsInt32(NumberAt(mmu, memory, addr, op))
  {
    if Located(mmu, memory, addr, Width(op), false).Translated? {
      var p := Place(mmu, memory, addr, Width(op), false);
      if Width(op) == 1 {
        OneByte(memory, p);
      } else if Width(op) == 2 {
        TwoBytes(memory, p);
      } else {
        FourBytes(memory, p);
      }
    }
  }

  lemma LoadPlan(i: Instruction, r: Registers, op: nat)
    requires Shape(r) && op in {32, 33, 35, 36, 37} && i.op == OpTable(op).0
    ensures var addr, n := Address(r, i.rs, i.extra), Width(op);
            PlanOf(i, r) == if Misaligned(addr, n) then Raise(AddressErrorException, addr) else Load(addr, n)
  {
  }

  lemma LoadPerformed(i: Instruction, r: Registers, mmu: Mmu, memory: seq<byte>, op: nat, addr: int32, value: int32)
    requires Shape(r) && |memory| % PAGE_SIZE == 0 && op in {32, 33, 35, 36, 37} && i.op == OpTable(op).0
    requires addr == Address(r, i.rs, i.extra) && value == NumberAt(mmu, memory, addr, op)
    ensures Delivers(r, mmu, memory, Perform(PlanOf(i, r), i, r, mmu, memory), i.rt, addr, Width(op), value)
  {
    LoadPlan(i, r, op);
    if Misaligned(addr, Width(op)) {
      RaiseTraps(i, r, mmu, memory, AddressErrorException, addr);
    } else {
      if Located(mmu, memory, addr, Width(op), false).Translated? {
        NumberLoaded(i, r, mmu, memory, addr, op);
      }
      LoadDelivers(i, r, mmu, memory, addr, Width(op), value);
    }
  }

  /** A load of one, two or four bytes traps as the translation of its address does, and else delivers
      the number at the physical address. */
  lemma LoadInstructions(r: Registers, mmu: Mmu, memory: seq<byte>, op: nat, rs: RegNum, rt: RegNum, half: int)
    requires op in {32, 33, 35, 36, 37} && -0x8000 <= half < 0x8000
    requires Fetches(r, mmu, memory, ImmediateWord(op, rs, rt, half))
    ensures var addr := Address(r, rs, half);
            Delivers(r, mmu, memory, ResultOf(r, mmu, memory), rt, addr, Width(op), NumberAt(mmu, memory, addr, op))
  {
    var i := FetchedImmediate(r, mmu, memory, op, rs, rt, half);
    var addr := Address(r, rs, half);
    NumberFits(mmu, memory, addr, op);
    LoadPerformed(i, r, mmu, memory, op, addr, NumberAt(mmu, memory, addr, op));
  }

  // ---- stores ----

  /** The n bytes at the physical address now hold the value and no others have changed, unless the
      translation of the address for writing traps. */
  ghost predicate Stores(r: Registers, mmu: Mmu, memory: seq<byte>, res: Result, addr: int32, n: nat, value: nat)
    requires Shape(r) && n in {1, 2, 4} && |memory| % PAGE_SIZE == 0
  {
    var t, p := Located(mmu, memory, addr, n, true), Place(mmu, memory, addr, n, true);
    if t.Raised? then Traps(r, memory, res, t.exception, addr)
    else
      && res.Advanced? && |res.memory| == |memory| && Little(res.memory, p, n) == value
      && (forall k :: 0 <= k < |memory| && !(p <= k < p + n) ==> res.memory[k] == memory[k])
      && Completes(r, res.memory, res, 0, After(r, 4))
  }

  /** The low bytes of a value, written. */
  lemma LowBytes(memory: seq<byte>, memory': seq<byte>, p: nat, n: nat, value: int)
    requires n in {1, 2, 4} && p + n <= |memory|
    requires memory' == memory[..p] + IntBytes(value)[..n] + memory[p + n..]
    ensures Little(memory', p, n) == value % Pow2(8 * n)
  {
    if n == 1 {
      OneByte(memory', p);
    } else if n == 2 {
      TwoBytes(memory', p);
      LowHalf(value);
    } else {
      FourBytes(memory', p);
      assert memory'[p..p + 4] == IntBytes(value);
      BytesNatOfIntBytes(value);
    }
  }

  lemma LowHalf(value: int)
    ensures value % TWO32 % 256 + 0x100 * (value % TWO32 / 0x100 % 256) == value % 0x1_0000
  {
    var u := value % TWO32;
    var v := u / 0x100;
    SameLowHalf(value, u, value / TWO32);
    DivMod(u, 0x1_0000, v / 0x100, u % 0x100 + 0x100 * (v % 0x100));
  }

  lemma SameLowHalf(value: int, u: nat, k: int)
    requires value == TWO32 * k + u
    ensures value % 0x1_0000 == u % 0x1_0000
  {
    assert value == 0x1_0000 * (0x1_0000 * k) + u;
  }

  lemma WrittenBytes(mmu: Mmu, memory: seq<byte>, addr: int32, n: nat, value: int32)
    requires |memory| % PAGE_SIZE == 0 && n in {1, 2, 4} && Located(mmu, memory, addr, n, true).Translated?
    ensures var p, memory' := Place(mmu, memory, addr, n, true), Written(mmu, memory, addr, n, value);
            && Little(memory', p, n) == value % Pow2(8 * n)
            && forall k :: 0 <= k < |memory| && !(p <= k < p + n) ==> memory'[k] == memory[k]
  {
    LowBytes(memory, Written(mmu, memory, addr, n, value), Place(mmu, memory, addr, n, true), n, value);
  }

  lemma StoreStores(r: Registers, mmu: Mmu, memory: seq<byte>, addr: int32, n: nat, value: int32)
    requires Shape(r) && |memory| % PAGE_SIZE == 0 && n in {1, 2, 4}
    ensures Stores(r, mmu, memory, ExecuteStore(r, mmu, memory, addr, n, value), addr, n, value % Pow2(8 * n))
  {
    TrapIsPrecise(r, addr);
    RetireCompletes(r, r, 0, Following(r[NEXT_PC_REG]), 0, 0);
    if Located(mmu, memory, addr, n, true).Translated? {
      WrittenBytes(mmu, memory, addr, n, value);
    }
  }

  lemma StorePlan(i: Instruction, r: Registers, op: nat)
    requires Shape(r) && op in {40, 41, 43} && i.op == OpTable(op).0
    ensures PlanOf(i, r) == Store(Address(r, i.rs, i.extra), Width(op), r[i.rt])
  {
  }

  lemma StorePerformed(i: Instruction, r: Registers, mmu: Mmu, memory: seq<byte>, op: nat, n: nat)
    requires Shape(r) && |memory| % PAGE_SIZE == 0 && op in {40, 41, 43} && i.op == OpTable(op).0 && n == Width(op)
    ensures Stores(r, mmu, memory, Perform(PlanOf(i, r), i, r, mmu, memory), Address(r, i.rs, i.extra), n,
                   r[i.rt] % Pow2(8 * n))
  {
    StorePlan(i, r, op);
    StoreStores(r, mmu, memory, Address(r, i.rs, i.extra), n, r[i.rt]);
  }

  /** Operation fields 40, 41 and 43, SB, SH and SW: the low bytes of the register go to memory. */
  lemma StoreInstructions(r: Registers, mmu: Mmu, memory: seq<byte>, op: nat, rs: RegNum, rt: RegNum, half: int, n: nat)
    requires op in {40, 41, 43} && -0x8000 <= half < 0x8000 && n == Width(op)
    requires Fetches(r, mmu, memory, ImmediateWord(op, rs, rt, half))
    ensures Stores(r, mmu, memory, ResultOf(r, mmu, memory), Address(r, rs, half), n, r[rt] % Pow2(8 * n))
  {
    var i := FetchedImmediate(r, mmu, memory, op, rs, rt, half);
    StorePerformed(i, r, mmu, memory, op, n);
  }

  // ---- parts of words ----

  /** The register as the pending load is about to leave it. */
  function Arriving(r: Registers, d: RegNum): int32
    requires Shape(r)
  {
    if r[LOAD_REG] == d then r[LOAD_VALUE_REG] else r[d]
  }

  lemma PartialPlan(i: Instruction, r: Registers, op: nat)
    requires Shape(r) && op in {34, 38, 42, 46} && i.op == OpTable(op).0
    ensures var addr := Address(r, i.rs, i.extra);
            PlanOf(i, r) == if Unsigned(addr) % 4 != 0 then Stop else if op < 42 then Load(addr, 4) else Merge(addr)
  {
  }

  /** Operation fields 34 and 38 at a word boundary: LWL delivers the whole word, and LWR the register with
      the highest byte of the word as its lowest. */
  function PartLoaded(r: Registers, mmu: Mmu, memory: seq<byte>, addr: int32, op: nat, d: RegNum): int
    requires Shape(r) && |memory| % PAGE_SIZE == 0
  {
    if Located(mmu, memory, addr, 4, false).Raised? then 0 else
    var p := Place(mmu, memory, addr, 4, false);
    if op == 34 then LittleSigned(memory, p, 4)
    else Arriving(r, d) - Arriving(r, d) % 256 + memory[p + 3] as int
  }

  lemma WordParts(b: seq<byte>)
    requires |b| == 4
    ensures Unsigned(BytesInt(b)) == BytesNat(b)
    ensures BytesNat(b) / 0x100_0000 == b[3] as int
    ensures BytesNat(b) % 0x100_0000 == b[0] as int + 0x100 * (b[1] as int) + 0x1_0000 * (b[2] as int)
  {
    DivMod(BytesNat(b), 0x100_0000, b[3] as int, b[0] as int + 0x100 * (b[1] as int) + 0x1_0000 * (b[2] as int));
  }

  lemma LowByteReplaced(x: int32, c: byte)
    ensures Wrap(Unsigned(x) / 256 * 256 + c as int) == x - x % 256 + c as int
  {
    var u := Unsigned(x);
    assert u / 256 * 256 == u - u % 256;
    assert u % 256 == x % 256;
    assert x == 256 * (x / 256) + x % 256;
  }

  lemma PartIsLoaded(i: Instruction, r: Registers, mmu: Mmu, memory: seq<byte>, addr: int32, op: nat)
    requires Shape(r) && |memory| % PAGE_SIZE == 0 && op in {34, 38} && i.op == OpTable(op).0
    requires Located(mmu, memory, addr, 4, false).Translated?
    ensures Loaded(i, r, Read(mmu, memory, addr, 4).value) == PartLoaded(r, mmu, memory, addr, op, i.rt)
  {
    var p := Place(mmu, memory, addr, 4, false);
    ReadsAt(mmu, memory, addr, 4);
    if op == 34 {
      WordLoaded(memory, p);
    } else {
      HighByteLoaded(i, r, memory[p..p + 4]);
    }
  }

  lemma HighByteLoaded(i: Instruction, r: Registers, b: seq<byte>)
    requires Shape(r) && i.op == Memory(LWR) && |b| == 4
    ensures Loaded(i, r, BytesInt(b)) == Arriving(r, i.rt) - Arriving(r, i.rt) % 256 + b[3] as int
  {
    WordParts(b);
    LowByteReplaced(Arriving(r, i.rt), b[3]);
  }

  lemma PartFits(r: Registers, mmu: Mmu, memory: seq<byte>, addr: int32, op: nat, d: RegNum)
    requires Shape(r) && |memory| % PAGE_SIZE == 0
    ensures IsInt32(PartLoaded(r, mmu, memory, addr, op, d))
  {
    if Located(mmu, memory, addr, 4, false).Translated? {
      var p := Place(mmu, memory, addr, 4, false);
      WordLoaded(memory, p);
      LowByteReplaced(Arriving(r, d), memory[p + 3]);
    }
  }

  lemma PartialLoads(r: Registers, mmu: Mmu, memory: seq<byte>, op: nat, rs: RegNum, rt: RegNum, half: int)
    requires op in {34, 38} && -0x8000 <= half < 0x8000
    requires Fetches(r, mmu, memory, ImmediateWord(op, rs, rt, half))
    ensures var addr, res := Address(r, rs, half), ResultOf(r, mmu, memory);
            if Unsigned(addr) % 4 != 0 then res.Stopped?
            else Delivers(r, mmu, memory, res, rt, addr, 4, PartLoaded(r, mmu, memory, addr, op, rt))
  {
    var i := FetchedImmediate(r, mmu, memory, op, rs, rt, half);
    var addr := Address(r, rs, half);
    PartialPlan(i, r, op);
    PartFits(r, mmu, memory, addr, op, rt);
    if Located(mmu, memory, addr, 4, false).Translated? {
      PartIsLoaded(i, r, mmu, memory, addr, op);
    }
    LoadDelivers(i, r, mmu, memory, addr, 4, PartLoaded(r, mmu, memory, addr, op, rt));
  }

  /** Operation fields 42 and 46 at a word boundary: SWL stores the whole word, and SWR replaces the highest
      byte of the word in memory by the lowest of the register. */
  function PartStored(mmu: Mmu, memory: seq<byte>, addr: int32, op: nat, y: int32): nat
    requires |memory| % PAGE_SIZE == 0
  {
    if op == 42 then y % TWO32
    else if Located(mmu, memory, addr, 4, false).Raised? then 0
    else Little(memory, Place(mmu, memory, addr, 4, false), 3) + 0x100_0000 * (y % 256)
  }

  lemma TopByteReplaced(low: nat, y: int32)
    requires low < 0x100_0000
    ensures Wrap(low + Unsigned(y) % 256 * 0x100_0000) % TWO32 == low + 0x100_0000 * (y % 256)
  {
    assert Unsigned(y) % 256 == y % 256;
  }

  lemma PartIsMerged(i: Instruction, mmu: Mmu, memory: seq<byte>, addr: int32, op: nat, y: int32)
    requires |memory| % PAGE_SIZE == 0 && op in {42, 46} && i.op == OpTable(op).0
    requires Located(mmu, memory, addr, 4, false).Translated?
    ensures Merged(i, Read(mmu, memory, addr, 4).value, y) % TWO32 == PartStored(mmu, memory, addr, op, y)
  {
    if op == 46 {
      var p := Place(mmu, memory, addr, 4, false);
      var b := memory[p..p + 4];
      FourBytes(memory, p);
      WordParts(b);
      assert Read(mmu, memory, addr, 4).value == BytesInt(b);
      TopByteReplaced(BytesNat(b) % 0x100_0000, y);
    }
  }

  /** They read before they write. */
  ghost predicate ReadsThenStores(r: Registers, mmu: Mmu, memory: seq<byte>, res: Result, addr: int32, value: nat)
    requires Shape(r) && |memory| % PAGE_SIZE == 0
  {
    var t := Located(mmu, memory, addr, 4, false);
    if t.Raised? then Traps(r, memory, res, t.exception, addr)
    else Stores(r, mmu, memory, res, addr, 4, value)
  }

  lemma MergeStores(i: Instruction, r: Registers, mmu: Mmu, memory: seq<byte>, addr: int32, op: nat)
    requires Shape(r) && |memory| % PAGE_SIZE == 0 && op in {42, 46} && i.op == OpTable(op).0
    ensures ReadsThenStores(r, mmu, memory, ExecuteMerge(i, r, mmu, memory, addr), addr,
                            PartStored(mmu, memory, addr, op, r[i.rt]))
  {
    TrapIsPrecise(r, addr);
    if Located(mmu, memory, addr, 4, false).Translated? {
      PartIsMerged(i, mmu, memory, addr, op, r[i.rt]);
      PowOf32();
      StoreStores(r, mmu, memory, addr, 4, Merged(i, Read(mmu, memory, addr, 4).value, r[i.rt]));
    }
  }

  lemma PartStorePerformed(i: Instruction, r: Registers, mmu: Mmu, memory: seq<byte>, op: nat, addr: int32, value: nat)
    requires Shape(r) && |memory| % PAGE_SIZE == 0 && op in {42, 46} && i.op == OpTable(op).0
    requires addr == Address(r, i.rs, i.extra) && value == PartStored(mmu, memory, addr, op, r[i.rt])
    ensures var res := Perform(PlanOf(i, r), i, r, mmu, memory);
            if Unsigned(addr) % 4 != 0 then res.Stopped? else ReadsThenStores(r, mmu, memory, res, addr, value)
  {
    PartialPlan(i, r, op);
    MergeStores(i, r, mmu, memory, addr, op);
  }

  lemma PartialStores(r: Registers, mmu: Mmu, memory: seq<byte>, op: nat, rs: RegNum, rt: RegNum, half: int,
                      addr: int32)
    requires op in {42, 46} && -0x8000 <= half < 0x8000
    requires Fetches(r, mmu, memory, ImmediateWord(op, rs, rt, half)) && addr == Address(r, rs, half)
    ensures var res := ResultOf(r, mmu, memory);
            if Unsigned(addr) % 4 != 0 then res.Stopped?
            else ReadsThenStores(r, mmu, memory, res, addr, PartStored(mmu, memory, addr, op, r[rt]))
  {
    var i := FetchedImmediate(r, mmu, memory, op, rs, rt, half);
    PartStorePerformed(i, r, mmu, memory, op, addr, PartStored(mmu, memory, addr, op, r[rt]));
  }

  /** A word that cannot be fetched: the instruction traps as the translation of the program counter does. */
  lemma FetchTraps(r: Registers, mmu: Mmu, memory: seq<byte>)
    requires Shape(r) && |memory| % PAGE_SIZE == 0 && Located(mmu, memory, r[PC_REG], 4, false).Raised?
    ensures Traps(r, memory, ResultOf(r, mmu, memory), Located(mmu, memory, r[PC_REG], 4, false).exception, r[PC_REG])
  {
    TrapIsPrecise(r, r[PC_REG]);
  }
}
