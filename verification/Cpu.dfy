/**
 The simulated MIPS processor (machine/mipssim.cc): one instruction at a time on forty registers,
 with one delay slot after a load and one after a branch.
 */
module Processor {
  import opened Words
  import opened Bitwise
  import opened Decoding
  import opened Translation
  import opened Multiplier

  const NUM_TOTAL_REGS: nat := 40
  const HI_REG: nat := 32
  const LO_REG: nat := 33
  const PC_REG: nat := 34
  const NEXT_PC_REG: nat := 35
  const PREV_PC_REG: nat := 36
  const LOAD_REG: nat := 37
  const LOAD_VALUE_REG: nat := 38
  const BAD_VADDR_REG: nat := 39

  type Registers = seq<int32>

  /** The pending load goes to a general register. */
  predicate Shape(r: Registers) {
    |r| == NUM_TOTAL_REGS && 0 <= r[LOAD_REG] < 32
  }

  /** What holds between instructions. */
  predicate Good(r: Registers) {
    Shape(r) && r[0] == 0
  }

  /** The address of the instruction after pc. */
  function Following(pc: int32): int32 {
    Wrap(pc as int + 4)
  }

  function DelayedLoad(r: Registers, nextReg: RegNum, nextValue: int32): Registers
    requires Shape(r)
  {
    r[r[LOAD_REG] := r[LOAD_VALUE_REG]][LOAD_REG := nextReg][LOAD_VALUE_REG := nextValue][0 := 0]
  }

  // ---- what an instruction does, before memory is consulted ----

  datatype Plan =
    | Stop                                              // an assertion of the simulator fails
    | Raise(which: ExceptionType, badVAddr: int32)
    | Assign(dest: nat, value: int32)
    | Jump(pcAfter: int32)
    | Link(dest: nat, value: int32, pcAfter: int32)
    | HiLo(hi: int32, lo: int32)
    | Multiply(signedArith: bool)
    | Load(addr: int32, size: int)
    | Store(addr: int32, size: int, value: int32)
    | Merge(addr: int32)                                // SWL and SWR: read a word, write it back changed
  {
    predicate Good() {
      && (Assign? ==> dest < PC_REG)
      && (Link? ==> dest < 32)
      && (Load? || Store? ==> size in {1, 2, 4})
      && (Raise? ==> which != NoException)
    }
  }

  function SignedAdd(dest: RegNum, x: int32, y: int32): Plan {
    var sum := Wrap(x + y);
    if !SignBit(Xor(x, y)) && SignBit(Xor(x, sum)) then Raise(OverflowException, 0) else Assign(dest, sum)
  }

  function SignedAddImmediate(dest: RegNum, x: int32, extra: int32): Plan {
    var sum := Wrap(x + extra);
    if !SignBit(Xor(x, extra)) && SignBit(Xor(extra, sum)) then Raise(OverflowException, 0) else Assign(dest, sum)
  }

  function SignedSubtract(dest: RegNum, x: int32, y: int32): Plan {
    var diff := Wrap(x - y);
    if SignBit(Xor(x, y)) && SignBit(Xor(x, diff)) then Raise(OverflowException, 0) else Assign(dest, diff)
  }

  /** C's division: quotient of the magnitudes, negative when the signs differ. */
  function Quotient(x: int, y: int): int
    requires y != 0
  {
    var q := (if x < 0 then 0 - x else x) / (if y < 0 then 0 - y else y);
    if (x < 0) != (y < 0) then 0 - q else q
  }

  function Divide(x: int, y: int): Plan {
    if y == 0 then HiLo(0, 0) else HiLo(Wrap(x - y * Quotient(x, y)), Wrap(Quotient(x, y)))
  }

  function ShiftLeft(x: int32, k: nat): int32 { Wrap(x * Pow2(k)) }

  /** The shift of an int: it copies the sign. */
  function ShiftRight(x: int32, k: nat): int32 { Wrap(x / Pow2(k)) }

  function Flag(b: bool): int32 { if b then 1 else 0 }

  /** The word access that LWL, LWR, SWL and SWR insist on. */
  function Aligned(addr: int32, p: Plan): Plan {
    if Unsigned(addr) % 4 != 0 then Stop else p
  }

  function HalfLoad(addr: int32): Plan {
    if Unsigned(addr) % 2 != 0 then Raise(AddressErrorException, addr) else Load(addr, 2)
  }

  function WordLoad(addr: int32): Plan {
    if Unsigned(addr) % 4 != 0 then Raise(AddressErrorException, addr) else Load(addr, 4)
  }

  function BranchPlan(taken: bool, i: Instruction, next: int32): Plan {
    Jump(Wrap(next + if taken then 4 * i.extra else 4))
  }

  /** The return address is stored before the condition is read. */
  function BranchAndLink(negative: bool, i: Instruction, r: Registers): Plan
    requires |r| == NUM_TOTAL_REGS
  {
    var next := r[NEXT_PC_REG];
    var back := Following(next);
    var x := if i.rs == 31 then back else r[i.rs];
    Link(31, back, BranchPlan(SignBit(x) == negative, i, next).pcAfter)
  }

  function JumpTarget(next: int32, extra: int32): int32 {
    Wrap(Unsigned(Following(next)) / 0x1000_0000 * 0x1000_0000 + extra * 4)
  }

  /** Branches and jumps. */
  function ControlPlan(op: ControlOp, i: Instruction, r: Registers): (p: Plan)
    requires |r| == NUM_TOTAL_REGS
    ensures p.Good() && !p.Stop?
  {
    var x, y, next := r[i.rs], r[i.rt], r[NEXT_PC_REG];
    match op
    case BEQ => BranchPlan(x == y, i, next)
    case BGEZAL => BranchAndLink(false, i, r)
    case BGEZ => BranchPlan(!SignBit(x), i, next)
    case BGTZ => BranchPlan(x > 0, i, next)
    case BLEZ => BranchPlan(x <= 0, i, next)
    case BLTZAL => BranchAndLink(true, i, r)
    case BLTZ => BranchPlan(SignBit(x), i, next)
    case BNE => BranchPlan(x != y, i, next)
    case JAL => Link(31, Following(next), JumpTarget(next, i.extra))
    case J => Jump(JumpTarget(next, i.extra))
    case JALR => Link(i.rd, Following(next), if i.rs == i.rd then Following(next) else x)
    case JR => Jump(x)
  }

  predicate IsPartialWord(op: MemoryOp) {
    op.LWL? || op.LWR? || op.SWL? || op.SWR?
  }

  /** Loads and stores. */
  function MemoryPlan(op: MemoryOp, addr: int32, y: int32): (p: Plan)
    ensures p.Good() && (p.Stop? <==> IsPartialWord(op) && Unsigned(addr) % 4 != 0)
  {
    match op
    case LB => Load(addr, 1)
    case LBU => Load(addr, 1)
    case LH => HalfLoad(addr)
    case LHU => HalfLoad(addr)
    case LW => WordLoad(addr)
    case LWL => Aligned(addr, Load(addr, 4))
    case LWR => Aligned(addr, Load(addr, 4))
    case SB => Store(addr, 1, y)
    case SH => Store(addr, 2, y)
    case SW => Store(addr, 4, y)
    case SWL => Aligned(addr, Merge(addr))
    case SWR => Aligned(addr, Merge(addr))
  }

  /** Arithmetic on two registers, into rd or into HI and LO. */
  function RegisterPlan(op: RegisterOp, rd: RegNum, x: int32, y: int32): (p: Plan)
    ensures p.Good() && !p.Stop?
  {
    match op
    case ADD => SignedAdd(rd, x, y)
    case ADDU => Assign(rd, Wrap(x + y))
    case AND => Assign(rd, And(x, y))
    case DIV => Divide(x, y)
    case DIVU => Divide(Unsigned(x), Unsigned(y))
    case MULT => Multiply(true)
    case MULTU => Multiply(false)
    case NOR => Assign(rd, Nor(x, y))
    case OR => Assign(rd, Or(x, x))
    case SLLV => Assign(rd, ShiftLeft(y, x % 32))
    case SLT => Assign(rd, Flag(x < y))
    case SLTU => Assign(rd, Flag(Unsigned(x) < Unsigned(y)))
    case SRAV => Assign(rd, ShiftRight(y, x % 32))
    case SRLV => Assign(rd, ShiftRight(y, x % 32))
    case SUB => SignedSubtract(rd, x, y)
    case SUBU => Assign(rd, Wrap(x - y))
    case XOR => Assign(rd, Xor(x, y))
  }

  /** Arithmetic with the constant of the instruction. */
  function ImmediatePlan(op: ImmediateOp, i: Instruction, x: int32, y: int32): (p: Plan)
    ensures p.Good() && !p.Stop?
  {
    var low := i.extra % 0x1_0000;
    match op
    case ADDI => SignedAddImmediate(i.rt, x, i.extra)
    case ADDIU => Assign(i.rt, Wrap(x + i.extra))
    case ANDI => Assign(i.rt, And(x, low))
    case LUI => Assign(i.rt, Wrap(i.extra * 0x1_0000))
    case ORI => Assign(i.rt, Or(x, low))
    case SLL => Assign(i.rd, ShiftLeft(y, i.extra % 32))
    case SLTI => Assign(i.rt, Flag(x < i.extra))
    case SLTIU => Assign(i.rt, Flag(Unsigned(x) < Unsigned(i.extra)))
    case SRA => Assign(i.rd, ShiftRight(y, i.extra % 32))
    case SRL => Assign(i.rd, ShiftRight(y, i.extra % 32))
    case XORI => Assign(i.rt, Xor(x, low))
  }

  function PlanOf(i: Instruction, r: Registers): (p: Plan)
    requires |r| == NUM_TOTAL_REGS
    ensures p.Good()
    ensures p.Stop? <==>
            || Unhandled(i.op)
            || (i.op.Memory? && IsPartialWord(i.op.memory) && Unsigned(Wrap(r[i.rs] + i.extra)) % 4 != 0)
  {
    match i.op
    case Control(op) => ControlPlan(op, i, r)
    case Memory(op) => MemoryPlan(op, Wrap(r[i.rs] + i.extra), r[i.rt])
    case Register(op) => RegisterPlan(op, i.rd, r[i.rs], r[i.rt])
    case Immediate(op) => ImmediatePlan(op, i, r[i.rs], r[i.rt])
    case MFHI => Assign(i.rd, r[HI_REG])
    case MFLO => Assign(i.rd, r[LO_REG])
    case MTHI => Assign(HI_REG, r[i.rs])
    case MTLO => Assign(LO_REG, r[i.rs])
    case SYSCALL => Raise(SyscallException, 0)
    case RES => Raise(IllegalInstrException, 0)
    case UNIMP => Raise(IllegalInstrException, 0)
    case _ => Stop
  }

  /** What a load puts into the register, from what memory gave. */
  function Loaded(i: Instruction, r: Registers, value: int32): int32
    requires |r| == NUM_TOTAL_REGS
  {
    match i.op
    case Memory(LB) => if value % 256 >= 128 then value % 256 - 256 else value % 256
    case Memory(LBU) => value % 256
    case Memory(LH) => if value % 0x1_0000 >= 0x8000 then value % 0x1_0000 - 0x1_0000 else value % 0x1_0000
    case Memory(LHU) => value % 0x1_0000
    case Memory(LWR) =>
      var pending := if r[LOAD_REG] == i.rt then r[LOAD_VALUE_REG] else r[i.rt];
      Wrap(Unsigned(pending) / 256 * 256 + Unsigned(value) / 0x100_0000)
    case _ => value
  }

  /** The word that SWL or SWR writes back. */
  function Merged(i: Instruction, old_: int32, y: int32): int32 {
    if i.op == Memory(SWR) then Wrap(Unsigned(old_) % 0x100_0000 + Unsigned(y) % 256 * 0x100_0000) else y
  }

  // ---- one instruction ----

  datatype Result =
    | Stopped
    | Trapped(which: ExceptionType, regs: Registers, memory: seq<byte>)
    | Advanced(regs: Registers, memory: seq<byte>)

  function Trap(r: Registers, memory: seq<byte>, which: ExceptionType, badVAddr: int32): Result
    requires Shape(r)
  {
    Trapped(which, DelayedLoad(r[BAD_VADDR_REG := badVAddr], 0, 0), memory)
  }

  function Retire(r: Registers, pcAfter: int32, loadReg: RegNum, loadValue: int32): Registers
    requires Shape(r)
  {
    var d := DelayedLoad(r, loadReg, loadValue);
    d[PREV_PC_REG := d[PC_REG]][PC_REG := d[NEXT_PC_REG]][NEXT_PC_REG := pcAfter]
  }

  /** The double-length product. */
  function Product(x: int32, y: int32, signedArith: bool): int {
    if signedArith then x * y else Unsigned(x) * Unsigned(y)
  }

  function WithHiLo(r: Registers, hi: int32, lo: int32): Registers
    requires |r| == NUM_TOTAL_REGS
  {
    r[LO_REG := lo][HI_REG := hi]
  }

  function Execute(i: Instruction, r: Registers, mmu: Mmu, memory: seq<byte>): Result
    requires Shape(r) && |memory| % PAGE_SIZE == 0
  {
    Perform(PlanOf(i, r), i, r, mmu, memory)
  }

  function Perform(p: Plan, i: Instruction, r: Registers, mmu: Mmu, memory: seq<byte>): Result
    requires p.Good() && Shape(r) && |memory| % PAGE_SIZE == 0
  {
    var next := Following(r[NEXT_PC_REG]);
    match p
    case Stop => Stopped
    case Raise(which, addr) => Trap(r, memory, which, addr)
    case Assign(dest, value) => Advanced(Retire(r[dest := value], next, 0, 0), memory)
    case Jump(pcAfter) => Advanced(Retire(r, pcAfter, 0, 0), memory)
    case Link(dest, value, pcAfter) => Advanced(Retire(r[dest := value], pcAfter, 0, 0), memory)
    case HiLo(hi, lo) => Advanced(Retire(WithHiLo(r, hi, lo), next, 0, 0), memory)
    case Multiply(s) =>
      var product := Product(r[i.rs], r[i.rt], s);
      Advanced(Retire(WithHiLo(r, Wrap(product / TWO32), Wrap(product % TWO32)), next, 0, 0), memory)
    case Load(addr, size) => ExecuteLoad(i, r, mmu, memory, addr, size)
    case Store(addr, size, value) => ExecuteStore(r, mmu, memory, addr, size, value)
    case Merge(addr) => ExecuteMerge(i, r, mmu, memory, addr)
  }

  function ExecuteMerge(i: Instruction, r: Registers, mmu: Mmu, memory: seq<byte>, addr: int32): Result
    requires Shape(r) && |memory| % PAGE_SIZE == 0
  {
    var t := Translate(mmu.usesTlb, mmu.entries, |memory| / PAGE_SIZE, addr, 4, false);
    if t.Raised? then Trap(r, memory, t.exception, addr)
    else ExecuteStore(r, mmu, memory, addr, 4, Merged(i, Read(mmu, memory, addr, 4).value, r[i.rt]))
  }

  function ExecuteLoad(i: Instruction, r: Registers, mmu: Mmu, memory: seq<byte>, addr: int32, size: int): Result
    requires Shape(r) && |memory| % PAGE_SIZE == 0 && size in {1, 2, 4}
  {
    var t := Translate(mmu.usesTlb, mmu.entries, |memory| / PAGE_SIZE, addr, size, false);
    if t.Raised? then Trap(r, memory, t.exception, addr)
    else Advanced(Retire(r, Following(r[NEXT_PC_REG]), i.rt, Loaded(i, r, Read(mmu, memory, addr, size).value)), memory)
  }

  function ExecuteStore(r: Registers, mmu: Mmu, memory: seq<byte>, addr: int32, size: int, value: int32): Result
    requires Shape(r) && |memory| % PAGE_SIZE == 0 && size in {1, 2, 4}
  {
    var t := Translate(mmu.usesTlb, mmu.entries, |memory| / PAGE_SIZE, addr, size, true);
    if t.Raised? then Trap(r, memory, t.exception, addr)
    else Advanced(Retire(r, Following(r[NEXT_PC_REG]), 0, 0), Written(mmu, memory, addr, size, value))
  }

  /** Fetch, decode and execute. */
  function ResultOf(r: Registers, mmu: Mmu, memory: seq<byte>): Result
    requires Shape(r) && |memory| % PAGE_SIZE == 0
  {
    var t := Translate(mmu.usesTlb, mmu.entries, |memory| / PAGE_SIZE, r[PC_REG], 4, false);
    if t.Raised? then Trap(r, memory, t.exception, r[PC_REG])
    else Execute(Decode(Unsigned(Read(mmu, memory, r[PC_REG], 4).value)), r, mmu, memory)
  }

  // ---- the simulator's own form ----

  /** Use and dirty bits make no difference to what an instruction does. */
  lemma SameMappingPerforms(p: Plan, i: Instruction, r: Registers, a: Mmu, b: Mmu, memory: seq<byte>)
    requires p.Good() && Shape(r) && |memory| % PAGE_SIZE == 0
    requires a.usesTlb == b.usesTlb && SameMapping(a.entries, b.entries)
    ensures Perform(p, i, r, a, memory) == Perform(p, i, r, b, memory)
  {
    match p
    case Load(addr, size) => SameMappingReads(a, b, memory, addr, size);
    case Store(addr, size, value) => SameMappingStores(r, a, b, memory, addr, size, value);
    case Merge(addr) =>
      SameMappingReads(a, b, memory, addr, 4);
      if Translate(a.usesTlb, a.entries, |memory| / PAGE_SIZE, addr, 4, false).Translated? {
        SameMappingStores(r, a, b, memory, addr, 4, Merged(i, Read(a, memory, addr, 4).value, r[i.rt]));
      }
    case _ =>
  }

  lemma SameMappingReads(a: Mmu, b: Mmu, memory: seq<byte>, addr: int32, size: int)
    requires |memory| % PAGE_SIZE == 0 && size in {1, 2, 4}
    requires a.usesTlb == b.usesTlb && SameMapping(a.entries, b.entries)
    ensures Translate(a.usesTlb, a.entries, |memory| / PAGE_SIZE, addr, size, false) ==
            Translate(b.usesTlb, b.entries, |memory| / PAGE_SIZE, addr, size, false)
    ensures Read(a, memory, addr, size) == Read(b, memory, addr, size)
  {
    SameMappingTranslates(a.usesTlb, a.entries, b.entries, |memory| / PAGE_SIZE, addr, size, false);
  }

  lemma SameMappingStores(r: Registers, a: Mmu, b: Mmu, memory: seq<byte>, addr: int32, size: int, value: int32)
    requires Shape(r) && |memory| % PAGE_SIZE == 0 && size in {1, 2, 4}
    requires a.usesTlb == b.usesTlb && SameMapping(a.entries, b.entries)
    ensures ExecuteStore(r, a, memory, addr, size, value) == ExecuteStore(r, b, memory, addr, size, value)
  {
    SameMappingTranslates(a.usesTlb, a.entries, b.entries, |memory| / PAGE_SIZE, addr, size, true);
  }

  lemma ProductWords(x: int32, y: int32, signedArith: bool, hi: int32, lo: int32)
    requires signedArith ==> hi * TWO32 + Unsigned(lo) == x * y
    requires !signedArith ==> Pair(Unsigned(hi), Unsigned(lo)) == Unsigned(x) * Unsigned(y)
    ensures var product := Product(x, y, signedArith);
            hi == Wrap(product / TWO32) && lo == Wrap(product % TWO32)
  {
    var product := Product(x, y, signedArith);
    var h := if signedArith then hi else Unsigned(hi);
    assert product == h * TWO32 + Unsigned(lo);
    assert product / TWO32 == h && product % TWO32 == Unsigned(lo);
  }

  datatype Ending = Assertion | Exception(which: ExceptionType) | Done

  /** What the simulator left behind is what the instruction means. */
  ghost predicate Agrees(ending: Ending, r: Registers, memory: seq<byte>, res: Result) {
    match res
    case Stopped => ending == Assertion
    case Trapped(which, r', memory') => ending == Exception(which) && r == r' && memory == memory'
    case Advanced(r', memory') => ending == Done && r == r' && memory == memory'
  }

  class Cpu {
    const registers: array<int32>
    const machine: Machine

    ghost predicate Valid()
      reads registers
    {
      Shape(registers[..]) && machine.Valid()
    }

    /** All registers start at zero. */
    constructor (machine: Machine)
      requires machine.Valid()
      ensures Valid() && Good(registers[..]) && this.machine == machine && fresh(registers)
    {
      registers := new int32[NUM_TOTAL_REGS](_ => 0);
      this.machine := machine;
    }

    method ApplyDelayedLoad(nextReg: RegNum, nextValue: int32)
      requires Valid()
      modifies registers
      ensures registers[..] == DelayedLoad(old(registers[..]), nextReg, nextValue) && Valid()
    {
      registers[registers[LOAD_REG]] := registers[LOAD_VALUE_REG];
      registers[LOAD_REG] := nextReg;
      registers[LOAD_VALUE_REG] := nextValue;
      registers[0] := 0;
    }

    method RaiseException(badVAddr: int32)
      requires Valid()
      modifies registers
      ensures registers[..] == DelayedLoad(old(registers[..])[BAD_VADDR_REG := badVAddr], 0, 0)
    {
      registers[BAD_VADDR_REG] := badVAddr;
      assert registers[..] == old(registers[..])[BAD_VADDR_REG := badVAddr];
      ApplyDelayedLoad(0, 0);
    }

    /** The tail of OneInstruction. */
    method RetireInstruction(pcAfter: int32, loadReg: RegNum, loadValue: int32)
      requires Valid()
      modifies registers
      ensures registers[..] == Retire(old(registers[..]), pcAfter, loadReg, loadValue)
    {
      ApplyDelayedLoad(loadReg, loadValue);
      registers[PREV_PC_REG] := registers[PC_REG];
      registers[PC_REG] := registers[NEXT_PC_REG];
      registers[NEXT_PC_REG] := pcAfter;
    }

    /** Writes one register and retires. */
    method Put(dest: nat, value: int32, pcAfter: int32)
      requires Valid() && dest < PC_REG
      modifies registers
      ensures registers[..] == Retire(old(registers[..])[dest := value], pcAfter, 0, 0)
    {
      registers[dest] := value;
      assert registers[..] == old(registers[..])[dest := value];
      RetireInstruction(pcAfter, 0, 0);
    }

    method PutHiLo(hi: int32, lo: int32)
      requires Valid()
      modifies registers
      ensures var r := old(registers[..]);
              registers[..] == Retire(WithHiLo(r, hi, lo), Following(r[NEXT_PC_REG]), 0, 0)
    {
      registers[LO_REG] := lo;
      registers[HI_REG] := hi;
      assert registers[..] == WithHiLo(old(registers[..]), hi, lo);
      RetireInstruction(Following(registers[NEXT_PC_REG]), 0, 0);
    }

    method MultiplyRegisters(i: Instruction, signedArith: bool)
      requires Valid()
      modifies registers
      ensures var r := old(registers[..]);
              var product := Product(r[i.rs], r[i.rt], signedArith);
              var r1 := WithHiLo(r, Wrap(product / TWO32), Wrap(product % TWO32));
              registers[..] == Retire(r1, Following(r[NEXT_PC_REG]), 0, 0)
    {
      var hi, lo := Mult(registers[i.rs], registers[i.rt], signedArith);
      ProductWords(registers[i.rs], registers[i.rt], signedArith, hi, lo);
      PutHiLo(hi, lo);
    }

    method LoadRegister(i: Instruction, addr: int32, size: int) returns (ending: Ending)
      requires Valid() && size in {1, 2, 4}
      modifies registers, machine.entries
      ensures SameMapping(old(machine.entries[..]), machine.entries[..])
      ensures Agrees(ending, registers[..], machine.mainMemory[..],
                     ExecuteLoad(i, old(registers[..]), Mmu(machine.usesTlb, old(machine.entries[..])),
                                 machine.mainMemory[..], addr, size))
    {
      var exception, value := machine.ReadMem(addr, size);
      if exception != NoException {
        RaiseException(addr);
        return Exception(exception);
      }
      RetireInstruction(Following(registers[NEXT_PC_REG]), i.rt, Loaded(i, registers[..], value));
      ending := Done;
    }

    method StoreValue(addr: int32, size: int, value: int32) returns (ending: Ending)
      requires Valid() && size in {1, 2, 4}
      modifies registers, machine.entries, machine.mainMemory
      ensures SameMapping(old(machine.entries[..]), machine.entries[..])
      ensures Agrees(ending, registers[..], machine.mainMemory[..],
                     ExecuteStore(old(registers[..]), Mmu(machine.usesTlb, old(machine.entries[..])),
                                  old(machine.mainMemory[..]), addr, size, value))
    {
      var exception := machine.WriteMem(addr, size, value);
      if exception != NoException {
        RaiseException(addr);
        return Exception(exception);
      }
      RetireInstruction(Following(registers[NEXT_PC_REG]), 0, 0);
      ending := Done;
    }

    method MergeWord(i: Instruction, addr: int32) returns (ending: Ending)
      requires Valid()
      modifies registers, machine.entries, machine.mainMemory
      ensures SameMapping(old(machine.entries[..]), machine.entries[..])
      ensures Agrees(ending, registers[..], machine.mainMemory[..],
                     ExecuteMerge(i, old(registers[..]), Mmu(machine.usesTlb, old(machine.entries[..])),
                                  old(machine.mainMemory[..]), addr))
    {
      ghost var entries := machine.entries[..];
      var exception, value := machine.ReadMem(addr, 4);
      if exception != NoException {
        RaiseException(addr);
        return Exception(exception);
      }
      SameMappingTranslates(machine.usesTlb, entries, machine.entries[..], machine.mainMemory.Length / PAGE_SIZE,
                            addr, 4, true);
      ending := StoreValue(addr, 4, Merged(i, value, registers[i.rt]));
    }

    /** Carries out what the switch decided. */
    method Carry(p: Plan, i: Instruction) returns (ending: Ending)
      requires Valid() && p.Good()
      modifies registers, machine.entries, machine.mainMemory
      ensures SameMapping(old(machine.entries[..]), machine.entries[..])
      ensures Agrees(ending, registers[..], machine.mainMemory[..],
                     Perform(p, i, old(registers[..]), Mmu(machine.usesTlb, old(machine.entries[..])),
                             old(machine.mainMemory[..])))
    {
      ending := Done;
      var next := Following(registers[NEXT_PC_REG]);
      match p {
        case Stop => ending := Assertion;
        case Raise(which, addr) =>
          RaiseException(addr);
          ending := Exception(which);
        case Assign(dest, value) => Put(dest, value, next);
        case Jump(pcAfter) => RetireInstruction(pcAfter, 0, 0);
        case Link(dest, value, pcAfter) => Put(dest, value, pcAfter);
        case HiLo(hi, lo) => PutHiLo(hi, lo);
        case Multiply(s) => MultiplyRegisters(i, s);
        case Load(addr, size) => ending := LoadRegister(i, addr, size);
        case Store(addr, size, value) => ending := StoreValue(addr, size, value);
        case Merge(addr) => ending := MergeWord(i, addr);
      }
    }

    method OneInstruction() returns (ending: Ending)
      requires Valid()
      modifies registers, machine.entries, machine.mainMemory
      ensures SameMapping(old(machine.entries[..]), machine.entries[..])
      ensures Agrees(ending, registers[..], machine.mainMemory[..],
                     ResultOf(old(registers[..]), Mmu(machine.usesTlb, old(machine.entries[..])),
                              old(machine.mainMemory[..])))
    {
      ghost var entries := machine.entries[..];
      var exception, raw := machine.ReadMem(registers[PC_REG], 4);
      if exception != NoException {
        RaiseException(registers[PC_REG]);
        return Exception(exception);
      }
      var i := Decode(Unsigned(raw));
      SameMappingPerforms(PlanOf(i, registers[..]), i, registers[..], Mmu(machine.usesTlb, entries),
                          Mmu(machine.usesTlb, machine.entries[..]), machine.mainMemory[..]);
      ending := Carry(PlanOf(i, registers[..]), i);
    }
  }
}
