/** Decoding of MIPS instructions (Instruction::Decode in machine/mipssim.cc, tables in mipssim.h). */
module Decoding {
  import opened Words

  datatype ControlOp = BEQ | BGEZ | BGEZAL | BGTZ | BLEZ | BLTZ | BLTZAL | BNE | J | JAL | JALR | JR

  datatype MemoryOp = LB | LBU | LH | LHU | LW | LWL | LWR | SB | SH | SW | SWL | SWR

  datatype RegisterOp =
    | ADD | ADDU | AND | DIV | DIVU | MULT | MULTU | NOR | OR | SLLV | SLT | SLTU | SRAV | SRLV | SUB | SUBU | XOR

  datatype ImmediateOp = ADDI | ADDIU | ANDI | LUI | ORI | SLL | SLTI | SLTIU | SRA | SRL | XORI

  datatype Op =
    | Control(control: ControlOp)
    | Memory(memory: MemoryOp)
    | Register(register: RegisterOp)
    | Immediate(immediate: ImmediateOp)
    | MFHI | MFLO | MTHI | MTLO | SYSCALL | UNIMP | RES | RFE
    | SPECIAL | BCOND   // the two entries of opTable that ask for further decoding

  datatype Format = IFMT | JFMT | RFMT

  type RegNum = n: nat | n < 32

  datatype Instruction = Instruction(op: Op, rs: RegNum, rt: RegNum, rd: RegNum, extra: int32)

  /** opTable, indexed by the six high bits of the instruction. */
  function OpTable(i: nat): (Op, Format) {
    if i < 8 then
      match i
      case 0 => (SPECIAL, RFMT) case 1 => (BCOND, IFMT) case 2 => (Control(J), JFMT) case 3 => (Control(JAL), JFMT)
      case 4 => (Control(BEQ), IFMT) case 5 => (Control(BNE), IFMT) case 6 => (Control(BLEZ), IFMT)
      case _ => (Control(BGTZ), IFMT)
    else if i < 16 then
      match i
      case 8 => (Immediate(ADDI), IFMT) case 9 => (Immediate(ADDIU), IFMT) case 10 => (Immediate(SLTI), IFMT)
      case 11 => (Immediate(SLTIU), IFMT)
      case 12 => (Immediate(ANDI), IFMT) case 13 => (Immediate(ORI), IFMT) case 14 => (Immediate(XORI), IFMT)
      case _ => (Immediate(LUI), IFMT)
    else if i < 20 then (UNIMP, IFMT)
    else if i < 32 then (RES, IFMT)
    else if i < 48 then
      match i
      case 32 => (Memory(LB), IFMT) case 33 => (Memory(LH), IFMT) case 34 => (Memory(LWL), IFMT)
      case 35 => (Memory(LW), IFMT)
      case 36 => (Memory(LBU), IFMT) case 37 => (Memory(LHU), IFMT) case 38 => (Memory(LWR), IFMT)
      case 40 => (Memory(SB), IFMT) case 41 => (Memory(SH), IFMT) case 42 => (Memory(SWL), IFMT)
      case 43 => (Memory(SW), IFMT)
      case 46 => (Memory(SWR), IFMT) case _ => (RES, IFMT)
    else if i < 52 || 56 <= i < 60 then (UNIMP, IFMT)
    else (RES, IFMT)
  }

  /** specialTable, indexed by the six low bits. */
  function SpecialTable(i: nat): Op {
    if i < 16 then
      match i
      case 0 => Immediate(SLL) case 2 => Immediate(SRL) case 3 => Immediate(SRA)
      case 4 => Register(SLLV) case 6 => Register(SRLV) case 7 => Register(SRAV)
      case 8 => Control(JR) case 9 => Control(JALR) case 12 => SYSCALL case 13 => UNIMP case _ => RES
    else if i < 32 then
      match i
      case 16 => MFHI case 17 => MTHI case 18 => MFLO case 19 => MTLO
      case 24 => Register(MULT) case 25 => Register(MULTU) case 26 => Register(DIV) case 27 => Register(DIVU)
      case _ => RES
    else
      match i
      case 32 => Register(ADD) case 33 => Register(ADDU) case 34 => Register(SUB) case 35 => Register(SUBU)
      case 36 => Register(AND) case 37 => Register(OR)
      case 38 => Register(XOR) case 39 => Register(NOR) case 42 => Register(SLT) case 43 => Register(SLTU) case _ => RES
  }

  /** The branches told apart by the rt field. */
  function BranchTable(rt: nat): Op {
    match rt
    case 0 => Control(BLTZ) case 1 => Control(BGEZ) case 16 => Control(BLTZAL) case 17 => Control(BGEZAL)
    case _ => UNIMP
  }

  function Operation(high: nat, rt: nat, low: nat): Op {
    var op := OpTable(high).0;
    if op == SPECIAL then SpecialTable(low) else if op == BCOND then BranchTable(rt) else op
  }

  function Decode(value: word): Instruction {
    var rs, rt, rd := value / 0x20_0000 % 32, value / 0x1_0000 % 32, value / 0x800 % 32;
    var extra := match OpTable(value / 0x400_0000).1
                 case IFMT => if value % 0x1_0000 >= 0x8000 then value % 0x1_0000 - 0x1_0000 else value % 0x1_0000
                 case RFMT => value / 0x40 % 32
                 case JFMT => value % 0x400_0000;
    Instruction(Operation(value / 0x400_0000, rt, value % 64), rs, rt, rd, extra)
  }

  /** The operations that the simulator's switch has no case for. */
  predicate Unhandled(op: Op) {
    op == RFE || op == SPECIAL || op == BCOND
  }

  lemma OperationIsHandled(high: nat, rt: nat, low: nat)
    ensures !Unhandled(Operation(high, rt, low))
  {
  }

  /** Whatever word is fetched, the decoded operation has its case in the switch. */
  lemma DecodeIsHandled(value: word)
    ensures !Unhandled(Decode(value).op)
  {
    OperationIsHandled(value / 0x400_0000, value / 0x1_0000 % 32, value % 64);
  }

  /** The word with the given fields, from the high bits down. */
  function Compose(op: nat, rs: RegNum, rt: RegNum, rd: RegNum, shift: RegNum, funct: nat): (w: word)
    requires op < 64 && funct < 64
  {
    0x400_0000 * op + 0x20_0000 * rs + 0x1_0000 * rt + 0x800 * rd + 0x40 * shift + funct
  }

  /** Fields are recovered: the decoder reads back what the assembler put in. */
  lemma DecodeCompose(op: nat, rs: RegNum, rt: RegNum, rd: RegNum, shift: RegNum, funct: nat)
    requires op < 64 && funct < 64
    ensures var i := Decode(Compose(op, rs, rt, rd, shift, funct));
            && i.rs == rs && i.rt == rt && i.rd == rd
            && (op == 0 ==> i.op == SpecialTable(funct) && i.extra == shift)
            && (op == 1 ==> i.op == BranchTable(rt))
            && (op > 1 ==> i.op == OpTable(op).0)
            && (op == 2 || op == 3 ==> i.extra == 0x20_0000 * rs + 0x1_0000 * rt + 0x800 * rd + 0x40 * shift + funct)
            && (op != 0 && op != 2 && op != 3 ==>
                && -0x8000 <= i.extra < 0x8000
                && (i.extra - (0x800 * rd + 0x40 * shift + funct)) % 0x1_0000 == 0)
  {
    Fields(op, rs, rt, rd, shift, funct);
  }

  /** A word with a half-word constant. */
  function ImmediateWord(op: nat, rs: RegNum, rt: RegNum, half: int): (w: word)
    requires op < 64 && -0x8000 <= half < 0x8000
  {
    0x400_0000 * op + 0x20_0000 * rs + 0x1_0000 * rt + half % 0x1_0000
  }

  lemma DecodeImmediate(op: nat, rs: RegNum, rt: RegNum, half: int)
    requires 0 < op < 64 && op != 2 && op != 3 && -0x8000 <= half < 0x8000
    ensures var i := Decode(ImmediateWord(op, rs, rt, half));
            i.op == (if op == 1 then BranchTable(rt) else OpTable(op).0) && i.rs == rs && i.rt == rt && i.extra == half
  {
    var low := half % 0x1_0000;
    var w := ImmediateWord(op, rs, rt, half);
    DivMod(w, 0x400_0000, op, 0x20_0000 * rs + 0x1_0000 * rt + low);
    DivMod(w, 0x20_0000, 32 * op + rs, 0x1_0000 * rt + low);
    DivMod(w, 0x1_0000, 1024 * op + 32 * rs + rt, low);
    DivMod(32 * op + rs, 32, op, rs);
    DivMod(1024 * op + 32 * rs + rt, 32, 32 * op + rs, rt);
  }

  /** A jump. */
  function JumpWord(op: nat, target: nat): (w: word)
    requires op < 64 && target < 0x400_0000
  {
    0x400_0000 * op + target
  }

  lemma DecodeJump(op: nat, target: nat)
    requires 2 <= op <= 3 && target < 0x400_0000
    ensures var i := Decode(JumpWord(op, target)); i.op == OpTable(op).0 && i.extra == target
  {
    DivMod(JumpWord(op, target), 0x400_0000, op, target);
  }

  lemma Fields(op: nat, rs: RegNum, rt: RegNum, rd: RegNum, shift: RegNum, funct: nat)
    requires op < 64 && funct < 64
    ensures var w := Compose(op, rs, rt, rd, shift, funct);
            && w / 0x400_0000 == op && w / 0x20_0000 % 32 == rs && w / 0x1_0000 % 32 == rt && w / 0x800 % 32 == rd
            && w / 0x40 % 32 == shift && w % 64 == funct
            && w % 0x400_0000 == 0x20_0000 * rs + 0x1_0000 * rt + 0x800 * rd + 0x40 * shift + funct
            && w % 0x1_0000 == 0x800 * rd + 0x40 * shift + funct
  {
    var w := Compose(op, rs, rt, rd, shift, funct);
    var low11 := 0x40 * shift + funct;
    var low16 := 0x800 * rd + low11;
    var low21 := 0x1_0000 * rt + low16;
    DivMod(w, 0x400_0000, op, 0x20_0000 * rs + low21);
    DivMod(w, 0x20_0000, 32 * op + rs, low21);
    DivMod(w, 0x1_0000, 1024 * op + 32 * rs + rt, low16);
    DivMod(w, 0x800, 0x8000 * op + 1024 * rs + 32 * rt + rd, low11);
    DivMod(w, 0x40, 0x10_0000 * op + 0x8000 * rs + 1024 * rt + 32 * rd + shift, funct);
    DivMod(32 * op + rs, 32, op, rs);
    DivMod(1024 * op + 32 * rs + rt, 32, 32 * op + rs, rt);
    DivMod(0x8000 * op + 1024 * rs + 32 * rt + rd, 32, 1024 * op + 32 * rs + rt, rd);
    DivMod(0x10_0000 * op + 0x8000 * rs + 1024 * rt + 32 * rd + shift, 32,
           0x8000 * op + 1024 * rs + 32 * rt + rd, shift);
  }

  lemma DivMod(w: nat, d: nat, q: nat, m: nat)
    requires d > 0 && w == d * q + m && m < d
    ensures w / d == q && w % d == m
  {
    var k := w / d - q;
    assert d * k == m - w % d;
  }
}
