/** The instruction set the processor decodes: what one instruction word means.
    Decoding and execution follow the decoder and the arithmetic unit, quirks included,
    not the MIPS manual. */
module Isa {
  import opened Words

  // ----- arithmetic unit

  /** Left shift by an unsigned count; a count of 32 or more clears the word. */
  function ShiftLeft(a: Word, n: Word): Word
  {
    if n < 32 then Wrap(a * Pow2(n)) else 0
  }

  /** Logical right shift by a signed count: a negative count shifts left. */
  function ShiftRight(a: Word, n: Word): Word
  {
    if n < 32 then Wrap(a / Pow2(n))
    else if n < 0x8000_0000 then 0
    else ShiftLeft(a, WORD_LIMIT - n)
  }

  /** Arithmetic right shift: division by a power of two, rounding down. */
  function ShiftRightSigned(a: Word, n: Word): Word
  {
    Wrap(SignedValue(a) / Pow2(if n < 32 then n else 31))
  }

  /** A bitwise operation on two words. */
  function Bitwise(f: (bool, bool) -> bool, a: Word, b: Word): Word
  {
    Pow2Word();
    Combine(f, a, b, 32)
  }

  function And(a: Word, b: Word): Word { Bitwise((x, y) => x && y, a, b) }

  function Or(a: Word, b: Word): Word { Bitwise((x, y) => x || y, a, b) }

  function Xor(a: Word, b: Word): Word { Bitwise((x, y) => x != y, a, b) }

  function Flag(b: bool): Word { if b then 1 else 0 }

  /** A four-bit operation code. */
  type AluOp = n: nat | n < 16

  function Alu(op: AluOp, a: Word, b: Word): Word
  {
    match op
    case 0 => Wrap(a + b)
    case 1 => Wrap(a + b)
    case 2 => Wrap(a - b)
    case 3 => Wrap(a - b)
    case 4 => And(a, b)
    case 5 => Or(a, b)
    case 6 => Xor(a, b)
    case 7 => WORD_LIMIT - 1 - Or(a, b)
    case 8 => Flag(a == b)
    case 9 => Flag(a != b)
    case 10 => Flag(SignedValue(a) < SignedValue(b))
    case 11 => Flag(a < b)
    case 12 => ShiftLeft(a, b)
    case 13 => ShiftRight(a, b)
    case 14 => ShiftRightSigned(a, b)
    case _ => a
  }

  const PASS_A: AluOp := 15

  const ADD: AluOp := 1

  /** A 64-bit product as its high and low words. */
  datatype Product = Product(high: Word, low: Word)

  function Split(p: int): Product
  {
    Product(Wrap(p / WORD_LIMIT), Wrap(p))
  }

  function Multiply(signed: bool, a: Word, b: Word): Product
  {
    if signed then Split(SignedValue(a) * SignedValue(b)) else Split(a * b)
  }

  // ----- instructions

  datatype Condition = Eq | Ne | Gez | Gz | Lez | Lz

  predicate Holds(c: Condition, a: Word, b: Word)
  {
    match c
    case Eq => a == b
    case Ne => a != b
    case Gez => SignedValue(a) >= 0
    case Gz => SignedValue(a) > 0
    case Lez => SignedValue(a) <= 0
    case Lz => SignedValue(a) < 0
  }

  datatype Instr =
    | Eret
    | Mfc0(cr: RegNum, rd: RegNum)
    | Mtc0(cr: RegNum, ra: RegNum)
    | Tlbwi
    | Mult(signed: bool, ra: RegNum, rb: RegNum)
    | MoveTo(toHi: bool, ra: RegNum)
    | MoveFrom(fromHi: bool, rd: RegNum)
    | Syscall
    | AluReg(op: AluOp, ra: RegNum, rb: RegNum, rd: RegNum)
    | AluImm(op: AluOp, ra: RegNum, imm: Word, rd: RegNum)
    | LoadUpper(imm: Word, rd: RegNum)
    | JumpReg(link: bool, ra: RegNum)
    | JumpAbs(link: bool, w: Word)
    | Branch(cond: Condition, link: bool, ra: RegNum, rb: RegNum, w: Word)
    | Load(byteOnly: bool, ra: RegNum, imm: Word, rd: RegNum)
    | Store(byteOnly: bool, ra: RegNum, imm: Word, rb: RegNum)

  function ShiftOp(w: Word): AluOp
  {
    match w % 4
    case 0 => 12
    case 2 => 13
    case 3 => 14
    case _ => PASS_A
  }

  function DecodeCp0(w: Word): Instr
  {
    if Funct(w) == 0x18 then Eret
    else if Funct(w) == 0 then
      if Rs(w) == 0 then Mfc0(Rd(w), Rt(w)) else Mtc0(Rd(w), Rt(w))
    else Tlbwi
  }

  function DecodeRType(w: Word): Instr
  {
    if w % 0x1_0000 == 0x18 || w % 0x1_0000 == 0x19 then Mult(!Bit0(w), Rs(w), Rt(w))
    else if w % 0x100 == 0x11 || w % 0x100 == 0x13 then MoveTo(!Bit1(w), Rs(w))
    else if w % 0x100 == 0x10 || w % 0x100 == 0x12 then MoveFrom(!Bit1(w), Rd(w))
    else if Funct(w) == 0x0C then Syscall
    else if Bit5(w) then AluReg(w % 16, Rs(w), Rt(w), Rd(w))
    else DecodeShift(w)
  }

  function DecodeShift(w: Word): Instr
  {
    if Bit2(w) then AluReg(ShiftOp(w), Rt(w), Rs(w), Rd(w))
    else if !Bit3(w) then AluImm(ShiftOp(w), Rt(w), Shamt(w), Rd(w))
    else JumpReg(Bit0(w), Rs(w))
  }

  function DecodeMemory(w: Word): Instr
  {
    var kind := Opcode(w) % 16;
    if kind == 3 || kind == 0 || kind == 4 then Load(!Bit26(w), Rs(w), SignExtend(w), Rt(w))
    else Store(kind == 8, Rs(w), SignExtend(w), Rt(w))
  }

  function DecodeBranch(w: Word): Instr
  {
    var kind := Opcode(w) % 8;
    if kind == 4 then Branch(Eq, false, Rs(w), Rt(w), w)
    else if kind == 7 then Branch(Gz, false, Rs(w), Rt(w), w)
    else if kind == 6 then Branch(Lez, false, Rs(w), Rt(w), w)
    else if kind == 1 && Bit16(w) then Branch(Gez, Bit20(w), Rs(w), Rt(w), w)
    else if kind == 1 then Branch(Lz, Bit20(w), Rs(w), Rt(w), w)
    else Branch(Ne, false, Rs(w), Rt(w), w)
  }

  function DecodeImmediate(w: Word): Instr
  {
    match Opcode(w) % 16
    case 8 => AluImm(0, Rs(w), SignExtend(w), Rt(w))
    case 9 => AluImm(1, Rs(w), SignExtend(w), Rt(w))
    case 12 => AluImm(4, Rs(w), ZeroExtend(w), Rt(w))
    case 13 => AluImm(5, Rs(w), ZeroExtend(w), Rt(w))
    case 14 => AluImm(6, Rs(w), ZeroExtend(w), Rt(w))
    case 10 => AluImm(10, Rs(w), SignExtend(w), Rt(w))
    case 11 => AluImm(11, Rs(w), ZeroExtend(w), Rt(w))
    case _ => AluImm(PASS_A, Rs(w), ZeroExtend(w), Rt(w))
  }

  function Decode(w: Word): Instr
  {
    if Opcode(w) == 0x10 then DecodeCp0(w)
    else if Opcode(w) == 0 then DecodeRType(w)
    else if Opcode(w) == 2 || Opcode(w) == 3 then JumpAbs(Opcode(w) == 3, w)
    else if Opcode(w) / 16 == 2 then DecodeMemory(w)
    else if Opcode(w) == 0xF then LoadUpper(w % 0x1_0000 * 0x1_0000, Rt(w))
    else if Opcode(w) / 8 == 0 then DecodeBranch(w)
    else DecodeImmediate(w)
  }

  /** The register numbers an instruction reads; register 0 stands for "none". */
  function RegA(i: Instr): RegNum
  {
    if i.Mtc0? || i.Mult? || i.MoveTo? || i.AluReg? || i.AluImm? || i.JumpReg? || i.Branch? || i.Load? || i.Store?
    then i.ra else 0
  }

  function RegB(i: Instr): RegNum
  {
    if i.Mult? || i.AluReg? || i.Branch? || i.Store? then i.rb else 0
  }

  /** A conditional branch that writes the return address when taken (bgezal, bltzal). */
  predicate LinkingBranch(i: Instr) { i.Branch? && i.link }

  function JumpTarget(pc: Word, w: Word): Word
  {
    pc / 0x1000_0000 * 0x1000_0000 + w % 0x400_0000 * 4
  }

  /** Only the 26 bits above the two lowest take part in the addition. */
  function BranchTarget(pc: Word, w: Word): Word
  {
    pc / 0x1000_0000 * 0x1000_0000 + ((pc % 0x1000_0000) / 4 + SignedValue(SignExtend(w)) + 1) % 0x400_0000 * 4
  }

  // ----- execution

  /** What an issued instruction asks of the later stages. */
  datatype Uop =
    | Bubble
    | WriteBack(value: Word, rd: RegNum)
    | LoadAt(addr: Word, byteOnly: bool, rd: RegNum)
    | StoreAt(addr: Word, byteOnly: bool, data: Word)

  /** The register a micro-operation will write, 0 when none. */
  function Dest(u: Uop): RegNum
  {
    match u
    case WriteBack(_, rd) => rd
    case LoadAt(_, _, rd) => rd
    case _ => 0
  }

  /** The coprocessor 0 registers. */
  type C0File = c: seq<Word> | |c| == 32 witness seq(32, _ => 0)

  /** State that is updated at issue rather than at write-back. */
  datatype Special = Special(hi: Word, lo: Word, c0: C0File)

  datatype Outcome = Outcome(uop: Uop, jump: Option<Word>, special: Special)

  const COUNT: RegNum := 9
  const STATUS: RegNum := 12
  const INDEX: RegNum := 0
  const ENTRY_LO0: RegNum := 2
  const ENTRY_LO1: RegNum := 3
  const BAD_VADDR: RegNum := 8
  const ENTRY_HI: RegNum := 10
  const COMPARE: RegNum := 11
  const CAUSE: RegNum := 13
  const EPC: RegNum := 14
  const EBASE: RegNum := 15

  /** Status.IE set and Status.EXL clear. */
  predicate InterruptsEnabled(c0: C0File)
  {
    Bit0(c0[STATUS]) && !Bit1(c0[STATUS])
  }

  function LinkUop(pc: Word, link: bool): Uop
  {
    if link then WriteBack(Alu(ADD, pc, 8), 31) else Bubble
  }

  /** The effect of instruction `i` at `pc` when its two register operands hold `a` and `b`.
      Instructions that enter or leave exception state have no effect here. */
  function Effect(i: Instr, pc: Word, a: Word, b: Word, s: Special): Outcome
  {
    match i
    case Mfc0(cr, rd) => Outcome(WriteBack(s.c0[cr], rd), None, s)
    case Mtc0(cr, _) => Outcome(Bubble, None, if cr == COUNT then s else s.(c0 := s.c0[cr := a]))
    case Mult(signed, _, _) =>
      Outcome(Bubble, None, s.(hi := Multiply(signed, a, b).high, lo := Multiply(signed, a, b).low))
    case MoveTo(toHi, _) => Outcome(Bubble, None, if toHi then s.(hi := a) else s.(lo := a))
    case MoveFrom(fromHi, rd) => Outcome(WriteBack(if fromHi then s.hi else s.lo, rd), None, s)
    case AluReg(op, _, _, rd) => Outcome(WriteBack(Alu(op, a, b), rd), None, s)
    case AluImm(op, _, imm, rd) => Outcome(WriteBack(Alu(op, a, imm), rd), None, s)
    case LoadUpper(imm, rd) => Outcome(WriteBack(imm, rd), None, s)
    case JumpReg(link, _) => Outcome(LinkUop(pc, link), Some(a), s)
    case JumpAbs(link, w) => Outcome(LinkUop(pc, link), Some(JumpTarget(pc, w)), s)
    case Branch(cond, link, _, _, w) =>
      if Holds(cond, a, b) then Outcome(LinkUop(pc, link), Some(BranchTarget(pc, w)), s)
      else Outcome(Bubble, None, s)
    case Load(byteOnly, _, imm, rd) => Outcome(LoadAt(Alu(ADD, a, imm), byteOnly, rd), None, s)
    case Store(byteOnly, _, imm, _) => Outcome(StoreAt(Alu(ADD, a, imm), byteOnly, b), None, s)
    case _ => Outcome(Bubble, None, s)
  }

  /** An instruction without exception or timing side effects: no system call, no return from
      exception, no read of the free-running Count register. */
  predicate Plain(i: Instr) { !i.Syscall? && !i.Eret? && !(i.Mfc0? && i.cr == COUNT) }
}
