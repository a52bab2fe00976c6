/** The assembler and the processor together: the words the one produces mean, to the other,
    what the source line says. */
module Toolchain {
  import opened Words
  import opened Isa
  import opened Machine
  import opened Digits
  import Asm = Assembler

  // ----- fields of assembled words

  lemma RFields(op: nat, rs: nat, rt: nat, rd: nat, sh: nat, fn: nat)
    requires op < 64 && rs < 32 && rt < 32 && rd < 32 && sh < 32 && fn < 64
    ensures var w := Asm.RWord(op, rs, rt, rd, sh, fn);
            && w < WORD_LIMIT && Opcode(w) == op && Rs(w) == rs && Rt(w) == rt && Rd(w) == rd && Shamt(w) == sh
            && Funct(w) == fn
  {
    var w := Asm.RWord(op, rs, rt, rd, sh, fn);
    assert w / 0x40 == (((op * 32 + rs) * 32 + rt) * 32 + rd) * 32 + sh;
    assert w / 0x800 == ((op * 32 + rs) * 32 + rt) * 32 + rd;
    assert w / 0x1_0000 == (op * 32 + rs) * 32 + rt;
    assert w / 0x20_0000 == op * 32 + rs;
    assert w / 0x400_0000 == op;
  }

  lemma IFields(op: nat, rs: nat, rt: nat, imm: nat)
    requires op < 64 && rs < 32 && rt < 32 && imm < 0x1_0000
    ensures var w := Asm.IWord(op, rs, rt, imm);
            w < WORD_LIMIT && Opcode(w) == op && Rs(w) == rs && Rt(w) == rt && w % 0x1_0000 == imm
  {
    var w := Asm.IWord(op, rs, rt, imm);
    assert w / 0x1_0000 == (op * 32 + rs) * 32 + rt;
    assert w / 0x20_0000 == op * 32 + rs;
    assert w / 0x400_0000 == op;
  }

  /** Dropping high bits in two goes. */
  lemma ModMod(w: nat, d: nat, m: nat)
    requires d > 0 && m > 0
    ensures w % (d * m) % d == w % d
  {
    var q, r := w / (d * m), w % (d * m);
    assert w == q * (d * m) + r;
    assert q * (d * m) == (q * m) * d;
    assert w == (q * m + r / d) * d + r % d;
    RemainderUnique(w, d, q * m + r / d, r % d);
  }

  lemma RemainderUnique(w: nat, d: nat, q: int, r: nat)
    requires r < d && w == q * d + r
    ensures w % d == r
  {
    QuotientUnique(w, d, q, r);
  }

  /** The bits of the function code, read off the whole word. */
  lemma FunctBits(w: Word)
    ensures w % 0x1_0000 % 64 == Funct(w) && w % 0x100 % 64 == Funct(w)
    ensures w % 16 == Funct(w) % 16 && w % 4 == Funct(w) % 4
    ensures Bit5(w) == (Funct(w) >= 32) && Bit2(w) == (Funct(w) / 4 % 2 == 1) && Bit3(w) == (Funct(w) / 8 % 2 == 1)
  {
    ModMod(w, 64, 0x400);
    ModMod(w, 64, 4);
    ModMod(w, 16, 4);
    ModMod(w, 4, 16);
    FunctFlags(w);
  }

  /** A number above a power-of-two boundary does not change the digits below it. */
  lemma FlagBelow(w: nat, q: nat, f: nat, d: nat, m: nat)
    requires d > 0 && w == (2 * d * m) * q + f
    ensures w / d % 2 == f / d % 2
  {
    assert w == (2 * m * q + f / d) * d + f % d by {
      assert (2 * d * m) * q == (2 * m * q) * d;
    }
    QuotientUnique(w, d, 2 * m * q + f / d, f % d);
    assert 2 * m * q == 2 * (m * q);
  }

  lemma FunctFlags(w: Word)
    ensures Bit5(w) == (Funct(w) >= 32) && Bit2(w) == (Funct(w) / 4 % 2 == 1) && Bit3(w) == (Funct(w) / 8 % 2 == 1)
  {
    var q, f := w / 64, w % 64;
    FlagBelow(w, q, f, 32, 1);
    FlagBelow(w, q, f, 4, 8);
    FlagBelow(w, q, f, 8, 4);
  }

  // ----- what the processor decodes

  lemma DecodesThreeRegisters(rs: nat, rt: nat, rd: nat, fn: nat)
    requires rs < 32 && rt < 32 && rd < 32 && 0x20 <= fn < 0x30
    ensures var w := Asm.RWord(0, rs, rt, rd, 0, fn);
            w < WORD_LIMIT && Decode(w) == AluReg(fn % 16, rs, rt, rd)
  {
    hide Opcode, Rs, Rt, Rd, Shamt, Funct, Asm.RWord, Bit5, Bit2, Bit3;
    RFields(0, rs, rt, rd, 0, fn);
    FunctBits(Asm.RWord(0, rs, rt, rd, 0, fn));
  }

  lemma DecodesShift(rs: nat, rt: nat, rd: nat, sh: nat, fn: nat)
    requires rs < 32 && rt < 32 && rd < 32 && sh < 32 && fn in {0, 2, 3, 4, 6, 7}
    ensures var w := Asm.RWord(0, rs, rt, rd, sh, fn);
            var op := if fn % 4 == 0 then 12 else if fn % 4 == 2 then 13 else 14;
            w < WORD_LIMIT
            && Decode(w) == if fn < 4 then AluImm(op, rt, sh, rd) else AluReg(op, rt, rs, rd)
  {
    hide Opcode, Rs, Rt, Rd, Shamt, Funct, Asm.RWord, Bit5, Bit2, Bit3;
    RFields(0, rs, rt, rd, sh, fn);
    FunctBits(Asm.RWord(0, rs, rt, rd, sh, fn));
  }

  lemma DecodesImmediate(op: nat, rs: nat, rt: nat, imm: nat)
    requires 8 <= op < 16 && rs < 32 && rt < 32 && imm < 0x1_0000
    ensures var w := Asm.IWord(op, rs, rt, imm);
            && w < WORD_LIMIT && ZeroExtend(w) == imm
            && SignedValue(SignExtend(w)) == (if imm < 0x8000 then imm else imm - 0x1_0000)
            && Decode(w) == (if op == 15 then LoadUpper(imm * 0x1_0000, rt) else DecodeImmediate(w))
            && Rs(w) == rs && Rt(w) == rt && Opcode(w) == op
  {
    hide Opcode, Rs, Rt, Asm.IWord, Bit15, DecodeImmediate;
    IFields(op, rs, rt, imm);
    TopBit(Asm.IWord(op, rs, rt, imm));
  }

  lemma TopBit(w: Word)
    ensures Bit15(w) == (w % 0x1_0000 >= 0x8000)
  {
    assert w / 0x8000 == 2 * (w / 0x1_0000) + w % 0x1_0000 / 0x8000;
  }

  // ----- assemble, decode, compute

  predicate ShiftsByRegister(m: Asm.Mnemonic) { m.Sllv? || m.Srlv? || m.Srav? }

  /** The arithmetic, logic, shift and immediate mnemonics of the form `m dest, register, operand`. */
  predicate Computational(m: Asm.Mnemonic)
  {
    || m.Add? || m.Addu? || m.Sub? || m.Subu? || m.And? || m.Or? || m.Xor? || m.Nor? || m.Slt? || m.Sltu?
    || m.Sll? || m.Srl? || m.Sra? || ShiftsByRegister(m)
    || m.Addi? || m.Addiu? || m.Andi? || m.Ori? || m.Xori? || m.Slti? || m.Sltiu?
  }

  predicate Congruent(x: int, y: int) { (x - y) % WORD_LIMIT == 0 }

  /** What the mnemonic says of its result `r`, from the value `a` of its register and the value `b`
      of its last operand: sums modulo 2^32, logic and shifts bit by bit, comparisons as 0 or 1. */
  predicate Computes(m: Asm.Mnemonic, a: Word, b: int, r: Word)
  {
    match m
    case Add | Addu | Addi => Congruent(r, a + b)
    case Addiu => Congruent(r, a + if b < 0x8000 then b else b - 0x1_0000)
    case Sub | Subu => Congruent(r, a - b)
    case And | Andi => forall k: nat | k < 32 :: Digit(r, k) == (Digit(a, k) && Digit(b, k))
    case Or | Ori => forall k: nat | k < 32 :: Digit(r, k) == (Digit(a, k) || Digit(b, k))
    case Xor | Xori => forall k: nat | k < 32 :: Digit(r, k) == (Digit(a, k) != Digit(b, k))
    case Nor => forall k: nat | k < 32 :: Digit(r, k) == !(Digit(a, k) || Digit(b, k))
    case Slt => r == if SignedValue(a) < SignedValue(Wrap(b)) then 1 else 0
    case Slti => r == if SignedValue(a) < b then 1 else 0
    case Sltu | Sltiu => r == if a < b then 1 else 0
    case Sll | Sllv => forall k: nat | k < 32 :: Digit(r, k) == (k >= b && Digit(a, k - b))
    case Srl | Srlv => b >= 0 && forall k: nat | k < 32 :: Digit(r, k) == (k + b < 32 && Digit(a, k + b))
    case Sra | Srav => b >= 0 && forall k: nat | k < 32 :: Digit(r, k) == Digit(a, if k + b < 32 then k + b else 31)
    case _ => true
  }

  /** The number an operand that is no register stands for: itself, or the line of a label. */
  function NumberOf(o: Asm.Operand, points: Asm.Points): int
  {
    match o
    case Reg(_) => 0
    case Number(v) => v
    case Label(name) => if name in points then points[name] else 0
  }

  /** The value an operand stands for when the instruction runs. */
  function OperandValue(o: Asm.Operand, g: RegFile, points: Asm.Points): int
  {
    if o.Reg? then if 0 <= o.n < 32 then Get(g, o.n) else 0 else NumberOf(o, points)
  }

  /** The machine after an instruction that only writes `r` to register `rd`. */
  function Advanced(s: Arch, rd: RegNum, r: Word): Arch
  {
    Arch(s.npc, Wrap(s.npc + 4), Set(s.regs, rd, r), s.special, s.slots, s.ram)
  }

  lemma StepOfAlu(s: Arch)
    requires Current(s).AluReg? || Current(s).AluImm?
    ensures var i := Current(s);
            var b := if i.AluReg? then Get(s.regs, i.rb) else i.imm;
            ArchStep(s) == Advanced(s, i.rd, Alu(i.op, Get(s.regs, i.ra), b))
  {
    hide Decode, Alu, CurrentWord, PhysicalOf;
  }

  /** The arithmetic unit's operation for a mnemonic. */
  function OpOf(m: Asm.Mnemonic): AluOp
    requires Computational(m)
  {
    match m
    case Add | Addi => 0
    case Addu | Addiu => 1
    case Sub => 2
    case Subu => 3
    case And | Andi => 4
    case Or | Ori => 5
    case Xor | Xori => 6
    case Nor => 7
    case Slt | Slti => 10
    case Sltu | Sltiu => 11
    case Sll | Sllv => 12
    case Srl | Srlv => 13
    case Sra | Srav => 14
  }

  /** The word the arithmetic unit gets for an operand value. */
  function Presented(m: Asm.Mnemonic, b: int): Word
  {
    if m.Addiu? then Wrap(if b < 0x8000 then b else b - 0x1_0000) else Wrap(b)
  }

  predicate OperandInRange(m: Asm.Mnemonic, b: int)
  {
    if m.Addi? || m.Slti? then -0x8000 <= b < 0x8000
    else if m.Addiu? || m.Andi? || m.Ori? || m.Xori? || m.Sltiu? then 0 <= b < 0x1_0000
    else if m.Sll? || m.Srl? || m.Sra? || ShiftsByRegister(m) then 0 <= b < 32
    else 0 <= b < WORD_LIMIT
  }

  lemma AluComputes(m: Asm.Mnemonic, a: Word, b: int)
    requires Computational(m) && OperandInRange(m, b)
    ensures Computes(m, a, b, Alu(OpOf(m), a, Presented(m, b)))
  {
    hide Computes, Alu, Presented, OperandInRange;
    if 4 <= OpOf(m) <= 7 {
      LogicComputes(m, a, b);
    } else if OpOf(m) >= 12 {
      ShiftComputes(m, a, b);
    } else if OpOf(m) >= 10 {
      ComparisonComputes(m, a, b);
    } else {
      SumComputes(m, a, b);
    }
  }

  lemma LogicComputes(m: Asm.Mnemonic, a: Word, b: int)
    requires Computational(m) && OperandInRange(m, b) && 4 <= OpOf(m) <= 7
    ensures Computes(m, a, b, Alu(OpOf(m), a, Presented(m, b)))
  {
    hide Digit, Bitwise;
    assert Presented(m, b) == b;
    forall k: nat | k < 32
      ensures Digit(And(a, b), k) == (Digit(a, k) && Digit(b, k))
      ensures Digit(Or(a, b), k) == (Digit(a, k) || Digit(b, k))
      ensures Digit(Xor(a, b), k) == (Digit(a, k) != Digit(b, k))
      ensures Digit(WORD_LIMIT - 1 - Or(a, b), k) == !(Digit(a, k) || Digit(b, k))
    {
      LogicByDigit(a, b, k);
    }
  }

  lemma ShiftComputes(m: Asm.Mnemonic, a: Word, b: int)
    requires Computational(m) && OperandInRange(m, b) && OpOf(m) >= 12
    ensures Computes(m, a, b, Alu(OpOf(m), a, Presented(m, b)))
  {
    hide Digit, ShiftLeft, ShiftRight, ShiftRightSigned;
    assert Presented(m, b) == b;
    forall k: nat | k < 32
      ensures Digit(ShiftLeft(a, b), k) == (k >= b && Digit(a, k - b))
      ensures Digit(ShiftRight(a, b), k) == (k + b < 32 && Digit(a, k + b))
      ensures Digit(ShiftRightSigned(a, b), k) == Digit(a, if k + b < 32 then k + b else 31)
    {
      ShiftByDigit(a, b, k);
    }
  }

  lemma SumComputes(m: Asm.Mnemonic, a: Word, b: int)
    requires Computational(m) && OperandInRange(m, b) && OpOf(m) < 4
    ensures Computes(m, a, b, Alu(OpOf(m), a, Presented(m, b)))
  {
    hide Wrap, Congruent, SignedValue;
    if m.Addiu? {
      WrapCongruent(a, if b >= 0x8000 then b - 0x1_0000 else b, 1);
    } else {
      WrapCongruent(a, b, 1);
      WrapCongruent(a, b, -1);
    }
  }

  lemma ComparisonComputes(m: Asm.Mnemonic, a: Word, b: int)
    requires Computational(m) && OperandInRange(m, b) && 10 <= OpOf(m) < 12
    ensures Computes(m, a, b, Alu(OpOf(m), a, Presented(m, b)))
  {
    hide Wrap, SignedValue;
    WrapSigned(b);
  }

  lemma WrapCongruent(a: int, b: int, sign: int)
    requires sign == 1 || sign == -1
    ensures Congruent(Wrap(a + sign * Wrap(b)), a + sign * b)
  {
    var k, x := b / WORD_LIMIT, a + sign * Wrap(b);
    assert sign * b == sign * Wrap(b) + sign * k * WORD_LIMIT;
    assert Wrap(x) == x - x / WORD_LIMIT * WORD_LIMIT;
    assert Wrap(x) - (a + sign * b) == (- (x / WORD_LIMIT) - sign * k) * WORD_LIMIT;
  }

  lemma WrapSigned(b: int)
    ensures -0x8000_0000 <= b < 0x8000_0000 ==> SignedValue(Wrap(b)) == b
    ensures 0 <= b < WORD_LIMIT ==> Wrap(b) == b
  {
  }

  lemma ThreeArgs(m: Asm.Mnemonic, rd: int, rs: int, o: Asm.Operand, points: Asm.Points, count: nat)
    requires Asm.InstructionWord(m, [Asm.Reg(rd), Asm.Reg(rs), o], points, count).Some?
    requires |Asm.FormatOf(m).kinds| == 3 && Asm.FormatOf(m).kinds[0].R? && Asm.FormatOf(m).kinds[1].R?
    ensures 0 <= rd < 32 && 0 <= rs < 32
    ensures var v := Asm.OperandBits(Asm.FormatOf(m).kinds[2], o, points, count, Asm.IsBranch(m));
            v.Some? && Asm.InstructionWord(m, [Asm.Reg(rd), Asm.Reg(rs), o], points, count)
                       == Some(Asm.Encode(Asm.FormatOf(m).code, [rd, rs, v.value]))
  {
    hide Asm.FormatOf, Asm.OperandBits, Asm.Encode, Asm.Args;
    var f := Asm.FormatOf(m);
    var b := Asm.IsBranch(m);
    var os := [Asm.Reg(rd), Asm.Reg(rs), o];
    ArgsOf(f.kinds, os, points, count, b);
    ArgsOf(f.kinds[1..], os[1..], points, count, b);
    ArgsOf(f.kinds[2..], os[2..], points, count, b);
    ArgsOf(f.kinds[3..], os[3..], points, count, b);
    RegisterBits(rd, points, count, b);
    RegisterBits(rs, points, count, b);
    assert forall v: nat :: [rd] + ([rs] + ([v] + [])) == [rd, rs, v];
  }

  lemma RegisterBits(n: int, points: Asm.Points, count: nat, branch: bool)
    ensures Asm.OperandBits(Asm.R, Asm.Reg(n), points, count, branch) == if 0 <= n < 32 then Some(n) else None
  {
  }

  lemma ArgsOf(kinds: seq<Asm.Kind>, os: seq<Asm.Operand>, points: Asm.Points, count: nat, branch: bool)
    ensures kinds == [] ==> Asm.Args(kinds, os, points, count, branch) == Some([])
    ensures kinds != [] && os != [] ==>
              var v := Asm.OperandBits(kinds[0], os[0], points, count, branch);
              var rest := Asm.Args(kinds[1..], os[1..], points, count, branch);
              Asm.Args(kinds, os, points, count, branch)
              == if v.Some? && rest.Some? then Some([v.value] + rest.value) else None
  {
  }

  lemma NumberBits(m: Asm.Mnemonic, o: Asm.Operand, points: Asm.Points, count: nat)
    requires Computational(m)
    requires Asm.OperandBits(Asm.FormatOf(m).kinds[2], o, points, count, false).Some?
    ensures var v := Asm.OperandBits(Asm.FormatOf(m).kinds[2], o, points, count, false).value;
            var x := NumberOf(o, points);
            && (Asm.FormatOf(m).code.RCode? ==> v < 32 && (!o.Reg? ==> v == x))
            && (o.Reg? ==> Asm.FormatOf(m).kinds[2].R? && 0 <= o.n < 32 && v == o.n)
            && (!o.Reg? ==>
                  && !Asm.FormatOf(m).kinds[2].R? && OperandInRange(m, x)
                  && v == (if x < 0 then x + 0x1_0000 else x))
  {
    hide Asm.SignedBits, Asm.UnsignedBits;
    FieldBits(NumberOf(o, points));
  }

  lemma FieldBits(v: int)
    ensures Asm.SignedBits(v, 16)
            == if -0x8000 <= v < 0x8000 then Some(if v < 0 then v + 0x1_0000 else v) else None
    ensures Asm.UnsignedBits(v, 16) == if 0 <= v < 0x1_0000 then Some(v) else None
    ensures Asm.UnsignedBits(v, 5) == if 0 <= v < 32 then Some(v) else None
    ensures v >= 0 ==> Asm.SignedBits(v, 5) == if v < 16 then Some(v) else None
  {
    assert Pow2(5) == 32 && Pow2(4) == 16;
    hide Pow2;
    Pow2Word();
  }

  /** Every computational line the assembler accepts decodes to its operation on its operands. */
  lemma LineDecodes(m: Asm.Mnemonic, rd: int, rs: int, o: Asm.Operand, points: Asm.Points, count: nat)
    requires Computational(m)
    requires Asm.InstructionWord(m, [Asm.Reg(rd), Asm.Reg(rs), o], points, count).Some?
    ensures 0 <= rd < 32 && 0 <= rs < 32
    ensures var w := Asm.InstructionWord(m, [Asm.Reg(rd), Asm.Reg(rs), o], points, count).value;
            && w < WORD_LIMIT
            && (o.Reg? ==> Asm.FormatOf(m).kinds[2].R? && 0 <= o.n < 32 && Decode(w) == AluReg(OpOf(m), rs, o.n, rd))
            && (!o.Reg? ==>
                  && OperandInRange(m, NumberOf(o, points))
                  && Decode(w) == AluImm(OpOf(m), rs, Presented(m, NumberOf(o, points)), rd))
  {
    hide Decode, Asm.Encode, Asm.OperandBits, Asm.InstructionWord, OpOf, Presented, OperandInRange;
    ThreeArgs(m, rd, rs, o, points, count);
    NumberBits(m, o, points, count);
    var v := Asm.OperandBits(Asm.FormatOf(m).kinds[2], o, points, count, false).value;
    if Asm.FormatOf(m).code.ICode? {
      ImmediateLine(m, rs, rd, v, NumberOf(o, points));
    } else if Asm.FormatOf(m).code.funct >= 0x20 {
      RegisterLine(m, rs, rd, v);
    } else {
      ShiftLine(m, rs, rd, v);
    }
  }

  lemma RegisterLine(m: Asm.Mnemonic, rs: nat, rd: nat, rt: nat)
    requires Computational(m) && Asm.FormatOf(m).code.RCode? && Asm.FormatOf(m).code.funct >= 0x20
    requires rs < 32 && rd < 32 && rt < 32
    ensures var w := Asm.Encode(Asm.FormatOf(m).code, [rd, rs, rt]);
            Asm.FormatOf(m).kinds[2].R? && w < WORD_LIMIT && Decode(w) == AluReg(OpOf(m), rs, rt, rd)
  {
    hide Decode, Asm.RWord;
    DecodesThreeRegisters(rs, rt, rd, Asm.FormatOf(m).code.funct);
  }

  lemma ShiftLine(m: Asm.Mnemonic, rs: nat, rd: nat, v: nat)
    requires Computational(m) && Asm.FormatOf(m).code.RCode? && Asm.FormatOf(m).code.funct < 0x20
    requires rs < 32 && rd < 32 && v < 32
    ensures var w := Asm.Encode(Asm.FormatOf(m).code, [rd, rs, v]);
            && w < WORD_LIMIT
            && Presented(m, v) == v
            && Decode(w) == if ShiftsByRegister(m) then AluReg(OpOf(m), rs, v, rd) else AluImm(OpOf(m), rs, v, rd)
  {
    hide Decode, Asm.RWord;
    if ShiftsByRegister(m) {
      DecodesShift(v, rs, rd, 0, Asm.FormatOf(m).code.funct);
    } else {
      DecodesShift(0, rs, rd, v, Asm.FormatOf(m).code.funct);
    }
  }

  lemma ImmediateLine(m: Asm.Mnemonic, rs: nat, rd: nat, bits: nat, v: int)
    requires Computational(m) && Asm.FormatOf(m).code.ICode?
    requires rs < 32 && rd < 32 && OperandInRange(m, v) && bits == if v < 0 then v + 0x1_0000 else v
    ensures var w := Asm.Encode(Asm.FormatOf(m).code, [rd, rs, bits]);
            w < WORD_LIMIT && Decode(w) == AluImm(OpOf(m), rs, Presented(m, v), rd)
  {
    hide Decode, Asm.IWord, DecodeImmediate, SignExtend, ZeroExtend, Opcode, Rs, Rt;
    var w := Asm.IWord(Asm.FormatOf(m).code.op, rs, rd, bits);
    DecodesImmediate(Asm.FormatOf(m).code.op, rs, rd, bits);
    ImmediateOperation(m, w);
  }

  lemma ImmediateOperation(m: Asm.Mnemonic, w: Word)
    requires Computational(m) && Asm.FormatOf(m).code.ICode? && Opcode(w) == Asm.FormatOf(m).code.op
    ensures var signed := m.Addi? || m.Addiu? || m.Slti?;
            DecodeImmediate(w) == AluImm(OpOf(m), Rs(w), if signed then SignExtend(w) else ZeroExtend(w), Rt(w))
  {
    hide Opcode, Rs, Rt, SignExtend, ZeroExtend;
  }

  /** For every computational mnemonic and all operands, register shift counts below 32: the word
      assembled for the line makes the processor compute what the mnemonic says and write it, and
      nothing else, to the destination. */
  lemma AssembledComputes(m: Asm.Mnemonic, rd: int, rs: int, o: Asm.Operand, points: Asm.Points, count: nat, s: Arch)
    requires Computational(m)
    requires Asm.InstructionWord(m, [Asm.Reg(rd), Asm.Reg(rs), o], points, count) == Some(CurrentWord(s))
    requires ShiftsByRegister(m) ==> OperandValue(o, s.regs, points) < 32
    ensures 0 <= rd < 32 && 0 <= rs < 32
    ensures exists r: Word ::
              Computes(m, Get(s.regs, rs), OperandValue(o, s.regs, points), r) && ArchStep(s) == Advanced(s, rd, r)
  {
    hide Asm.InstructionWord, Decode, Alu, ArchStep, Computes, CurrentWord, OpOf, Advanced, Asm.FormatOf, Get;
    LineDecodes(m, rd, rs, o, points, count);
    StepOfAlu(s);
    RegisterOperand(m, o, s.regs, points);
    AluComputes(m, Get(s.regs, rs), OperandValue(o, s.regs, points));
  }

  /** A register operand is presented as it is. */
  lemma RegisterOperand(m: Asm.Mnemonic, o: Asm.Operand, g: RegFile, points: Asm.Points)
    requires Computational(m) && (ShiftsByRegister(m) ==> OperandValue(o, g, points) < 32)
    ensures o.Reg? && Asm.FormatOf(m).kinds[2].R? ==>
              var x := OperandValue(o, g, points);
              OperandInRange(m, x) && Presented(m, x) == x
  {
  }

  /** The number of `addiu` is unsigned to the assembler and signed to the processor: the result is
      the sum the line asks for if and only if the number is below 0x8000. */
  lemma AddiuExactly(rd: int, rs: int, v: int, points: Asm.Points, count: nat, s: Arch)
    requires Asm.InstructionWord(Asm.Addiu, [Asm.Reg(rd), Asm.Reg(rs), Asm.Number(v)], points, count)
             == Some(CurrentWord(s))
    ensures 0 <= rd < 32 && 0 <= rs < 32
    ensures exists r: Word :: ArchStep(s) == Advanced(s, rd, r)
                              && (Congruent(r, Get(s.regs, rs) + v) <==> v < 0x8000)
  {
    hide Asm.InstructionWord, ArchStep, CurrentWord, Advanced, Get, Congruent;
    var o := Asm.Number(v);
    LineDecodes(Asm.Addiu, rd, rs, o, points, count);
    AssembledComputes(Asm.Addiu, rd, rs, o, points, count, s);
    var r: Word :| Computes(Asm.Addiu, Get(s.regs, rs), v, r) && ArchStep(s) == Advanced(s, rd, r);
    if v >= 0x8000 {
      NotBoth(r, Get(s.regs, rs) + v);
    }
  }

  lemma NotBoth(r: int, x: int)
    requires Congruent(r, x - 0x1_0000)
    ensures !Congruent(r, x)
  {
  }

  lemma UpperWord(rd: int, o: Asm.Operand, points: Asm.Points, count: nat)
    requires Asm.InstructionWord(Asm.Lui, [Asm.Reg(rd), o], points, count).Some?
    ensures 0 <= rd < 32 && !o.Reg? && 0 <= NumberOf(o, points) < 0x1_0000
    ensures Asm.InstructionWord(Asm.Lui, [Asm.Reg(rd), o], points, count)
            == Some(Asm.IWord(15, 0, rd, NumberOf(o, points)))
  {
    hide Asm.IWord, Asm.UnsignedBits, Asm.SignedBits, Asm.Args;
    var kinds, os := [Asm.R, Asm.U(16)], [Asm.Reg(rd), o];
    assert Asm.FormatOf(Asm.Lui) == Asm.Format(kinds, Asm.ICode(15, Asm.ZERO, Asm.A, Asm.B));
    ArgsOf(kinds, os, points, count, false);
    ArgsOf(kinds[1..], os[1..], points, count, false);
    ArgsOf(kinds[2..], os[2..], points, count, false);
    FieldBits(NumberOf(o, points));
    assert [rd] + ([NumberOf(o, points)] + []) == [rd, NumberOf(o, points)];
  }

  /** `lui` puts its number in the upper half of the register. */
  lemma UpperComputes(rd: int, o: Asm.Operand, points: Asm.Points, count: nat, s: Arch)
    requires Asm.InstructionWord(Asm.Lui, [Asm.Reg(rd), o], points, count) == Some(CurrentWord(s))
    ensures 0 <= rd < 32 && 0 <= NumberOf(o, points) < 0x1_0000
    ensures ArchStep(s) == Advanced(s, rd, NumberOf(o, points) * 0x1_0000)
  {
    hide CurrentWord, Decode, Asm.InstructionWord, Asm.IWord, DecodeImmediate, SignExtend, ZeroExtend, Opcode, Rs, Rt,
         PhysicalOf;
    UpperWord(rd, o, points, count);
    DecodesImmediate(15, 0, rd, NumberOf(o, points));
  }

  // ----- labels

  /** Where the program is loaded. */
  const BASE := 0x8000_0000

  /** The most instructions that fit the 256 MB jumps can reach. */
  const MOST_WORDS := 0x400_0000

  function Address(i: nat): Word
    requires i < MOST_WORDS
  {
    BASE + 4 * i
  }

  predicate IsJump(m: Asm.Mnemonic) { m.J? || m.Jal? }

  lemma LabelField(width: Asm.Width, v: int)
    requires width == 16 || width == 26
    ensures width == 16 ==> Asm.SignedBits(v, width)
                            == if -0x8000 <= v < 0x8000 then Some(if v < 0 then v + 0x1_0000 else v) else None
    ensures width == 26 && v >= 0 ==> Asm.SignedBits(v, width) == if v < 0x200_0000 then Some(v) else None
  {
    hide Pow2;
    Pow2Word();
  }

  lemma JumpWord(m: Asm.Mnemonic, os: seq<Asm.Operand>, name: string, points: Asm.Points, count: nat)
    requires IsJump(m) && |os| > 0 && os[0] == Asm.Label(name)
    requires Asm.InstructionWord(m, os, points, count).Some?
    ensures name in points && points[name] < MOST_WORDS
    ensures var w := Asm.InstructionWord(m, os, points, count).value;
            w < WORD_LIMIT && Decode(w) == JumpAbs(m.Jal?, w) && w % 0x400_0000 == points[name]
  {
    hide Asm.SignedBits, Asm.Args;
    var kinds := Asm.FormatOf(m).kinds;
    ArgsOf(kinds, os, points, count, false);
    if name in points {
      LabelField(26, points[name]);
    }
  }

  lemma BranchWord(m: Asm.Mnemonic, ra: int, rb: int, name: string, points: Asm.Points, count: nat)
    requires Asm.IsBranch(m)
    requires Asm.InstructionWord(m, [Asm.Reg(ra), Asm.Reg(rb), Asm.Label(name)], points, count).Some?
    ensures 0 <= ra < 32 && 0 <= rb < 32 && name in points
    ensures var w := Asm.InstructionWord(m, [Asm.Reg(ra), Asm.Reg(rb), Asm.Label(name)], points, count).value;
            && w < WORD_LIMIT && Decode(w) == Branch(if m.Beq? then Eq else Ne, false, ra, rb, w)
            && SignedValue(SignExtend(w)) == points[name] - 1 - count
  {
    hide Asm.SignedBits, Asm.IWord, Asm.InstructionWord, SignExtend, Decode;
    ThreeArgs(m, ra, rb, Asm.Label(name), points, count);
    if name in points {
      LabelField(16, points[name] - 1 - count);
    }
    var op := if m.Beq? then 4 else 5;
    var v := Asm.OperandBits(Asm.I(16), Asm.Label(name), points, count, true).value;
    DecodesBranch(op, ra, rb, v);
  }

  lemma DecodesBranch(op: nat, rs: nat, rt: nat, imm: nat)
    requires op == 4 || op == 5
    requires rs < 32 && rt < 32 && imm < 0x1_0000
    ensures var w := Asm.IWord(op, rs, rt, imm);
            && w < WORD_LIMIT && Decode(w) == Branch(if op == 4 then Eq else Ne, false, rs, rt, w)
            && SignedValue(SignExtend(w)) == (if imm < 0x8000 then imm else imm - 0x1_0000)
  {
    hide Opcode, Rs, Rt, Asm.IWord, Bit15;
    IFields(op, rs, rt, imm);
    TopBit(Asm.IWord(op, rs, rt, imm));
  }

  lemma BranchArrives(count: nat, target: nat, w: Word)
    requires count < MOST_WORDS && target <= count
    requires SignedValue(SignExtend(w)) == target - 1 - count
    ensures BranchTarget(Address(count), w) == Address(target)
  {
    hide SignExtend, SignedValue;
    assert Address(count) / 0x1000_0000 == 8;
    assert Address(count) % 0x1000_0000 / 4 == count;
  }

  /** An instruction line whose last operand is a label: a branch on two registers or a jump. */
  predicate Targets(line: Asm.Line, name: string)
  {
    && line.Instruction?
    && (|| (IsJump(line.mnemonic) && |line.operands| > 0 && line.operands[0] == Asm.Label(name))
        || (Asm.IsBranch(line.mnemonic) && |line.operands| == 3 && line.operands[0].Reg? && line.operands[1].Reg?
            && line.operands[2] == Asm.Label(name)))
  }

  /** Whether the branch or jump is taken, by the registers its line names. */
  predicate Taken(line: Asm.Line, g: RegFile)
    requires line.Instruction?
  {
    var equal := |line.operands| >= 2
                 && OperandValue(line.operands[0], g, map[]) == OperandValue(line.operands[1], g, map[]);
    if line.mnemonic.Beq? then equal else line.mnemonic.Bne? ==> !equal
  }

  lemma TargetResolves(line: Asm.Line, name: string, points: Asm.Points, count: nat, s: Arch)
    requires Targets(line, name) && count < MOST_WORDS && s.pc == Address(count)
    requires name in points ==> points[name] <= count
    requires Asm.InstructionWord(line.mnemonic, line.operands, points, count) == Some(CurrentWord(s))
    ensures name in points
    ensures Perform(s).jump == if Taken(line, s.regs) then Some(Address(points[name])) else None
  {
    hide CurrentWord, Decode, Asm.InstructionWord, SignExtend, SignedValue, Get, Alu, BranchTarget;
    if IsJump(line.mnemonic) {
      JumpWord(line.mnemonic, line.operands, name, points, count);
      assert Address(count) / 0x1000_0000 == 8;
    } else {
      var ra, rb := line.operands[0].n, line.operands[1].n;
      assert line.operands == [Asm.Reg(ra), Asm.Reg(rb), Asm.Label(name)];
      BranchWord(line.mnemonic, ra, rb, name, points, count);
      BranchArrives(count, points[name], CurrentWord(s));
    }
  }

  /** In every program that assembles and is loaded at `BASE`, each branch or jump to a label, when
      taken, goes to the instruction after the last mark of that label before it. */
  lemma LabelsResolve(lines: seq<Asm.Line>, k: nat, name: string, s: Arch)
    requires Asm.Parsed(lines).Some? && k < |lines| && Targets(lines[k], name)
    requires |Asm.Parsed(lines).value.words| <= MOST_WORDS
    ensures Asm.Instructions(lines, k) < |Asm.Parsed(lines).value.words|
    ensures var i := Asm.Instructions(lines, k);
            s.pc == Address(i) && CurrentWord(s) == Asm.Parsed(lines).value.words[i] ==>
              exists at :: Asm.LastMark(lines, k, name, at) && Asm.Instructions(lines, at) <= i
                           && Perform(s).jump
                              == if Taken(lines[k], s.regs) then Some(Address(Asm.Instructions(lines, at))) else None
  {
    hide Asm.InstructionWord, Perform, CurrentWord, Taken;
    assert lines[..|lines|] == lines;
    assert lines[..k + 1][..k] == lines[..k];
    Asm.WordsStay(lines, k + 1, |lines|);
    Asm.WordsStay(lines, k, k + 1);
    Asm.PointsAreMarks(lines, k, name);
    var before := Asm.Parsed(lines[..k]).value;
    var i := Asm.Instructions(lines, k);
    if s.pc == Address(i) && CurrentWord(s) == Asm.Parsed(lines).value.words[i] {
      TargetResolves(lines[k], name, before.points, i, s);
    }
  }
}
