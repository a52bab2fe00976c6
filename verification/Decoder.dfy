/** The decoder of the fetch stage: it fills the output buffer signal by signal, leaving alone the
    signals an instruction does not mention. */
module Decoder {
  import opened Words
  import opened Isa
  import opened Ports

  /** The signals decoding sets and issuing consumes. */
  datatype Buffer = Buffer(
    alu: AluPort, jumpTrue: bool, jumpAddr: Word, ctl: Controls,
    aFromReg: bool, bFromReg: bool, memDataFromB: bool, jumpFromA: bool,
    condition: Option<Condition>, linkIfJump: bool,
    readA: RegNum, readB: RegNum,
    signedMul: bool, unsignedMul: bool, aToLo: bool, aToHi: bool, aToC0: bool, aToC0Addr: RegNum)

  const IDLE := Buffer(AluPort(PASS_A, 0, 0), false, 0, NO_REQUEST, false, false, false, false, None, false,
                       0, 0, false, false, false, false, false, 0)

  /** Nothing left over from an earlier instruction that could disturb the decoding of `i`:
      after an issue everything is clear, after a stall the leftovers are those of `i` itself. */
  predicate Settled(b: Buffer, i: Instr)
  {
    && (b.readA == 0 || b.readA == RegA(i)) && (b.readB == 0 || b.readB == RegB(i))
    && !b.signedMul && !b.unsignedMul && !b.aToLo && !b.aToHi
    && (b.aToC0 ==> i.Mtc0?) && (b.jumpFromA ==> i.JumpReg?) && (b.memDataFromB ==> i.Store?)
  }

  /** Nothing left over at all. */
  predicate Clear(b: Buffer)
  {
    && b.readA == 0 && b.readB == 0 && !b.signedMul && !b.unsignedMul && !b.aToLo && !b.aToHi
    && !b.aToC0 && !b.jumpFromA && !b.memDataFromB
  }

  /** The register number requested for writing, and whether one is: branches decide later. */
  predicate RequestsWrite(b: Buffer, rd: RegNum, byteOnly: bool)
  {
    b.ctl.regWrite && b.ctl.regAddr == rd && b.ctl.regByteOnly == byteOnly
  }

  /** The ALU is asked for `pc + 8`. */
  predicate ComputesLink(b: Buffer, pc: Word)
  {
    !b.aFromReg && !b.bFromReg && b.alu == AluPort(ADD, pc, 8)
  }

  predicate OperandsBuffered(b: Buffer, i: Instr, pc: Word, s: Special)
  {
    match i
    case AluReg(op, _, _, rd) => b.aFromReg && b.bFromReg && b.alu.op == op && RequestsWrite(b, rd, false)
    case AluImm(op, _, imm, rd) =>
      b.aFromReg && !b.bFromReg && b.alu.op == op && b.alu.b == imm && RequestsWrite(b, rd, false)
    case Mfc0(cr, rd) =>
      !b.aFromReg && b.alu.op == PASS_A && (cr != COUNT ==> b.alu.a == s.c0[cr]) && RequestsWrite(b, rd, false)
    case MoveFrom(fromHi, rd) =>
      !b.aFromReg && b.alu.op == PASS_A && b.alu.a == (if fromHi then s.hi else s.lo) && RequestsWrite(b, rd, false)
    case LoadUpper(imm, rd) =>
      !b.aFromReg && b.alu.op == PASS_A && b.alu.a == imm && RequestsWrite(b, rd, false)
    case JumpReg(link, _) =>
      ComputesLink(b, pc) && if link then RequestsWrite(b, 31, false) else !b.ctl.regWrite
    case JumpAbs(link, w) =>
      ComputesLink(b, pc) && b.jumpAddr == JumpTarget(pc, w)
      && if link then RequestsWrite(b, 31, false) else !b.ctl.regWrite
    case Branch(_, link, _, _, w) =>
      ComputesLink(b, pc) && b.jumpAddr == BranchTarget(pc, w) && b.linkIfJump == link
      && !b.ctl.regWrite && b.ctl.regAddr == 31 && !b.ctl.regByteOnly
    case Load(byteOnly, _, imm, rd) =>
      b.aFromReg && !b.bFromReg && b.alu.op == ADD && b.alu.b == imm && RequestsWrite(b, rd, byteOnly)
    case Store(byteOnly, _, imm, _) =>
      b.aFromReg && !b.bFromReg && b.alu.op == ADD && b.alu.b == imm && !b.ctl.regWrite
      && b.ctl.memByteOnly == byteOnly
    case _ => !b.ctl.regWrite
  }

  /** The buffer asks for exactly what instruction `i` at `pc` means. */
  predicate Buffered(b: Buffer, i: Instr, pc: Word, s: Special)
  {
    && b.readA == RegA(i) && b.readB == RegB(i)
    && b.signedMul == (i.Mult? && i.signed) && b.unsignedMul == (i.Mult? && !i.signed)
    && b.aToLo == (i.MoveTo? && !i.toHi) && b.aToHi == (i.MoveTo? && i.toHi)
    && b.aToC0 == i.Mtc0? && (i.Mtc0? ==> b.aToC0Addr == i.cr)
    && b.jumpFromA == i.JumpReg? && b.memDataFromB == i.Store?
    && b.condition == (if i.Branch? then Some(i.cond) else None)
    && b.jumpTrue == (i.JumpReg? || i.JumpAbs?)
    && b.ctl.memRead == i.Load? && b.ctl.memWrite == i.Store?
    && OperandsBuffered(b, i, pc, s)
  }

  /** The buffer asks for a jump to `epc` and nothing else. */
  predicate ReturnsTo(b: Buffer, epc: Word)
  {
    b.jumpTrue && b.jumpAddr == epc && b.condition.None? && !b.ctl.regWrite && !b.ctl.memRead && !b.ctl.memWrite
  }

  /** A system call leaves the jump and the requests of the previous instruction in the buffer, which
      the exception entry replaces. */
  function CallBuffered(b: Buffer): Buffer
  {
    b.(condition := None, aToC0 := false, aFromReg := false, bFromReg := false)
  }

  lemma BufferedReads(b: Buffer, i: Instr, pc: Word, s: Special)
    requires Buffered(b, i, pc, s)
    ensures b.readA == RegA(i) && b.readB == RegB(i)
  {
  }

  // ----- one method for each branch of the decoder

  method DecodeCp0Signals(w: Word, b: Buffer, c0: C0File) returns (r: Buffer)
    ensures forall pc, s: Special :: s.c0 == c0[COUNT := s.c0[COUNT]] ==>
              var i := DecodeCp0(w);
              Settled(b, i) && (Plain(i) || i.Mfc0?) ==> Buffered(r, i, pc, s)
    ensures DecodeCp0(w).Mfc0? ==> r.alu.a == c0[DecodeCp0(w).cr]
    ensures DecodeCp0(w).Eret? ==> ReturnsTo(r, c0[EPC])
  {
    hide Funct, Rs, Rt, Rd;
    r := b.(condition := None, ctl := b.ctl.(memRead := false, memWrite := false));
    if Funct(w) == 0x18 {
      r := r.(aToC0 := false, aFromReg := false, bFromReg := false, alu := r.alu.(op := PASS_A),
              ctl := r.ctl.(regWrite := false), jumpTrue := true, jumpAddr := c0[EPC]);
    } else if Funct(w) == 0 {
      r := r.(bFromReg := false, alu := r.alu.(op := PASS_A), jumpTrue := false);
      if Rs(w) == 0 {
        r := r.(aFromReg := false, alu := r.alu.(a := c0[Rd(w)]),
                ctl := r.ctl.(regWrite := true, regByteOnly := false, regAddr := Rt(w)));
      } else {
        r := r.(aToC0 := true, aToC0Addr := Rd(w), readA := Rt(w), ctl := r.ctl.(regWrite := false));
      }
    } else {
      r := r.(aFromReg := false, bFromReg := false, alu := r.alu.(op := PASS_A),
              ctl := r.ctl.(regWrite := false), jumpTrue := false);
    }
  }

  method DecodeRTypeSignals(w: Word, pc: Word, b: Buffer, s: Special) returns (r: Buffer)
    ensures var i := DecodeRType(w);
            Settled(b, i) && Plain(i) ==> Buffered(r, i, pc, s)
    ensures DecodeRType(w).Syscall? ==> r == CallBuffered(b)
  {
    hide Funct, Rs, Rt, Rd, Shamt, ShiftOp, Bit0, Bit1, Bit2, Bit3, Bit5;
    r := b.(condition := None, aToC0 := false);
    if w % 0x1_0000 == 0x18 || w % 0x1_0000 == 0x19 {
      r := r.(aFromReg := false, bFromReg := false, readA := Rs(w), readB := Rt(w), jumpTrue := false,
              ctl := Squash(r.ctl));
      if !Bit0(w) {
        r := r.(signedMul := true);
      } else {
        r := r.(unsignedMul := true);
      }
    } else if w % 0x100 == 0x11 || w % 0x100 == 0x13 {
      r := r.(aFromReg := false, bFromReg := false, jumpTrue := false, ctl := Squash(r.ctl), readA := Rs(w));
      if !Bit1(w) {
        r := r.(aToHi := true);
      } else {
        r := r.(aToLo := true);
      }
    } else if w % 0x100 == 0x10 || w % 0x100 == 0x12 {
      r := WritesRd(w, r).(aFromReg := false, bFromReg := false,
                           alu := AluPort(PASS_A, if !Bit1(w) then s.hi else s.lo, 0));
    } else if Funct(w) == 0x0C {
      r := r.(aFromReg := false, bFromReg := false);
    } else if Bit5(w) {
      r := WritesRd(w, r).(aFromReg := true, readA := Rs(w), bFromReg := true, readB := Rt(w),
                           alu := r.alu.(op := w % 16));
    } else {
      r := DecodeShiftSignals(w, pc, r, s);
    }
  }

  /** Shifts and jumps through a register. */
  method DecodeShiftSignals(w: Word, pc: Word, b: Buffer, s: Special) returns (r: Buffer)
    ensures var i := DecodeShift(w);
            Settled(b, i) && b.condition.None? && !b.aToC0 ==> Buffered(r, i, pc, s)
  {
    hide Rs, Rt, Rd, Shamt, ShiftOp, Bit0, Bit2, Bit3;
    if Bit2(w) {
      r := WritesRd(w, b).(bFromReg := true, readB := Rs(w), aFromReg := true, readA := Rt(w),
                           alu := b.alu.(op := ShiftOp(w)));
    } else if !Bit3(w) {
      r := WritesRd(w, b).(aFromReg := true, readA := Rt(w), bFromReg := false,
                           alu := b.alu.(op := ShiftOp(w), b := Shamt(w)));
    } else {
      var ctl := if Bit0(w) then b.ctl.(regAddr := 31, regWrite := true, regByteOnly := false)
                 else b.ctl.(regWrite := false);
      r := b.(aFromReg := false, bFromReg := false, alu := AluPort(ADD, pc, 8), jumpTrue := true,
              readA := Rs(w), jumpFromA := true, ctl := ctl.(memRead := false, memWrite := false));
    }
  }

  /** The signals shared by the instructions that write `rd` and touch nothing else. */
  function WritesRd(w: Word, b: Buffer): Buffer
  {
    b.(jumpTrue := false,
       ctl := b.ctl.(memRead := false, memWrite := false, regWrite := true, regByteOnly := false, regAddr := Rd(w)))
  }

  method DecodeJumpSignals(w: Word, pc: Word, b: Buffer, s: Special) returns (r: Buffer)
    requires Opcode(w) == 2 || Opcode(w) == 3
    ensures var i := JumpAbs(Opcode(w) == 3, w);
            Settled(b, i) ==> Buffered(r, i, pc, s)
  {
    hide JumpTarget;
    r := b.(aToC0 := false, condition := None, jumpFromA := false, aFromReg := false, bFromReg := false,
            alu := AluPort(ADD, pc, 8), jumpTrue := true, jumpAddr := JumpTarget(pc, w),
            ctl := b.ctl.(memRead := false, memWrite := false));
    if Opcode(w) == 2 {
      r := r.(ctl := r.ctl.(regWrite := false));
    } else {
      r := r.(ctl := r.ctl.(regWrite := true, regByteOnly := false, regAddr := 31));
    }
  }

  method DecodeMemorySignals(w: Word, pc: Word, b: Buffer, s: Special) returns (r: Buffer)
    ensures var i := DecodeMemory(w);
            Settled(b, i) ==> Buffered(r, i, pc, s)
  {
    hide Rs, Rt, SignExtend, Bit26, Opcode;
    var kind := Opcode(w) % 16;
    var alu := b.alu.(op := ADD, b := SignExtend(w));
    if kind == 3 || kind == 0 || kind == 4 {
      var ctl := b.ctl.(memRead := true, memWrite := false, regWrite := true, regAddr := Rt(w),
                        regByteOnly := !Bit26(w));
      r := b.(aToC0 := false, aFromReg := true, readA := Rs(w), bFromReg := false, alu := alu, jumpTrue := false,
              condition := None, ctl := ctl);
    } else {
      var ctl := b.ctl.(memByteOnly := kind == 8, memRead := false, memWrite := true, regWrite := false);
      r := b.(aToC0 := false, aFromReg := true, readA := Rs(w), bFromReg := false, alu := alu, jumpTrue := false,
              condition := None, ctl := ctl, memDataFromB := true, readB := Rt(w));
    }
  }

  method DecodeBranchSignals(w: Word, pc: Word, b: Buffer, s: Special) returns (r: Buffer)
    ensures var i := DecodeBranch(w);
            Settled(b, i) ==> Buffered(r, i, pc, s)
  {
    hide Rs, Rt, BranchTarget, Bit16, Bit20, Opcode;
    var kind := Opcode(w) % 8;
    var condition, link := Ne, false;
    if kind == 4 {
      condition := Eq;
    } else if kind == 7 {
      condition := Gz;
    } else if kind == 6 {
      condition := Lez;
    } else if kind == 1 && Bit16(w) {
      condition, link := Gez, Bit20(w);
    } else if kind == 1 && !Bit16(w) {
      condition, link := Lz, Bit20(w);
    }
    var ctl := b.ctl.(memRead := false, memWrite := false, regWrite := false, regByteOnly := false, regAddr := 31);
    r := b.(aToC0 := false, aFromReg := false, bFromReg := false, alu := AluPort(ADD, pc, 8),
            readA := Rs(w), readB := Rt(w), jumpTrue := false, jumpFromA := false,
            jumpAddr := BranchTarget(pc, w), ctl := ctl, condition := Some(condition), linkIfJump := link);
  }

  method DecodeImmediateSignals(w: Word, pc: Word, b: Buffer, s: Special) returns (r: Buffer)
    ensures var i := DecodeImmediate(w);
            Settled(b, i) ==> Buffered(r, i, pc, s)
  {
    hide Rs, Rt, SignExtend, ZeroExtend, Opcode;
    var imm, op := ZeroExtend(w), PASS_A;
    match Opcode(w) % 16 {
      case 8 => imm, op := SignExtend(w), 0;
      case 9 => imm, op := SignExtend(w), 1;
      case 12 => op := 4;
      case 13 => op := 5;
      case 14 => op := 6;
      case 10 => imm, op := SignExtend(w), 10;
      case 11 => op := 11;
      case _ =>
    }
    var ctl := b.ctl.(memRead := false, memWrite := false, regWrite := true, regByteOnly := false, regAddr := Rt(w));
    r := b.(aToC0 := false, aFromReg := true, readA := Rs(w), bFromReg := false, jumpTrue := false,
            condition := None, ctl := ctl, alu := b.alu.(b := imm, op := op));
  }

  method DecodeUpperSignals(w: Word, pc: Word, b: Buffer, s: Special) returns (r: Buffer)
    ensures var i := LoadUpper(w % 0x1_0000 * 0x1_0000, Rt(w));
            Settled(b, i) ==> Buffered(r, i, pc, s)
  {
    hide Rt;
    r := b.(aToC0 := false, aFromReg := false, bFromReg := false,
            alu := AluPort(PASS_A, w % 0x1_0000 * 0x1_0000, b.alu.b), jumpTrue := false, condition := None,
            ctl := b.ctl.(memRead := false, memWrite := false, regWrite := true, regByteOnly := false,
                          regAddr := Rt(w)));
  }

  /** Only coprocessor words return from exceptions, and only register words are system calls. */
  lemma OnlyCp0Returns(w: Word)
    ensures Decode(w).Eret? || Decode(w).Mfc0? ==> Opcode(w) == 0x10
    ensures Decode(w).Syscall? ==> Opcode(w) == 0
  {
    hide Opcode, Funct, Rs, Rt, Rd, Shamt, ShiftOp, SignExtend, ZeroExtend, Bit0, Bit1, Bit2, Bit3, Bit5, Bit16, Bit20,
         Bit26;
  }

  /** The whole decoder: the buffer afterwards asks for exactly what the instruction means. */
  method DecodeSignals(w: Word, pc: Word, b: Buffer, s: Special, c0: C0File) returns (r: Buffer)
    requires s.c0 == c0[COUNT := s.c0[COUNT]]
    ensures var i := Decode(w);
            Settled(b, i) && (Plain(i) || i.Mfc0?) ==> Buffered(r, i, pc, s)
    ensures Decode(w).Mfc0? ==> r.alu.a == c0[Decode(w).cr]
    ensures Decode(w).Eret? ==> ReturnsTo(r, c0[EPC])
    ensures Decode(w).Syscall? ==> r == CallBuffered(b)
  {
    OnlyCp0Returns(w);
    hide ReturnsTo, CallBuffered;
    hide DecodeCp0, DecodeRType, DecodeMemory, DecodeBranch, DecodeImmediate, Buffered, Settled, Rt;
    if Opcode(w) == 0x10 {
      r := DecodeCp0Signals(w, b, c0);
    } else if Opcode(w) == 0 {
      r := DecodeRTypeSignals(w, pc, b, s);
    } else if Opcode(w) == 2 || Opcode(w) == 3 {
      r := DecodeJumpSignals(w, pc, b, s);
    } else if Opcode(w) / 16 == 2 {
      r := DecodeMemorySignals(w, pc, b, s);
    } else if Opcode(w) == 0xF {
      r := DecodeUpperSignals(w, pc, b, s);
    } else if Opcode(w) / 8 == 0 {
      r := DecodeBranchSignals(w, pc, b, s);
    } else {
      r := DecodeImmediateSignals(w, pc, b, s);
    }
  }
}
