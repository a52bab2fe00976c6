/** The instruction set in numbers: for a word given by its fields, what one step of the sequential
    machine leaves, in terms of register contents, bytes of memory and addresses. */
module Instructions {
  import opened Words
  import opened Isa
  import opened Tlb
  import opened Machine
  import opened Digits
  import opened ByteMemory
  import Asm = Assembler
  import Refinement
  import Fields = Toolchain

  // ----- words by their fields

  /** Operation code, two registers and a 16-bit number. */
  function ImmediateForm(op: nat, rs: RegNum, rt: RegNum, imm: nat): nat
  {
    op * 0x400_0000 + rs * 0x20_0000 + rt * 0x1_0000 + imm
  }

  /** Operation code 0, three registers, a shift amount and a function code. */
  function RegisterForm(rs: RegNum, rt: RegNum, rd: RegNum, sh: RegNum, fn: nat): nat
  {
    rs * 0x20_0000 + rt * 0x1_0000 + rd * 0x800 + sh * 0x40 + fn
  }

  /** A coprocessor word. */
  function CoprocessorForm(rs: RegNum, rt: RegNum, rd: RegNum, fn: nat): nat
  {
    0x4000_0000 + rs * 0x20_0000 + rt * 0x1_0000 + rd * 0x800 + fn
  }

  /** The 16-bit number read as signed. */
  function Offset(imm: nat): int { if imm < 0x8000 then imm else imm - 0x1_0000 }

  // ----- what a step leaves alone

  /** The instruction after the next one is its successor. */
  predicate Proceeds(s: Arch, t: Arch) { t.pc == s.npc && t.npc == (s.npc + 4) % 0x1_0000_0000 }

  /** The register gets the value, every other one keeps its own; register 0 never changes. */
  predicate Writes(s: Arch, t: Arch, rd: RegNum, v: int)
  {
    forall r: RegNum :: t.regs.regs[r] == if r == rd && r != 0 then v else s.regs.regs[r]
  }

  predicate KeepsRegisters(s: Arch, t: Arch) { t.regs.regs == s.regs.regs }

  /** HI, LO, coprocessor 0, translation slots and memory are as before. */
  predicate KeepsRest(s: Arch, t: Arch) { t.special == s.special && t.slots == s.slots && t.ram == s.ram }

  /** Nothing happens but a write to one register. */
  predicate OnlyWrites(s: Arch, t: Arch, rd: RegNum, v: int)
  {
    Proceeds(s, t) && Writes(s, t, rd, v) && KeepsRest(s, t)
  }

  // ----- decoding from fields

  lemma ImmediateFields(op: nat, rs: RegNum, rt: RegNum, imm: nat)
    requires op < 64 && imm < 0x1_0000
    ensures var w := ImmediateForm(op, rs, rt, imm);
            && w < WORD_LIMIT && Opcode(w) == op && Rs(w) == rs && Rt(w) == rt && w % 0x1_0000 == imm
            && ZeroExtend(w) == imm && SignExtend(w) == Offset(imm) % 0x1_0000_0000
            && SignedValue(SignExtend(w)) == Offset(imm)
  {
    hide Opcode, Rs, Rt, Bit15;
    Fields.IFields(op, rs, rt, imm);
    assert ImmediateForm(op, rs, rt, imm) == Asm.IWord(op, rs, rt, imm);
    Fields.TopBit(ImmediateForm(op, rs, rt, imm));
  }

  /** The single bits the branch and load decoders look at. */
  lemma ImmediateBits(op: nat, rs: RegNum, rt: RegNum, imm: nat)
    requires op < 64 && imm < 0x1_0000
    ensures var w := ImmediateForm(op, rs, rt, imm);
            && w < WORD_LIMIT && Bit16(w) == (rt % 2 == 1) && Bit20(w) == (rt >= 16) && Bit26(w) == (op % 2 == 1)
  {
    var w := ImmediateForm(op, rs, rt, imm);
    assert w / 0x1_0000 == 2 * (op * 0x200 + rs * 0x10) + rt;
    assert w / 0x10_0000 == 2 * (op * 0x20 + rs) + rt / 16;
    assert w / 0x400_0000 == op;
  }

  lemma RegisterFields(rs: RegNum, rt: RegNum, rd: RegNum, sh: RegNum, fn: nat)
    requires fn < 64
    ensures var w := RegisterForm(rs, rt, rd, sh, fn);
            && w < WORD_LIMIT && Opcode(w) == 0 && Rs(w) == rs && Rt(w) == rt && Rd(w) == rd && Shamt(w) == sh
            && Funct(w) == fn && w % 16 == fn % 16 && w % 4 == fn % 4 && w % 2 == fn % 2
            && Bit5(w) == (fn >= 32) && Bit2(w) == (fn / 4 % 2 == 1) && Bit3(w) == (fn / 8 % 2 == 1)
            && w % 0x1_0000 == rd * 0x800 + sh * 0x40 + fn && w % 0x100 == sh % 4 * 0x40 + fn
            && Bit1(w) == (fn / 2 % 2 == 1)
  {
    hide Opcode, Rs, Rt, Rd, Shamt, Funct, Bit5, Bit2, Bit3;
    var w := RegisterForm(rs, rt, rd, sh, fn);
    assert w == Asm.RWord(0, rs, rt, rd, sh, fn);
    Fields.RFields(0, rs, rt, rd, sh, fn);
    Fields.FunctBits(w);
    LowHalf(rs, rt, rd, sh, fn);
  }

  lemma LowHalf(rs: RegNum, rt: RegNum, rd: RegNum, sh: RegNum, fn: nat)
    requires fn < 64
    ensures var w := RegisterForm(rs, rt, rd, sh, fn);
            && w % 0x1_0000 == rd * 0x800 + sh * 0x40 + fn && w % 0x100 == sh % 4 * 0x40 + fn
            && w % 2 == fn % 2 && w / 2 % 2 == fn / 2 % 2
  {
    var w := RegisterForm(rs, rt, rd, sh, fn);
    Fields.RemainderUnique(w, 0x1_0000, rs * 0x20 + rt, rd * 0x800 + sh * 0x40 + fn);
    Fields.RemainderUnique(w, 0x100, rs * 0x2000 + rt * 0x100 + rd * 8 + sh / 4, sh % 4 * 0x40 + fn);
    LowBits(rs * 0x10_0000 + rt * 0x8000 + rd * 0x400 + sh * 0x20, fn);
  }

  lemma LowBits(q: nat, fn: nat)
    ensures (2 * q + fn) % 2 == fn % 2
    ensures (4 * (q / 2) + fn) / 2 % 2 == fn / 2 % 2
    ensures q % 2 == 0 ==> (2 * q + fn) / 2 % 2 == fn / 2 % 2
  {
    var h := q / 2;
    assert (4 * h + fn) / 2 == 2 * h + fn / 2;
  }

  lemma CoprocessorFields(rs: RegNum, rt: RegNum, rd: RegNum, fn: nat)
    requires fn < 64
    ensures var w := CoprocessorForm(rs, rt, rd, fn);
            && w < WORD_LIMIT && Opcode(w) == 0x10 && Rs(w) == rs && Rt(w) == rt && Rd(w) == rd && Funct(w) == fn
  {
    assert CoprocessorForm(rs, rt, rd, fn) == Asm.RWord(0x10, rs, rt, rd, 0, fn);
    Fields.RFields(0x10, rs, rt, rd, 0, fn);
  }

  // ----- loads and stores

  function EffectiveAddress(s: Arch, rs: RegNum, imm: nat): Word
  {
    (s.regs.regs[rs] + Offset(imm)) % 0x1_0000_0000
  }

  /** A byte of memory by its address: bit 22 chooses the bank, the first byte of a word is its highest. */
  lemma ByteIs(m: Ram, x: Word)
    ensures var bank := if x / 0x40_0000 % 2 == 1 then m.extBank else m.baseBank;
            ByteAt(m, x) == ByteOfWord(bank[x % 0x40_0000 / 4], x % 4)
  {
    hide Lane;
    assert x / 4 % 0x10_0000 == x % 0x40_0000 / 4;
    LaneIs(ReadWord(m, x), x % 4);
  }

  function ByteOfWord(w: Word, k: Lanes): nat
  {
    if k == 0 then w / 0x100_0000 else if k == 1 then w / 0x1_0000 % 0x100
    else if k == 2 then w / 0x100 % 0x100 else w % 0x100
  }

  lemma LaneIs(w: Word, k: Lanes)
    ensures Lane(w, k) == ByteOfWord(w, k)
  {
  }

  /** The physical address: without its two top bits in the kernel segments, else with the frame some
      slot gives its page. */
  lemma PhysicalIs(slots: Slots, x: Word)
    ensures 0x8000_0000 <= x < 0xC000_0000 ==> IsMapped(slots, x) && PhysicalOf(slots, x) == x - 0x8000_0000
    ensures !(0x8000_0000 <= x < 0xC000_0000) && Distinct(slots) ==>
              forall f: PageNumber | Maps(slots, x / 0x1000, f) ::
                IsMapped(slots, x) && PhysicalOf(slots, x) == f * 0x1000 + x % 0x1000
  {
    if 0x8000_0000 <= x < 0xC000_0000 {
      Refinement.KsegPhysical(slots, x);
    } else if Distinct(slots) {
      assert !InKseg(x / 0x1000);
      LookupIsMap(slots, x / 0x1000);
    }
  }

  predicate IsLoad(op: nat) { op == 0x20 || op == 0x23 || op == 0x24 }

  lemma LoadDecodes(op: nat, rs: RegNum, rt: RegNum, imm: nat)
    requires IsLoad(op) && imm < 0x1_0000
    ensures var w := ImmediateForm(op, rs, rt, imm);
            w < WORD_LIMIT && Decode(w) == Load(op != 0x23, rs, SignExtend(w), rt)
  {
    hide Opcode, Rs, Rt, SignExtend, Bit26, Bit16, Bit20, ImmediateForm;
    ImmediateFields(op, rs, rt, imm);
    ImmediateBits(op, rs, rt, imm);
  }

  /** The four bytes of the word around an address, the first one highest. */
  function FourBytes(m: Ram, a: Word): int
  {
    var b: int := a - a % 4;
    ByteAt(m, b) * 0x100_0000 + ByteAt(m, b + 1) * 0x1_0000 + ByteAt(m, b + 2) * 0x100 + ByteAt(m, b + 3)
  }

  lemma WordBytes(m: Ram, a: Word)
    ensures ReadWord(m, a) == FourBytes(m, a)
  {
    hide ReadWord, ByteAt;
    var b: Word := a - a % 4;
    SameRow(m, a, b);
    LoadWordAssembles(m, b);
  }

  lemma SameRow(m: Ram, a: Word, b: Word)
    requires a / 4 == b / 4
    ensures ReadWord(m, a) == ReadWord(m, b)
  {
    assert a / 0x40_0000 == a / 4 / 0x10_0000 && b / 0x40_0000 == b / 4 / 0x10_0000;
  }

  /** `lw` gives the register the four bytes of the word at base plus signed offset, the first one
      highest; `lb` and `lbu` give it the one byte there, extended with zeros. Nothing else changes. */
  lemma LoadMeans(s: Arch, op: nat, rs: RegNum, rt: RegNum, imm: nat)
    requires IsLoad(op) && imm < 0x1_0000 && CurrentWord(s) == ImmediateForm(op, rs, rt, imm)
    ensures var a := PhysicalOf(s.slots, EffectiveAddress(s, rs, imm));
            OnlyWrites(s, ArchStep(s), rt, if op == 0x23 then FourBytes(s.ram, a) else ByteAt(s.ram, a))
  {
    hide FourBytes, CurrentWord, Decode, PhysicalOf, ReadWord, Lane, ImmediateForm, SignExtend;
    LoadDecodes(op, rs, rt, imm);
    ImmediateFields(op, rs, rt, imm);
    var a := PhysicalOf(s.slots, EffectiveAddress(s, rs, imm));
    WordBytes(s.ram, a);
    Sum(s.regs.regs[rs], Offset(imm));
    assert Perform(s).uop == LoadAt(EffectiveAddress(s, rs, imm), op != 0x23, rt);
  }

  /** Adding the wrapped offset is adding the offset. */
  lemma Sum(a: Word, d: int)
    ensures Wrap(a + d % 0x1_0000_0000) == (a + d) % 0x1_0000_0000
  {
    var q := d / 0x1_0000_0000;
    assert a + d == (a + d % 0x1_0000_0000) + q * 0x1_0000_0000;
  }

  predicate IsStore(op: nat) { 0x20 <= op < 0x30 && !IsLoad(op) }

  lemma StoreDecodes(op: nat, rs: RegNum, rt: RegNum, imm: nat)
    requires IsStore(op) && imm < 0x1_0000
    ensures var w := ImmediateForm(op, rs, rt, imm);
            w < WORD_LIMIT && Decode(w) == Store(op == 0x28, rs, SignExtend(w), rt)
  {
    hide Opcode, Rs, Rt, SignExtend, Bit26, Bit16, Bit20, ImmediateForm;
    ImmediateFields(op, rs, rt, imm);
  }

  /** `sb` replaces the byte at base plus signed offset by the low byte of the register; `sw`, and every
      other code of the group that is no load, replaces the four bytes of the word there by those of the
      register. No other byte, no register and nothing else changes. */
  lemma StoreMeans(s: Arch, op: nat, rs: RegNum, rt: RegNum, imm: nat, x: Word)
    requires IsStore(op) && imm < 0x1_0000 && CurrentWord(s) == ImmediateForm(op, rs, rt, imm)
    ensures var a, t := PhysicalOf(s.slots, EffectiveAddress(s, rs, imm)), ArchStep(s);
            && Proceeds(s, t) && KeepsRegisters(s, t) && t.special == s.special && t.slots == s.slots
            && t.ram.rom == s.ram.rom
            && ByteAt(t.ram, x)
               == if op == 0x28 then
                    if x % 0x80_0000 == a % 0x80_0000 then s.regs.regs[rt] % 0x100 else ByteAt(s.ram, x)
                  else if x % 0x80_0000 / 4 == a % 0x80_0000 / 4 then ByteOfWord(s.regs.regs[rt], x % 4)
                  else ByteAt(s.ram, x)
  {
    hide CurrentWord, Decode, PhysicalOf, ReadWord, Lane, ImmediateForm, SignExtend, ByteAt, Stored, WriteWord;
    StoreDecodes(op, rs, rt, imm);
    ImmediateFields(op, rs, rt, imm);
    Sum(s.regs.regs[rs], Offset(imm));
    var a, v := PhysicalOf(s.slots, EffectiveAddress(s, rs, imm)), s.regs.regs[rt];
    assert Perform(s).uop == StoreAt(EffectiveAddress(s, rs, imm), op == 0x28, v);
    StoreByteChangesOne(s.ram, a, v, x);
    StoreWordChangesFour(s.ram, a, v, x);
    WordNames(x, a);
    LaneIs(v, x % 4);
    RomStays(s.ram, a, Stored(s.ram, a, op == 0x28, v));
  }

  lemma RomStays(m: Ram, a: Word, v: Word)
    ensures WriteWord(m, a, v).rom == m.rom
  {
  }

  lemma WordNames(x: Word, a: Word)
    ensures SameWord(x, a) <==> x % 0x80_0000 / 4 == a % 0x80_0000 / 4
  {
    hide Row, InExtBank;
    ByteAddress(x);
    ByteAddress(a);
  }

  // ----- branches and jumps

  /** The target lies in the same 256 megabytes and is the successor of the branch plus four times the
      offset, modulo their size. */
  predicate Lands(target: Word, pc: Word, offset: int)
  {
    && target / 0x1000_0000 == pc / 0x1000_0000 && target % 4 == 0
    && (target - (pc - pc % 4 + 4 + 4 * offset)) % 0x1000_0000 == 0
  }

  lemma BranchLands(pc: Word, w: Word)
    ensures Lands(BranchTarget(pc, w), pc, SignedValue(SignExtend(w)))
  {
    hide SignExtend, SignedValue;
    var d := SignedValue(SignExtend(w));
    var q, r := pc / 0x1000_0000, pc % 0x1000_0000;
    var n := r / 4 + d + 1;
    FourDivides(q, r, pc);
    assert BranchTarget(pc, w) == q * 0x1000_0000 + n % 0x400_0000 * 4;
    LandsAt(q, n % 0x400_0000, BranchTarget(pc, w));
    assert pc - pc % 4 == q * 0x1000_0000 + r / 4 * 4;
    assert n % 0x400_0000 == n - n / 0x400_0000 * 0x400_0000;
    assert BranchTarget(pc, w) - (pc - pc % 4 + 4 + 4 * d) == (- (n / 0x400_0000)) * 0x1000_0000;
  }

  lemma LandsAt(q: nat, n: nat, t: int)
    requires n < 0x400_0000 && t == q * 0x1000_0000 + n * 4
    ensures t / 0x1000_0000 == q && t % 4 == 0
  {
    Refinement.FourTimes(q * 0x400_0000 + n, 0);
  }

  lemma FourDivides(q: int, r: int, x: int)
    requires x == q * 0x1000_0000 + r
    ensures x % 4 == r % 4
  {
    Refinement.FourTimes(q * 0x400_0000, r);
  }

  predicate IsBranch(op: nat) { op == 1 || 4 <= op <= 7 }

  /** When the branch is taken: equal, different, not positive, positive; for code 1 by the lowest bit of
      its second register field, not negative or negative. */
  predicate BranchTaken(op: nat, rt: RegNum, a: Word, b: Word)
  {
    if op == 4 then a == b
    else if op == 5 then a != b
    else if op == 6 then a == 0 || a >= 0x8000_0000
    else if op == 7 then 0 < a < 0x8000_0000
    else if rt % 2 == 1 then a < 0x8000_0000
    else a >= 0x8000_0000
  }

  lemma BranchDecodes(op: nat, rs: RegNum, rt: RegNum, imm: nat)
    requires IsBranch(op) && imm < 0x1_0000
    ensures var w := ImmediateForm(op, rs, rt, imm);
            && w < WORD_LIMIT && Decode(w).Branch? && Decode(w).ra == rs && Decode(w).rb == rt && Decode(w).w == w
            && Decode(w).link == (op == 1 && rt >= 16)
            && forall a: Word, b: Word :: Holds(Decode(w).cond, a, b) == BranchTaken(op, rt, a, b)
  {
    hide Opcode, Rs, Rt, SignExtend, Bit26, Bit16, Bit20, ImmediateForm;
    ImmediateFields(op, rs, rt, imm);
    ImmediateBits(op, rs, rt, imm);
  }

  /** A branch: the next instruction is its delay slot; taken, the one after that is at the target, and a
      linking branch (code 1 with the highest bit of the second register field) leaves its address plus 8
      in register 31; not taken, execution goes on and no register changes. */
  lemma BranchMeans(s: Arch, op: nat, rs: RegNum, rt: RegNum, imm: nat)
    requires IsBranch(op) && imm < 0x1_0000 && CurrentWord(s) == ImmediateForm(op, rs, rt, imm)
    ensures var t := ArchStep(s);
            && t.pc == s.npc && KeepsRest(s, t)
            && if BranchTaken(op, rt, s.regs.regs[rs], s.regs.regs[rt]) then
                 && Lands(t.npc, s.pc, Offset(imm))
                 && if op == 1 && rt >= 16 then Writes(s, t, 31, (s.pc + 8) % 0x1_0000_0000) else KeepsRegisters(s, t)
               else Proceeds(s, t) && KeepsRegisters(s, t)
  {
    hide CurrentWord, Decode, ImmediateForm, SignExtend, SignedValue, BranchTarget, BranchTaken, Holds, Lands;
    BranchDecodes(op, rs, rt, imm);
    ImmediateFields(op, rs, rt, imm);
    BranchLands(s.pc, CurrentWord(s));
  }

  /** `j` and `jal`: the target is the 26-bit number times four in the same 256 megabytes; `jal` leaves
      its address plus 8 in register 31. */
  lemma JumpMeans(s: Arch, op: nat, number: nat)
    requires (op == 2 || op == 3) && number < 0x400_0000 && CurrentWord(s) == op * 0x400_0000 + number
    ensures var t := ArchStep(s);
            && t.pc == s.npc && KeepsRest(s, t)
            && t.npc / 0x1000_0000 == s.pc / 0x1000_0000 && t.npc % 0x1000_0000 == 4 * number
            && if op == 3 then Writes(s, t, 31, (s.pc + 8) % 0x1_0000_0000) else KeepsRegisters(s, t)
  {
    hide CurrentWord, Decode;
    JumpDecodes(op, number);
  }

  lemma JumpDecodes(op: nat, number: nat)
    requires (op == 2 || op == 3) && number < 0x400_0000
    ensures var w := op * 0x400_0000 + number;
            w < WORD_LIMIT && Decode(w) == JumpAbs(op == 3, w) && w % 0x400_0000 == number
  {
    var w := op * 0x400_0000 + number;
    assert w / 0x400_0000 == op;
  }

  /** `jr` and `jalr`: the target is the register; `jalr` leaves its address plus 8 in register 31,
      whatever register its word names. */
  lemma JumpRegisterMeans(s: Arch, rs: RegNum, rt: RegNum, rd: RegNum, fn: nat)
    requires (fn == 8 || fn == 9) && CurrentWord(s) == RegisterForm(rs, rt, rd, 0, fn)
    ensures var t := ArchStep(s);
            && t.pc == s.npc && KeepsRest(s, t) && t.npc == s.regs.regs[rs]
            && if fn == 9 then Writes(s, t, 31, (s.pc + 8) % 0x1_0000_0000) else KeepsRegisters(s, t)
  {
    hide CurrentWord, Decode, RegisterForm;
    JumpRegisterDecodes(rs, rt, rd, fn);
  }

  lemma JumpRegisterDecodes(rs: RegNum, rt: RegNum, rd: RegNum, fn: nat)
    requires fn == 8 || fn == 9
    ensures var w := RegisterForm(rs, rt, rd, 0, fn);
            w < WORD_LIMIT && Decode(w) == JumpReg(fn == 9, rs)
  {
    hide Opcode, Rs, Rt, Rd, Shamt, Funct, Bit5, Bit2, Bit3, RegisterForm;
    RegisterFields(rs, rt, rd, 0, fn);
  }

  // ----- multiplication, HI and LO

  /** Registers and memory are as before. */
  predicate KeepsState(s: Arch, t: Arch)
  {
    Proceeds(s, t) && KeepsRegisters(s, t) && t.slots == s.slots && t.ram == s.ram
  }

  /** The number a word stands for. */
  function Value(signed: bool, w: Word): int { if signed && w >= 0x8000_0000 then w - 0x1_0000_0000 else w }

  predicate IsProduct(signed: bool, hi: Word, lo: Word, a: Word, b: Word)
  {
    Value(signed, hi) * 0x1_0000_0000 + lo == Value(signed, a) * Value(signed, b)
  }

  lemma MultiplyDecodes(rs: RegNum, rt: RegNum, fn: nat)
    requires fn == 0x18 || fn == 0x19
    ensures var w := RegisterForm(rs, rt, 0, 0, fn);
            w < WORD_LIMIT && Decode(w) == Mult(fn == 0x18, rs, rt)
  {
    hide Opcode, Rs, Rt, Rd, Shamt, Funct, Bit5, Bit2, Bit3, Bit1, RegisterForm;
    RegisterFields(rs, rt, 0, 0, fn);
  }

  /** `mult` and `multu`: HI times 2^32 plus LO is the product of the registers, read as signed numbers
      by the former, with HI then signed too. */
  lemma MultiplyMeans(s: Arch, rs: RegNum, rt: RegNum, fn: nat)
    requires (fn == 0x18 || fn == 0x19) && CurrentWord(s) == RegisterForm(rs, rt, 0, 0, fn)
    ensures var t, a, b := ArchStep(s), s.regs.regs[rs], s.regs.regs[rt];
            && KeepsState(s, t) && t.special.c0 == s.special.c0
            && IsProduct(fn == 0x18, t.special.hi, t.special.lo, a, b)
  {
    hide CurrentWord, Decode, RegisterForm, Multiply, IsProduct;
    MultiplyDecodes(rs, rt, fn);
    ProductMeans(fn == 0x18, s.regs.regs[rs], s.regs.regs[rt]);
  }

  lemma ProductMeans(signed: bool, a: Word, b: Word)
    ensures IsProduct(signed, Multiply(signed, a, b).high, Multiply(signed, a, b).low, a, b)
  {
    hide Multiply;
    ProductExact(signed, a, b);
  }

  lemma MoveDecodes(rs: RegNum, rd: RegNum, fn: nat)
    requires 0x10 <= fn <= 0x13
    ensures var w := RegisterForm(rs, 0, rd, 0, fn);
            && w < WORD_LIMIT
            && Decode(w) == if fn % 2 == 0 then MoveFrom(fn == 0x10, rd) else MoveTo(fn == 0x11, rs)
  {
    hide Opcode, Rs, Rt, Rd, Shamt, Funct, Bit5, Bit2, Bit3, Bit1, RegisterForm;
    RegisterFields(rs, 0, rd, 0, fn);
  }

  /** `mfhi` (code 0x10) and `mflo` (0x12) copy HI and LO to a register, `mthi` (0x11) and `mtlo` (0x13)
      copy a register to HI and LO. */
  lemma MoveMeans(s: Arch, rs: RegNum, rd: RegNum, fn: nat)
    requires 0x10 <= fn <= 0x13 && CurrentWord(s) == RegisterForm(rs, 0, rd, 0, fn)
    ensures var t, a := ArchStep(s), s.regs.regs[rs];
            && (fn == 0x10 ==> OnlyWrites(s, t, rd, s.special.hi))
            && (fn == 0x12 ==> OnlyWrites(s, t, rd, s.special.lo))
            && (fn == 0x11 ==> KeepsState(s, t) && t.special == Special(a, s.special.lo, s.special.c0))
            && (fn == 0x13 ==> KeepsState(s, t) && t.special == Special(s.special.hi, a, s.special.c0))
  {
    hide CurrentWord, Decode, RegisterForm;
    MoveDecodes(rs, rd, fn);
  }

  // ----- coprocessor 0

  /** `mfc0` copies a coprocessor register other than Count to a register; `mtc0` copies a register to
      one, and to Count without effect on the programmer's view. */
  lemma CoprocessorMoveMeans(s: Arch, rs: RegNum, rt: RegNum, rd: RegNum)
    requires CurrentWord(s) == CoprocessorForm(rs, rt, rd, 0)
    ensures var t := ArchStep(s);
            && (rs == 0 && rd != 9 ==> OnlyWrites(s, t, rt, s.special.c0[rd]))
            && (rs != 0 ==>
                  && KeepsState(s, t) && t.special.hi == s.special.hi && t.special.lo == s.special.lo
                  && forall k | 0 <= k < 32 ::
                       t.special.c0[k] == if k == rd && k != 9 then s.regs.regs[rt] else s.special.c0[k])
  {
    hide CurrentWord, Opcode, Rs, Rt, Rd, Funct, CoprocessorForm;
    CoprocessorFields(rs, rt, rd, 0);
  }

  /** `tlbwi`: the slot that the three low bits of register 0 (Index) name gets the pair of pages in bits
      31 to 13 of register 10, its even half from register 2 and its odd half from register 3: frame in
      bits 25 to 6, dirty bit 2, valid bit 1. Every other slot stays. */
  lemma SlotWriteMeans(s: Arch, rs: RegNum, rt: RegNum, rd: RegNum, fn: nat)
    requires fn < 64 && fn != 0 && fn != 0x18 && CurrentWord(s) == CoprocessorForm(rs, rt, rd, fn)
    ensures var t, c := ArchStep(s), s.special.c0;
            && Proceeds(s, t) && KeepsRegisters(s, t) && t.special == s.special && t.ram == s.ram
            && (forall i | 0 <= i < 8 && i != c[0] % 8 :: t.slots[i] == s.slots[i])
            && var slot := t.slots[c[0] % 8];
               && slot.pair == c[10] / 0x2000
               && slot.even.frame == c[2] / 0x40 % 0x10_0000
               && slot.even.dirty == (c[2] / 4 % 2 == 1) && slot.even.valid == (c[2] / 2 % 2 == 1)
               && slot.odd.frame == c[3] / 0x40 % 0x10_0000
               && slot.odd.dirty == (c[3] / 4 % 2 == 1) && slot.odd.valid == (c[3] / 2 % 2 == 1)
  {
    hide CurrentWord, Opcode, Rs, Rt, Rd, Funct, CoprocessorForm;
    CoprocessorFields(rs, rt, rd, fn);
  }

  // ----- arithmetic, logic and shifts

  /** What each operation of the arithmetic unit says of its result. Shifting right by a count with its
      top bit set shifts left by the negated count; an arithmetic shift fills with the sign. */
  predicate Calculates(op: nat, a: Word, b: Word, r: Word)
  {
    if op <= 1 then (r - a - b) % 0x1_0000_0000 == 0
    else if op <= 3 then (r - a + b) % 0x1_0000_0000 == 0
    else if op == 4 then forall k: nat | k < 32 :: Digit(r, k) == (Digit(a, k) && Digit(b, k))
    else if op == 5 then forall k: nat | k < 32 :: Digit(r, k) == (Digit(a, k) || Digit(b, k))
    else if op == 6 then forall k: nat | k < 32 :: Digit(r, k) == (Digit(a, k) != Digit(b, k))
    else if op == 7 then forall k: nat | k < 32 :: Digit(r, k) == !(Digit(a, k) || Digit(b, k))
    else if op == 8 then r == if a == b then 1 else 0
    else if op == 9 then r == if a == b then 0 else 1
    else if op == 10 then r == if Value(true, a) < Value(true, b) then 1 else 0
    else if op == 11 then r == if a < b then 1 else 0
    else if op == 12 then forall k: nat | k < 32 :: Digit(r, k) == (k >= b && Digit(a, k - b))
    else if op == 13 then
      forall k: nat | k < 32 ::
        Digit(r, k) == if b < 0x8000_0000 then k + b < 32 && Digit(a, k + b)
                       else k >= 0x1_0000_0000 - b && Digit(a, k - (0x1_0000_0000 - b))
    else if op == 14 then forall k: nat | k < 32 :: Digit(r, k) == Digit(a, if k + b < 32 then k + b else 31)
    else r == a
  }

  lemma LeftDigit(a: Word, n: Word, k: nat)
    requires k < 32
    ensures Digit(ShiftLeft(a, n), k) == (k >= n && Digit(a, k - n))
  {
    hide Digit;
    if n < 32 {
      ShiftByDigit(a, n, k);
    } else {
      ZeroDigit(k);
    }
  }

  lemma RightDigit(a: Word, n: Word, k: nat)
    requires k < 32
    ensures Digit(ShiftRight(a, n), k)
            == if n < 0x8000_0000 then k + n < 32 && Digit(a, k + n)
               else k >= 0x1_0000_0000 - n && Digit(a, k - (0x1_0000_0000 - n))
  {
    hide Digit, ShiftLeft;
    if n < 32 {
      ShiftByDigit(a, n, k);
    } else if n < 0x8000_0000 {
      ZeroDigit(k);
    } else {
      LeftDigit(a, 0x1_0000_0000 - n, k);
    }
  }

  lemma SignedRightDigit(a: Word, n: Word, k: nat)
    requires k < 32
    ensures Digit(ShiftRightSigned(a, n), k) == Digit(a, if k + n < 32 then k + n else 31)
  {
    hide Digit, Pow2;
    ShiftByDigit(a, if n < 32 then n else 31, k);
  }

  lemma LogicCalculates(op: AluOp, a: Word, b: Word)
    requires 4 <= op <= 7
    ensures Calculates(op, a, b, Alu(op, a, b))
  {
    hide Digit, And, Or, Xor;
    forall k: nat | k < 32
      ensures Digit(And(a, b), k) == (Digit(a, k) && Digit(b, k))
      ensures Digit(Or(a, b), k) == (Digit(a, k) || Digit(b, k))
      ensures Digit(Xor(a, b), k) == (Digit(a, k) != Digit(b, k))
      ensures Digit(WORD_LIMIT - 1 - Or(a, b), k) == !(Digit(a, k) || Digit(b, k))
    {
      LogicByDigit(a, b, k);
    }
  }

  lemma ShiftCalculates(op: AluOp, a: Word, b: Word)
    requires 12 <= op <= 14
    ensures Calculates(op, a, b, Alu(op, a, b))
  {
    hide Digit, ShiftLeft, ShiftRight, ShiftRightSigned;
    forall k: nat | k < 32
      ensures Digit(ShiftLeft(a, b), k) == (k >= b && Digit(a, k - b))
      ensures Digit(ShiftRight(a, b), k)
              == if b < 0x8000_0000 then k + b < 32 && Digit(a, k + b)
                 else k >= 0x1_0000_0000 - b && Digit(a, k - (0x1_0000_0000 - b))
      ensures Digit(ShiftRightSigned(a, b), k) == Digit(a, if k + b < 32 then k + b else 31)
    {
      LeftDigit(a, b, k);
      RightDigit(a, b, k);
      SignedRightDigit(a, b, k);
    }
  }

  lemma AluCalculates(op: AluOp, a: Word, b: Word)
    ensures Calculates(op, a, b, Alu(op, a, b))
  {
    hide Digit, And, Or, Xor, ShiftLeft, ShiftRight, ShiftRightSigned;
    if 4 <= op <= 7 {
      LogicCalculates(op, a, b);
    } else if 12 <= op <= 14 {
      ShiftCalculates(op, a, b);
    } else {
      SumCalculates(op, a, b);
    }
  }

  lemma SumCalculates(op: AluOp, a: Word, b: Word)
    requires op < 4 || 8 <= op < 12 || op == 15
    ensures Calculates(op, a, b, Alu(op, a, b))
  {
    var p, q := a as int + b, a as int - b;
    assert Wrap(p) - p == - (p / 0x1_0000_0000) * 0x1_0000_0000;
    assert Wrap(q) - q == - (q / 0x1_0000_0000) * 0x1_0000_0000;
  }

  lemma RegisterDecodes(rs: RegNum, rt: RegNum, rd: RegNum, sh: RegNum, fn: nat)
    requires 0x20 <= fn < 0x40
    ensures var w := RegisterForm(rs, rt, rd, sh, fn);
            w < WORD_LIMIT && Decode(w) == AluReg(fn % 16, rs, rt, rd)
  {
    hide Opcode, Rs, Rt, Rd, Shamt, Funct, Bit5, Bit2, Bit3, RegisterForm;
    RegisterFields(rs, rt, rd, sh, fn);
  }

  lemma ShiftDecodes(rs: RegNum, rt: RegNum, rd: RegNum, sh: RegNum, fn: nat)
    requires fn < 8
    ensures var w := RegisterForm(rs, rt, rd, sh, fn);
            w < WORD_LIMIT && Decode(w) == if fn < 4 then AluImm(ShiftUnit(fn), rt, sh, rd)
                                           else AluReg(ShiftUnit(fn), rt, rs, rd)
  {
    hide Opcode, Rs, Rt, Rd, Shamt, Funct, Bit5, Bit2, Bit3, RegisterForm;
    RegisterFields(rs, rt, rd, sh, fn);
  }

  /** Codes 0, 2 and 3 shift left, right and right with sign; code 1 passes the register on. */
  function ShiftUnit(fn: nat): AluOp
  {
    if fn % 4 == 0 then 12 else if fn % 4 == 2 then 13 else if fn % 4 == 3 then 14 else 15
  }

  /** Register instructions with a code of 0x20 and above: the operation is the code's low four bits, from
      the first register and the second to the third. */
  lemma RegisterMeans(s: Arch, rs: RegNum, rt: RegNum, rd: RegNum, sh: RegNum, fn: nat)
    requires 0x20 <= fn < 0x40 && CurrentWord(s) == RegisterForm(rs, rt, rd, sh, fn)
    ensures exists r: Word :: Calculates(fn % 16, s.regs.regs[rs], s.regs.regs[rt], r)
                              && OnlyWrites(s, ArchStep(s), rd, r)
  {
    hide CurrentWord, Decode, RegisterForm, Alu, Calculates;
    RegisterDecodes(rs, rt, rd, sh, fn);
    AluCalculates(fn % 16, s.regs.regs[rs], s.regs.regs[rt]);
    StepOfUnit(s);
  }

  lemma StepOfUnit(s: Arch)
    requires Current(s).AluReg? || Current(s).AluImm?
    ensures var i := Current(s);
            OnlyWrites(s, ArchStep(s), i.rd,
                       Alu(i.op, s.regs.regs[i.ra], if i.AluReg? then s.regs.regs[i.rb] else i.imm))
  {
    hide Decode, Alu, CurrentWord, PhysicalOf;
  }

  /** Shifts of the second register by the amount in the word (codes 0 to 3) or by the first register
      (codes 4 to 7). */
  lemma ShiftMeans(s: Arch, rs: RegNum, rt: RegNum, rd: RegNum, sh: RegNum, fn: nat)
    requires fn < 8 && CurrentWord(s) == RegisterForm(rs, rt, rd, sh, fn)
    ensures exists r: Word :: Calculates(ShiftUnit(fn), s.regs.regs[rt], if fn < 4 then sh else s.regs.regs[rs], r)
                              && OnlyWrites(s, ArchStep(s), rd, r)
  {
    hide CurrentWord, Decode, RegisterForm, Alu, Calculates, ShiftUnit;
    ShiftDecodes(rs, rt, rd, sh, fn);
    AluCalculates(ShiftUnit(fn), s.regs.regs[rt], if fn < 4 then sh else s.regs.regs[rs]);
    StepOfUnit(s);
  }

  /** The codes handled as an operation with a number. */
  predicate IsImmediate(op: nat) { (8 <= op < 0x20 && op != 0xF && op != 0x10) || 0x30 <= op < 0x40 }

  /** Their operation: add, add, less, less unsigned, and, or, exclusive or; the others pass the register on. */
  function ImmediateUnit(op: nat): AluOp
  {
    var low := op % 16;
    if low == 8 then 0 else if low == 9 then 1 else if low == 10 then 10 else if low == 11 then 11
    else if low == 12 then 4 else if low == 13 then 5 else if low == 14 then 6 else 15
  }

  lemma ImmediateDecodes(op: nat, rs: RegNum, rt: RegNum, imm: nat)
    requires IsImmediate(op) && imm < 0x1_0000
    ensures var w := ImmediateForm(op, rs, rt, imm);
            && w < WORD_LIMIT
            && Decode(w) == AluImm(ImmediateUnit(op), rs,
                                   if 8 <= op % 16 <= 10 then SignExtend(w) else ZeroExtend(w), rt)
  {
    hide Opcode, Rs, Rt, SignExtend, ZeroExtend, ImmediateForm;
    ImmediateFields(op, rs, rt, imm);
  }

  /** Operations with a number: sign-extended for the additions and the signed comparison, else extended
      with zeros. */
  lemma ImmediateMeans(s: Arch, op: nat, rs: RegNum, rt: RegNum, imm: nat)
    requires IsImmediate(op) && imm < 0x1_0000 && CurrentWord(s) == ImmediateForm(op, rs, rt, imm)
    ensures var number := if 8 <= op % 16 <= 10 then Offset(imm) % 0x1_0000_0000 else imm;
            exists r: Word :: Calculates(ImmediateUnit(op), s.regs.regs[rs], number, r)
                              && OnlyWrites(s, ArchStep(s), rt, r)
  {
    hide CurrentWord, Decode, ImmediateForm, Alu, Calculates, ImmediateUnit, SignExtend, ZeroExtend;
    ImmediateDecodes(op, rs, rt, imm);
    ImmediateFields(op, rs, rt, imm);
    AluCalculates(ImmediateUnit(op), s.regs.regs[rs],
                  if 8 <= op % 16 <= 10 then Offset(imm) % 0x1_0000_0000 else imm);
    StepOfUnit(s);
  }

  /** `lui` puts the number in the upper half of the register. */
  lemma UpperMeans(s: Arch, rs: RegNum, rt: RegNum, imm: nat)
    requires imm < 0x1_0000 && CurrentWord(s) == ImmediateForm(0xF, rs, rt, imm)
    ensures OnlyWrites(s, ArchStep(s), rt, imm * 0x1_0000)
  {
    hide CurrentWord, Opcode, Rs, Rt, SignExtend, ZeroExtend, ImmediateForm;
    ImmediateFields(0xF, rs, rt, imm);
  }

  // ----- fetching, and the addresses of devices

  /** The word at an address: from the boot ROM, which repeats every 16 kilobytes of 0xBFC00000 to
      0xBFC0FFFF, else from RAM at the physical address. */
  lemma FetchMeans(s: Arch)
    ensures 0xBFC0_0000 <= s.pc < 0xBFC1_0000 ==> CurrentWord(s) == s.ram.rom[s.pc % 0x4000 / 4]
    ensures !(0xBFC0_0000 <= s.pc < 0xBFC1_0000) ==>
              var x := PhysicalOf(s.slots, s.pc);
              CurrentWord(s) == (if x / 0x40_0000 % 2 == 1 then s.ram.extBank else s.ram.baseBank)[x % 0x40_0000 / 4]
  {
    hide Lookup, PhysicalOf;
    var x := PhysicalOf(s.slots, s.pc);
    if 0xBFC0_0000 <= s.pc < 0xBFC1_0000 {
      Refinement.KsegPhysical(s.slots, s.pc);
      RomRowIs(s.pc);
    } else {
      assert x / 4 % 0x10_0000 == x % 0x40_0000 / 4;
    }
  }

  lemma RomRowIs(pc: Word)
    requires 0xBFC0_0000 <= pc < 0xBFC1_0000
    ensures RomRow(Row(Physical(pc))) == pc % 0x4000 / 4
  {
    var d := pc - 0xBFC0_0000;
    assert Physical(pc) == 0x3FC0_0000 + d;
    assert Physical(pc) / 4 == 0xFF0_0000 + d / 4;
    assert Row(Physical(pc)) == d / 4;
    RomRepeats(d);
  }

  lemma RomRepeats(d: nat)
    ensures d / 4 % 0x1000 == (0xBFC0_0000 + d) % 0x4000 / 4
  {
    assert 0xBFC0_0000 == 0x2_FF00 * 0x4000;
    assert (0xBFC0_0000 + d) % 0x4000 == d % 0x4000;
  }

  /** The addresses the software uses for devices reach them: serial port control and data, the network
      chip's interrupt, index and data, the digit displays, the lights. */
  lemma SoftwareDevices(slots: Slots)
    ensures forall x | x in {0xBFD0_03FC, 0xBFD0_03F8, 0xBFD0_0014, 0xBFD0_0018, 0xBFD0_001C} ::
              ReadsDevice(PhysicalOf(slots, x))
    ensures forall x | x in {0xBFD0_0000, 0xBFD0_0004, 0xBFD0_0008, 0xBFD0_03F8, 0xBFD0_0018, 0xBFD0_001C} ::
              WritesDevice(PhysicalOf(slots, x))
  {
    hide PhysicalOf, Lookup;
    forall x | x in {0xBFD0_03FC, 0xBFD0_03F8, 0xBFD0_0014, 0xBFD0_0018, 0xBFD0_001C, 0xBFD0_0000, 0xBFD0_0004,
                     0xBFD0_0008}
      ensures PhysicalOf(slots, x) == x - 0x8000_0000
    {
      PhysicalIs(slots, x);
    }
  }

  /** The eight megabytes of RAM, wherever they repeat below 0xFD00000 of each 256 megabytes, are no device. */
  lemma RamIsFree(x: Word)
    requires x % 0x1000_0000 < 0xFD0_0000
    ensures DeviceFree(x)
  {
    var q, r := x / 0x1000_0000, x % 0x1000_0000;
    assert x / 0x1_0000 == q * 0x1000 + r / 0x1_0000;
  }

  // ----- the assembler's other lines

  lemma NoArgs(m: Asm.Mnemonic, os: seq<Asm.Operand>, points: Asm.Points, count: nat)
    requires Asm.FormatOf(m).kinds == []
    ensures Asm.InstructionWord(m, os, points, count) == Some(Asm.Encode(Asm.FormatOf(m).code, []))
  {
    hide Asm.Encode;
  }

  /** The lines without operands as words. */
  lemma BareLines(m: Asm.Mnemonic, points: Asm.Points, count: nat)
    requires m.Nop? || m.Eret? || m.Syscall? || m.Tlbwi?
    ensures Asm.InstructionWord(m, [], points, count)
            == Some(if m.Nop? then 0 else if m.Syscall? then 12 else if m.Eret? then 0x4200_0018 else 0x4200_0002)
  {
    hide Asm.InstructionWord;
    NoArgs(m, [], points, count);
  }

  /** The words of `eret` and `syscall` are decoded as what they are; the fetch stage's first edge says
      what they do. */
  lemma EretLine(points: Asm.Points, count: nat, w: Word)
    requires Asm.InstructionWord(Asm.Eret, [], points, count) == Some(w)
    ensures Decode(w) == Eret
  {
    hide Asm.InstructionWord, Decode;
    BareLines(Asm.Eret, points, count);
    EretDecodes();
  }

  lemma EretDecodes()
    ensures Decode(0x4200_0018) == Eret
  {
  }

  lemma SyscallLine(points: Asm.Points, count: nat, w: Word)
    requires Asm.InstructionWord(Asm.Syscall, [], points, count) == Some(w)
    ensures Decode(w) == Syscall
  {
    hide Asm.InstructionWord, Decode;
    BareLines(Asm.Syscall, points, count);
    SyscallDecodes();
  }

  lemma SyscallDecodes()
    ensures Decode(12) == Syscall
  {
  }

  lemma FormsAreWords(rs: RegNum, rt: RegNum, rd: RegNum, fn: nat)
    ensures CoprocessorForm(rs, rt, rd, fn) == Asm.RWord(0x10, rs, rt, rd, 0, fn)
    ensures RegisterForm(rs, rt, rd, 0, fn) == Asm.RWord(0, rs, rt, rd, 0, fn)
  {
  }

  lemma NopMeans(points: Asm.Points, count: nat, s: Arch)
    requires Asm.InstructionWord(Asm.Nop, [], points, count) == Some(CurrentWord(s))
    ensures Proceeds(s, ArchStep(s)) && KeepsRegisters(s, ArchStep(s)) && KeepsRest(s, ArchStep(s))
  {
    hide CurrentWord, ArchStep, Calculates, Asm.InstructionWord, RegisterForm, Asm.RWord;
    NoArgs(Asm.Nop, [], points, count);
    FormsAreWords(0, 0, 0, 0);
    ShiftMeans(s, 0, 0, 0, 0, 0);
  }

  /** `tlbwi` as assembled writes the slot the Index register names. */
  lemma TlbwiLine(points: Asm.Points, count: nat, s: Arch)
    requires Asm.InstructionWord(Asm.Tlbwi, [], points, count) == Some(CurrentWord(s))
    ensures CurrentWord(s) == CoprocessorForm(16, 0, 0, 2)
    ensures forall i | 0 <= i < 8 && i != s.special.c0[0] % 8 :: ArchStep(s).slots[i] == s.slots[i]
    ensures ArchStep(s).slots[s.special.c0[0] % 8].pair == s.special.c0[10] / 0x2000
  {
    hide CurrentWord, ArchStep, Asm.InstructionWord, CoprocessorForm, Asm.RWord;
    NoArgs(Asm.Tlbwi, [], points, count);
    FormsAreWords(16, 0, 0, 2);
    SlotWriteMeans(s, 16, 0, 0, 2);
  }

  lemma OneArg(m: Asm.Mnemonic, a: int, points: Asm.Points, count: nat)
    requires Asm.FormatOf(m).kinds == [Asm.R] && Asm.InstructionWord(m, [Asm.Reg(a)], points, count).Some?
    ensures 0 <= a < 32
    ensures Asm.InstructionWord(m, [Asm.Reg(a)], points, count) == Some(Asm.Encode(Asm.FormatOf(m).code, [a]))
  {
    hide Asm.Args, Asm.Encode, Asm.OperandBits, Asm.FormatOf;
    var kinds, os, b := Asm.FormatOf(m).kinds, [Asm.Reg(a)], Asm.IsBranch(m);
    Fields.ArgsOf(kinds, os, points, count, b);
    Fields.ArgsOf(kinds[1..], os[1..], points, count, b);
    Fields.RegisterBits(a, points, count, b);
    assert [a] + [] == [a];
  }

  lemma TwoArgs(m: Asm.Mnemonic, a: int, c: int, points: Asm.Points, count: nat)
    requires Asm.FormatOf(m).kinds == [Asm.R, Asm.R]
    requires Asm.InstructionWord(m, [Asm.Reg(a), Asm.Reg(c)], points, count).Some?
    ensures 0 <= a < 32 && 0 <= c < 32
    ensures Asm.InstructionWord(m, [Asm.Reg(a), Asm.Reg(c)], points, count)
            == Some(Asm.Encode(Asm.FormatOf(m).code, [a, c]))
  {
    hide Asm.Args, Asm.Encode, Asm.OperandBits, Asm.FormatOf;
    var kinds, os, b := Asm.FormatOf(m).kinds, [Asm.Reg(a), Asm.Reg(c)], Asm.IsBranch(m);
    Fields.ArgsOf(kinds, os, points, count, b);
    Fields.ArgsOf(kinds[1..], os[1..], points, count, b);
    Fields.ArgsOf(kinds[2..], os[2..], points, count, b);
    Fields.RegisterBits(a, points, count, b);
    Fields.RegisterBits(c, points, count, b);
    assert [a] + ([c] + []) == [a, c];
  }

  /** `jr` as assembled goes to its register after the delay slot. */
  lemma JrLine(rs: int, points: Asm.Points, count: nat, s: Arch)
    requires Asm.InstructionWord(Asm.Jr, [Asm.Reg(rs)], points, count) == Some(CurrentWord(s))
    ensures 0 <= rs < 32
    ensures var t := ArchStep(s);
            t.pc == s.npc && t.npc == s.regs.regs[rs] && KeepsRegisters(s, t) && KeepsRest(s, t)
  {
    hide CurrentWord, ArchStep, Asm.InstructionWord;
    OneArg(Asm.Jr, rs, points, count);
    assert CurrentWord(s) == RegisterForm(rs, 0, 0, 0, 8);
    JumpRegisterMeans(s, rs, 0, 0, 8);
  }

  /** `mfc0` and `mtc0` as assembled: the general register comes first, the coprocessor register second. */
  lemma CoprocessorLine(m: Asm.Mnemonic, rt: int, rd: int, points: Asm.Points, count: nat, s: Arch)
    requires m.Mfc0? || m.Mtc0?
    requires Asm.InstructionWord(m, [Asm.Reg(rt), Asm.Reg(rd)], points, count) == Some(CurrentWord(s))
    ensures 0 <= rt < 32 && 0 <= rd < 32
    ensures m.Mfc0? && rd != 9 ==> OnlyWrites(s, ArchStep(s), rt, s.special.c0[rd])
    ensures m.Mtc0? ==>
              && KeepsState(s, ArchStep(s))
              && forall k | 0 <= k < 32 ::
                   ArchStep(s).special.c0[k] == if k == rd && k != 9 then s.regs.regs[rt] else s.special.c0[k]
  {
    hide CurrentWord, ArchStep, Asm.InstructionWord;
    TwoArgs(m, rt, rd, points, count);
    var rs: RegNum := if m.Mfc0? then 0 else 4;
    assert CurrentWord(s) == CoprocessorForm(rs, rt, rd, 0);
    CoprocessorMoveMeans(s, rs, rt, rd);
  }

  lemma MemoryWord(m: Asm.Mnemonic, rt: int, v: int, rs: int, points: Asm.Points, count: nat)
    requires m.Lw? || m.Sw?
    requires Asm.InstructionWord(m, [Asm.Reg(rt), Asm.Number(v), Asm.Reg(rs)], points, count).Some?
    ensures 0 <= rt < 32 && 0 <= rs < 32 && -0x8000 <= v < 0x8000
    ensures Asm.InstructionWord(m, [Asm.Reg(rt), Asm.Number(v), Asm.Reg(rs)], points, count)
            == Some(ImmediateForm(if m.Lw? then 0x23 else 0x2B, rs, rt, if v < 0 then v + 0x1_0000 else v))
  {
    hide Asm.Args, Asm.SignedBits, Asm.UnsignedBits;
    var kinds, os := [Asm.R, Asm.I(16), Asm.R], [Asm.Reg(rt), Asm.Number(v), Asm.Reg(rs)];
    assert Asm.FormatOf(m).kinds == kinds;
    Fields.ArgsOf(kinds, os, points, count, false);
    Fields.ArgsOf(kinds[1..], os[1..], points, count, false);
    Fields.ArgsOf(kinds[2..], os[2..], points, count, false);
    Fields.ArgsOf(kinds[3..], os[3..], points, count, false);
    Fields.FieldBits(v);
    var bits := if v < 0 then v + 0x1_0000 else v;
    assert [rt] + ([bits] + ([rs] + [])) == [rt, bits, rs];
  }

  /** `lw` as assembled: the word at the last register plus the number, into the first register. */
  lemma LwLine(rt: int, v: int, rs: int, points: Asm.Points, count: nat, s: Arch)
    requires Asm.InstructionWord(Asm.Lw, [Asm.Reg(rt), Asm.Number(v), Asm.Reg(rs)], points, count)
             == Some(CurrentWord(s))
    ensures 0 <= rt < 32 && 0 <= rs < 32
    ensures var a := PhysicalOf(s.slots, (s.regs.regs[rs] + v) % 0x1_0000_0000);
            OnlyWrites(s, ArchStep(s), rt, FourBytes(s.ram, a))
  {
    hide CurrentWord, ArchStep, Asm.InstructionWord, PhysicalOf, FourBytes, ImmediateForm;
    MemoryWord(Asm.Lw, rt, v, rs, points, count);
    LoadMeans(s, 0x23, rs, rt, if v < 0 then v + 0x1_0000 else v);
  }

  /** `sw` as assembled: the first register into the word at the last register plus the number. */
  lemma SwLine(rt: int, v: int, rs: int, points: Asm.Points, count: nat, s: Arch, x: Word)
    requires Asm.InstructionWord(Asm.Sw, [Asm.Reg(rt), Asm.Number(v), Asm.Reg(rs)], points, count)
             == Some(CurrentWord(s))
    ensures 0 <= rt < 32 && 0 <= rs < 32
    ensures var a, t := PhysicalOf(s.slots, (s.regs.regs[rs] + v) % 0x1_0000_0000), ArchStep(s);
            && Proceeds(s, t) && KeepsRegisters(s, t)
            && ByteAt(t.ram, x) == if x % 0x80_0000 / 4 == a % 0x80_0000 / 4 then ByteOfWord(s.regs.regs[rt], x % 4)
                                   else ByteAt(s.ram, x)
  {
    hide CurrentWord, ArchStep, Asm.InstructionWord, PhysicalOf, ByteAt, ImmediateForm;
    MemoryWord(Asm.Sw, rt, v, rs, points, count);
    StoreMeans(s, 0x2B, rs, rt, if v < 0 then v + 0x1_0000 else v, x);
  }
}
