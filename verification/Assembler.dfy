/** The assembler: its instruction table, the encoding of one line, and its single pass. */
module Assembler {
  import opened Words

  // ----- the instruction table

  datatype Mnemonic =
    | Add | Addu | Sub | Subu | And | Or | Xor | Nor | Slt | Sltu
    | Sll | Srl | Sra | Sllv | Srlv | Srav | Jr
    | Addi | Addiu | Andi | Ori | Xori | Lui | Lw | Sw | Beq | Bne | Slti | Sltiu
    | J | Jal | Nop | Eret | Syscall | Mfc0 | Mtc0 | Tlbwi

  datatype Operand = Reg(n: int) | Number(v: int) | Label(name: string)

  type Width = n: nat | n > 0 witness 1

  /** What an operand position accepts: a register, or an unsigned or signed number of some width. */
  datatype Kind = R | U(width: Width) | I(width: Width)

  /** A field of the code: fixed, or taken from an operand. */
  datatype Field = Fixed(value: nat) | A | B | C

  datatype Code =
    | RCode(op: nat, rs: Field, rt: Field, rd: Field, shamt: Field, funct: nat)
    | ICode(op: nat, rs: Field, rt: Field, imm: Field)
    | JCode(op: nat, target: Field)

  datatype Format = Format(kinds: seq<Kind>, code: Code)

  const ZERO := Fixed(0)

  function ThreeRegisters(funct: nat): Format { Format([R, R, R], RCode(0, B, C, A, ZERO, funct)) }

  function ShiftByNumber(funct: nat): Format { Format([R, R, U(5)], RCode(0, ZERO, B, A, C, funct)) }

  function ShiftByRegister(funct: nat): Format { Format([R, R, R], RCode(0, C, B, A, ZERO, funct)) }

  function WithNumber(op: nat, kind: Kind): Format { Format([R, R, kind], ICode(op, B, A, C)) }

  function FormatOf(m: Mnemonic): Format
  {
    match m
    case Add => ThreeRegisters(0x20)
    case Addu => ThreeRegisters(0x21)
    case Sub => ThreeRegisters(0x22)
    case Subu => ThreeRegisters(0x23)
    case And => ThreeRegisters(0x24)
    case Or => ThreeRegisters(0x25)
    case Xor => ThreeRegisters(0x26)
    case Nor => ThreeRegisters(0x27)
    case Slt => ThreeRegisters(0x2A)
    case Sltu => ThreeRegisters(0x2B)
    case Sll => ShiftByNumber(0)
    case Srl => ShiftByNumber(2)
    case Sra => ShiftByNumber(3)
    case Sllv => ShiftByRegister(4)
    case Srlv => ShiftByRegister(6)
    case Srav => ShiftByRegister(7)
    case Jr => Format([R], RCode(0, A, ZERO, ZERO, ZERO, 8))
    case Addi => WithNumber(8, I(16))
    case Addiu => WithNumber(9, U(16))
    case Andi => WithNumber(0xC, U(16))
    case Ori => WithNumber(0xD, U(16))
    case Xori => WithNumber(0xE, U(16))
    case Lui => Format([R, U(16)], ICode(0xF, ZERO, A, B))
    case Lw => Format([R, I(16), R], ICode(0x23, C, A, B))
    case Sw => Format([R, I(16), R], ICode(0x2B, C, A, B))
    case Beq => Format([R, R, I(16)], ICode(4, A, B, C))
    case Bne => Format([R, R, I(16)], ICode(5, A, B, C))
    case Slti => WithNumber(0xA, I(16))
    case Sltiu => WithNumber(0xB, U(16))
    case J => Format([U(26)], JCode(2, A))
    case Jal => Format([U(26)], JCode(3, A))
    case Nop => Format([], RCode(0, ZERO, ZERO, ZERO, ZERO, 0))
    case Eret => Format([], RCode(0x10, Fixed(0x10), ZERO, ZERO, ZERO, 0x18))
    case Syscall => Format([], RCode(0, ZERO, ZERO, ZERO, ZERO, 0xC))
    case Mfc0 => Format([R, R], RCode(0x10, ZERO, A, B, ZERO, 0))
    case Mtc0 => Format([R, R], RCode(0x10, Fixed(4), A, B, ZERO, 0))
    case Tlbwi => Format([], RCode(0x10, Fixed(0x10), ZERO, ZERO, ZERO, 2))
  }

  // ----- encoding

  /** The value of a field, from the encoded operands. */
  function FieldValue(f: Field, args: seq<nat>): nat
  {
    match f
    case Fixed(v) => v
    case A => if |args| > 0 then args[0] else 0
    case B => if |args| > 1 then args[1] else 0
    case C => if |args| > 2 then args[2] else 0
  }

  function RWord(op: nat, rs: nat, rt: nat, rd: nat, shamt: nat, funct: nat): nat
  {
    ((((op * 32 + rs) * 32 + rt) * 32 + rd) * 32 + shamt) * 64 + funct
  }

  function IWord(op: nat, rs: nat, rt: nat, imm: nat): nat
  {
    ((op * 32 + rs) * 32 + rt) * 0x1_0000 + imm
  }

  function JWord(op: nat, target: nat): nat { op * 0x400_0000 + target }

  function Encode(code: Code, args: seq<nat>): nat
  {
    match code
    case RCode(op, rs, rt, rd, sh, fn) =>
      RWord(op, FieldValue(rs, args), FieldValue(rt, args), FieldValue(rd, args), FieldValue(sh, args), fn)
    case ICode(op, rs, rt, imm) => IWord(op, FieldValue(rs, args), FieldValue(rt, args), FieldValue(imm, args))
    case JCode(op, target) => JWord(op, FieldValue(target, args))
  }

  predicate FitsSigned(v: int, width: Width)
  {
    var half: int := Pow2(width - 1);
    -half <= v < half
  }

  function SignedBits(v: int, width: Width): Option<nat>
  {
    if FitsSigned(v, width) then Some(v % Pow2(width)) else None
  }

  function UnsignedBits(v: int, width: Width): Option<nat>
  {
    if 0 <= v < Pow2(width) then Some(v) else None
  }

  /** The labels seen so far, each with the number of instructions before it. */
  type Points = map<string, nat>

  /** A label stands for its line in a jump and for its distance in a branch; its bits are
      taken as signed whatever the position asks for. */
  function LabelBits(width: Width, name: string, points: Points, count: nat, branch: bool): Option<nat>
  {
    if name !in points then None
    else SignedBits(if branch then points[name] - 1 - count else points[name], width)
  }

  function OperandBits(kind: Kind, o: Operand, points: Points, count: nat, branch: bool): Option<nat>
  {
    match o
    case Reg(n) => if kind.R? && 0 <= n < 32 then Some(n) else None
    case Number(v) =>
      (match kind
       case R => None
       case U(width) => UnsignedBits(v, width)
       case I(width) => SignedBits(v, width))
    case Label(name) => if kind.R? then None else LabelBits(kind.width, name, points, count, branch)
  }

  /** The operands the format needs, encoded; `None` when one is missing or does not fit. */
  function Args(kinds: seq<Kind>, os: seq<Operand>, points: Points, count: nat, branch: bool): Option<seq<nat>>
  {
    if kinds == [] then Some([])
    else if os == [] then None
    else
      var v := OperandBits(kinds[0], os[0], points, count, branch);
      var rest := Args(kinds[1..], os[1..], points, count, branch);
      if v.Some? && rest.Some? then Some([v.value] + rest.value) else None
  }

  predicate IsBranch(m: Mnemonic) { m.Beq? || m.Bne? }

  /** The word for one instruction line, `None` when the assembler fails on it. */
  function InstructionWord(m: Mnemonic, os: seq<Operand>, points: Points, count: nat): Option<nat>
  {
    var args := Args(FormatOf(m).kinds, os, points, count, IsBranch(m));
    if args.Some? then Some(Encode(FormatOf(m).code, args.value)) else None
  }

  // ----- the single pass

  /** A line without its comment, split at its mnemonic; `Unknown` has none of the table. */
  datatype Line = Blank | Mark(name: string) | Instruction(mnemonic: Mnemonic, operands: seq<Operand>) | Unknown

  /** What the pass has produced: the labels and the words, one for each instruction. */
  datatype Output = Output(points: Points, words: seq<nat>)

  function ParsedLine(out: Output, line: Line): Option<Output>
  {
    match line
    case Blank => Some(out)
    case Mark(name) => Some(out.(points := out.points[name := |out.words|]))
    case Instruction(m, os) =>
      var w := InstructionWord(m, os, out.points, |out.words|);
      if w.Some? then Some(out.(words := out.words + [w.value])) else None
    case Unknown => None
  }

  function Parsed(lines: seq<Line>): Option<Output>
  {
    if lines == [] then Some(Output(map[], []))
    else
      var out := Parsed(lines[..|lines| - 1]);
      if out.Some? then ParsedLine(out.value, lines[|lines| - 1]) else None
  }

  datatype LineCode = NoCode | Assembled(word: nat) | Failed

  /** The assembler's two variables. */
  class LineParser {
    var points: Points
    var count: nat

    constructor ()
      ensures points == map[] && count == 0
    {
      points, count := map[], 0;
    }

    /** Parses the line after those that gave `out`. */
    method ParseLine(line: Line, ghost out: Output) returns (r: LineCode)
      requires points == out.points && count == |out.words|
      modifies this
      ensures r.Failed? <==> ParsedLine(out, line).None?
      ensures r.Failed? ==> points == old(points) && count == old(count)
      ensures !r.Failed? ==>
                var after := ParsedLine(out, line).value;
                points == after.points && count == |after.words|
                && after.words == out.words + (if r.Assembled? then [r.word] else [])
    {
      hide InstructionWord;
      match line {
        case Blank => r := NoCode;
        case Mark(name) =>
          points := points[name := count];
          r := NoCode;
        case Instruction(mnemonic, operands) =>
          var w := InstructionWord(mnemonic, operands, points, count);
          if w.None? {
            r := Failed;
          } else {
            count := count + 1;
            r := Assembled(w.value);
          }
        case Unknown => r := Failed;
      }
    }
  }

  /** The main program: all lines in order, giving up at the first that fails. */
  method Assemble(lines: seq<Line>) returns (words: Option<seq<nat>>)
    ensures words == match Parsed(lines) case Some(out) => Some(out.words) case None => None
  {
    hide ParsedLine;
    var parser := new LineParser();
    var ret: seq<nat> := [];
    var i := 0;
    ghost var out := Output(map[], []);
    while i < |lines|
      invariant 0 <= i <= |lines|
      invariant Parsed(lines[..i]) == Some(out)
      invariant parser.points == out.points && parser.count == |out.words| && ret == out.words
    {
      assert lines[..i + 1][..i] == lines[..i];
      var code := parser.ParseLine(lines[i], out);
      if code.Failed? {
        FailureLasts(lines, i + 1);
        return None;
      }
      if code.Assembled? {
        ret := ret + [code.word];
      }
      out := ParsedLine(out, lines[i]).value;
      i := i + 1;
    }
    assert lines[..i] == lines;
    words := Some(ret);
  }

  /** When some first lines fail, so do all. */
  lemma {:induction false} FailureLasts(lines: seq<Line>, n: nat)
    requires n <= |lines| && Parsed(lines[..n]).None?
    ensures Parsed(lines).None?
  {
    if n < |lines| {
      assert lines[..|lines| - 1][..n] == lines[..n];
      FailureLasts(lines[..|lines| - 1], n);
    } else {
      assert lines[..n] == lines;
    }
  }

  /** The instruction lines among the first `n`. */
  function Instructions(lines: seq<Line>, n: nat): nat
    requires n <= |lines|
  {
    if n == 0 then 0 else Instructions(lines, n - 1) + if lines[n - 1].Instruction? then 1 else 0
  }

  /** The last of the first `n` lines that marks `name`. */
  predicate LastMark(lines: seq<Line>, n: nat, name: string, at: nat)
  {
    at < n <= |lines| && lines[at] == Mark(name) && forall j :: at < j < n ==> lines[j] != Mark(name)
  }

  /** A label names the instruction after its last mark, counting from 0, and labels known are
      exactly those marked before. */
  lemma {:induction false} PointsAreMarks(lines: seq<Line>, n: nat, name: string)
    requires n <= |lines| && Parsed(lines[..n]).Some?
    ensures var out := Parsed(lines[..n]).value;
            && |out.words| == Instructions(lines, n)
            && (name in out.points ==>
                  exists at :: LastMark(lines, n, name, at) && out.points[name] == Instructions(lines, at))
            && (name !in out.points ==> forall j :: 0 <= j < n ==> lines[j] != Mark(name))
            && (name in out.points ==> out.points[name] <= |out.words|)
  {
    hide InstructionWord;
    if n > 0 {
      assert lines[..n][..n - 1] == lines[..n - 1];
      PointsAreMarks(lines, n - 1, name);
      var out := Parsed(lines[..n]).value;
      var before := Parsed(lines[..n - 1]).value;
      if lines[n - 1] == Mark(name) {
        assert LastMark(lines, n, name, n - 1);
      } else if name in before.points {
        var at :| LastMark(lines, n - 1, name, at) && before.points[name] == Instructions(lines, at);
        assert LastMark(lines, n, name, at);
      }
    }
  }

  /** Words already produced stay as they are. */
  lemma {:induction false} WordsStay(lines: seq<Line>, n: nat, m: nat)
    requires n <= m <= |lines| && Parsed(lines[..m]).Some?
    ensures Parsed(lines[..n]).Some? && Parsed(lines[..n]).value.words <= Parsed(lines[..m]).value.words
  {
    hide InstructionWord;
    if n < m {
      assert lines[..m][..m - 1] == lines[..m - 1];
      WordsStay(lines, n, m - 1);
    }
  }

  // ----- which lines are accepted

  /** Operand `i` is a register of the machine. */
  predicate RegisterAt(os: seq<Operand>, i: nat)
  {
    i < |os| && os[i].Reg? && 0 <= os[i].n < 32
  }

  /** Operand `i` is a number from `low` on and below `high`, or a known label that, less `base`, is a signed
      number below `half`. */
  predicate NumberAt(os: seq<Operand>, i: nat, low: int, high: int, points: Points, base: int, half: int)
  {
    && i < |os|
    && match os[i]
       case Reg(_) => false
       case Number(v) => low <= v < high
       case Label(name) => name in points && -half <= points[name] - base < half
  }

  /** The operands a mnemonic takes; further ones are not looked at. */
  predicate Takes(m: Mnemonic, os: seq<Operand>, points: Points, count: nat)
  {
    match m
    case Add | Addu | Sub | Subu | And | Or | Xor | Nor | Slt | Sltu | Sllv | Srlv | Srav =>
      RegisterAt(os, 0) && RegisterAt(os, 1) && RegisterAt(os, 2)
    case Sll | Srl | Sra => RegisterAt(os, 0) && RegisterAt(os, 1) && NumberAt(os, 2, 0, 32, points, 0, 16)
    case Addi | Slti =>
      RegisterAt(os, 0) && RegisterAt(os, 1) && NumberAt(os, 2, -0x8000, 0x8000, points, 0, 0x8000)
    case Addiu | Andi | Ori | Xori | Sltiu =>
      RegisterAt(os, 0) && RegisterAt(os, 1) && NumberAt(os, 2, 0, 0x1_0000, points, 0, 0x8000)
    case Lui => RegisterAt(os, 0) && NumberAt(os, 1, 0, 0x1_0000, points, 0, 0x8000)
    case Lw | Sw =>
      RegisterAt(os, 0) && NumberAt(os, 1, -0x8000, 0x8000, points, 0, 0x8000) && RegisterAt(os, 2)
    case Beq | Bne =>
      RegisterAt(os, 0) && RegisterAt(os, 1) && NumberAt(os, 2, -0x8000, 0x8000, points, count + 1, 0x8000)
    case J | Jal => NumberAt(os, 0, 0, 0x400_0000, points, 0, 0x200_0000)
    case Jr => RegisterAt(os, 0)
    case Mfc0 | Mtc0 => RegisterAt(os, 0) && RegisterAt(os, 1)
    case Nop | Eret | Syscall | Tlbwi => true
  }

  lemma {:induction false} ArgsFit(kinds: seq<Kind>, os: seq<Operand>, points: Points, count: nat, branch: bool)
    ensures Args(kinds, os, points, count, branch).Some?
            <==> |os| >= |kinds|
                 && forall i | 0 <= i < |kinds| :: OperandBits(kinds[i], os[i], points, count, branch).Some?
  {
    hide OperandBits;
    if kinds != [] && os != [] {
      ArgsFit(kinds[1..], os[1..], points, count, branch);
      assert forall i | 0 < i < |kinds| && i < |os| :: kinds[i] == kinds[1..][i - 1] && os[i] == os[1..][i - 1];
      assert forall i | 0 <= i < |kinds| - 1 :: kinds[1..][i] == kinds[i + 1];
    }
  }

  lemma Limits(v: int)
    ensures UnsignedBits(v, 5).Some? == (0 <= v < 32) && SignedBits(v, 5).Some? == (-16 <= v < 16)
    ensures UnsignedBits(v, 16).Some? == (0 <= v < 0x1_0000) && SignedBits(v, 16).Some? == (-0x8000 <= v < 0x8000)
    ensures UnsignedBits(v, 26).Some? == (0 <= v < 0x400_0000)
    ensures SignedBits(v, 26).Some? == (-0x200_0000 <= v < 0x200_0000)
  {
    assert Pow2(5) == 32 && Pow2(4) == 16;
    hide Pow2;
    Pow2Word();
  }

  /** Operand `i` has what a kind of the table asks for. */
  predicate Suits(kind: Kind, os: seq<Operand>, i: nat, points: Points, base: int)
  {
    match kind
    case R => RegisterAt(os, i)
    case U(5) => NumberAt(os, i, 0, 32, points, base, 16)
    case U(16) => NumberAt(os, i, 0, 0x1_0000, points, base, 0x8000)
    case U(_) => NumberAt(os, i, 0, 0x400_0000, points, base, 0x200_0000)
    case I(_) => NumberAt(os, i, -0x8000, 0x8000, points, base, 0x8000)
  }

  predicate InTable(kind: Kind) { kind.R? || kind == U(5) || kind == U(16) || kind == I(16) || kind == U(26) }

  lemma OperandFits(kind: Kind, os: seq<Operand>, i: nat, points: Points, count: nat, branch: bool)
    requires InTable(kind)
    ensures i < |os| && OperandBits(kind, os[i], points, count, branch).Some?
            <==> Suits(kind, os, i, points, if branch then count + 1 else 0)
  {
    hide SignedBits, UnsignedBits;
    if i < |os| && os[i].Number? {
      Limits(os[i].v);
    }
    if i < |os| && os[i].Label? && os[i].name in points {
      var at := points[os[i].name];
      Limits(if branch then at - 1 - count else at);
    }
  }

  /** The kinds a mnemonic's operands have. */
  lemma KindsOf(m: Mnemonic)
    ensures |FormatOf(m).kinds| <= 3 && forall i | 0 <= i < |FormatOf(m).kinds| :: InTable(FormatOf(m).kinds[i])
  {
  }

  lemma EachSuits(m: Mnemonic, os: seq<Operand>, points: Points, count: nat)
    ensures var kinds, base := FormatOf(m).kinds, if IsBranch(m) then count + 1 else 0;
            InstructionWord(m, os, points, count).Some?
            <==> (|kinds| > 0 ==> Suits(kinds[0], os, 0, points, base))
                 && (|kinds| > 1 ==> Suits(kinds[1], os, 1, points, base))
                 && (|kinds| > 2 ==> Suits(kinds[2], os, 2, points, base))
  {
    hide OperandBits, Suits, Args, Encode, FormatOf, InTable, IsBranch;
    var kinds, branch := FormatOf(m).kinds, IsBranch(m);
    KindsOf(m);
    ArgsFit(kinds, os, points, count, branch);
    if |kinds| > 0 {
      OperandFits(kinds[0], os, 0, points, count, branch);
    }
    if |kinds| > 1 {
      OperandFits(kinds[1], os, 1, points, count, branch);
    }
    if |kinds| > 2 {
      OperandFits(kinds[2], os, 2, points, count, branch);
    }
  }

  /** A line is assembled if and only if its mnemonic takes its operands. */
  lemma AcceptedExactly(m: Mnemonic, os: seq<Operand>, points: Points, count: nat)
    ensures InstructionWord(m, os, points, count).Some? <==> Takes(m, os, points, count)
  {
    hide InstructionWord, RegisterAt, NumberAt;
    EachSuits(m, os, points, count);
  }
}
