/** 32-bit machine words, their bit fields, and the option type used throughout. */
module Words {

  const WORD_LIMIT := 0x1_0000_0000

  /** A 32-bit word, read as an unsigned number. */
  type Word = w: int | 0 <= w < WORD_LIMIT

  datatype Option<+T> = None | Some(value: T)

  function Wrap(x: int): Word { x % WORD_LIMIT }

  /** The word read as a two's complement number. */
  function SignedValue(w: Word): int
  {
    if w < 0x8000_0000 then w else w - WORD_LIMIT
  }

  // ----- bit fields of an instruction

  function Pow2(n: nat): nat
    ensures Pow2(n) > 0
  {
    if n == 0 then 1 else 2 * Pow2(n - 1)
  }

  lemma {:induction false} Pow2Sum(m: nat, n: nat)
    ensures Pow2(m + n) == Pow2(m) * Pow2(n)
  {
    if m > 0 {
      Pow2Sum(m - 1, n);
    }
  }

  lemma Pow2Word()
    ensures Pow2(15) == 0x8000 && Pow2(16) == 0x1_0000 && Pow2(25) == 0x200_0000 && Pow2(26) == 0x400_0000
    ensures Pow2(31) == 0x8000_0000 && Pow2(32) == WORD_LIMIT
  {
    assert Pow2(4) == 16;
    Pow2Sum(4, 4);
    Pow2Sum(8, 8);
    Pow2Sum(16, 16);
    Pow2Sum(8, 2);
    Pow2Sum(16, 10);
  }

  /** Bit `k` of a number, of its two's complement when negative. */
  predicate Digit(x: int, k: nat)
    decreases k
  {
    if k == 0 then x % 2 == 1 else Digit(x / 2, k - 1)
  }

  /** Two numbers combined bit by bit over their low `bits` bits. */
  function Combine(f: (bool, bool) -> bool, a: nat, b: nat, bits: nat): (r: nat)
    ensures r < Pow2(bits)
  {
    if bits == 0 then 0
    else 2 * Combine(f, a / 2, b / 2, bits - 1) + if f(a % 2 == 1, b % 2 == 1) then 1 else 0
  }

  /** Bits `hi` to `lo` of a word are `(w / 2^lo) % 2^(hi - lo + 1)`; a single bit is a flag. */
  predicate Bit0(w: Word) { w % 2 == 1 }
  predicate Bit1(w: Word) { (w / 2) % 2 == 1 }
  predicate Bit2(w: Word) { (w / 4) % 2 == 1 }
  predicate Bit3(w: Word) { (w / 8) % 2 == 1 }
  predicate Bit5(w: Word) { (w / 0x20) % 2 == 1 }
  predicate Bit15(w: Word) { (w / 0x8000) % 2 == 1 }
  predicate Bit16(w: Word) { (w / 0x1_0000) % 2 == 1 }
  predicate Bit20(w: Word) { (w / 0x10_0000) % 2 == 1 }
  predicate Bit22(w: Word) { (w / 0x40_0000) % 2 == 1 }
  predicate Bit26(w: Word) { (w / 0x400_0000) % 2 == 1 }

  /** Register numbers, as the register file is indexed. */
  type RegNum = n: nat | n < 32

  function Opcode(w: Word): nat { w / 0x400_0000 }

  function Rs(w: Word): RegNum { (w / 0x20_0000) % 32 }

  function Rt(w: Word): RegNum { (w / 0x1_0000) % 32 }

  function Rd(w: Word): RegNum { (w / 0x800) % 32 }

  function Shamt(w: Word): RegNum { (w / 0x40) % 32 }

  function Funct(w: Word): nat { w % 0x40 }

  function ZeroExtend(w: Word): Word { w % 0x1_0000 }

  function SignExtend(w: Word): Word
  {
    if Bit15(w) then w % 0x1_0000 + 0xFFFF_0000 else w % 0x1_0000
  }

  // ----- pages

  type PageNumber = n: nat | n < 0x10_0000

  /** The page of an address: bits 31 to 12. */
  function Page(addr: Word): PageNumber { addr / 0x1000 }

  /** The address with its page replaced by a translated one. */
  function Translate(page: PageNumber, addr: Word): Word { page * 0x1000 + addr % 0x1000 }

  // ----- byte lanes

  /** The position of a byte in its word: the two low address bits. */
  type Lanes = n: nat | n < 4

  function BytePos(addr: Word): Lanes { addr % 4 }

  /** The byte lane of a big-endian word at a position. */
  function Lane(w: Word, pos: Lanes): (b: Word)
    ensures b < 0x100
  {
    if pos == 0 then w / 0x100_0000
    else if pos == 1 then (w / 0x1_0000) % 0x100
    else if pos == 2 then (w / 0x100) % 0x100
    else w % 0x100
  }

  /** Four bytes as a word, the first one most significant. */
  function BigEndian(b0: nat, b1: nat, b2: nat, b3: nat): Word
    requires b0 < 0x100 && b1 < 0x100 && b2 < 0x100 && b3 < 0x100
  {
    b0 * 0x100_0000 + b1 * 0x1_0000 + b2 * 0x100 + b3
  }

  /** The word with one byte lane replaced by the low byte of `data`. */
  function MergeLane(w: Word, pos: Lanes, data: Word): Word
  {
    var b := data % 0x100;
    if pos == 0 then BigEndian(b, Lane(w, 1), Lane(w, 2), Lane(w, 3))
    else if pos == 1 then BigEndian(Lane(w, 0), b, Lane(w, 2), Lane(w, 3))
    else if pos == 2 then BigEndian(Lane(w, 0), Lane(w, 1), b, Lane(w, 3))
    else BigEndian(Lane(w, 0), Lane(w, 1), Lane(w, 2), b)
  }

  lemma BigEndianLanes(b0: nat, b1: nat, b2: nat, b3: nat)
    requires b0 < 0x100 && b1 < 0x100 && b2 < 0x100 && b3 < 0x100
    ensures Lane(BigEndian(b0, b1, b2, b3), 0) == b0
    ensures Lane(BigEndian(b0, b1, b2, b3), 1) == b1
    ensures Lane(BigEndian(b0, b1, b2, b3), 2) == b2
    ensures Lane(BigEndian(b0, b1, b2, b3), 3) == b3
  {
    var w := BigEndian(b0, b1, b2, b3);
    assert w / 0x100_0000 == b0;
    assert w / 0x1_0000 == b0 * 0x100 + b1;
    assert w / 0x100 == (b0 * 0x100 + b1) * 0x100 + b2;
  }

  lemma LanesAssemble(w: Word)
    ensures BigEndian(Lane(w, 0), Lane(w, 1), Lane(w, 2), Lane(w, 3)) == w
  {
  }

  /** Replacing a lane changes that lane and no other. */
  lemma MergeLaneLanes(w: Word, pos: Lanes, data: Word, other: Lanes)
    ensures Lane(MergeLane(w, pos, data), other) == if other == pos then data % 0x100 else Lane(w, other)
  {
    var b := data % 0x100;
    var b0 := if pos == 0 then b else Lane(w, 0);
    var b1 := if pos == 1 then b else Lane(w, 1);
    var b2 := if pos == 2 then b else Lane(w, 2);
    var b3 := if pos == 3 then b else Lane(w, 3);
    BigEndianLanes(b0, b1, b2, b3);
  }
}
