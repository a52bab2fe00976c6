/** The word memory with byte stores behaves as a big-endian array of bytes. */
module ByteMemory {
  import opened Words
  import opened Isa
  import opened Machine
  import opened Pipeline
  import opened Refinement

  /** The byte at an address; RAM repeats every 8 megabytes. */
  function ByteAt(m: Ram, addr: Word): Word
  {
    Lane(ReadWord(m, addr), BytePos(addr))
  }

  predicate SameByte(a: Word, b: Word) { a % 0x80_0000 == b % 0x80_0000 }

  /** Bank, row and lane together name each byte of the 8 megabytes once. */
  lemma ByteNames(a: Word, b: Word)
    ensures SameByte(a, b) <==> SameWord(a, b) && BytePos(a) == BytePos(b)
  {
    hide Row, InExtBank, BytePos;
    ByteAddress(a);
    ByteAddress(b);
  }

  lemma ByteAddress(a: Word)
    ensures a % 0x80_0000 == (if InExtBank(a) then 0x40_0000 else 0) + Row(a) * 4 + BytePos(a)
  {
    var q := a / 0x80_0000;
    var r := a % 0x80_0000;
    assert a == r + q * 0x80_0000;
    assert a / 4 == r / 4 + q * 2 * 0x10_0000;
    assert a / 0x40_0000 == r / 0x40_0000 + q * 2;
  }

  /** A byte store changes exactly one byte of memory. */
  lemma StoreByteChangesOne(m: Ram, addr: Word, data: Word, other: Word)
    ensures ByteAt(PerformRam(StoreAt(addr, true, data), m), other)
            == if SameByte(other, addr) then data % 0x100 else ByteAt(m, other)
  {
    hide Row, InExtBank, Lane, MergeLane, BytePos, SameByte;
    ByteNames(other, addr);
    MergeLaneLanes(ReadWord(m, addr), BytePos(addr), data, BytePos(other));
  }

  /** A word store replaces the four bytes of its word by those of the data, and no others. */
  lemma StoreWordChangesFour(m: Ram, addr: Word, data: Word, other: Word)
    ensures ByteAt(PerformRam(StoreAt(addr, false, data), m), other)
            == if SameWord(other, addr) then Lane(data, BytePos(other)) else ByteAt(m, other)
  {
    hide Row, InExtBank, Lane, BytePos;
  }

  /** A word load assembles four consecutive bytes, the first one most significant. */
  lemma LoadWordAssembles(m: Ram, addr: Word)
    requires addr % 4 == 0
    ensures Loaded(m, addr, false)
            == BigEndian(ByteAt(m, addr), ByteAt(m, addr + 1), ByteAt(m, addr + 2), ByteAt(m, addr + 3))
  {
    hide ReadWord, BigEndian, Lane;
    var w := ReadWord(m, addr);
    LaterByte(m, addr, 1);
    LaterByte(m, addr, 2);
    LaterByte(m, addr, 3);
    LanesAssemble(w);
  }

  lemma LaterByte(m: Ram, addr: Word, k: nat)
    requires addr % 4 == 0 && k < 4
    ensures addr + k < WORD_LIMIT
    ensures ByteAt(m, addr + k) == Lane(ReadWord(m, addr), k)
  {
    hide Lane;
    assert (addr + k) / 4 == addr / 4;
    assert (addr + k) / 0x40_0000 == addr / 0x40_0000;
  }

  /** The two passes of a byte store in the pipeline: during the first pass the execute stage is
      frozen and RAM is untouched, the second writes exactly the byte, and the execute stage then
      hands on the instruction it kept. */
  lemma TwoPassStore(p: Pipe, code: Code, other: Word)
    requires Consistent(p, code)
    requires p.mem.StoreAt? && p.mem.byteOnly
    ensures Step(p).ram == p.ram && Step(p).ex == p.ex && Held(p)
    ensures Step(Step(p)).mem == Translated(BufferSlots(Step(p)), p.ex) && Step(Step(p)).rewrite.None?
    ensures ByteAt(Step(Step(p)).ram, other)
            == if SameByte(other, p.mem.addr) then p.mem.data % 0x100 else ByteAt(p.ram, other)
  {
    hide Stored, WriteWord, Issue, Hazard, Decoded, NextFetch, NextLast, ByteAt, SameByte, WriteBackStage, DeviceFree,
         Translated, BufferSlots, SteadyPage;
    assert Step(Step(p)).ram == PerformRam(p.mem, p.ram);
    StoreByteChangesOne(p.ram, p.mem.addr, p.mem.data, other);
  }
}
