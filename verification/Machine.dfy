/** The programmer's view of the processor: registers, memory, and a machine that
    executes one instruction at a time, with one delay slot after every jump. */
module Machine {
  import opened Words
  import opened Isa
  import opened Tlb

  /** General registers with the history of the writes made to them. */
  datatype RegFile = RegFile(regs: Registers, log: seq<(RegNum, Word)>)

  type Registers = r: seq<Word> | |r| == 32 witness seq(32, _ => 0)

  function Get(g: RegFile, r: RegNum): Word { g.regs[r] }

  function Set(g: RegFile, r: RegNum, v: Word): RegFile
  {
    if r == 0 then g else RegFile(g.regs[r := v], g.log + [(r, v)])
  }

  /** One RAM bank: 2^20 words. */
  type Bank = b: seq<Word> | |b| == 0x10_0000 witness seq(0x10_0000, _ => 0)

  /** The boot ROM: 2^12 words. */
  type Rom = r: seq<Word> | |r| == 0x1000 witness seq(0x1000, _ => 0)

  type Index = n: nat | n < 0x10_0000

  /** The two RAM banks and the boot ROM, with the history of RAM writes. */
  datatype Ram = Ram(baseBank: Bank, extBank: Bank, rom: Rom, log: seq<(bool, Index, Word)>)

  /** The row of a bank that an address selects: its bits 21 to 2. */
  function Row(addr: Word): Index { (addr / 4) % 0x10_0000 }

  type RomIndex = n: nat | n < 0x1000

  /** The ROM shares the low twelve address pins. */
  function RomRow(row: Index): RomIndex { row % 0x1000 }

  /** Address bit 22 selects the bank. */
  predicate InExtBank(addr: Word) { Bit22(addr) }

  function ReadWord(m: Ram, addr: Word): Word
  {
    (if InExtBank(addr) then m.extBank else m.baseBank)[Row(addr)]
  }

  function WriteRow(m: Ram, inExtBank: bool, row: Index, v: Word): Ram
  {
    if inExtBank then m.(extBank := m.extBank[row := v], log := m.log + [(true, row, v)])
    else m.(baseBank := m.baseBank[row := v], log := m.log + [(false, row, v)])
  }

  function WriteWord(m: Ram, addr: Word, v: Word): Ram
  {
    WriteRow(m, InExtBank(addr), Row(addr), v)
  }

  // ----- address translation

  predicate IsMapped(slots: Slots, addr: Word) { Lookup(slots, Page(addr)).Some? }

  /** The physical address; a page that is not mapped is left as it is. */
  function PhysicalOf(slots: Slots, addr: Word): Word
  {
    var found := Lookup(slots, Page(addr));
    if found.Some? then Translate(found.value, addr) else addr
  }

  /** The micro-operation with its address translated, as the memory stage receives it. */
  function Translated(slots: Slots, u: Uop): Uop
  {
    match u
    case LoadAt(addr, byteOnly, rd) => LoadAt(PhysicalOf(slots, addr), byteOnly, rd)
    case StoreAt(addr, byteOnly, data) => StoreAt(PhysicalOf(slots, addr), byteOnly, data)
    case _ => u
  }

  /** The slot write the entry registers ask for. */
  function WriteOf(s: Special): SlotWrite
  {
    SlotWrite(s.c0[INDEX], s.c0[ENTRY_HI], s.c0[ENTRY_LO0], s.c0[ENTRY_LO1])
  }

  /** The slots after instruction `i`: `tlbwi` copies the entry registers to the indexed one. */
  function SlotsAfter(i: Instr, s: Special, slots: Slots): Slots
  {
    if i.Tlbwi? then Written(slots, WriteOf(s)) else slots
  }

  /** The ROM is chosen by the virtual address. */
  predicate InRom(pc: Word) { pc / 0x1_0000 == 0xBFC0 }

  function Fetch(m: Ram, slots: Slots, pc: Word): Word
  {
    var addr := PhysicalOf(slots, pc);
    if InRom(pc) then m.rom[RomRow(Row(addr))] else ReadWord(m, addr)
  }

  /** Two addresses in the same RAM word. */
  predicate SameWord(a: Word, b: Word) { InExtBank(a) == InExtBank(b) && Row(a) == Row(b) }

  /** The word a load delivers to its register. */
  function Loaded(m: Ram, addr: Word, byteOnly: bool): Word
  {
    if byteOnly then Lane(ReadWord(m, addr), BytePos(addr)) else ReadWord(m, addr)
  }

  /** The word a store puts in memory: a byte store rewrites one lane of the word it finds. */
  function Stored(m: Ram, addr: Word, byteOnly: bool, data: Word): Word
  {
    if byteOnly then MergeLane(ReadWord(m, addr), BytePos(addr), data) else data
  }

  function PerformRegs(u: Uop, g: RegFile, m: Ram): RegFile
  {
    match u
    case WriteBack(v, rd) => Set(g, rd, v)
    case LoadAt(addr, byteOnly, rd) => Set(g, rd, Loaded(m, addr, byteOnly))
    case _ => g
  }

  function PerformRam(u: Uop, m: Ram): Ram
  {
    match u
    case StoreAt(addr, byteOnly, data) => WriteWord(m, addr, Stored(m, addr, byteOnly, data))
    case _ => m
  }

  // ----- the one-instruction-at-a-time machine

  /** `npc` is the address of the instruction after the one at `pc`. */
  datatype Arch = Arch(pc: Word, npc: Word, regs: RegFile, special: Special, slots: Slots, ram: Ram)

  function CurrentWord(s: Arch): Word { Fetch(s.ram, s.slots, s.pc) }

  function Current(s: Arch): Instr { Decode(CurrentWord(s)) }

  function Perform(s: Arch): Outcome
  {
    var i := Current(s);
    Effect(i, s.pc, Get(s.regs, RegA(i)), Get(s.regs, RegB(i)), s.special)
  }

  function Follow(npc: Word, jump: Option<Word>): Word
  {
    if jump.Some? then jump.value else Wrap(npc + 4)
  }

  function ArchStep(s: Arch): Arch
  {
    var o := Perform(s);
    var u := Translated(s.slots, o.uop);
    Arch(s.npc, Follow(s.npc, o.jump), PerformRegs(u, s.regs, s.ram), o.special,
         SlotsAfter(Current(s), s.special, s.slots), PerformRam(u, s.ram))
  }

  function ArchRun(s: Arch, n: nat): Arch
  {
    if n == 0 then s else ArchStep(ArchRun(s, n - 1))
  }

  // ----- the runs the pipeline is meant for

  /** Kernel segments kseg0 and kseg1, translated by dropping the two top bits. */
  predicate Kseg(addr: Word) { addr / 0x4000_0000 == 2 }

  /** Low address bits that select a device when read, or when written. */
  predicate ReadsDevice(addr: Word)
  {
    addr % 0x1000_0000 in {0xFD0_03FC, 0xFD0_03F8, 0xFD0_0018, 0xFD0_001C, 0xFD0_0014}
  }

  predicate WritesDevice(addr: Word)
  {
    || (addr / 0x1_0000) % 0x1000 == 0xFD1
    || addr % 0x1000_0000 in {0xFD0_0000, 0xFD0_0004, 0xFD0_0008, 0xFD0_03F8, 0xFD0_0018, 0xFD0_001C}
  }

  predicate DeviceFree(addr: Word) { !ReadsDevice(addr) && !WritesDevice(addr) }

  predicate TouchesRamOnly(slots: Slots, u: Uop)
  {
    (u.LoadAt? || u.StoreAt?) ==> IsMapped(slots, u.addr) && DeviceFree(PhysicalOf(slots, u.addr))
  }

  /** The address after translation in a kernel segment. */
  function Physical(addr: Word): Word { addr % 0x4000_0000 }

  /** Words holding program text, by their place in RAM. */
  type Code = iset<(bool, Index)>

  predicate InCode(code: Code, addr: Word) { (InExtBank(addr), Row(addr)) in code }

  /** The instruction at `pc` is fetched from the boot ROM or from the program text. */
  predicate InText(code: Code, slots: Slots, pc: Word) { InRom(pc) || InCode(code, PhysicalOf(slots, pc)) }

  /** The page a micro-operation accesses, if any, is where it was. */
  predicate SamePlace(before: Slots, after: Slots, u: Uop)
  {
    (u.LoadAt? || u.StoreAt?) ==> Lookup(after, Page(u.addr)) == Lookup(before, Page(u.addr))
  }

  /** The next instruction is a `tlbwi` that moves the page this one loads from or stores to. */
  predicate RemapsOwnPage(s: Arch)
  {
    var n := ArchStep(s);
    !SamePlace(n.slots, SlotsAfter(Current(n), n.special, n.slots), Perform(s).uop)
  }

  /** The next instruction and its successor are mapped and the former lies in the program text; it
      runs with interrupts masked, uses only mapped RAM addresses, stores outside the program text,
      and does not access a page that the instruction after it moves. */
  predicate WellBehaved(s: Arch, code: Code)
  {
    && IsMapped(s.slots, s.pc) && IsMapped(SlotsAfter(Current(s), s.special, s.slots), s.npc)
    && InText(code, s.slots, s.pc)
    && Plain(Current(s))
    && !InterruptsEnabled(s.special.c0)
    && TouchesRamOnly(s.slots, Perform(s).uop)
    && (Perform(s).uop.StoreAt? ==> !InCode(code, PhysicalOf(s.slots, Perform(s).uop.addr)))
    && !RemapsOwnPage(s)
  }

  // ----- the slot writes of a program

  /** The slot writes executed by the first `k` instructions. */
  function SlotWrites(s: Arch, k: nat): seq<SlotWrite>
  {
    if k == 0 then []
    else
      var b := ArchRun(s, k - 1);
      SlotWrites(s, k - 1) + if Current(b).Tlbwi? then [WriteOf(b.special)] else []
  }

  /** The slots of a running program are those of its slot writes. */
  lemma {:induction false} SlotsAreWritten(s: Arch, k: nat)
    requires s.slots == NoSlots()
    ensures ArchRun(s, k).slots == AfterWrites(SlotWrites(s, k))
  {
    hide Written, Current, Perform, ArchStep, WriteOf;
    if k > 0 {
      SlotsAreWritten(s, k - 1);
      var b := ArchRun(s, k - 1);
      StepSlots(b);
      OneMoreWrite(SlotWrites(s, k - 1), WriteOf(b.special));
    }
  }

  lemma StepSlots(s: Arch)
    ensures ArchStep(s).slots == SlotsAfter(Current(s), s.special, s.slots)
  {
    hide SlotsAfter, Current, Perform, Translated;
  }

  lemma OneMoreWrite(ws: seq<SlotWrite>, w: SlotWrite)
    ensures AfterWrites(ws + [w]) == Written(AfterWrites(ws), w) && ws + [] == ws
  {
    hide Written;
    assert (ws + [w])[..|ws|] == ws;
  }
}
