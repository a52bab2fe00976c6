/** Concrete programs: accesses that the next instruction moves, and a program that maps a page and
    stores and loads a byte in it. */
module Programs {
  import opened Words
  import opened Isa
  import opened Tlb
  import opened Machine
  import opened Pipeline
  import opened Refinement
  import opened Liveness
  import opened Computer

  // ----- a load directly before a `tlbwi`

  const TLBWI: Word := 0x4200_0002

  /** A load from virtual page 5 in the execute stage, slot 0 mapping the page to `frame`, and a `tlbwi`
      in decode that replaces the page's EntryLo by `lo1`. */
  function RemapPipe(ram: Ram, addr: Word, frame: PageNumber, lo1: Word): Pipe
  {
    Pipe(0x8000_0000, 0x8000_0000, false, None, LoadAt(addr, false, 4), Bubble, None, None, 4, 0,
         RegFile(seq(32, _ => 0), []),
         Special(0, 0, seq(32, _ => 0)[ENTRY_HI := 0x4000][ENTRY_LO1 := lo1]),
         NoSlots()[0 := Slot(2, Half(0, false, false), Half(frame, false, true))], ram)
  }

  const REMAP_CODE: Code := iset{(false, 0)}

  lemma RemapDecodes(ram: Ram, addr: Word, frame: PageNumber, lo1: Word)
    requires ram.baseBank[0] == TLBWI
    ensures var p := RemapPipe(ram, addr, frame, lo1);
            && Decoded(p) == Tlbwi && InText(REMAP_CODE, p.slots, p.pc)
            && BufferSlots(p) == p.slots[0 := Slot(2, Half(0, false, false), HalfOf(lo1))]
  {
    hide Lookup, PhysicalOf, HalfOf;
    var p := RemapPipe(ram, addr, frame, lo1);
    KsegPhysical(p.slots, 0x8000_0000);
    assert Row(0) == 0;
    assert Decode(TLBWI) == Tlbwi;
    assert HalfOf(0) == Half(0, false, false) by { EmptyHalf(); }
  }

  lemma RemapFields(ram: Ram, addr: Word, frame: PageNumber, lo1: Word)
    ensures var p := RemapPipe(ram, addr, frame, lo1);
            && p.ex == LoadAt(addr, false, 4) && p.mem == Bubble && p.rewrite == None && MemRam(p) == ram
            && p.slots == NoSlots()[0 := Slot(2, Half(0, false, false), Half(frame, false, true))]
            && !Freezes(p.mem, p.rewrite)
  {
  }

  lemma EmptyHalf()
    ensures HalfOf(0) == Half(0, false, false)
  {
  }

  /** Virtual page 5 goes to the odd frame of slot 0, if that is valid. */
  lemma PageFive(slots: Slots, h: Half, addr: Word)
    requires slots == NoSlots()[0 := Slot(2, Half(0, false, false), h)] && addr / 0x1000 == 5
    ensures Lookup(slots, Page(addr)) == if h.valid then Some(h.frame) else None
    ensures IsMapped(slots, addr) == h.valid
    ensures h.valid ==> PhysicalOf(slots, addr) == Translate(h.frame, addr)
  {
    hide Translate;
    SearchFinds(slots, 5, 1);
    assert forall j | 1 <= j < 8 :: slots[j] == EMPTY_SLOT;
  }

  lemma RemapOrderly(ram: Ram, addr: Word, frame: PageNumber, lo1: Word)
    requires addr / 0x1000 == 5 && DeviceFree(Translate(frame, addr))
    ensures Orderly(RemapPipe(ram, addr, frame, lo1), REMAP_CODE)
  {
    hide DeviceFree, PhysicalOf, Lookup, Translate, InCode;
    PageFive(RemapPipe(ram, addr, frame, lo1).slots, Half(frame, false, true), addr);
  }

  /** The new entry moves the page to a frame with another word: the load gets that word, not the one
      the sequential machine loads. */
  lemma MovedLoadDiffers(ram: Ram)
    requires ram.baseBank[0] == TLBWI && ram.baseBank[0x1400] != ram.baseBank[0x1800]
    ensures var p := RemapPipe(ram, 0x5000, 5, 0x182);
            && Orderly(p, REMAP_CODE) && CycleOf(p) == Next(Step(p))
            && !InStep(p, REMAP_CODE) && View(Step(p)) != ArchStep(View(p))
  {
    hide DeviceFree, PhysicalOf, Lookup, Orderly, BufferSlots, Decoded, View, Step, ArchStep, InText, SameOutcome,
         HalfOf, RemapPipe, Freezes, MemRam, IsMapped, NoSlots, Row, InExtBank, Translate;
    var p := RemapPipe(ram, 0x5000, 5, 0x182);
    RemapFields(ram, 0x5000, 5, 0x182);
    RamFrames();
    RemapDecodes(ram, 0x5000, 5, 0x182);
    RemapOrderly(ram, 0x5000, 5, 0x182);
    PageFive(p.slots, Half(5, false, true), 0x5000);
    PageFive(BufferSlots(p), HalfOf(0x182), 0x5000);
    OutcomeDiffers(p);
    RemapViews(p, REMAP_CODE);
    RamRows();
  }

  lemma RamRows()
    ensures Row(0x5000) == 0x1400 && Row(0x6000) == 0x1800 && !InExtBank(0x5000) && !InExtBank(0x6000)
    ensures Row(0x50_03F8) == Row(0xFD0_03F8) && InExtBank(0x50_03F8) && InExtBank(0xFD0_03F8)
  {
  }

  lemma RamFrames()
    ensures HalfOf(0x182) == Half(6, false, true) && HalfOf(0x3F_4002) == Half(0xFD00, false, true)
    ensures Translate(5, 0x5000) == 0x5000 && Translate(6, 0x5000) == 0x6000
    ensures Translate(0x500, 0x53F8) == 0x50_03F8 && Translate(0xFD00, 0x53F8) == 0xFD0_03F8
    ensures DeviceFree(0x5000) && DeviceFree(0x6000) && DeviceFree(0x50_03F8) && ReadsDevice(0xFD0_03F8)
  {
  }

  /** The new entry unmaps the page: the load ends in a fault, although the sequential machine loads. */
  lemma UnmappedLoadFaults(ram: Ram)
    requires ram.baseBank[0] == TLBWI
    ensures var p := RemapPipe(ram, 0x5000, 5, 0);
            && Orderly(p, REMAP_CODE) && IsMapped(p.slots, 0x5000)
            && CycleOf(p) == Fault(Step(p).(mem := Bubble), false, 0x5000) && !InStep(p, REMAP_CODE)
  {
    hide DeviceFree, PhysicalOf, Lookup, Orderly, BufferSlots, Decoded, Step, HalfOf, RemapPipe, Freezes, IsMapped,
         NoSlots, Translate, View, ArchStep;
    var p := RemapPipe(ram, 0x5000, 5, 0);
    RemapFields(ram, 0x5000, 5, 0);
    RamFrames();
    EmptyHalf();
    RemapDecodes(ram, 0x5000, 5, 0);
    RemapOrderly(ram, 0x5000, 5, 0);
    PageFive(p.slots, Half(5, false, true), 0x5000);
    PageFive(BufferSlots(p), HalfOf(0), 0x5000);
  }

  /** The new entry leads to the serial port, at the same row of the same bank: the load leaves RAM. */
  lemma MovedToDevice(ram: Ram)
    requires ram.baseBank[0] == TLBWI
    ensures var p := RemapPipe(ram, 0x53F8, 0x500, 0x3F_4002);
            var moved := PhysicalOf(BufferSlots(p), 0x53F8);
            && Orderly(p, REMAP_CODE) && SameWord(moved, PhysicalOf(p.slots, 0x53F8))
            && ReadsDevice(moved) && !InStep(p, REMAP_CODE)
  {
    hide PhysicalOf, Lookup, Orderly, BufferSlots, Decoded, Step, HalfOf, InText, View, DeviceFree, ReadsDevice,
         RemapPipe, Freezes, IsMapped, NoSlots, Row, InExtBank, Translate, InStep, SameOutcome;
    var p := RemapPipe(ram, 0x53F8, 0x500, 0x3F_4002);
    RemapFields(ram, 0x53F8, 0x500, 0x3F_4002);
    RamRows();
    RamFrames();
    RemapDecodes(ram, 0x53F8, 0x500, 0x3F_4002);
    RemapOrderly(ram, 0x53F8, 0x500, 0x3F_4002);
    PageFive(p.slots, Half(0x500, false, true), 0x53F8);
    PageFive(BufferSlots(p), HalfOf(0x3F_4002), 0x53F8);
    RemapExactly(p, REMAP_CODE);
    DevicesShown(0xFD0_03F8);
  }

  lemma DevicesShown(addr: Word)
    ensures ReadsDevice(addr) ==> !DeviceFree(addr)
  {
  }

  // ----- a program that maps a page and uses it

  /** Map virtual page 5 to frame 0x100, store the low byte of register 5 there, load it back, and spin:
      addiu $4, $0, 0x4000; mtc0 $4, EntryHi; addiu $5, $0, 0x4002; mtc0 $5, EntryLo1; tlbwi;
      sb $5, 0x5000($0); lb $6, 0x5000($0); j to itself; nop. */
  function Program(): (ws: seq<Word>)
    ensures |ws| == 9
  {
    [0x2404_4000, 0x4084_5000, 0x2405_4002, 0x4085_1800, TLBWI, 0xA005_5000, 0x8006_5000, 0x0800_0007, 0]
  }

  predicate Carries(ram: Ram) { forall k | 0 <= k < 9 :: ram.baseBank[k] == Program()[k] }

  const MAP_CODE: Code := iset i: Index | i < 9 :: (false, i)

  function At(k: nat): Word
    requires k < 10
  {
    0x8000_0000 + 4 * k
  }

  lemma FetchAt(ram: Ram, slots: Slots, k: nat)
    requires Carries(ram) && k < 9
    ensures Fetch(ram, slots, At(k)) == Program()[k]
    ensures InText(MAP_CODE, slots, At(k)) && IsMapped(slots, At(k))
  {
    hide Lookup, PhysicalOf, IsMapped;
    KsegPhysical(slots, At(k));
    assert Row(4 * k) == k && !InExtBank(4 * k);
  }

  lemma SetupDecodes()
    ensures Decode(0x2404_4000) == AluImm(1, 0, 0x4000, 4) && Decode(0x2405_4002) == AluImm(1, 0, 0x4002, 5)
    ensures Decode(0x4084_5000) == Mtc0(10, 4) && Decode(0x4085_1800) == Mtc0(3, 5)
    ensures Decode(TLBWI) == Tlbwi
  {
  }

  lemma UseDecodes()
    ensures Decode(0xA005_5000) == Store(true, 0, 0x5000, 5) && Decode(0x8006_5000) == Load(true, 0, 0x5000, 6)
    ensures Decode(0x0800_0007) == JumpAbs(false, 0x0800_0007) && Decode(0) == AluImm(12, 0, 0, 0)
  {
  }

  function Regs0(): RegFile { RegFile(seq(32, _ => 0)[29 := 0x807F_FF00], []) }
  function Regs1(): RegFile { Set(Regs0(), 4, 0x4000) }
  function Regs2(): RegFile { Set(Regs1(), 5, 0x4002) }
  function Regs3(): RegFile { Set(Regs2(), 6, 2) }
  function Special0(): Special { Special(0, 0, seq(32, _ => 0)) }
  function Special1(): Special { Special0().(c0 := Special0().c0[ENTRY_HI := 0x4000]) }
  function Special2(): Special { Special1().(c0 := Special1().c0[ENTRY_LO1 := 0x4002]) }

  function MappedSlots(): Slots { Written(NoSlots(), WriteOf(Special2())) }

  function StoredRam(ram: Ram): Ram { PerformRam(StoreAt(0x10_0000, true, 0x4002), ram) }

  /** The machine before instruction `k`; from 7 on it goes round. */
  function StateAt(ram: Ram, k: nat): Arch
    requires k < 9
  {
    Arch(At(k), if k == 8 then At(7) else At(k + 1),
         if k == 0 then Regs0() else if k <= 2 then Regs1() else if k <= 6 then Regs2() else Regs3(),
         if k <= 1 then Special0() else if k <= 3 then Special1() else Special2(),
         if k <= 4 then NoSlots() else MappedSlots(),
         if k <= 5 then ram else StoredRam(ram))
  }

  function After(k: nat): nat { if k < 8 then k + 1 else 7 }

  lemma StoredHolds(ram: Ram)
    requires Carries(ram)
    ensures Carries(StoredRam(ram)) && Loaded(StoredRam(ram), 0x10_0000, true) == 2
  {
    hide Lane, MergeLane;
    assert Row(0x10_0000) == 0x4_0000 && !InExtBank(0x10_0000);
    MergeLaneLanes(ReadWord(ram, 0x10_0000), 0, 0x4002, 0);
  }

  lemma PageMapped()
    ensures IsMapped(MappedSlots(), 0x5000) && PhysicalOf(MappedSlots(), 0x5000) == 0x10_0000
    ensures DeviceFree(0x10_0000)
  {
    hide Lookup, PhysicalOf, IsMapped;
    SlotFields();
    PageFive(MappedSlots(), Half(0x100, false, true), 0x5000);
  }

  lemma SlotFields()
    ensures MappedSlots() == NoSlots()[0 := Slot(2, Half(0, false, false), Half(0x100, false, true))]
  {
  }

  lemma Plainly(ram: Ram, k: nat)
    requires Carries(ram) && k < 9
    ensures CurrentWord(StateAt(ram, k)) == Program()[k]
    ensures InText(MAP_CODE, StateAt(ram, k).slots, At(k))
    ensures IsMapped(StateAt(ram, k).slots, At(k)) && IsMapped(StateAt(ram, After(k)).slots, StateAt(ram, k).npc)
    ensures !InterruptsEnabled(StateAt(ram, k).special.c0)
  {
    hide Fetch, InText, IsMapped, StoredRam, MappedSlots, Carries, NoSlots;
    StoredHolds(ram);
    var s := StateAt(ram, k);
    FetchAt(s.ram, s.slots, k);
    FetchAt(s.ram, StateAt(ram, After(k)).slots, After(k));
  }

  lemma RegisterFacts()
    ensures Get(Regs0(), 0) == 0 && Get(Regs1(), 0) == 0 && Get(Regs1(), 4) == 0x4000
    ensures Get(Regs2(), 0) == 0 && Get(Regs2(), 5) == 0x4002 && Get(Regs3(), 0) == 0
    ensures Alu(1, 0, 0x4000) == 0x4000 && Alu(1, 0, 0x4002) == 0x4002 && Alu(1, 0, 0x5000) == 0x5000
    ensures JumpTarget(At(7), 0x0800_0007) == At(7)
  {
  }

  lemma SetNothing(g: RegFile)
    ensures forall v: Word :: Set(g, 0, v) == g
  {
  }

  /** The five instructions that map the page. */
  lemma SetupStep(ram: Ram, k: nat)
    requires Carries(ram) && k < 5
    ensures ArchStep(StateAt(ram, k)) == StateAt(ram, k + 1)
    ensures var u := Perform(StateAt(ram, k)).uop; !u.LoadAt? && !u.StoreAt?
  {
    hide CurrentWord, IsMapped, PhysicalOf, NoSlots, StoredRam, Carries, InText, Decode, Alu, Get, Set, JumpTarget;
    Plainly(ram, k);
    SetupDecodes();
    RegisterFacts();
  }

  /** The byte store, the byte load, the jump and its delay slot. */
  lemma UseStep(ram: Ram, k: nat)
    requires Carries(ram) && 5 <= k < 9
    ensures ArchStep(StateAt(ram, k)) == StateAt(ram, After(k))
    ensures Perform(StateAt(ram, k)).uop
            == if k == 5 then StoreAt(0x5000, true, 0x4002)
               else if k == 6 then LoadAt(0x5000, true, 6)
               else if k == 7 then Bubble else WriteBack(Alu(12, 0, 0), 0)
  {
    hide CurrentWord, IsMapped, PhysicalOf, NoSlots, MappedSlots, Carries, InText, Decode, Alu, Get, Set, JumpTarget,
         Loaded, Stored, WriteWord, Regs0, Regs1, Regs2, Special0, Special1, Special2;
    Plainly(ram, k);
    UseDecodes();
    RegisterFacts();
    PageMapped();
    StoredHolds(ram);
    SetNothing(Regs3());
  }

  lemma OneStep(ram: Ram, k: nat)
    requires Carries(ram) && k < 9
    ensures ArchStep(StateAt(ram, k)) == StateAt(ram, After(k))
    ensures var u := Perform(StateAt(ram, k)).uop;
            && (u.LoadAt? || u.StoreAt? ==> k == 5 || k == 6)
            && TouchesRamOnly(StateAt(ram, k).slots, u)
            && (u.StoreAt? ==> !InCode(MAP_CODE, PhysicalOf(StateAt(ram, k).slots, u.addr)))
  {
    hide IsMapped, PhysicalOf, MappedSlots, NoSlots, DeviceFree, StoredRam, Carries, Perform, ArchStep;
    PageMapped();
    if k < 5 {
      SetupStep(ram, k);
    } else {
      UseStep(ram, k);
    }
    assert Row(0x10_0000) == 0x4_0000;
  }

  lemma ProgramBehaves(ram: Ram, k: nat)
    requires Carries(ram) && k < 9
    ensures WellBehaved(StateAt(ram, k), MAP_CODE) && !HangsAfter(StateAt(ram, k))
  {
    hide CurrentWord, IsMapped, PhysicalOf, TouchesRamOnly, InCode, Perform, ArchStep, InText, InterruptsEnabled,
         Carries, Decode, NoSlots, MappedSlots, StoredRam, SlotsAfter, Regs0, Regs1, Regs2, Regs3, Special0, Special1,
         Special2;
    Plainly(ram, k);
    Plainly(ram, After(k));
    SetupDecodes();
    UseDecodes();
    OneStep(ram, k);
    StepSlots(StateAt(ram, k));
    KeepsSlots(Current(StateAt(ram, After(k))), StateAt(ram, After(k)).special, StateAt(ram, After(k)).slots);
  }

  lemma KeepsSlots(i: Instr, s: Special, slots: Slots)
    ensures !i.Tlbwi? ==> SlotsAfter(i, s, slots) == slots
  {
  }

  lemma {:induction false} ProgramRun(ram: Ram, k: nat)
    requires Carries(ram)
    ensures ArchRun(ResetArch(false, ram), k) == StateAt(ram, if k < 9 then k else 7 + (k - 7) % 2)
  {
    hide ArchStep, StateAt, Carries, ResetArch;
    ProgramStart(ram);
    if k > 0 {
      ProgramRun(ram, k - 1);
      OneStep(ram, if k - 1 < 9 then k - 1 else 7 + (k - 1 - 7) % 2);
    }
  }

  lemma ProgramStart(ram: Ram)
    ensures StateAt(ram, 0) == ResetArch(false, ram)
  {
  }

  /** A program that changes the translation slots, stores a byte to a mapped page and loads it back
      meets the hypotheses of the main result for runs of every length; it leaves the byte in register 6. */
  lemma MappingBehaves(ram: Ram, n: nat)
    requires Carries(ram)
    ensures WellBehavedRun(ResetArch(false, ram), n, MAP_CODE)
    ensures forall j: nat | j < n :: !HangsAfter(ArchRun(ResetArch(false, ram), j))
    ensures n >= 7 ==> var s := ArchRun(ResetArch(false, ram), n);
                       Get(s.regs, 6) == 2 && Lane(ReadWord(s.ram, 0x10_0000), 0) == 2
  {
    hide WellBehaved, ArchStep, ArchRun, ResetArch, Current, Carries, HangsAfter, StateAt;
    forall k: nat
      ensures WellBehaved(ArchRun(ResetArch(false, ram), k), MAP_CODE)
      ensures !HangsAfter(ArchRun(ResetArch(false, ram), k))
    {
      ProgramRun(ram, k);
      ProgramBehaves(ram, if k < 9 then k else 7 + (k - 7) % 2);
    }
    ProgramRun(ram, n);
    ByteShown(ram, if n < 9 then n else 7 + (n - 7) % 2);
  }

  lemma ByteShown(ram: Ram, k: nat)
    requires Carries(ram) && k < 9
    ensures k >= 7 ==> var s := StateAt(ram, k); Get(s.regs, 6) == 2 && Lane(ReadWord(s.ram, 0x10_0000), 0) == 2
  {
    hide Lane, ReadWord, StoredRam, MappedSlots;
    StoredHolds(ram);
  }
}
