/** The pipeline computes what the one-instruction-at-a-time machine computes. */
module Refinement {
  import opened Words
  import opened Isa
  import opened Machine
  import opened Pipeline
  import opened Tlb

  /** Performing a micro-operation leaves every register other than its destination alone. */
  lemma PerformKeeps(u: Uop, g: RegFile, m: Ram, r: RegNum)
    requires r == 0 || r != Dest(u)
    ensures Get(PerformRegs(u, g, m), r) == Get(g, r)
  {
    hide Loaded;
  }

  /** Text reads the same through any store outside the text. */
  lemma FetchKept(m: Ram, slots: Slots, code: Code, addr: Word, v: Word, pc: Word)
    requires !InCode(code, addr)
    requires InText(code, slots, pc)
    ensures Fetch(WriteWord(m, addr, v), slots, pc) == Fetch(m, slots, pc)
  {
    hide InExtBank, Row, InRom, PhysicalOf;
  }

  /** The instruction in decode is the next one of the programmer's view. */
  lemma FetchesCurrent(p: Pipe, code: Code)
    requires Orderly(p, code)
    requires InText(code, p.slots, p.pc)
    ensures Decoded(p) == Current(View(p)) && BufferSlots(p) == SlotsAfter(Current(View(p)), p.special, p.slots)
  {
    hide Decode, Fetch, Stored, DeviceFree, InRom, InCode, PhysicalOf, Translated, SlotsAfter, Written, SteadyPage;
    if p.rewrite.Some? {
      FetchKept(p.ram, p.slots, code, p.rewrite.value.addr, p.rewrite.value.word, p.pc);
    } else if p.mem.StoreAt? {
      FetchKept(p.ram, p.slots, code, p.mem.addr, Stored(p.ram, p.mem.addr, p.mem.byteOnly, p.mem.data), p.pc);
    }
    var ex := Translated(p.slots, p.ex);
    if ex.StoreAt? {
      var m := MemRam(p);
      FetchKept(m, p.slots, code, ex.addr, Stored(m, ex.addr, ex.byteOnly, ex.data), p.pc);
    }
  }

  /** Hazard freedom: a register read without a hazard already holds what every older
      instruction in flight will leave in it. */
  lemma HazardFree(p: Pipe, r: RegNum)
    requires Scoreboarded(p)
    requires r == 0 || (r != p.last && r != p.lastLast)
    ensures Get(WriteBackStage(p.regs, p.wb), r) == Get(DrainedRegs(p), r)
  {
    hide Get, PerformRegs, MemRam, PhysicalOf;
    PerformKeeps(p.mem, WriteBackStage(p.regs, p.wb), p.ram, r);
    PerformKeeps(Translated(p.slots, p.ex), MemRegs(p), MemRam(p), r);
  }

  /** An instruction that is not held sees the operands the programmer expects. */
  lemma IssuesAsViewed(p: Pipe, code: Code)
    requires Orderly(p, code)
    requires InText(code, p.slots, p.pc)
    requires !Held(p)
    ensures Issue(p) == Perform(View(p))
  {
    hide Decode, Fetch, Effect, Get, DrainedRegs, WriteBackStage, DeviceFree, InText, RegA, RegB, BufferSlots,
         SlotsAfter, SteadyPage, Translated;
    FetchesCurrent(p, code);
    HazardFree(p, RegA(Decoded(p)));
    HazardFree(p, RegB(Decoded(p)));
  }

  /** Translation keeps the bank, the row, the lane and the device selection of an address. */
  lemma PhysicalFields(addr: Word)
    ensures Row(Physical(addr)) == Row(addr)
    ensures InExtBank(Physical(addr)) == InExtBank(addr)
    ensures BytePos(Physical(addr)) == BytePos(addr)
    ensures DeviceFree(Physical(addr)) == DeviceFree(addr)
  {
    hide Physical, Row, InExtBank, BytePos, DeviceFree;
    PhysicalRow(addr);
    PhysicalBank(addr);
    PhysicalLow(addr);
    PhysicalDevice(addr);
  }

  lemma PhysicalRow(addr: Word)
    ensures Row(Physical(addr)) == Row(addr)
  {
    var q, r := addr / 0x4000_0000, addr % 0x4000_0000;
    assert addr / 4 == r / 4 + q * 0x100 * 0x10_0000;
  }

  lemma PhysicalBank(addr: Word)
    ensures InExtBank(Physical(addr)) == InExtBank(addr)
  {
    var q, r := addr / 0x4000_0000, addr % 0x4000_0000;
    assert addr / 0x40_0000 == r / 0x40_0000 + q * 0x80 * 2;
  }

  lemma PhysicalLow(addr: Word)
    ensures BytePos(Physical(addr)) == BytePos(addr)
    ensures Physical(addr) % 0x1000_0000 == addr % 0x1000_0000
    ensures (Physical(addr) / 0x1_0000) % 0x1000 == (addr / 0x1_0000) % 0x1000
  {
    var q, r := addr / 0x4000_0000, addr % 0x4000_0000;
    assert addr == r + q * 4 * 0x1000_0000;
    assert addr / 0x1_0000 == r / 0x1_0000 + q * 4 * 0x1000;
  }

  lemma PhysicalDevice(addr: Word)
    ensures DeviceFree(Physical(addr)) == DeviceFree(addr)
  {
    hide Physical;
    PhysicalLow(addr);
  }

  /** In a kernel segment every address is mapped, to itself without the two top bits. */
  lemma KsegPhysical(slots: Slots, addr: Word)
    requires Kseg(addr)
    ensures IsMapped(slots, addr) && PhysicalOf(slots, addr) == Physical(addr)
  {
    var q, r := addr / 0x1000, addr % 0x1000;
    assert addr == q * 0x1000 + r;
    assert q / 0x4_0000 == 2;
  }

  /** In a kernel segment a translated micro-operation does what the original would. */
  lemma KsegSame(slots: Slots, u: Uop, g: RegFile, m: Ram)
    requires (u.LoadAt? || u.StoreAt?) ==> Kseg(u.addr)
    ensures PerformRegs(Translated(slots, u), g, m) == PerformRegs(u, g, m)
    ensures PerformRam(Translated(slots, u), m) == PerformRam(u, m)
  {
    hide Physical, PhysicalOf, Row, InExtBank, BytePos, Lane, MergeLane, Set, Kseg;
    if u.LoadAt? || u.StoreAt? {
      KsegPhysical(slots, u.addr);
      PhysicalFields(u.addr);
    }
  }

  lemma TranslatedShape(slots: Slots, u: Uop)
    ensures Dest(Translated(slots, u)) == Dest(u) && Translated(slots, u).Bubble? == u.Bubble?
    ensures TouchesRamOnly(slots, u) ==> AvoidsDevices(Translated(slots, u))
  {
    hide PhysicalOf, DeviceFree;
  }

  /** A memory access is no `tlbwi`. */
  lemma AccessKeepsSlots(i: Instr, pc: Word, a: Word, b: Word, s: Special, slots: Slots, later: Slots)
    requires later == SlotsAfter(i, s, slots)
    ensures Translated(later, Effect(i, pc, a, b, s).uop) == Translated(slots, Effect(i, pc, a, b, s).uop)
    ensures TouchesRamOnly(slots, Effect(i, pc, a, b, s).uop) ==> TouchesRamOnly(later, Effect(i, pc, a, b, s).uop)
  {
    hide PhysicalOf, Written, Alu, Multiply, BranchTarget, JumpTarget, Holds;
  }

  /** Without a freeze the memory stage delivers its instruction. */
  lemma MemoryDelivers(p: Pipe, code: Code)
    requires Orderly(p, code)
    requires !Freezes(p.mem, p.rewrite)
    ensures WriteBackStage(Step(p).regs, Step(p).wb) == MemRegs(p)
    ensures Step(p).ram == MemRam(p) && Step(p).rewrite.None?
  {
    hide Loaded, Set, WriteWord, Issue, Held, NextLast, NextFetch, DeviceFree;
  }

  /** A freeze keeps the byte store as a pending rewrite. */
  lemma MemoryFreezes(p: Pipe, code: Code)
    requires Orderly(p, code)
    requires Freezes(p.mem, p.rewrite)
    ensures MemRegs(Step(p)) == MemRegs(p)
    ensures MemRam(Step(p)) == MemRam(p)
  {
    hide Loaded, Set, WriteWord, Issue, NextLast, NextFetch, DeviceFree;
  }

  /** One macro-cycle moves instructions along without changing what they will do. */
  lemma DrainStep(p: Pipe, code: Code)
    requires Consistent(p, code) && InText(code, p.slots, p.pc)
    ensures var u := if Held(p) then Bubble else Translated(p.slots, Issue(p).uop);
            DrainedRegs(Step(p)) == PerformRegs(u, DrainedRegs(p), DrainedRam(p)) &&
            DrainedRam(Step(p)) == PerformRam(u, DrainedRam(p))
  {
    hide Loaded, Stored, Set, WriteWord, Hazard, DeviceFree, LinkingBranch, Decoded, NextFetch, NextLast,
         MemoryStage, Translated, SlotsAfter, Effect, Get, InText, View, Current, RegA, RegB, SteadyPage;
    FetchesCurrent(p, code);
    SteadyShown(p);
    BubbleStays();
    if Freezes(p.mem, p.rewrite) {
      MemoryFreezes(p, code);
    } else {
      MemoryDelivers(p, code);
      IssueKeepsSlots(p);
    }
  }

  lemma BubbleStays()
    ensures forall slots: Slots :: Translated(slots, Bubble) == Bubble && TouchesRamOnly(slots, Bubble)
    ensures forall slots: Slots, later: Slots :: SamePlace(slots, later, Bubble)
  {
  }

  /** The slots an issued instruction leaves translate its own access as those it found. */
  lemma IssueKeepsSlots(p: Pipe)
    ensures Translated(BufferSlots(p), Issue(p).uop) == Translated(p.slots, Issue(p).uop)
    ensures TouchesRamOnly(p.slots, Issue(p).uop) ==> TouchesRamOnly(BufferSlots(p), Issue(p).uop)
  {
    hide Effect, SlotsAfter, Translated, TouchesRamOnly, Get, Decoded, WriteBackStage, RegA, RegB;
    var g, i := WriteBackStage(p.regs, p.wb), Decoded(p);
    AccessKeepsSlots(i, p.pc, Get(g, RegA(i)), Get(g, RegB(i)), p.special, p.slots, BufferSlots(p));
  }

  /** Main result, one macro-cycle: the programmer's view takes one step of the sequential
      machine when an instruction is issued and stands still when decode is held. */
  lemma StepRefines(p: Pipe, code: Code)
    requires Consistent(p, code)
    requires InText(code, p.slots, p.pc)
    ensures View(Step(p)) == if Held(p) then View(p) else ArchStep(View(p))
  {
    hide Held, Issue, DrainedRegs, DrainedRam, Perform, PerformRegs, PerformRam, MemoryStage, WriteBackStage,
         NextLast, Freezes, DeviceFree, InText, Translated, BufferSlots, SlotsAfter, Current, Orderly, SteadyPage,
         Decoded;
    DrainStep(p, code);
    FetchesCurrent(p, code);
    if Held(p) {
      BubbleDoesNothing(DrainedRegs(p), DrainedRam(p));
    } else {
      IssuesAsViewed(p, code);
    }
  }

  lemma BubbleDoesNothing(g: RegFile, m: Ram)
    ensures PerformRegs(Bubble, g, m) == g && PerformRam(Bubble, m) == m
  {
  }

  lemma StepConsistent(p: Pipe, code: Code)
    requires Consistent(p, code)
    requires WellBehaved(View(p), code)
    ensures Consistent(Step(p), code)
  {
    hide Decode, Fetch, Effect, Get, DrainedRegs, WriteBackStage, DeviceFree, InRom, InCode, Hazard, Decoded,
         Stored, Loaded, WriteWord, Perform, Current, NextFetch, Issue, DrainedRam, Translated, SteadyPage,
         WellBehaved, TouchesRamOnly, View, BufferSlots;
    TextBehaves(View(p), code);
    ViewPc(p);
    FetchesCurrent(p, code);
    StepSteady(p, code);
    TranslatedShape(p.slots, p.ex);
    SteadyShown(p);
    BubbleStays();
    if !Held(p) {
      IssuesAsViewed(p, code);
      IssueKeepsSlots(p);
      BehavesShown(View(p), code);
    }
  }

  lemma SteadyShown(p: Pipe)
    requires SteadyPage(p) && BufferSlots(p) == SlotsAfter(Current(View(p)), p.special, p.slots)
    ensures Translated(BufferSlots(p), p.ex) == Translated(p.slots, p.ex)
    ensures TouchesRamOnly(p.slots, p.ex) ==> TouchesRamOnly(BufferSlots(p), p.ex)
  {
    hide BufferSlots, SlotsAfter, Lookup, View, Current;
  }

  lemma BehavesShown(s: Arch, code: Code)
    requires WellBehaved(s, code)
    ensures TouchesRamOnly(s.slots, Perform(s).uop) && StoresAvoid(Translated(s.slots, Perform(s).uop), code)
  {
    hide InCode, PhysicalOf, Perform, DeviceFree;
  }

  lemma StepSteady(p: Pipe, code: Code)
    requires Consistent(p, code)
    requires WellBehaved(View(p), code)
    ensures SteadyPage(Step(p))
  {
    hide Orderly, WellBehaved, Hazard, Issue, Perform, Decoded, SamePlace, SlotsAfter, Current, Freezes, View,
         ArchStep, MemoryStage, NextLast, NextFetch, WriteBackStage;
    TextBehaves(View(p), code);
    ViewPc(p);
    ViewPc(Step(p));
    StepRefines(p, code);
    BubbleStays();
    if Held(p) {
      assert SteadyPage(p) by { ConsistentSteady(p, code); }
    } else {
      IssuesAsViewed(p, code);
      OwnPageStays(View(p), code);
    }
  }

  lemma ConsistentSteady(p: Pipe, code: Code)
    requires Consistent(p, code)
    ensures SteadyPage(p)
  {
  }

  lemma OwnPageStays(s: Arch, code: Code)
    requires WellBehaved(s, code)
    ensures var n, u := ArchStep(s), Perform(s).uop;
            SamePlace(n.slots, SlotsAfter(Current(n), n.special, n.slots), u)
  {
  }

  /** The sequential run `s` stays inside the hypotheses for `n` instructions. */
  predicate WellBehavedRun(s: Arch, n: nat, code: Code)
  {
    forall k: nat | k <= n :: WellBehaved(ArchRun(s, k), code)
  }

  /** Main result, whole runs: after any number of macro-cycles the programmer's view is the
      state of the sequential machine after as many instructions as were issued. */
  lemma {:induction false} RunRefines(p: Pipe, n: nat, code: Code)
    requires Consistent(p, code)
    requires WellBehavedRun(View(p), Issued(p, n), code)
    ensures Issued(p, n) <= n
    ensures Consistent(Run(p, n), code)
    ensures View(Run(p, n)) == ArchRun(View(p), Issued(p, n))
  {
    hide View, Consistent, WellBehaved, Step, ArchStep, Held;
    if n > 0 {
      RunRefines(p, n - 1, code);
      var q := Run(p, n - 1);
      assert WellBehaved(View(q), code);
      StepConsistent(q, code);
      TextBehaves(View(q), code);
      ViewPc(q);
      StepRefines(q, code);
    }
  }

  lemma TextBehaves(s: Arch, code: Code)
    requires WellBehaved(s, code)
    ensures InText(code, s.slots, s.pc)
  {
  }

  lemma ViewPc(p: Pipe)
    ensures View(p).pc == p.pc && View(p).slots == p.slots && View(p).special == p.special
    ensures View(p).npc == NextFetch(p)
  {
  }

  // ----- the page moved under an access

  /** A load or store gives the same result through the new entry as through the old one. */
  predicate SameOutcome(p: Pipe)
  {
    var moved, kept := Translated(BufferSlots(p), p.ex), Translated(p.slots, p.ex);
    && PerformRegs(moved, MemRegs(p), MemRam(p)) == PerformRegs(kept, MemRegs(p), MemRam(p))
    && PerformRam(moved, MemRam(p)) == PerformRam(kept, MemRam(p))
  }

  /** The new entry leaves the access what it was: still mapped, still RAM, with the same outcome. */
  predicate Kept(p: Pipe) { TouchesRamOnly(BufferSlots(p), p.ex) && SameOutcome(p) }

  /** The macro-cycle ends without a fault in a state the invariant covers, so without a device in the
      memory stage, and one instruction further in the programmer's view. */
  predicate InStep(p: Pipe, code: Code)
  {
    CycleOf(p).Next? && Orderly(Step(p), code) && View(Step(p)) == ArchStep(View(p))
  }

  /** The exact exception: a `tlbwi` is issued in step with the sequential machine if and only if the
      new entry leaves the access before it what it was. */
  lemma RemapExactly(p: Pipe, code: Code)
    requires Orderly(p, code) && InText(code, p.slots, p.pc)
    requires Decoded(p).Tlbwi? && !Freezes(p.mem, p.rewrite)
    ensures InStep(p, code) <==> Kept(p)
  {
    hide Decoded, Translated, Orderly, InText, Step, View, BufferSlots, Freezes, SameOutcome, ArchStep, DeviceFree,
         IsMapped, PhysicalOf;
    RemapViews(p, code);
    RemapIssues(p);
    if Kept(p) {
      KeptOrderly(p, code);
    } else if InStep(p, code) {
      OrderlyAvoids(Step(p), code);
      StaysRam(p);
    }
  }

  lemma OrderlyAvoids(p: Pipe, code: Code)
    requires Orderly(p, code)
    ensures AvoidsDevices(p.mem)
  {
    hide DeviceFree, InCode, Translated, TouchesRamOnly;
  }

  /** A mapped access that does not reach a device touches RAM only. */
  lemma StaysRam(p: Pipe)
    requires AccessMapped(p) && !Freezes(p.mem, p.rewrite)
    requires AvoidsDevices(Translated(BufferSlots(p), p.ex))
    ensures TouchesRamOnly(BufferSlots(p), p.ex)
  {
    hide BufferSlots, DeviceFree, PhysicalOf, IsMapped, Freezes;
  }

  lemma KeptOrderly(p: Pipe, code: Code)
    requires Orderly(p, code) && Kept(p) && Decoded(p).Tlbwi? && !Freezes(p.mem, p.rewrite)
    ensures Orderly(Step(p), code)
  {
    hide Decoded, DeviceFree, SameOutcome, PhysicalOf, BufferSlots, InExtBank, Row, IsMapped, MemoryStage, Step;
    RemapIssues(p);
    BubbleStays();
    OutcomeDiffers(p);
  }

  lemma RemapViews(p: Pipe, code: Code)
    requires Orderly(p, code) && InText(code, p.slots, p.pc)
    requires Decoded(p).Tlbwi? && !Freezes(p.mem, p.rewrite)
    ensures View(Step(p)) == ArchStep(View(p)) <==> SameOutcome(p)
  {
    hide Loaded, Stored, Set, WriteWord, Decoded, MemoryStage, Translated, Orderly, InText, Current, Step, View,
         MemRegs, MemRam, BufferSlots, Freezes;
    FetchesCurrent(p, code);
    BubbleStays();
    MemoryDelivers(p, code);
    RemapIssues(p);
    RemapViewed(p);
    ViewParts(p);
    ViewParts(Step(p));
  }

  lemma ViewParts(p: Pipe)
    ensures var s := View(p);
            && s.pc == p.pc && s.npc == NextFetch(p) && s.special == p.special && s.slots == p.slots
            && s.regs == PerformRegs(Translated(p.slots, p.ex), MemRegs(p), MemRam(p))
            && s.ram == PerformRam(Translated(p.slots, p.ex), MemRam(p))
    ensures p.rewrite.None? ==>
              && MemRegs(p) == PerformRegs(p.mem, WriteBackStage(p.regs, p.wb), p.ram)
              && MemRam(p) == PerformRam(p.mem, p.ram)
  {
    hide NextFetch, WriteBackStage, Translated, PerformRegs, PerformRam;
  }

  /** A `tlbwi` that is not frozen is issued, and sends the access before it on through the new slots. */
  lemma RemapIssues(p: Pipe)
    requires Decoded(p).Tlbwi? && !Freezes(p.mem, p.rewrite)
    ensures var q := Step(p);
            && q.pc == NextFetch(p) && NextFetch(q) == Wrap(q.pc + 4) && q.special == p.special
            && q.slots == BufferSlots(p) && q.ex == Bubble && q.mem == Translated(BufferSlots(p), p.ex)
            && q.rewrite.None? && !q.hold && q.jump.None? && q.lastLast == p.last && q.last == 0
  {
    hide Decoded, Translated, SlotsAfter, WriteBackStage, Loaded, Stored, WriteWord;
  }

  lemma RemapViewed(p: Pipe)
    requires Current(View(p)).Tlbwi?
    ensures var s, n := View(p), ArchStep(View(p));
            && n.pc == s.npc && n.npc == Wrap(s.npc + 4) && n.special == s.special
            && n.slots == SlotsAfter(Current(s), s.special, s.slots) && n.regs == s.regs && n.ram == s.ram
  {
    hide View, Current, Translated, SlotsAfter;
    BubbleStays();
    BubbleDoesNothing(View(p).regs, View(p).ram);
  }

  /** What a caller can look up: an access is left what it was when the new entry maps its page to RAM
      and, for a load, the words at the two places are equal or, for a store, the places are the same word. */
  lemma KeptExactly(p: Pipe)
    ensures !(p.ex.LoadAt? || p.ex.StoreAt?) ==> Kept(p)
    ensures p.ex.LoadAt? ==>
              (Kept(p) <==>
                 var moved := PhysicalOf(BufferSlots(p), p.ex.addr);
                 && IsMapped(BufferSlots(p), p.ex.addr) && DeviceFree(moved)
                 && (p.ex.rd == 0 || Loaded(MemRam(p), moved, p.ex.byteOnly)
                                     == Loaded(MemRam(p), PhysicalOf(p.slots, p.ex.addr), p.ex.byteOnly)))
    ensures p.ex.StoreAt? ==>
              (Kept(p) <==>
                 var moved := PhysicalOf(BufferSlots(p), p.ex.addr);
                 && IsMapped(BufferSlots(p), p.ex.addr) && DeviceFree(moved)
                 && SameWord(moved, PhysicalOf(p.slots, p.ex.addr)))
  {
    hide Loaded, PhysicalOf, BufferSlots, MemRam, MemRegs, DeviceFree, IsMapped, Stored, WriteWord, SameWord;
    OutcomeDiffers(p);
    if !(p.ex.LoadAt? || p.ex.StoreAt?) || (p.ex.LoadAt? && p.ex.rd == 0) {
      assert SameOutcome(p);
    }
  }

  lemma OutcomeDiffers(p: Pipe)
    ensures p.ex.LoadAt? && p.ex.rd != 0 ==>
              (SameOutcome(p) <==> Loaded(MemRam(p), PhysicalOf(BufferSlots(p), p.ex.addr), p.ex.byteOnly)
                                   == Loaded(MemRam(p), PhysicalOf(p.slots, p.ex.addr), p.ex.byteOnly))
    ensures p.ex.StoreAt? ==>
              (SameOutcome(p) <==> SameWord(PhysicalOf(BufferSlots(p), p.ex.addr), PhysicalOf(p.slots, p.ex.addr)))
  {
    hide Loaded, Lane, MergeLane, BytePos, PhysicalOf, BufferSlots, MemRam, MemRegs, Row, InExtBank;
    var g, m := MemRegs(p), MemRam(p);
    if p.ex.LoadAt? && p.ex.rd != 0 {
      var v := Loaded(m, PhysicalOf(BufferSlots(p), p.ex.addr), p.ex.byteOnly);
      var w := Loaded(m, PhysicalOf(p.slots, p.ex.addr), p.ex.byteOnly);
      assert Set(g, p.ex.rd, v).regs[p.ex.rd] == v && Set(g, p.ex.rd, w).regs[p.ex.rd] == w;
    }
    if p.ex.StoreAt? {
      SameLane(BufferSlots(p), p.ex.addr);
      SameLane(p.slots, p.ex.addr);
      var a, b := PhysicalOf(BufferSlots(p), p.ex.addr), PhysicalOf(p.slots, p.ex.addr);
      var n := |m.log|;
      assert WriteWord(m, a, Stored(m, a, p.ex.byteOnly, p.ex.data)).log[n].0 == InExtBank(a);
      assert WriteWord(m, a, Stored(m, a, p.ex.byteOnly, p.ex.data)).log[n].1 == Row(a);
      assert WriteWord(m, b, Stored(m, b, p.ex.byteOnly, p.ex.data)).log[n].0 == InExtBank(b);
      assert WriteWord(m, b, Stored(m, b, p.ex.byteOnly, p.ex.data)).log[n].1 == Row(b);
    }
  }

  lemma SameLane(slots: Slots, addr: Word)
    ensures BytePos(PhysicalOf(slots, addr)) == BytePos(addr)
  {
    hide Lookup, Translate;
    var found := Lookup(slots, Page(addr));
    if found.Some? {
      TranslateKeepsLane(found.value, addr);
    }
  }

  lemma TranslateKeepsLane(page: PageNumber, addr: Word)
    ensures Translate(page, addr) % 4 == addr % 4
  {
    FourTimes(0x400 * page, addr % 0x1000);
    FourTimes(0x400 * (addr / 0x1000), addr % 0x1000);
  }

  lemma FourTimes(x: int, r: int)
    ensures (4 * x + r) % 4 == r % 4
  {
  }

  // ----- order of writes

  /** Writes are made in program order: the register and RAM writes made so far are a prefix of
      those the sequential machine makes for the instructions issued so far, short of at most the
      three register writes and two RAM writes still in flight. */
  lemma WritesInOrder(p: Pipe, n: nat, code: Code)
    requires Consistent(p, code)
    requires WellBehavedRun(View(p), Issued(p, n), code)
    ensures Run(p, n).regs.log <= ArchRun(View(p), Issued(p, n)).regs.log
    ensures Run(p, n).ram.log <= ArchRun(View(p), Issued(p, n)).ram.log
    ensures |ArchRun(View(p), Issued(p, n)).regs.log| <= |Run(p, n).regs.log| + 3
    ensures |ArchRun(View(p), Issued(p, n)).ram.log| <= |Run(p, n).ram.log| + 2
    ensures Run(p, n).special == ArchRun(View(p), Issued(p, n)).special
    ensures Run(p, n).slots == ArchRun(View(p), Issued(p, n)).slots
  {
    hide Orderly, SteadyPage, WellBehaved, ArchRun, Run;
    RunRefines(p, n, code);
    DrainAppends(Run(p, n));
  }

  lemma DrainAppends(p: Pipe)
    ensures p.regs.log <= DrainedRegs(p).log
    ensures p.ram.log <= DrainedRam(p).log
    ensures |DrainedRegs(p).log| <= |p.regs.log| + 3
    ensures |DrainedRam(p).log| <= |p.ram.log| + 2
  {
    hide Loaded, Stored, InExtBank, Row, PhysicalOf;
  }

  /** A drained pipeline holds the sequential machine's registers and memory themselves. */
  lemma DrainedAgrees(p: Pipe, n: nat, code: Code)
    requires Consistent(p, code)
    requires WellBehavedRun(View(p), Issued(p, n), code)
    requires var q := Run(p, n); q.ex.Bubble? && q.mem.Bubble? && q.rewrite.None? && q.wb.None?
    ensures Run(p, n).regs == ArchRun(View(p), Issued(p, n)).regs
    ensures Run(p, n).ram == ArchRun(View(p), Issued(p, n)).ram
  {
    hide Orderly, SteadyPage, WellBehaved, ArchRun, Run;
    RunRefines(p, n, code);
  }

  // ----- jumps

  /** Exactly one delay slot: when the instruction issued in macro-cycle `n` jumps, the next one
      issued is its successor, however long that one is held, and the one after that is at the
      jump target. */
  lemma OneDelaySlot(p: Pipe, n: nat, m1: nat, m2: nat, code: Code)
    requires Consistent(p, code)
    requires n < m1 < m2 && WellBehavedRun(View(p), Issued(p, m2), code)
    requires Issued(p, m1) == Issued(p, n) + 1 && Issued(p, m2) == Issued(p, m1) + 1
    requires !Held(Run(p, n)) && Issue(Run(p, n)).jump.Some?
    ensures Run(p, m1).pc == NextFetch(Run(p, n))
    ensures Run(p, m2).pc == Issue(Run(p, n)).jump.value
    ensures Issued(p, n) > 0 && Perform(ArchRun(View(p), Issued(p, n) - 1)).jump.None?
            ==> NextFetch(Run(p, n)) == Wrap(Run(p, n).pc + 4)
  {
    hide Orderly, SteadyPage, WellBehaved, Run, Held, Issue, Perform, NextFetch, DrainedRegs, DrainedRam, ArchRun,
         ArchStep, Issued;
    RunRefines(p, n, code);
    RunRefines(p, m1, code);
    RunRefines(p, m2, code);
    var q := Run(p, n);
    assert WellBehaved(View(q), code);
    TextBehaves(View(q), code);
    IssuesAsViewed(q, code);
    SequentialDelaySlot(View(p), Issued(p, n));
  }

  /** In the sequential machine a jump takes effect after one more instruction, and only a jump
      breaks the succession of addresses. */
  lemma SequentialDelaySlot(s: Arch, k: nat)
    ensures ArchRun(s, k + 1).pc == ArchRun(s, k).npc
    ensures Perform(ArchRun(s, k)).jump.Some? ==> ArchRun(s, k + 2).pc == Perform(ArchRun(s, k)).jump.value
    ensures k > 0 && Perform(ArchRun(s, k - 1)).jump.None? ==> ArchRun(s, k).npc == Wrap(ArchRun(s, k).pc + 4)
  {
    hide Perform, Translated, SlotsAfter, Current, PerformRegs, PerformRam;
    assert ArchRun(s, k + 2) == ArchStep(ArchRun(s, k + 1));
  }
}
