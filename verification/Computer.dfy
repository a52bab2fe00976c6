/** The wired-up processor: every stage clocked in step through four phases. */
module Computer {
  import opened Words
  import opened Isa
  import opened Machine
  import opened Pipeline
  import opened Refinement
  import opened Liveness
  import opened Ports
  import opened Decoder
  import opened RegisterUnit
  import opened AluWrapper
  import opened PcDecider
  import opened MemoryUnit
  import opened Fetcher
  import opened Tlb
  import opened RamChips
  import opened InterruptHandler

  /** What the outside world presents during a macro-cycle. */
  datatype Inputs = Inputs(uart: bool, deviceStatus: Word, ethernet: Word)

  function BackWrite(b: BackPort, value: Word): Option<(RegNum, Word)>
  {
    if b.write then Some((b.addr, WriteValue(value, b.byteOnly, b.bytePos))) else None
  }

  /** The pipeline state after reset, starting from RAM or from the boot ROM. */
  function ResetPipe(resetOnBios: bool, ram: Ram): Pipe
  {
    var begin := if resetOnBios then BIOS_BEGIN_PC else BEGIN_PC;
    Pipe(begin, begin, false, None, Bubble, Bubble, None, None, 0, 0,
         RegFile(seq(32, _ => 0)[29 := 0x807F_FF00], []), Special(0, 0, seq(32, _ => 0)), NoSlots(), ram)
  }

  lemma UncountedZero()
    ensures Uncounted(seq(32, _ => 0)) == seq(32, _ => 0)
  {
    assert Uncounted(seq(32, _ => 0)) == seq(32, _ => 0);
  }

  /** Both start addresses lie at the start of their memory. */
  lemma StartRow()
    ensures Row(PhysicalOf(NoSlots(), BEGIN_PC)) == 0 == Row(PhysicalOf(NoSlots(), BIOS_BEGIN_PC))
    ensures !InExtBank(PhysicalOf(NoSlots(), BEGIN_PC)) && InRom(BIOS_BEGIN_PC)
  {
    hide Lookup, PhysicalOf;
    KsegPhysical(NoSlots(), BEGIN_PC);
    KsegPhysical(NoSlots(), BIOS_BEGIN_PC);
  }

  class Computer {
    const f: Fetcher
    const r: RegisterUnit
    const a: AluWrapper
    const m: MemoryUnit
    const p: PcDecider
    const t: Tlb
    const chips: RamChips

    /** Reset puts every stage into its first phase with nothing in flight. */
    constructor (resetOnBios: bool, baseBank: Bank, extBank: Bank, rom: Rom)
      ensures Stands(ResetPipe(resetOnBios, Ram(baseBank, extBank, rom, [])))
      ensures f.c0[COUNT] == 0
      ensures fresh(f) && fresh(r) && fresh(a) && fresh(m) && fresh(p) && fresh(t) && fresh(chips)
    {
      f := new Fetcher();
      r := new RegisterUnit();
      a := new AluWrapper();
      m := new MemoryUnit();
      p := new PcDecider(resetOnBios);
      t := new Tlb();
      chips := new RamChips(baseBank, extBank, rom);
      new;
      hide Decode, Fetch, Lookup, PhysicalOf, BufferSlots, Decoded, Alu, Row, InExtBank, InRom, Page, Uncounted,
           NoSlots, WriteValue;
      UncountedZero();
      StartRow();
    }

    // ----- the pipeline state the signals stand for at the start of a macro-cycle

    ghost predicate AddressStands(q: Pipe)
      reads p
    {
      && p.pc == q.pc && p.fetchPc == q.fetchPc && (q.hold || q.fetchPc == q.pc)
      && p.virtualPage == Page(q.fetchPc)
      && p.drives == Some(p.savedRow) && RowPresented(q)
    }

    /** The row and bank of the instruction in decode. */
    ghost predicate RowPresented(q: Pipe)
      reads p
    {
      && p.savedRow == Row(PhysicalOf(q.slots, q.pc))
      && (InRom(q.pc) || p.ramSelect == InExtBank(PhysicalOf(q.slots, q.pc)))
    }

    /** The translation buffer: a held `tlbwi` has already written its slot. */
    ghost predicate BufferStands(q: Pipe)
      reads t
    {
      t.slots == if q.hold then BufferSlots(q) else q.slots
    }

    /** The slot write of a `tlbwi` in decode waits for the second edge. */
    ghost predicate WriteArmed(q: Pipe)
      reads f, t
    {
      && BufferStands(q) && !f.tlbPort.setDo && f.tlbPort.armed == Decoded(q).Tlbwi?
      && (f.tlbPort.armed ==> f.tlbPort == Armed(f.tlbPort, WriteOf(q.special)))
    }

    /** Addresses of this and the next instruction are mapped. */
    ghost predicate FetchMapped(q: Pipe)
    {
      IsMapped(q.slots, q.pc) && IsMapped(BufferSlots(q), NextFetch(q))
    }

    ghost predicate FetchStands(q: Pipe)
      reads f
    {
      && f.hold == q.hold && f.last == q.last && f.lastLast == q.lastLast
      && f.SpecialView() == q.special
      && Quiet(f.exceptions) && !f.tlbPort.setDo && !f.tlbPort.armed
      && (if f.out.jumpTrue then Some(f.out.jumpAddr) else None) == q.jump
      && Settled(f.buffer, Decoded(q))
    }

    ghost predicate ExecuteStands(q: Pipe)
      reads f, a
    {
      && !a.skipOne && !a.tlbException
      && a.doNotReadInput == q.rewrite.Some?
      && var ctl := if a.doNotReadInput then a.latched else f.out.ctl;
         var value := Result(if a.doNotReadInput then a.operands else f.out.alu);
         Proper(ctl) && UopOf(ctl, value, value) == q.ex
    }

    ghost predicate MemoryStands(q: Pipe)
      reads a, m, r, chips
    {
      && Proper(a.out) && UopOf(a.out, a.aluOutput, a.physical) == q.mem
      && m.pins == ALL_RELEASED
      && m.sb.inTheMiddle == q.rewrite.Some?
      && (q.rewrite.Some? ==> Rewrite(m.memAddr, m.sb.targetData) == q.rewrite.value)
      && BackWrite(m.back, m.memOutput) == q.wb
      && r.Contents() == q.regs
      && chips.Contents() == q.ram
    }

    /** The execute stage has refused an access: nothing goes on, the fault and its address are shown. */
    ghost predicate FaultRaised(write: bool, addr: Word)
      reads a
    {
      && a.tlbException && a.tlbExceptionOnWrite == write && a.aluOutput == addr
      && a.skipOne && !a.doNotReadInput
    }

    /** What a macro-cycle leaves: the next state, or with a fault everything of it but the access. */
    ghost predicate Ends(c: Cycle)
      reads f, r, a, m, p, t, chips
    {
      match c
      case Next(q) => Stands(q)
      case Fault(q, write, addr) =>
        AddressStands(q) && BufferStands(q) && FetchStands(q) && MemoryStands(q) && FaultRaised(write, addr)
    }

    /** The next macro-cycle of the fetch stage sees the fault. */
    lemma FaultSeen(q: Pipe, write: bool, addr: Word, inputs: Inputs)
      requires Ends(Fault(q, write, addr)) && !InterruptsEnabled(q.special.c0)
      ensures Disturbed(inputs) == DataFault(write, addr)
    {
      hide Lookup, BufferSlots, Row, InExtBank, PhysicalOf, Settled, Decoded, TimerMasked, UartMasked;
    }

    /** The signals stand for pipeline state `q`. */
    ghost predicate Stands(q: Pipe)
      reads f, r, a, m, p, t, chips
    {
      AddressStands(q) && BufferStands(q) && FetchStands(q) && ExecuteStands(q) && MemoryStands(q)
    }

    // ----- the same after each of the first three phases

    /** Decoding done, operands read. */
    ghost predicate DecodeDone(q: Pipe)
      reads f, r, p
    {
      && p.pc == q.pc && p.fetchPc == NextFetch(q) && RowPresented(q)
      && f.last == q.last && f.SpecialView() == q.special && Quiet(f.exceptions)
      && Plain(Decoded(q)) && Buffered(f.buffer, Decoded(q), q.pc, q.special)
      && r.Contents() == WriteBackStage(q.regs, q.wb)
      && r.valueA == Get(r.Contents(), RegA(Decoded(q))) && r.valueB == Get(r.Contents(), RegB(Decoded(q)))
    }

    ghost predicate ExecuteLatched(q: Pipe)
      reads a
    {
      && !a.skipOne && !a.tlbException
      && Proper(a.latched) && UopOf(a.latched, Result(a.operands), Result(a.operands)) == q.ex
      && Proper(a.out) && UopOf(a.out, a.aluOutput, a.physical) == q.mem
    }

    ghost predicate MemoryLatched(q: Pipe)
      reads a, m
    {
      && m.pins == ALL_RELEASED && !m.holdFromMemory && !m.selection.useEthernet
      && m.sb.inTheMiddle == q.rewrite.Some?
      && (if q.rewrite.Some? then m.memAddr == q.rewrite.value.addr && m.memData == q.rewrite.value.word
          else m.memAddr == a.physical && m.memData == a.out.memData)
    }

    /** The access the memory stage has started. */
    ghost predicate AccessStarted(q: Pipe)
      reads a, m
    {
      && m.holdFromMemory == m.sb.inTheMiddle == Freezes(q.mem, q.rewrite)
      && m.latched == a.out
      && if q.rewrite.Some? then
           && m.selection.useOutput
           && m.pins == Drive(InExtBank(q.rewrite.value.addr),
                              BankPins(Some(Row(q.rewrite.value.addr)), Some(q.rewrite.value.word), true))
         else match q.mem
           case Bubble => m.pins == ALL_RELEASED && m.selection.useOutput
           case WriteBack(v, _) => m.pins == ALL_RELEASED && m.selection.useOutput && m.selection.output == v
           case LoadAt(addr, _, _) => ReadStarted(addr)
           case StoreAt(addr, byteOnly, data) =>
             if byteOnly then ReadStarted(addr) && m.sb.replacePos == BytePos(addr) && m.memData == data
             else && m.selection.useOutput
                  && m.pins == Drive(InExtBank(addr), BankPins(Some(Row(addr)), Some(data), true))
    }

    ghost predicate ReadStarted(addr: Word)
      reads m
    {
      && m.memAddr == addr
      && !m.selection.useOutput && !m.selection.useEthernet && m.selection.ramChoice == InExtBank(addr)
      && m.pins == Drive(InExtBank(addr), BankPins(Some(Row(addr)), None, false))
    }

    /** The access is complete. */
    ghost predicate AccessDone(q: Pipe)
      reads m, chips
    {
      var done := MemoryStage(q.mem, q.rewrite, q.ram);
      && m.holdFromMemory == m.sb.inTheMiddle == Freezes(q.mem, q.rewrite)
      && chips.Contents() == done.ram
      && BackWrite(m.back, m.memOutput) == done.wb
      && (m.sb.inTheMiddle ==>
            q.mem.StoreAt? && m.memAddr == q.mem.addr && m.memData == q.mem.data
            && m.sb.replacePos == BytePos(q.mem.addr) && m.sb.targetData == ReadWord(q.ram, q.mem.addr))
    }

    /** The address one of the two stages drives on a bank, if any. */
    function Bus(own: Option<Index>): Index
      reads p
    {
      if own.Some? then own.value else if p.drives.Some? then p.drives.value else 0
    }

    /** The bus is never driven by two stages at once. */
    ghost predicate NoContention()
      reads m, p
    {
      p.drives.Some? ==> m.pins.baseBank.addr == None && m.pins.extBank.addr == None
    }

    // ----- the four phases

    /** The word on the instruction bus. */
    function InstructionWord(): Word
      reads p, m, chips
    {
      if InRom(p.pc) then chips.rom[RomRow(Bus(m.pins.baseBank.addr))]
      else if !p.ramSelect then chips.baseBank[Bus(m.pins.baseBank.addr)]
      else chips.extBank[Bus(m.pins.extBank.addr)]
    }

    function Frame(page: PageNumber): PageNumber
      reads t
    {
      var found := Lookup(t.slots, page);
      if found.Some? then found.value else 0
    }

    /** The disturbance the fetch stage sees, in its order of priority. */
    function Disturbed(inputs: Inputs): Disturbance
      reads f, a, p, t
    {
      if Raised(f.c0, f.timerInt, inputs.uart) then Interrupt(Numbers(f.c0, f.timerInt, inputs.uart))
      else if a.tlbException then DataFault(a.tlbExceptionOnWrite, a.aluOutput)
      else if Lookup(t.slots, p.virtualPage).None? then FetchFault
      else Calm
    }

    /** An interrupt comes before a data fault, and a data fault before a fetch fault; a fetch fault is
        seen when the address fetched next is not mapped. */
    lemma PriorityOrder(inputs: Inputs)
      ensures Raised(f.c0, f.timerInt, inputs.uart) ==>
                Disturbed(inputs) == Interrupt(Numbers(f.c0, f.timerInt, inputs.uart))
      ensures !Raised(f.c0, f.timerInt, inputs.uart) && a.tlbException ==>
                Disturbed(inputs) == DataFault(a.tlbExceptionOnWrite, a.aluOutput)
      ensures !Raised(f.c0, f.timerInt, inputs.uart) && !a.tlbException ==>
                Disturbed(inputs) == if Lookup(t.slots, p.virtualPage).None? then FetchFault else Calm
    {
    }

    /** With interrupts masked and both addresses mapped nothing disturbs decoding. */
    lemma StaysCalm(q: Pipe, inputs: Inputs)
      requires AddressStands(q) && BufferStands(q) && FetchStands(q) && FetchMapped(q)
      requires !a.tlbException && !InterruptsEnabled(q.special.c0)
      ensures Disturbed(inputs).Calm?
    {
      hide Lookup, BufferSlots, Row, InExtBank, PhysicalOf, Settled, Decoded, TimerMasked, UartMasked;
    }

    lemma FetchesWord(q: Pipe)
      requires AddressStands(q) && MemoryStands(q)
      ensures InstructionWord() == Fetch(q.ram, q.slots, q.pc)
    {
      hide Row, RomRow, InExtBank, InRom, PhysicalOf;
    }

    /** First phase: every stage takes in its inputs; the falling edge writes and reads registers. */
    method Phase0(ghost q: Pipe, inputs: Inputs)
      requires Stands(q)
      requires Plain(Decoded(q)) && !InterruptsEnabled(q.special.c0) && FetchMapped(q)
      modifies f, r, a, m, p
      ensures DecodeDone(q) && f.lastLast == q.lastLast && WriteArmed(q)
      ensures ExecuteLatched(q) && MemoryLatched(q)
      ensures chips.Contents() == q.ram && NoContention() && f.c0 == old(f.c0)
    {
      hide Decode, Fetch, Buffered, Settled, Kseg, Page, Row, Plain, Get, WriteValue, InterruptsEnabled, InRom, Set,
           InExtBank, Alu, Proper, ExecuteLatched, DecodeDone, MemoryLatched, Disturbed, FetchMapped, WriteArmed,
           RowPresented, Decoded, BufferStands;
      FetchesWord(q);
      StaysCalm(q, inputs);
      var word, d := InstructionWord(), Disturbed(inputs);
      var port := WritePort(m.back.write, m.back.addr, m.memOutput, m.back.byteOnly, m.back.bytePos);
      LatchExecute(q);
      LatchMemory(q);
      assert m.pins == ALL_RELEASED;
      LatchFetch(q, word, d, port);
    }

    method LatchExecute(ghost q: Pipe)
      requires ExecuteStands(q) && MemoryStands(q)
      modifies a
      ensures ExecuteLatched(q)
      ensures a.out == old(a.out) && a.physical == old(a.physical)
    {
      hide Proper, Alu, WriteValue;
      a.S0(f.out.alu, f.out.ctl);
    }

    method LatchMemory(ghost q: Pipe)
      requires m.sb.inTheMiddle == q.rewrite.Some?
      requires q.rewrite.Some? ==> Rewrite(m.memAddr, m.sb.targetData) == q.rewrite.value
      modifies m
      ensures MemoryLatched(q) && m.pins == ALL_RELEASED
    {
      m.S0(a.out, a.physical);
    }

    method LatchFetch(ghost q: Pipe, word: Word, d: Disturbance, port: WritePort)
      requires AddressStands(q) && BufferStands(q) && FetchStands(q) && Plain(Decoded(q)) && d.Calm?
      requires word == Fetch(q.ram, q.slots, q.pc) && PortWrite(port) == q.wb && r.Contents() == q.regs
      modifies f, p, r
      ensures DecodeDone(q) && f.lastLast == q.lastLast && WriteArmed(q) && f.c0 == old(f.c0)
    {
      hide Decode, Fetch, Buffered, Settled, Page, Plain, Get, PortWrite, Set, RegA, RegB, BufferStands, PhysicalOf,
           Row, InExtBank, InRom, SlotOf;
      ghost var jump := if f.out.jumpTrue then Some(f.out.jumpAddr) else None;
      p.S0(f.hold, f.out.jumpTrue, f.out.jumpAddr);
      f.S0(p.pc, word, d, port);
      BufferedReads(f.buffer, Decoded(q), q.pc, q.special);
      r.FallingEdge(f.writePort, f.buffer.readA, f.buffer.readB);
    }

    /** Second phase: hazards are found, the memory access starts, the bus changes hands. */
    method Phase1(ghost q: Pipe, inputs: Inputs)
      requires DecodeDone(q) && f.lastLast == q.lastLast && WriteArmed(q)
      requires ExecuteLatched(q) && MemoryLatched(q) && chips.Contents() == q.ram
      requires AvoidsDevices(q.mem) && (q.rewrite.Some? ==> q.mem.Bubble? && DeviceFree(q.rewrite.value.addr))
      modifies f, r, a, m, p, t
      ensures DecodeDone(q) && f.lastLast == q.lastLast && !f.writePort.enable
      ensures f.hold == Hazard(q.last, q.lastLast, Decoded(q)) && p.virtualPage == Page(p.fetchPc)
      ensures t.slots == BufferSlots(q) && !f.tlbPort.armed
      ensures ExecuteLatched(q) && a.virtualPage == Page(Result(a.operands))
      ensures AccessStarted(q)
      ensures chips.Contents() == q.ram && p.drives == None && NoContention() && f.c0 == old(f.c0)
    {
      hide Decode, Fetch, Buffered, Kseg, Page, Row, Plain, Get, InRom, InExtBank, Alu, Proper, Drive, DeviceFree,
           ExecuteLatched, DecodeDone, Hazard, Freezes, AccessStarted, WriteArmed, BufferSlots, Decoded;
      StartExecute(q);
      StartAccess(q, inputs.deviceStatus);
      StartFetch(q);
    }

    method StartExecute(ghost q: Pipe)
      requires ExecuteLatched(q)
      modifies a
      ensures ExecuteLatched(q) && a.virtualPage == Page(Result(a.operands))
      ensures a.out == old(a.out) && a.physical == old(a.physical)
    {
      hide Proper, Alu, Page;
      a.S1();
    }

    method StartAccess(ghost q: Pipe, status: Word)
      requires ExecuteLatched(q) && MemoryLatched(q)
      requires AvoidsDevices(q.mem) && (q.rewrite.Some? ==> q.mem.Bubble? && DeviceFree(q.rewrite.value.addr))
      modifies m
      ensures AccessStarted(q)
    {
      hide Row, InExtBank, Alu, Drive, ReadsDevice, WritesDevice, BytePos, IsEthernet;
      m.S1(a.out, a.aluOutput, status);
    }

    /** The same edge for an access that reaches a device: no RAM row is driven; a load takes the device
        register, a store leaves for it. */
    method StartDevice(ghost q: Pipe, status: Word)
      requires ExecuteLatched(q) && MemoryLatched(q) && q.rewrite.None? && !AvoidsDevices(q.mem)
      modifies m
      ensures q.mem.LoadAt? && ReadsDevice(q.mem.addr) ==>
                && m.pins == ALL_RELEASED
                && if IsEthernet(q.mem.addr) then !m.selection.useOutput && m.selection.useEthernet
                   else m.selection.useOutput && m.selection.output == status
      ensures q.mem.StoreAt? && !q.mem.byteOnly && WritesDevice(q.mem.addr) ==>
                m.pins == ALL_RELEASED && m.deviceWrite == Some((q.mem.addr, q.mem.data))
    {
      hide Row, InExtBank, Alu, Drive, ReadsDevice, WritesDevice, BytePos, IsEthernet;
      m.S1(a.out, a.aluOutput, status);
    }

    method StartFetch(ghost q: Pipe)
      requires DecodeDone(q) && f.lastLast == q.lastLast && WriteArmed(q)
      modifies f, p, r, t
      ensures DecodeDone(q) && f.lastLast == q.lastLast && !f.writePort.enable
      ensures t.slots == BufferSlots(q) && !f.tlbPort.armed && f.c0 == old(f.c0)
      ensures f.hold == Hazard(q.last, q.lastLast, Decoded(q)) && p.virtualPage == Page(p.fetchPc) && p.drives == None
    {
      hide Fetch, Decoded, Buffered, Page, Plain, Get, RegA, RegB, PhysicalOf, Row, InExtBank, InRom, SlotOf, WriteOf;
      BufferedReads(f.buffer, Decoded(q), q.pc, q.special);
      WriteTwice(q);
      p.S1();
      f.S1();
      r.RisingEdge();
      if f.tlbPort.setDo {
        t.Write(f.tlbPort.index % 8, f.tlbPort.slot);
      }
      r.FallingEdge(f.writePort, f.buffer.readA, f.buffer.readB);
    }

    /** Writing the slot again changes nothing. */
    lemma WriteTwice(q: Pipe)
      ensures BufferSlots(q)
              == if Decoded(q).Tlbwi? then Written(q.slots, WriteOf(q.special)) else q.slots
      ensures Written(Written(q.slots, WriteOf(q.special)), WriteOf(q.special))
              == Written(q.slots, WriteOf(q.special))
    {
      hide SlotOf, WriteOf, Decoded;
    }

    /** Third phase: the memory access completes, the hold becomes final, the next fetch address
        is translated. */
    method Phase2(ghost q: Pipe, inputs: Inputs)
      requires DecodeDone(q) && f.lastLast == q.lastLast && !f.writePort.enable
      requires f.hold == Hazard(q.last, q.lastLast, Decoded(q)) && p.virtualPage == Page(p.fetchPc)
      requires AccessStarted(q) && Proper(a.out) && UopOf(a.out, a.aluOutput, a.physical) == q.mem
      requires chips.Contents() == q.ram && p.drives == None && NoContention()
      requires q.rewrite.Some? ==> q.mem.Bubble?
      requires t.slots == BufferSlots(q) && !f.tlbPort.armed && IsMapped(BufferSlots(q), NextFetch(q))
      modifies f, r, m, p, chips
      ensures DecodeDone(q) && !f.writePort.enable && f.hold == Held(q)
      ensures f.lastLast == if Freezes(q.mem, q.rewrite) then q.lastLast else q.last
      ensures r.signedProduct == Multiply(true, r.valueA, r.valueB)
      ensures r.unsignedProduct == Multiply(false, r.valueA, r.valueB)
      ensures p.realAddr == PhysicalOf(BufferSlots(q), NextFetch(q)) && !f.tlbPort.armed
      ensures p.virtualPage == Page(p.fetchPc) && p.drives == None && NoContention()
      ensures AccessDone(q) && f.c0[COUNT] == Wrap(old(f.c0[COUNT]) as int + 1)
    {
      hide Decode, Fetch, Buffered, Kseg, Page, Row, Plain, Get, InRom, InExtBank, Alu, Proper, Drive, Multiply,
           DecodeDone, Hazard, Freezes, AccessStarted, AccessDone, BufferSlots, PhysicalOf, IsMapped, Decoded;
      CompleteAccess(q, inputs.ethernet);
      assert m.holdFromMemory == Freezes(q.mem, q.rewrite) by {
        FreezeShown(q);
      }
      CompleteFetch(q);
    }

    lemma FreezeShown(q: Pipe)
      requires AccessDone(q)
      ensures m.holdFromMemory == m.sb.inTheMiddle == Freezes(q.mem, q.rewrite)
    {
    }

    method CompleteAccess(ghost q: Pipe, ethernet: Word)
      requires AccessStarted(q) && Proper(a.out) && UopOf(a.out, a.aluOutput, a.physical) == q.mem
      requires chips.Contents() == q.ram
      requires q.rewrite.Some? ==> q.mem.Bubble?
      modifies m, chips
      ensures AccessDone(q)
    {
      hide Row, InExtBank, Alu, BytePos, Lane;
      chips.EndOfPulse(m.pins);
      m.S2(chips.baseBank[Bus(m.pins.baseBank.addr)], chips.extBank[Bus(m.pins.extBank.addr)], ethernet);
    }

    method CompleteFetch(ghost q: Pipe)
      requires DecodeDone(q) && f.lastLast == q.lastLast && !f.writePort.enable
      requires f.hold == Hazard(q.last, q.lastLast, Decoded(q)) && p.virtualPage == Page(p.fetchPc)
      requires m.holdFromMemory == Freezes(q.mem, q.rewrite)
      requires t.slots == BufferSlots(q) && !f.tlbPort.armed && IsMapped(BufferSlots(q), NextFetch(q))
      modifies f, p, r
      ensures DecodeDone(q) && !f.writePort.enable && f.hold == Held(q)
      ensures f.lastLast == if Freezes(q.mem, q.rewrite) then q.lastLast else q.last
      ensures r.signedProduct == Multiply(true, r.valueA, r.valueB)
      ensures r.unsignedProduct == Multiply(false, r.valueA, r.valueB)
      ensures p.realAddr == PhysicalOf(BufferSlots(q), NextFetch(q)) && !f.tlbPort.armed
      ensures p.virtualPage == Page(p.fetchPc) && p.drives == old(p.drives)
      ensures f.c0[COUNT] == Wrap(old(f.c0[COUNT]) as int + 1)
    {
      hide Fetch, Decoded, Buffered, Page, Plain, Get, RegA, RegB, Hazard, Multiply, Lookup, Translate, Freezes,
           BufferSlots, Row, InExtBank, InRom;
      BufferedReads(f.buffer, Decoded(q), q.pc, q.special);
      p.S2(Frame(p.virtualPage));
      f.S2(m.holdFromMemory, p.pc);
      r.RisingEdge();
      r.FallingEdge(f.writePort, f.buffer.readA, f.buffer.readB);
    }

    /** Last phase: issue or bubble, hand over between the stages, present the next instruction. */
    method Phase3(ghost q: Pipe, ghost code: Code)
      requires Orderly(q, code) && WellBehaved(View(q), code)
      requires DecodeDone(q) && !f.writePort.enable && f.hold == Held(q)
      requires f.lastLast == if Freezes(q.mem, q.rewrite) then q.lastLast else q.last
      requires r.signedProduct == Multiply(true, r.valueA, r.valueB)
      requires r.unsignedProduct == Multiply(false, r.valueA, r.valueB)
      requires p.realAddr == PhysicalOf(BufferSlots(q), NextFetch(q)) && p.virtualPage == Page(p.fetchPc)
      requires t.slots == BufferSlots(q) && !f.tlbPort.armed
      requires ExecuteLatched(q) && a.virtualPage == Page(Result(a.operands)) && AccessDone(q)
      modifies f, r, a, m, p
      ensures Ends(CycleOf(q)) && NoContention()
      ensures f.c0[COUNT] == if WritesCount(q) then Get(WriteBackStage(q.regs, q.wb), RegA(Decoded(q)))
                             else old(f.c0[COUNT])
    {
      hide Decode, Fetch, Buffered, Kseg, Page, Row, Plain, Get, InRom, InExtBank, Alu, Proper, Multiply, View,
           Hazard, Freezes, AccessDone, WellBehaved, Orderly, Held, Step, Settled, FetchStands, Lookup,
           ExecuteLatched, WriteValue, WriteBackStage, Issue, NextFetch, BufferSlots, PhysicalOf, RowPresented,
           Decoded, AccessMapped, WritesCount, RegA;
      FreezeShown(q);
      HandOver(q, code);
      IssueOrBubble(q, code);
      Present(q);
      StepShape(q);
      BufferKept(q, code);
      WithoutAccess(Step(q));
    }

    /** Only the memory stage looks at the access. */
    lemma WithoutAccess(n: Pipe)
      ensures AddressStands(n) ==> AddressStands(n.(mem := Bubble))
      ensures BufferStands(n) ==> BufferStands(n.(mem := Bubble))
      ensures FetchStands(n) ==> FetchStands(n.(mem := Bubble))
    {
      hide Decode, Fetch, SlotsAfter, Settled, PhysicalOf, Row, InExtBank;
    }

    lemma ExecuteMapped(q: Pipe, code: Code)
      requires Consistent(q, code) && WellBehaved(View(q), code)
      ensures AccessMapped(q)
    {
      hide View, WellBehaved, BufferSlots, SteadyPage, Translated, SlotsAfter, Current, IsMapped;
      TextBehaves(View(q), code);
      ViewPc(q);
      FetchesCurrent(q, code);
      SteadyShown(q);
    }

    /** The slots as the next macro-cycle finds them. */
    lemma BufferKept(q: Pipe, code: Code)
      requires Orderly(q, code) && WellBehaved(View(q), code)
      requires t.slots == BufferSlots(q)
      ensures BufferStands(Step(q))
    {
      hide Decode, Fetch, View, WellBehaved, Orderly, Hazard, Freezes, Issue, NextLast, NextFetch, Decoded,
           MemoryStage, WriteBackStage, Translated, SlotsAfter;
      if Held(q) {
        HeldStays(q, code);
      }
    }

    lemma StepShape(q: Pipe)
      ensures Step(q).rewrite.Some? == Freezes(q.mem, q.rewrite)
      ensures Step(q).ex == if Freezes(q.mem, q.rewrite) then q.ex else if Held(q) then Bubble else Issue(q).uop
    {
      hide Hazard, Issue, NextLast, NextFetch, Stored, Loaded, BufferSlots, Translated;
    }

    /** The execute and memory stages at the last edge. */
    method HandOver(ghost q: Pipe, ghost code: Code)
      requires Orderly(q, code)
      requires m.holdFromMemory == m.sb.inTheMiddle == Freezes(q.mem, q.rewrite)
      requires ExecuteLatched(q) && a.virtualPage == Page(Result(a.operands)) && AccessDone(q)
      requires r.Contents() == WriteBackStage(q.regs, q.wb)
      requires t.slots == BufferSlots(q)
      modifies a, m
      ensures m.holdFromMemory == old(m.holdFromMemory) && a.doNotReadInput == Freezes(q.mem, q.rewrite)
      ensures m.pins == ALL_RELEASED
      ensures AccessMapped(q) ==> MemoryStands(Step(q)) && !a.skipOne && !a.tlbException
      ensures !AccessMapped(q) ==>
                MemoryStands(Step(q).(mem := Bubble)) && FaultRaised(q.ex.StoreAt?, q.ex.addr)
      ensures Proper(a.latched) && UopOf(a.latched, Result(a.operands), Result(a.operands)) == q.ex
    {
      hide Page, Row, InExtBank, Alu, Held, NextLast, NextFetch, Issue, WriteValue, Translate, Kseg, BytePos, MergeLane,
           DeviceFree, InCode, ReadWord, Lookup, BufferSlots, TouchesRamOnly;
      var found := Lookup(t.slots, a.virtualPage);
      a.S3(m.holdFromMemory, Frame(a.virtualPage), found.None?);
      m.S3();
    }

    /** The fetch stage at the last edge. */
    method IssueOrBubble(ghost q: Pipe, ghost code: Code)
      requires Orderly(q, code) && WellBehaved(View(q), code)
      requires DecodeDone(q) && !f.writePort.enable && f.hold == Held(q)
      requires m.holdFromMemory == Freezes(q.mem, q.rewrite) && !f.tlbPort.armed
      requires f.lastLast == if Freezes(q.mem, q.rewrite) then q.lastLast else q.last
      requires r.signedProduct == Multiply(true, r.valueA, r.valueB)
      requires r.unsignedProduct == Multiply(false, r.valueA, r.valueB)
      modifies f
      ensures FetchStands(Step(q)) && !f.writePort.enable && f.hold == Held(q)
      ensures f.c0[COUNT] == if WritesCount(q) then old(r.valueA) else old(f.c0[COUNT])
      ensures Proper(f.out.ctl) || Freezes(q.mem, q.rewrite)
      ensures UopOf(f.out.ctl, Result(f.out.alu), Result(f.out.alu)) == if Held(q) then Bubble else Issue(q).uop
    {
      hide Decode, Fetch, Buffered, Kseg, Page, Row, Plain, Get, InRom, InExtBank, RegA, RegB, Hazard, Multiply, Alu,
           View, WellBehaved, Orderly, Freezes, IssuedOutputs, SpecialAfter, IssuedLast, Settled, NextFetch, Effect,
           LinkingBranch, Released, Consumed, MemoryStage, Translated;
      ghost var b, i, out, hi, lo, c0 := f.buffer, Decoded(q), f.out, f.hi, f.lo, f.c0;
      f.S3(m.holdFromMemory, r.valueA, r.valueB, r.signedProduct, r.unsignedProduct);
      if Held(q) {
        HeldStays(q, code);
        ReleasedSettles(b, i, q.pc, q.special);
      } else {
        IssueMeans(b, i, q.pc, out, r.valueA, r.valueB, q.special);
        IssueUpdatesSpecial(b, i, q.pc, r.valueA, r.valueB, hi, lo, c0);
        IssueNamesDest(b, i, q.pc, q.last, r.valueA, r.valueB, q.special);
        ConsumedSettles(b, Decoded(Step(q)));
        IssueCounts(b, i, q.pc, r.valueA, r.signedProduct, r.unsignedProduct, hi, lo, c0);
      }
    }

    lemma IssueCounts(b: Buffer, i: Instr, pc: Word, valueA: Word, signed: Product, unsigned: Product,
                      hi: Word, lo: Word, c0: C0File)
      requires Buffered(b, i, pc, Special(hi, lo, Uncounted(c0)))
      ensures SpecialAfter(b, valueA, signed, unsigned, Special(hi, lo, c0)).c0[COUNT]
              == if i.Mtc0? && i.cr == COUNT then valueA else c0[COUNT]
    {
    }

    /** The next-address stage and the register file at the last edge. */
    method Present(ghost q: Pipe)
      requires p.pc == q.pc && p.fetchPc == NextFetch(q) && RowPresented(q)
      requires !f.writePort.enable && f.hold == Held(q)
      requires p.realAddr == PhysicalOf(BufferSlots(q), NextFetch(q)) && p.virtualPage == Page(p.fetchPc)
      modifies r, p
      ensures AddressStands(Step(q)) && r.Contents() == old(r.Contents())
    {
      hide Page, Row, Get, InExtBank, Multiply, NextFetch, Held, Issue, MemoryStage, NextLast, Freezes,
           WriteBackStage, Translated, BufferSlots, PhysicalOf;
      r.RisingEdge();
      r.FallingEdge(f.writePort, f.buffer.readA, f.buffer.readB);
      p.S3(f.hold);
    }

    lemma ReleasedSettles(b: Buffer, i: Instr, pc: Word, s: Special)
      requires Buffered(b, i, pc, s)
      ensures Settled(Released(b), i)
      ensures Links(b) == LinkingBranch(i)
    {
    }

    lemma ConsumedSettles(b: Buffer, i: Instr)
      ensures Settled(Consumed(b), i)
    {
    }

    // ----- whole macro-cycles and whole runs

    /** One macro-cycle of the hardware is one step of the pipeline model, or ends in a fault when the
        instruction in decode unmaps the page being accessed. */
    method MacroCycle(ghost q: Pipe, ghost code: Code, inputs: Inputs)
      requires Stands(q) && Orderly(q, code) && WellBehaved(View(q), code)
      modifies f, r, a, m, p, t, chips
      ensures Ends(CycleOf(q)) && NoContention()
      ensures SteadyPage(q) ==> Stands(Step(q)) && Consistent(Step(q), code)
      ensures f.c0[COUNT] == NextCount(q, old(f.c0[COUNT]))
    {
      hide Decode, Fetch, Buffered, View, WellBehaved, Orderly, SteadyPage, Ends, AccessMapped, WritesCount, RegA,
           WriteBackStage, Get, Step, Stands, DecodeDone, ExecuteLatched,
           MemoryLatched, AccessStarted, AccessDone, Plain, InterruptsEnabled, AvoidsDevices, TouchesRamOnly,
           DeviceFree, Hazard, Freezes, Held, NextFetch, NoContention, Proper, UopOf, Alu, Page, Row, InExtBank,
           Multiply, WriteArmed, BufferSlots, PhysicalOf, IsMapped, Decoded;
      Premises(q, code);
      if SteadyPage(q) {
        StepConsistent(q, code);
        ExecuteMapped(q, code);
      }
      Phase0(q, inputs);
      Phase1(q, inputs);
      assert Proper(a.out) && UopOf(a.out, a.aluOutput, a.physical) == q.mem by {
        MemoryRequest(q);
      }
      Phase2(q, inputs);
      Phase3(q, code);
      NextEnds(q);
    }

    lemma NextEnds(q: Pipe)
      requires Ends(CycleOf(q))
      ensures AccessMapped(q) ==> Stands(Step(q))
    {
      hide Stands, AccessMapped, Step;
    }

    lemma MemoryRequest(q: Pipe)
      requires ExecuteLatched(q)
      ensures Proper(a.out) && UopOf(a.out, a.aluOutput, a.physical) == q.mem
    {
    }

    lemma Premises(q: Pipe, code: Code)
      requires Orderly(q, code) && WellBehaved(View(q), code)
      ensures Plain(Decoded(q)) && !InterruptsEnabled(q.special.c0) && FetchMapped(q)
      ensures AvoidsDevices(q.mem)
      ensures q.rewrite.Some? ==> q.mem.Bubble? && DeviceFree(q.rewrite.value.addr)
    {
      hide Decode, Fetch, DeviceFree, InText, DrainedRegs, DrainedRam, Perform, Current, Decoded, PhysicalOf,
           BufferSlots, SlotsAfter, Lookup, RemapsOwnPage, ArchStep, View;
      TextBehaves(View(q), code);
      ViewPc(q);
      FetchesCurrent(q, code);
    }

    /** Main result: after any number of macro-cycles the hardware stands for a pipeline state whose
        programmer's view is the sequential machine after the issued instructions. */
    method Run(ghost q: Pipe, ghost code: Code, inputs: seq<Inputs>)
      requires Stands(q) && Consistent(q, code)
      requires WellBehavedRun(View(q), |inputs|, code)
      modifies f, r, a, m, p, t, chips
      ensures Stands(Pipeline.Run(q, |inputs|))
      ensures f.c0[COUNT] == CountAfter(q, |inputs|, old(f.c0[COUNT]))
      ensures View(Pipeline.Run(q, |inputs|)) == ArchRun(View(q), Issued(q, |inputs|))
    {
      hide *;
      var n := 0;
      RunZero(q);
      CountStart(q, f.c0[COUNT]);
      IssuedBounded(q, |inputs|);
      ShorterRun(View(q), |inputs|, Issued(q, |inputs|), code);
      while n < |inputs|
        invariant 0 <= n <= |inputs|
        invariant Stands(Pipeline.Run(q, n)) && Consistent(Pipeline.Run(q, n), code)
        invariant f.c0[COUNT] == CountAfter(q, n, old(f.c0[COUNT]))
      {
        ghost var now := Pipeline.Run(q, n);
        IssuedBounded(q, n);
        ShorterRun(View(q), |inputs|, Issued(q, n), code);
        RunRefines(q, n, code);
        BehavesAt(View(q), |inputs|, Issued(q, n), code);
        ConsistentParts(now, code);
        MacroCycle(now, code, inputs[n]);
        RunNext(q, n);
        CountNext(q, n, old(f.c0[COUNT]));
        n := n + 1;
      }
      RunRefines(q, |inputs|, code);
    }
  }

  lemma CountStart(p: Pipe, count: Word)
    ensures CountAfter(p, 0, count) == count
  {
  }

  lemma CountNext(p: Pipe, n: nat, count: Word)
    ensures CountAfter(p, n + 1, count) == NextCount(Pipeline.Run(p, n), CountAfter(p, n, count))
  {
    hide NextCount;
  }

  /** While no instruction writes it the Count register is a clock of macro-cycles. */
  lemma {:induction false} CountIsClock(p: Pipe, n: nat, count: Word)
    requires forall k: nat | k < n :: !WritesCount(Pipeline.Run(p, k))
    ensures CountAfter(p, n, count) == Wrap(count as int + n)
  {
    hide WritesCount, Pipeline.Run, Wrap;
    if n == 0 {
      WrapOf(count);
    } else {
      CountIsClock(p, n - 1, count);
      WrapNext(count as int + (n - 1));
    }
  }

  lemma WrapOf(w: Word)
    ensures Wrap(w) == w
  {
  }

  lemma WrapNext(x: int)
    ensures Wrap(Wrap(x) as int + 1) == Wrap(x + 1)
  {
    assert x + 1 == Wrap(x) as int + 1 + x / WORD_LIMIT * WORD_LIMIT;
  }

  predicate SetsCount(i: Instr) { i.Mtc0? && i.cr == COUNT }

  lemma WritesCountShown(p: Pipe, n: nat, k: nat, code: Code)
    requires Consistent(p, code) && WellBehavedRun(View(p), n, code) && k < n
    requires forall j: nat | j < n :: !SetsCount(Current(ArchRun(View(p), j)))
    ensures !WritesCount(Pipeline.Run(p, k))
  {
    hide Orderly, SteadyPage, WellBehaved, View, Current, Decoded, Held, ArchRun, Pipeline.Run, Issued, InText;
    IssuedBounded(p, k);
    ShorterRun(View(p), n, Issued(p, k), code);
    RunRefines(p, k, code);
    BehavesAt(View(p), n, Issued(p, k), code);
    TextBehaves(ArchRun(View(p), Issued(p, k)), code);
    ViewPc(Pipeline.Run(p, k));
    FetchesCurrent(Pipeline.Run(p, k), code);
  }

  lemma ConsistentParts(p: Pipe, code: Code)
    requires Consistent(p, code)
    ensures Orderly(p, code) && SteadyPage(p)
  {
  }

  lemma BehavesAt(s: Arch, n: nat, k: nat, code: Code)
    requires WellBehavedRun(s, n, code) && k <= n
    ensures WellBehaved(ArchRun(s, k), code)
  {
    hide WellBehaved, ArchRun;
  }

  /** The sequential machine after reset. */
  function ResetArch(resetOnBios: bool, ram: Ram): Arch
  {
    var begin := if resetOnBios then BIOS_BEGIN_PC else BEGIN_PC;
    Arch(begin, begin + 4, RegFile(seq(32, _ => 0)[29 := 0x807F_FF00], []), Special(0, 0, seq(32, _ => 0)), NoSlots(),
         ram)
  }

  lemma ResetStands(resetOnBios: bool, ram: Ram, code: Code)
    ensures View(ResetPipe(resetOnBios, ram)) == ResetArch(resetOnBios, ram)
    ensures Consistent(ResetPipe(resetOnBios, ram), code)
    ensures !Stuck(ResetPipe(resetOnBios, ram))
  {
    hide Decode, Fetch;
  }

  /** Main result, from reset: run any well-behaved program without a hanging pair for any number of
      macro-cycles, with any inputs from outside. The register and RAM writes made are those of the
      sequential machine in the same order, short of at most the three register and two RAM writes
      still in flight; HI, LO and coprocessor 0 agree; the translation slots are those of the slot
      writes executed, counting one that is held in decode; and at least every fourth macro-cycle has
      issued an instruction. The Count register has counted the macro-cycles since it was last written. */
  method RunFromReset(resetOnBios: bool, baseBank: Bank, extBank: Bank, rom: Rom, inputs: seq<Inputs>, ghost code: Code)
    returns (c: Computer, ghost k: nat)
    requires var s := ResetArch(resetOnBios, Ram(baseBank, extBank, rom, []));
             && WellBehavedRun(s, |inputs|, code)
             && forall j: nat | j < |inputs| :: !HangsAfter(ArchRun(s, j))
    ensures |inputs| / 4 <= k <= |inputs|
    ensures var s := ArchRun(ResetArch(resetOnBios, Ram(baseBank, extBank, rom, [])), k);
            && c.p.pc == s.pc
            && c.r.log <= s.regs.log && |s.regs.log| <= |c.r.log| + 3
            && c.chips.log <= s.ram.log && |s.ram.log| <= |c.chips.log| + 2
            && c.f.SpecialView() == s.special
            && exists q :: c.Stands(q) && View(q) == s
    ensures var s := ResetArch(resetOnBios, Ram(baseBank, extBank, rom, []));
            && c.t.slots == AfterWrites(SlotWrites(s, if c.f.hold then k + 1 else k))
            && ((forall j: nat | j < |inputs| :: !SetsCount(Current(ArchRun(s, j)))) ==>
                  c.f.c0[COUNT] == |inputs| % WORD_LIMIT)
    ensures c.f.c0[COUNT] == CountAfter(ResetPipe(resetOnBios, Ram(baseBank, extBank, rom, [])), |inputs|, 0)
  {
    hide *;
    ghost var ram := Ram(baseBank, extBank, rom, []);
    ghost var q := ResetPipe(resetOnBios, ram);
    c := new Computer(resetOnBios, baseBank, extBank, rom);
    ResetStands(resetOnBios, ram, code);
    c.Run(q, code, inputs);
    k := Issued(q, |inputs|);
    Throughput(q, |inputs|, code);
    ShorterRun(View(q), |inputs|, k, code);
    WritesInOrder(q, |inputs|, code);
    ViewPc(Pipeline.Run(q, |inputs|));
    ghost var now := Pipeline.Run(q, |inputs|);
    StandsShown(c, now);
    BehavesAt(View(q), |inputs|, k, code);
    RunRefines(q, |inputs|, code);
    SlotsShown(c, now, code);
    EmptyAtReset(resetOnBios, ram);
    SlotsAreWritten(ResetArch(resetOnBios, ram), k);
    SlotsAreWritten(ResetArch(resetOnBios, ram), k + 1);
    ArchRunNext(ResetArch(resetOnBios, ram), k + 1);
    ClockShown(q, |inputs|, code);
  }

  lemma ClockShown(q: Pipe, n: nat, code: Code)
    requires Consistent(q, code) && WellBehavedRun(View(q), n, code)
    ensures (forall j: nat | j < n :: !SetsCount(Current(ArchRun(View(q), j)))) ==>
              CountAfter(q, n, 0) == n % WORD_LIMIT
  {
    hide Consistent, WellBehavedRun, View, Current, ArchRun, CountAfter, SetsCount, WritesCount;
    if forall j: nat | j < n :: !SetsCount(Current(ArchRun(View(q), j))) {
      forall k: nat | k < n
        ensures !WritesCount(Pipeline.Run(q, k))
      {
        WritesCountShown(q, n, k, code);
      }
      CountIsClock(q, n, 0);
    }
  }

  lemma EmptyAtReset(resetOnBios: bool, ram: Ram)
    ensures ResetArch(resetOnBios, ram).slots == NoSlots()
  {
  }

  /** The slots are those of the issued instructions, and of a `tlbwi` held in decode. */
  lemma SlotsShown(c: Computer, q: Pipe, code: Code)
    requires c.Stands(q) && Consistent(q, code) && WellBehaved(View(q), code)
    ensures c.t.slots == if c.f.hold then ArchStep(View(q)).slots else View(q).slots
  {
    hide WellBehaved, Orderly, SteadyPage, View, Current, SlotsAfter, BufferSlots, ArchStep, Decoded, RegA, RegB,
         Settled;
    TextBehaves(View(q), code);
    ViewPc(q);
    FetchesCurrent(q, code);
    StepSlots(View(q));
  }

  lemma StandsShown(c: Computer, q: Pipe)
    requires c.Stands(q)
    ensures c.p.pc == q.pc && c.r.log == q.regs.log && c.chips.log == q.ram.log && c.f.SpecialView() == q.special
  {
    hide BufferSlots, PhysicalOf, Row, InExtBank, Settled, Decoded;
  }

  // ----- a program that meets the hypotheses

  /** `j` to itself at the start of RAM, with a `nop` in the delay slot. */
  predicate Spins(ram: Ram) { ram.baseBank[0] == 0x0800_0000 && ram.baseBank[1] == 0 }

  function SpinState(ram: Ram, odd: bool): Arch
  {
    var s := ResetArch(false, ram);
    if odd then s.(pc := s.npc, npc := s.pc) else s
  }

  const SPIN_CODE: Code := iset{(false, 0), (false, 1)}

  lemma SpinFetches(ram: Ram)
    requires Spins(ram)
    ensures Fetch(ram, NoSlots(), 0x8000_0000) == 0x0800_0000 && Fetch(ram, NoSlots(), 0x8000_0004) == 0
    ensures InText(SPIN_CODE, NoSlots(), 0x8000_0000) && InText(SPIN_CODE, NoSlots(), 0x8000_0004)
    ensures IsMapped(NoSlots(), 0x8000_0000) && IsMapped(NoSlots(), 0x8000_0004)
  {
    hide Lookup, PhysicalOf, IsMapped;
    KsegPhysical(NoSlots(), 0x8000_0000);
    KsegPhysical(NoSlots(), 0x8000_0004);
    assert Row(0) == 0 && Row(4) == 1;
  }

  lemma SpinDecodes()
    ensures Decode(0x0800_0000) == JumpAbs(false, 0x0800_0000) && Decode(0) == AluImm(12, 0, 0, 0)
    ensures JumpTarget(0x8000_0000, 0x0800_0000) == 0x8000_0000
    ensures !InterruptsEnabled(seq(32, _ => 0))
  {
  }

  lemma SpinStep(ram: Ram, odd: bool)
    requires Spins(ram)
    ensures ArchStep(SpinState(ram, odd)) == SpinState(ram, !odd)
    ensures WellBehaved(SpinState(ram, odd), SPIN_CODE)
    ensures !LinkingBranch(Current(SpinState(ram, odd)))
  {
    hide Alu, Set, Fetch, Decode, InText, JumpTarget, IsMapped, PhysicalOf, InterruptsEnabled, Get, Spins;
    SpinFetches(ram);
    SpinDecodes();
    SetZero(SpinState(ram, odd).regs);
  }

  lemma SetZero(g: RegFile)
    ensures forall v: Word :: Set(g, 0, v) == g
  {
  }

  lemma SpinStart(ram: Ram)
    ensures SpinState(ram, false) == ResetArch(false, ram)
  {
  }

  lemma {:induction false} SpinRun(ram: Ram, k: nat)
    requires Spins(ram)
    ensures ArchRun(ResetArch(false, ram), k) == SpinState(ram, k % 2 == 1)
  {
    hide ArchStep, SpinState, Spins, WellBehaved, Current, LinkingBranch, ResetArch;
    SpinStart(ram);
    if k > 0 {
      SpinRun(ram, k - 1);
      SpinStep(ram, (k - 1) % 2 == 1);
    }
  }

  /** The hypotheses of `RunFromReset` can be met for runs of every length. */
  lemma SpinBehaves(ram: Ram, n: nat)
    requires Spins(ram)
    ensures WellBehavedRun(ResetArch(false, ram), n, SPIN_CODE)
    ensures forall j: nat | j < n :: !HangsAfter(ArchRun(ResetArch(false, ram), j))
  {
    hide WellBehaved, ArchStep, ArchRun, ResetArch, Current, Spins;
    forall k: nat
      ensures WellBehaved(ArchRun(ResetArch(false, ram), k), SPIN_CODE)
      ensures !HangsAfter(ArchRun(ResetArch(false, ram), k))
    {
      SpinRun(ram, k);
      SpinStep(ram, k % 2 == 1);
      SpinStep(ram, k % 2 == 0);
    }
  }
}
