/** The five-stage pipeline, one transition per macro-cycle of four clocks. */
module Pipeline {
  import opened Words
  import opened Isa
  import opened Machine
  import opened Tlb

  /** A byte store between its read pass and its write pass. */
  datatype Rewrite = Rewrite(addr: Word, word: Word)

  /** The pipeline at the start of a macro-cycle.
      `pc` is being decoded; `fetchPc` and `jump` decide the address after it;
      `ex`, `mem` and `wb` are the instructions in the three later stages;
      `last` and `lastLast` are the two scoreboard entries;
      `slots` are the translation slots as the issued instructions left them. */
  datatype Pipe = Pipe(
    pc: Word, fetchPc: Word, hold: bool, jump: Option<Word>,
    ex: Uop, mem: Uop, rewrite: Option<Rewrite>, wb: Option<(RegNum, Word)>,
    last: RegNum, lastLast: RegNum,
    regs: RegFile, special: Special, slots: Slots, ram: Ram)

  // ----- stages

  function WriteBackStage(g: RegFile, wb: Option<(RegNum, Word)>): RegFile
  {
    if wb.Some? then Set(g, wb.value.0, wb.value.1) else g
  }

  /** What leaves the memory stage. */
  datatype MemResult = MemResult(wb: Option<(RegNum, Word)>, rewrite: Option<Rewrite>, ram: Ram)

  function MemoryStage(mem: Uop, rewrite: Option<Rewrite>, ram: Ram): MemResult
  {
    if rewrite.Some? then MemResult(None, None, WriteWord(ram, rewrite.value.addr, rewrite.value.word))
    else match mem
      case Bubble => MemResult(None, None, ram)
      case WriteBack(v, rd) => MemResult(Some((rd, v)), None, ram)
      case LoadAt(addr, byteOnly, rd) => MemResult(Some((rd, Loaded(ram, addr, byteOnly))), None, ram)
      case StoreAt(addr, byteOnly, data) =>
        if byteOnly then MemResult(None, Some(Rewrite(addr, Stored(ram, addr, true, data))), ram)
        else MemResult(None, None, WriteWord(ram, addr, data))
  }

  /** A byte store entering the memory stage freezes the stages before it. */
  predicate Freezes(mem: Uop, rewrite: Option<Rewrite>)
  {
    rewrite.None? && mem.StoreAt? && mem.byteOnly
  }

  predicate Clash(busy: RegNum, i: Instr)
  {
    busy != 0 && (busy == RegA(i) || busy == RegB(i))
  }

  predicate Hazard(last: RegNum, lastLast: RegNum, i: Instr) { Clash(lastLast, i) || Clash(last, i) }

  function Decoded(p: Pipe): Instr { Decode(Fetch(p.ram, p.slots, p.pc)) }

  predicate Held(p: Pipe)
  {
    Hazard(p.last, p.lastLast, Decoded(p)) || Freezes(p.mem, p.rewrite)
  }

  function NextFetch(p: Pipe): Word
  {
    if p.hold then p.fetchPc else Follow(p.fetchPc, p.jump)
  }

  /** The outcome of the instruction in decode, with the registers it would read now. */
  function Issue(p: Pipe): Outcome
  {
    var g := WriteBackStage(p.regs, p.wb);
    var i := Decoded(p);
    Effect(i, p.pc, Get(g, RegA(i)), Get(g, RegB(i)), p.special)
  }

  /** The scoreboard entry for the instruction just decoded. A held linking branch leaves the
      previous entry in place. */
  function NextLast(p: Pipe): RegNum
  {
    if Freezes(p.mem, p.rewrite) then p.last
    else if Held(p) then if LinkingBranch(Decoded(p)) then p.last else 0
    else Dest(Issue(p).uop)
  }

  /** The slots the translation buffer holds once decoding has begun: a `tlbwi` writes its slot while
      it is in decode, even when it is then held, so the instruction before it, still in the execute
      stage, is already translated by the new entry. */
  function BufferSlots(p: Pipe): Slots { SlotsAfter(Decoded(p), p.special, p.slots) }

  function Step(p: Pipe): Pipe
  {
    var m := MemoryStage(p.mem, p.rewrite, p.ram);
    var frozen := Freezes(p.mem, p.rewrite);
    var held := Held(p);
    var o := Issue(p);
    Pipe(
      if held then p.pc else NextFetch(p), NextFetch(p), held, if held then None else o.jump,
      if frozen then p.ex else if held then Bubble else o.uop,
      if frozen then Bubble else Translated(BufferSlots(p), p.ex),
      m.rewrite, m.wb,
      NextLast(p), if frozen then p.lastLast else p.last,
      WriteBackStage(p.regs, p.wb), if held then p.special else o.special,
      if held then p.slots else BufferSlots(p), m.ram)
  }

  /** The access leaving the execute stage finds its page in the translation buffer. */
  predicate AccessMapped(p: Pipe)
  {
    Freezes(p.mem, p.rewrite) || ((p.ex.LoadAt? || p.ex.StoreAt?) ==> IsMapped(BufferSlots(p), p.ex.addr))
  }

  /** What a macro-cycle ends in: the next pipeline state, or a translation fault of the access leaving
      the execute stage, which goes no further. */
  datatype Cycle = Next(pipe: Pipe) | Fault(pipe: Pipe, write: bool, addr: Word)

  function CycleOf(p: Pipe): Cycle
  {
    if AccessMapped(p) then Next(Step(p)) else Fault(Step(p).(mem := Bubble), p.ex.StoreAt?, p.ex.addr)
  }

  function Run(p: Pipe, n: nat): Pipe
  {
    if n == 0 then p else Step(Run(p, n - 1))
  }

  /** The instruction issued in this macro-cycle writes the Count register. */
  predicate WritesCount(p: Pipe) { !Held(p) && Decoded(p).Mtc0? && Decoded(p).cr == COUNT }

  /** The Count register after a macro-cycle: one more, unless it was written. */
  function NextCount(p: Pipe, count: Word): Word
  {
    if WritesCount(p) then Get(WriteBackStage(p.regs, p.wb), RegA(Decoded(p))) else Wrap(count as int + 1)
  }

  function CountAfter(p: Pipe, n: nat, count: Word): Word
  {
    if n == 0 then count else NextCount(Run(p, n - 1), CountAfter(p, n - 1, count))
  }

  /** The number of instructions issued in the first `n` macro-cycles. */
  function Issued(p: Pipe, n: nat): nat
  {
    if n == 0 then 0 else Issued(p, n - 1) + if Held(Run(p, n - 1)) then 0 else 1
  }

  // ----- what the pipeline stands for

  /** Memory and registers once every instruction already issued has completed. */
  function DrainedRam(p: Pipe): Ram
  {
    PerformRam(Translated(p.slots, p.ex), MemRam(p))
  }

  function MemRam(p: Pipe): Ram
  {
    if p.rewrite.Some? then WriteWord(p.ram, p.rewrite.value.addr, p.rewrite.value.word)
    else PerformRam(p.mem, p.ram)
  }

  function MemRegs(p: Pipe): RegFile
  {
    PerformRegs(p.mem, WriteBackStage(p.regs, p.wb), p.ram)
  }

  function DrainedRegs(p: Pipe): RegFile
  {
    PerformRegs(Translated(p.slots, p.ex), MemRegs(p), MemRam(p))
  }

  /** The programmer's view: the state after all issued instructions, before the one in decode. */
  function View(p: Pipe): Arch
  {
    Arch(p.pc, NextFetch(p), DrainedRegs(p), p.special, p.slots, DrainedRam(p))
  }

  // ----- invariant

  /** The scoreboard entries name exactly the destinations of the instructions in the execute
      and memory stages. An entry is stale only while its stage holds no instruction. */
  predicate Scoreboarded(p: Pipe)
  {
    && (p.ex.Bubble? || Dest(p.ex) == p.last)
    && (p.mem.Bubble? || Dest(p.mem) == p.lastLast)
  }

  predicate StoresAvoid(u: Uop, code: Code) { u.StoreAt? ==> !InCode(code, u.addr) }

  predicate RewriteAvoids(r: Rewrite, code: Code) { DeviceFree(r.addr) && !InCode(code, r.addr) }

  predicate AvoidsDevices(u: Uop) { (u.LoadAt? || u.StoreAt?) ==> DeviceFree(u.addr) }

  /** The instruction in decode does not move the page the one before it accesses. */
  predicate SteadyPage(p: Pipe)
  {
    SamePlace(p.slots, SlotsAfter(Current(View(p)), p.special, p.slots), p.ex)
  }

  /** The invariant of well-behaved runs. */
  predicate Consistent(p: Pipe, code: Code) { Orderly(p, code) && SteadyPage(p) }

  predicate Orderly(p: Pipe, code: Code)
  {
    && Scoreboarded(p)
    && (p.rewrite.Some? ==> p.mem.Bubble? && RewriteAvoids(p.rewrite.value, code))
    && TouchesRamOnly(p.slots, p.ex) && AvoidsDevices(p.mem)
    && StoresAvoid(Translated(p.slots, p.ex), code) && StoresAvoid(p.mem, code)
    && (p.hold ==> p.jump.None?)
  }
}
