/** The fetch and decode stage: scoreboard, issue, coprocessor 0 and exception entry. */
module Fetcher {
  import opened Words
  import opened Isa
  import opened Machine
  import opened Ports
  import opened Decoder
  import opened RegisterUnit
  import opened Pipeline
  import opened Tlb
  import opened InterruptHandler
  import opened Digits

  const CAUSE_INTERRUPT := 0
  const CAUSE_TLBL := 2
  const CAUSE_TLBS := 3
  const CAUSE_SYSCALL := 8
  /** Marks a translation fault of the fetch itself until it is reported as a load fault. */
  const CAUSE_FETCH := 31

  /** An exception waiting for entry, and the slots to be skipped after one. */
  datatype Exceptions = Exceptions(pending: bool, cause: nat, interrupts: nat, skipNext: bool, skipThis: bool)

  predicate Quiet(e: Exceptions) { !e.pending && !e.skipNext && !e.skipThis }

  /** What this stage hands to the execute stage and to the next-address stage. */
  datatype FetchOutputs = FetchOutputs(alu: AluPort, jumpTrue: bool, jumpAddr: Word, ctl: Controls)

  datatype TlbPort = TlbPort(setDo: bool, armed: bool, index: nat, slot: Slot)

  /** The exceptional inputs sampled at the first edge. */
  datatype Disturbance = Calm | Interrupt(numbers: nat) | DataFault(write: bool, addr: Word) | FetchFault

  /** The write a `tlbwi` asks for, waiting for the second edge. */
  function Armed(p: TlbPort, w: SlotWrite): TlbPort
  {
    p.(armed := true, index := w.index % 8, slot := SlotOf(w.hi, w.lo0, w.lo1))
  }

  function SetExl(status: Word): Word { if Bit1(status) then status else status + 2 }

  function ClearExl(status: Word): Word { if Bit1(status) then status - 2 else status }

  /** A word with the field of `width` values at weight `scale` replaced. */
  function SetField(w: Word, scale: nat, width: nat, v: nat): Word
    requires scale > 0 && width > 0
  {
    Wrap(w - (w / scale) % width * scale + v % width * scale)
  }

  /** The cause register after entry: exception code in bits 6 to 2, interrupts in bits 15 to 8. */
  function EnteredCause(cause: Word, code: nat, interrupts: nat): Word
  {
    SetField(SetField(cause, 4, 0x20, if code == CAUSE_FETCH then CAUSE_TLBL else code), 0x100, 0x100, interrupts)
  }

  function EnteredEpc(code: nat, pc: Word): Word
  {
    if code == CAUSE_TLBS || code == CAUSE_TLBL then Wrap(pc - 8) else pc
  }

  // ----- exception entry and return in numbers

  /** A data fault (codes 2 and 3) returns two instructions back, everything else to the instruction in
      decode. */
  predicate ReturnsRight(epc: Word, code: nat, pc: Word)
  {
    && (code == 2 || code == 3 ==> (epc - (pc - 8)) % 0x1_0000_0000 == 0)
    && (code == 0 || code == 8 || code == 31 ==> epc == pc)
  }

  /** Bits 6 to 2 hold the code, a fetch fault (31) as 2, bits 15 to 8 the interrupt lines; all other bits
      stay. */
  predicate CauseTold(before: Word, after: Word, code: nat, lines: nat)
  {
    forall k: nat | k < 32 ::
      Digit(after, k) == if 2 <= k <= 6 then Digit(if code == 31 then 2 else code, k - 2)
                         else if 8 <= k <= 15 then Digit(lines, k - 8)
                         else Digit(before, k)
  }

  /** One bit has the value, all others stay. */
  predicate BitBecomes(before: Word, after: Word, bit: nat, value: bool)
  {
    forall k: nat | k < 32 :: Digit(after, k) == if k == bit then value else Digit(before, k)
  }

  lemma EntryMeans(cause: Word, status: Word, code: nat, lines: nat, pc: Word)
    ensures ReturnsRight(EnteredEpc(code, pc), code, pc)
    ensures CauseTold(cause, EnteredCause(cause, code, lines), code, lines)
    ensures BitBecomes(status, SetExl(status), 1, true) && BitBecomes(status, ClearExl(status), 1, false)
  {
    hide Digit, EnteredCause, SetExl, ClearExl;
    forall k: nat | k < 32
      ensures Digit(EnteredCause(cause, code, lines), k)
              == if 2 <= k <= 6 then Digit(if code == 31 then 2 else code, k - 2)
                 else if 8 <= k <= 15 then Digit(lines, k - 8)
                 else Digit(cause, k)
    {
      CauseDigit(cause, code, lines, k);
    }
    forall k: nat | k < 32
      ensures Digit(SetExl(status), k) == if k == 1 then true else Digit(status, k)
      ensures Digit(ClearExl(status), k) == if k == 1 then false else Digit(status, k)
    {
      StatusDigit(status, k);
    }
  }

  /** The write waiting in the port: the slot the three low bits of Index (register 0) name, the pair from
      EntryHi (10), the halves from EntryLo0 (2) and EntryLo1 (3). */
  predicate AsksWrite(p: TlbPort, c0: C0File)
  {
    && p.armed && p.index == c0[0] % 8 && p.slot.pair == c0[10] / 0x2000
    && p.slot.even == Half(c0[2] / 0x40 % 0x10_0000, c0[2] / 4 % 2 == 1, c0[2] / 2 % 2 == 1)
    && p.slot.odd == Half(c0[3] / 0x40 % 0x10_0000, c0[3] / 4 % 2 == 1, c0[3] / 2 % 2 == 1)
  }

  lemma ArmedAsks(p: TlbPort, hi: Word, lo: Word, c0: C0File)
    ensures AsksWrite(Armed(p, WriteOf(Special(hi, lo, c0))), c0)
  {
  }

  lemma BitOneSet(status: Word)
    ensures Bit1(SetExl(status))
  {
  }

  lemma CauseDigit(cause: Word, code: nat, lines: nat, k: nat)
    requires k < 32
    ensures Digit(EnteredCause(cause, code, lines), k)
            == if 2 <= k <= 6 then Digit(if code == 31 then 2 else code, k - 2)
               else if 8 <= k <= 15 then Digit(lines, k - 8)
               else Digit(cause, k)
  {
    hide Digit;
    assert Pow2(2) == 4 && Pow2(5) == 0x20 && Pow2(8) == 0x100;
    var shown := if code == 31 then 2 else code;
    var first := SetField(cause, 4, 0x20, shown);
    ReplacedDigits(cause, shown % 0x20, 2, 5, 4, 0x20, k);
    ReplacedDigits(first, lines % 0x100, 8, 8, 0x100, 0x100, k);
    if 2 <= k <= 6 {
      FieldOnly(shown, 5, 0x20, k - 2);
    }
    if 8 <= k <= 15 {
      FieldOnly(lines, 8, 0x100, k - 8);
    }
  }

  lemma FieldOnly(v: nat, n: nat, size: nat, k: nat)
    requires size == Pow2(n) && k < n
    ensures Digit(v % size, k) == Digit(v, k)
  {
    hide Digit, Pow2;
    assert v == v % size + v / size * size;
    LowDigits(v % size, v / size, n, k);
  }

  lemma StatusDigit(w: Word, k: nat)
    requires k < 32
    ensures Digit(SetExl(w), k) == if k == 1 then true else Digit(w, k)
    ensures Digit(ClearExl(w), k) == if k == 1 then false else Digit(w, k)
  {
    assert Pow2(1) == 2;
    assert Digit(1, 0) && !Digit(0, 0);
    hide Digit;
    ReplacedDigits(w, 1, 1, 1, 2, 2, k);
    ReplacedDigits(w, 0, 1, 1, 2, 2, k);
    ExlFields(w);
  }

  lemma ExlFields(w: Word)
    ensures SetExl(w) == Wrap(w - (w / 2) % 2 * 2 + 1 * 2) && ClearExl(w) == Wrap(w - (w / 2) % 2 * 2 + 0 * 2)
  {
    assert w >= (w / 2) % 2 * 2;
    assert w - (w / 2) % 2 * 2 + 2 < 0x1_0000_0000 by { EvenRoom(w); }
  }

  lemma EvenRoom(w: Word)
    ensures w - (w / 2) % 2 * 2 + 2 < 0x1_0000_0000
  {
    var h := w / 4;
    assert w == 4 * h + w % 4;
    assert (w / 2) % 2 == w % 4 / 2;
  }

  /** Coprocessor 0 without its free-running counter. */
  function Uncounted(c0: C0File): C0File { c0[COUNT := 0] }

  /** The history of interrupts: one was entered, or interrupts were possibly allowed again because
      a return from exception was decoded or the Status register was written. */
  datatype Event = Entered | Reopened

  /** An interrupt was the last thing that happened. */
  predicate Handling(events: seq<Event>) { |events| > 0 && events[|events| - 1].Entered? }

  /** No interrupt is entered twice in a row. */
  predicate NotNested(events: seq<Event>)
  {
    forall k | 0 < k < |events| :: events[k].Entered? ==> events[k - 1].Reopened?
  }

  /** What the other stages may present in a macro-cycle, without any assumption on it. */
  datatype StageInputs = StageInputs(pc: Word, word: Word, uart: bool, fault: Disturbance, port: WritePort,
                                     holdFromMemory: bool, valueA: Word, valueB: Word,
                                     signed: Product, unsigned: Product)

  class Fetcher {
    var hold: bool
    var last: RegNum
    var lastLast: RegNum
    var buffer: Buffer
    var out: FetchOutputs
    var hi: Word
    var lo: Word
    var c0: C0File
    var writePort: WritePort
    var exceptions: Exceptions
    var tlbPort: TlbPort
    var timerInt: bool
    ghost var events: seq<Event>

    constructor ()
      ensures !hold && last == 0 && lastLast == 0 && Clear(buffer) && Quiet(exceptions) && events == []
      ensures out == FetchOutputs(AluPort(PASS_A, 0, 0), false, 0, NO_REQUEST)
      ensures hi == lo == 0 && c0 == seq(32, _ => 0) && !tlbPort.setDo && !tlbPort.armed && !timerInt
    {
      hold, last, lastLast, buffer := false, 0, 0, IDLE;
      out := FetchOutputs(AluPort(PASS_A, 0, 0), false, 0, NO_REQUEST);
      hi, lo, c0 := 0, 0, seq(32, _ => 0);
      writePort := WritePort(false, 0, 0, false, 0);
      exceptions := Exceptions(false, 0, 0, false, false);
      tlbPort := TlbPort(false, false, 0, EMPTY_SLOT);
      timerInt, events := false, [];
    }

    /** No interrupt has ever been nested; while one is being handled further ones are masked and
        none is waiting. */
    ghost predicate Masked()
      reads this
    {
      && NotNested(events)
      && (Handling(events) ==> Bit1(c0[STATUS]) && !(exceptions.pending && exceptions.cause == CAUSE_INTERRUPT))
    }

    ghost function SpecialView(): Special
      reads this
    {
      Special(hi, lo, Uncounted(c0))
    }

    /** First edge: note a disturbance, or decode the instruction `w` at `pc`. */
    method S0(pc: Word, w: Word, d: Disturbance, port: WritePort)
      requires d.Interrupt? ==> InterruptsEnabled(c0)
      modifies `buffer, `writePort, `exceptions, `c0, `tlbPort, `timerInt, `events
      ensures writePort == port
      ensures tlbPort == if d.Calm? && Decode(w).Tlbwi? then Armed(old(tlbPort), WriteOf(Special(hi, lo, old(c0))))
                         else old(tlbPort)
      ensures d.Calm? && Decode(w).Tlbwi? ==> AsksWrite(tlbPort, old(c0))
      ensures timerInt == (old(timerInt) && !(d.Calm? && Decode(w).Mtc0? && Decode(w).cr == 11))
      ensures old(Masked()) ==> Masked()
      ensures d.Calm? && Plain(Decode(w)) ==>
                && exceptions == old(exceptions) && c0 == old(c0)
                && (Settled(old(buffer), Decode(w)) ==> Buffered(buffer, Decode(w), pc, SpecialView()))
      ensures d.Interrupt? ==>
                && exceptions == old(exceptions).(pending := true, cause := CAUSE_INTERRUPT, interrupts := d.numbers)
                && c0 == old(c0) && buffer == old(buffer) && exceptions.cause == 0
      ensures d.DataFault? ==> exceptions == old(exceptions).(pending := true,
                                                              cause := if d.write then CAUSE_TLBS else CAUSE_TLBL)
      ensures d.FetchFault? ==> exceptions == old(exceptions).(pending := true, cause := CAUSE_FETCH)
      ensures d.DataFault? || d.FetchFault? ==>
                && c0 == old(c0)[BAD_VADDR := if d.DataFault? then d.addr else pc] && buffer == old(buffer)
                && (c0[8] == if d.DataFault? then d.addr else pc)
                && exceptions.cause == if d.FetchFault? then 31 else if d.write then 3 else 2
      ensures d.Calm? && Decode(w).Syscall? ==>
                && exceptions == old(exceptions).(pending := true, cause := CAUSE_SYSCALL) && c0 == old(c0)
                && buffer == CallBuffered(old(buffer)) && exceptions.cause == 8
      ensures d.Calm? && Decode(w).Eret? ==>
                && exceptions == old(exceptions) && c0 == old(c0)[STATUS := ClearExl(old(c0)[STATUS])]
                && ReturnsTo(buffer, old(c0)[14]) && BitBecomes(old(c0)[12], c0[12], 1, false)
      ensures events == if d.Calm? && Decode(w).Eret? then old(events) + [Reopened] else old(events)
    {
      hide Decode, Settled, Buffered, SlotOf, ReturnsTo, CallBuffered, BitBecomes, AsksWrite, Armed, WriteOf;
      ArmedAsks(tlbPort, hi, lo, c0);
      EntryMeans(c0[CAUSE], c0[STATUS], 0, 0, pc);
      writePort := port;
      match d {
        case Interrupt(numbers) =>
          exceptions := exceptions.(pending := true, cause := CAUSE_INTERRUPT, interrupts := numbers);
        case DataFault(write, addr) =>
          exceptions := exceptions.(pending := true, cause := if write then CAUSE_TLBS else CAUSE_TLBL);
          c0 := c0[BAD_VADDR := addr];
        case FetchFault =>
          exceptions := exceptions.(pending := true, cause := CAUSE_FETCH);
          c0 := c0[BAD_VADDR := pc];
        case Calm =>
          buffer := DecodeSignals(w, pc, buffer, Special(hi, lo, Uncounted(c0)), c0);
          DecodeSideEffects(Decode(w));
      }
    }

    /** The effects decoding itself has, beyond filling the buffer. */
    method DecodeSideEffects(i: Instr)
      modifies `exceptions, `c0, `tlbPort, `timerInt, `events
      ensures exceptions == if i.Syscall? then old(exceptions).(pending := true, cause := CAUSE_SYSCALL)
                            else old(exceptions)
      ensures c0 == if i.Eret? then old(c0)[STATUS := ClearExl(old(c0)[STATUS])] else old(c0)
      ensures events == if i.Eret? then old(events) + [Reopened] else old(events)
      ensures tlbPort == if i.Tlbwi? then Armed(old(tlbPort), WriteOf(Special(hi, lo, c0))) else old(tlbPort)
      ensures timerInt == (old(timerInt) && !(i.Mtc0? && i.cr == COMPARE))
    {
      hide SlotOf;
      if i.Eret? {
        c0 := c0[STATUS := ClearExl(c0[STATUS])];
        events := events + [Reopened];
      } else if i.Mtc0? && i.cr == COMPARE {
        timerInt := false;
      } else if i.Tlbwi? {
        tlbPort := Armed(tlbPort, WriteOf(Special(hi, lo, c0)));
      } else if i.Syscall? {
        exceptions := exceptions.(pending := true, cause := CAUSE_SYSCALL);
      }
    }

    /** A scoreboard entry names a register the buffered instruction reads. */
    predicate Busy(r: RegNum)
      reads `buffer
    {
      r != 0 && (r == buffer.readA || r == buffer.readB)
    }

    /** Second edge: stall on a hazard. */
    method S1()
      modifies `hold, `writePort, `tlbPort
      ensures hold == (Busy(lastLast) || Busy(last))
      ensures writePort == old(writePort).(enable := false)
      ensures tlbPort == if old(tlbPort).armed then old(tlbPort).(armed := false, setDo := true) else old(tlbPort)
    {
      if Busy(lastLast) {
        hold := true;
      } else if Busy(last) {
        hold := true;
      } else {
        hold := false;
      }
      writePort := writePort.(enable := false);
      if tlbPort.armed {
        tlbPort := tlbPort.(armed := false, setDo := true);
      }
    }

    /** Third edge: stall for the memory stage, advance the scoreboard, enter an exception. */
    method S2(holdFromMemory: bool, pc: Word)
      modifies `hold, `lastLast, `exceptions, `buffer, `c0, `events
      ensures lastLast == if holdFromMemory then old(lastLast) else last
      ensures old(Masked()) ==> Masked()
      ensures c0[9] == Wrap(old(c0)[9] as int + 1)
      ensures !old(exceptions).pending || old(exceptions).skipThis ==>
                && exceptions == old(exceptions) && buffer == old(buffer) && events == old(events)
                && Uncounted(c0) == Uncounted(old(c0))
                && hold == (old(hold) || (holdFromMemory && !exceptions.pending))
      ensures old(exceptions).pending && !old(exceptions).skipThis ==>
                && exceptions == old(exceptions).(pending := false, skipNext := true) && !hold
                && buffer.jumpTrue && buffer.jumpAddr == old(c0)[EBASE] && !buffer.ctl.regWrite
                && !buffer.ctl.memRead && !buffer.ctl.memWrite && buffer.condition == None && !buffer.jumpFromA
                && Bit1(c0[STATUS])
                && c0 == old(c0)[EPC := EnteredEpc(old(exceptions).cause, pc)]
                                [CAUSE := EnteredCause(old(c0)[CAUSE], old(exceptions).cause,
                                                       old(exceptions).interrupts)]
                                [STATUS := SetExl(old(c0)[STATUS])]
                                [COUNT := Wrap(old(c0)[COUNT] as int + 1)]
                && buffer.jumpAddr == old(c0)[15] && ReturnsRight(c0[14], old(exceptions).cause, pc)
                && CauseTold(old(c0)[13], c0[13], old(exceptions).cause, old(exceptions).interrupts)
                && BitBecomes(old(c0)[12], c0[12], 1, true)
      ensures old(exceptions.pending && !exceptions.skipThis) ==>
                events == if old(exceptions.cause) == CAUSE_INTERRUPT then old(events) + [Entered] else old(events)
    {
      hide EnteredCause, EnteredEpc, CauseTold, ReturnsRight, BitBecomes, SetExl, Digit;
      BitOneSet(c0[STATUS]);
      EntryMeans(c0[CAUSE], c0[STATUS], exceptions.cause, exceptions.interrupts, pc);
      if !holdFromMemory {
        lastLast := last;
      }
      if holdFromMemory && !exceptions.pending {
        hold := true;
      }
      var count: Word := Wrap(c0[COUNT] as int + 1);
      if exceptions.pending && !exceptions.skipThis {
        EnterException(pc);
      }
      c0 := c0[COUNT := count];
    }

    method EnterException(pc: Word)
      modifies `hold, `exceptions, `buffer, `c0, `events
      ensures !hold
      ensures exceptions == old(exceptions).(pending := false, skipNext := true)
      ensures events == if old(exceptions).cause == CAUSE_INTERRUPT then old(events) + [Entered] else old(events)
      ensures buffer == old(buffer).(
                aFromReg := false, bFromReg := false, condition := None, jumpFromA := false,
                alu := old(buffer).alu.(op := PASS_A), ctl := Squash(old(buffer).ctl),
                jumpTrue := true, jumpAddr := old(c0)[EBASE])
      ensures ReturnsRight(c0[14], old(exceptions).cause, pc)
      ensures CauseTold(old(c0)[13], c0[13], old(exceptions).cause, old(exceptions).interrupts)
      ensures BitBecomes(old(c0)[12], c0[12], 1, true) && buffer.jumpAddr == old(c0)[15]
      ensures c0 == old(c0)[EPC := EnteredEpc(old(exceptions).cause, pc)]
                           [CAUSE := EnteredCause(old(c0)[CAUSE], old(exceptions).cause, old(exceptions).interrupts)]
                           [STATUS := SetExl(old(c0)[STATUS])]
    {
      hide CauseTold, ReturnsRight, BitBecomes, SetExl, EnteredCause, EnteredEpc, Digit, Squash;
      EntryMeans(c0[CAUSE], c0[STATUS], exceptions.cause, exceptions.interrupts, pc);
      hold := false;
      var code := exceptions.cause;
      var base := c0[EBASE];
      c0 := c0[EPC := EnteredEpc(code, pc)]
              [CAUSE := EnteredCause(c0[CAUSE], code, exceptions.interrupts)]
              [STATUS := SetExl(c0[STATUS])];
      buffer := buffer.(aFromReg := false, bFromReg := false, condition := None, jumpFromA := false,
                        alu := buffer.alu.(op := PASS_A), ctl := Squash(buffer.ctl),
                        jumpTrue := true, jumpAddr := base);
      exceptions := exceptions.(pending := false, skipNext := true);
      if code == CAUSE_INTERRUPT {
        events := events + [Entered];
      }
    }

    /** Last edge: issue the buffered instruction, or a bubble when held or skipping. */
    method S3(holdFromMemory: bool, valueA: Word, valueB: Word, signed: Product, unsigned: Product)
      modifies `last, `out, `buffer, `hi, `lo, `c0, `exceptions, `events, `tlbPort, `timerInt
      ensures tlbPort == old(tlbPort).(setDo := false)
      ensures timerInt == (old(timerInt) || old(c0)[11] == old(c0)[9])
      ensures old(Masked()) ==> Masked()
      ensures hold || old(exceptions).skipThis ==>
                && buffer == Released(old(buffer))
                && out == FetchOutputs(AluPort(PASS_A, 0, 0), false, old(out).jumpAddr, Squash(old(out).ctl))
                && hi == old(hi) && lo == old(lo) && c0 == old(c0) && events == old(events)
                && exceptions == old(exceptions).(skipNext := false, skipThis := hold && old(exceptions).skipThis)
                && last == HeldLast(old(buffer), holdFromMemory, old(last), hold)
      ensures !hold && !old(exceptions).skipThis ==>
                && events == (if old(buffer.aToC0 && buffer.aToC0Addr == STATUS) then old(events) + [Reopened]
                              else old(events))
                && buffer == Consumed(old(buffer))
                && out == IssuedOutputs(old(buffer), old(out), valueA, valueB)
                && SpecialAfter(old(buffer), valueA, signed, unsigned, Special(old(hi), old(lo), old(c0)))
                   == Special(hi, lo, c0)
                && exceptions == old(exceptions).(skipNext := false,
                                                  skipThis := old(exceptions).skipNext)
                && last == IssuedLast(old(buffer), holdFromMemory, old(last), valueA, valueB)
    {
      hide Released, Consumed, IssuedOutputs, SpecialAfter, HeldLast, IssuedLast, Bit1, Squash;
      var compare, count := c0[COMPARE], c0[COUNT];
      UpdateLast(holdFromMemory, valueA, valueB);
      if hold || exceptions.skipThis {
        EmitBubble();
      } else {
        Issue(valueA, valueB, signed, unsigned);
      }
      tlbPort := tlbPort.(setDo := false);
      if compare == count {
        timerInt := true;
      }
    }

    method EmitBubble()
      modifies `out, `buffer, `exceptions
      ensures out == FetchOutputs(AluPort(PASS_A, 0, 0), false, old(out).jumpAddr, Squash(old(out).ctl))
      ensures buffer == Released(old(buffer))
      ensures exceptions == old(exceptions).(skipNext := false, skipThis := hold && old(exceptions).skipThis)
    {
      out := out.(alu := AluPort(PASS_A, 0, 0), jumpTrue := false, ctl := Squash(out.ctl));
      buffer := Released(buffer);
      exceptions := exceptions.(skipNext := false, skipThis := hold && exceptions.skipThis);
    }

    method Issue(valueA: Word, valueB: Word, signed: Product, unsigned: Product)
      modifies `out, `buffer, `hi, `lo, `c0, `exceptions, `events
      ensures buffer == Consumed(old(buffer)) && out == IssuedOutputs(old(buffer), old(out), valueA, valueB)
      ensures Special(hi, lo, c0)
              == SpecialAfter(old(buffer), valueA, signed, unsigned, Special(old(hi), old(lo), old(c0)))
      ensures events == if old(buffer.aToC0 && buffer.aToC0Addr == STATUS) then old(events) + [Reopened]
                        else old(events)
      ensures Handling(events) ==> c0[STATUS] == old(c0[STATUS])
      ensures exceptions == old(exceptions).(skipNext := false, skipThis := old(exceptions).skipNext)
    {
      hide *;
      UpdateSpecial(valueA, signed, unsigned);
      out := IssuedOutputs(buffer, out, valueA, valueB);
      exceptions := exceptions.(skipNext := false, skipThis := exceptions.skipNext);
      buffer := Consumed(buffer);
    }

    /** The scoreboard entry of the instruction just decoded. A linking branch sets it only when it
        is issued, once it is known whether it links. */
    method UpdateLast(holdFromMemory: bool, valueA: Word, valueB: Word)
      modifies `last
      ensures last == if hold || exceptions.skipThis then HeldLast(buffer, holdFromMemory, old(last), hold)
                      else IssuedLast(buffer, holdFromMemory, old(last), valueA, valueB)
    {
      hide Holds;
      if !holdFromMemory {
        if !Links(buffer) {
          last := if !hold && buffer.ctl.regWrite then buffer.ctl.regAddr else 0;
        } else if !hold && !exceptions.skipThis && !buffer.jumpTrue {
          last := if Taken(buffer, valueA, valueB) then buffer.ctl.regAddr else 0;
        }
      }
    }

    /** Over every run, whatever arrives at the inputs, interrupts are never nested: between two
        interrupt entries a return from exception was decoded or Status was written. */
    method RunUndisturbed(inputs: seq<StageInputs>)
      requires Masked()
      modifies this
      ensures Masked() && NotNested(events)
    {
      hide Bit1, NotNested, Handling, Plain, Decode, Settled, Buffered, Holds, Alu, SlotOf, TimerMasked, UartMasked;
      for n := 0 to |inputs|
        invariant Masked()
      {
        var x := inputs[n];
        var d := if Raised(c0, timerInt, x.uart) then Interrupt(Numbers(c0, timerInt, x.uart))
                 else if x.fault.Interrupt? then Calm else x.fault;
        S0(x.pc, x.word, d, x.port);
        S1();
        assert Masked();
        S2(x.holdFromMemory, x.pc);
        S3(x.holdFromMemory, x.valueA, x.valueB, x.signed, x.unsigned);
      }
    }

    /** The writes an issue makes to HI, LO and coprocessor 0. */
    method UpdateSpecial(valueA: Word, signed: Product, unsigned: Product)
      modifies `hi, `lo, `c0, `events
      ensures Special(hi, lo, c0)
              == SpecialAfter(buffer, valueA, signed, unsigned, Special(old(hi), old(lo), old(c0)))
      ensures events == if buffer.aToC0 && buffer.aToC0Addr == STATUS then old(events) + [Reopened] else old(events)
      ensures Handling(events) ==> c0[STATUS] == old(c0[STATUS])
    {
      if buffer.signedMul {
        lo, hi := signed.low, signed.high;
      }
      if buffer.unsignedMul {
        lo, hi := unsigned.low, unsigned.high;
      }
      if buffer.aToLo {
        lo := valueA;
      }
      if buffer.aToHi {
        hi := valueA;
      }
      if buffer.aToC0 {
        c0 := c0[buffer.aToC0Addr := valueA];
        if buffer.aToC0Addr == STATUS {
          events := events + [Reopened];
        }
      }
    }
  }

  /** The buffer after a bubble: one-shot requests are dropped, the rest waits for re-decoding. */
  function Released(b: Buffer): Buffer
  {
    b.(signedMul := false, unsignedMul := false, aToLo := false, aToHi := false)
  }

  /** The buffer after an issue. */
  function Consumed(b: Buffer): Buffer
  {
    b.(signedMul := false, unsignedMul := false, aToLo := false, aToHi := false, aToC0 := false,
       jumpFromA := false, memDataFromB := false, readA := 0, readB := 0)
  }

  predicate Taken(b: Buffer, valueA: Word, valueB: Word)
  {
    b.jumpTrue || (b.condition.Some? && Holds(b.condition.value, valueA, valueB))
  }

  predicate Links(b: Buffer) { b.condition.Some? && b.linkIfJump }

  /** The outputs of an issue. */
  function IssuedOutputs(b: Buffer, before: FetchOutputs, valueA: Word, valueB: Word): FetchOutputs
  {
    FetchOutputs(
      AluPort(b.alu.op, if b.aFromReg then valueA else b.alu.a, if b.bFromReg then valueB else b.alu.b),
      Taken(b, valueA, valueB),
      if b.jumpFromA then valueA else b.jumpAddr,
      Controls(b.ctl.memRead, b.ctl.memWrite, b.ctl.memByteOnly, if b.memDataFromB then valueB else b.ctl.memData,
               if !Links(b) then b.ctl.regWrite
               else if b.jumpTrue then before.ctl.regWrite
               else Taken(b, valueA, valueB),
               b.ctl.regByteOnly, b.ctl.regAddr))
  }

  function SpecialAfter(b: Buffer, valueA: Word, signed: Product, unsigned: Product, s: Special): Special
  {
    var lo := if b.aToLo then valueA else if b.unsignedMul then unsigned.low
              else if b.signedMul then signed.low else s.lo;
    var hi := if b.aToHi then valueA else if b.unsignedMul then unsigned.high
              else if b.signedMul then signed.high else s.hi;
    Special(hi, lo, if b.aToC0 then s.c0[b.aToC0Addr := valueA] else s.c0)
  }

  function HeldLast(b: Buffer, holdFromMemory: bool, last: RegNum, hold: bool): RegNum
  {
    if holdFromMemory || Links(b) then last
    else if !hold && b.ctl.regWrite then b.ctl.regAddr else 0
  }

  function IssuedLast(b: Buffer, holdFromMemory: bool, last: RegNum, valueA: Word, valueB: Word): RegNum
  {
    if holdFromMemory then last
    else if !Links(b) then if b.ctl.regWrite then b.ctl.regAddr else 0
    else if b.jumpTrue then last
    else if Taken(b, valueA, valueB) then b.ctl.regAddr else 0
  }

  // ----- the issue means what the instruction means

  /** Issuing a buffer that asks for instruction `i` produces the effect of `i`. */
  lemma IssueMeans(b: Buffer, i: Instr, pc: Word, before: FetchOutputs, valueA: Word, valueB: Word, s: Special)
    requires Buffered(b, i, pc, s) && Plain(i)
    ensures var o := IssuedOutputs(b, before, valueA, valueB);
            var e := Effect(i, pc, valueA, valueB, s);
            && Proper(o.ctl)
            && UopOf(o.ctl, Result(o.alu), Result(o.alu)) == e.uop
            && (if o.jumpTrue then Some(o.jumpAddr) else None) == e.jump
  {
    hide Holds, BranchTarget, JumpTarget, Multiply;
    PassesA(IssuedOutputs(b, before, valueA, valueB).alu);
    hide Alu;
  }

  lemma PassesA(p: AluPort)
    ensures p.op == PASS_A ==> Result(p) == p.a
  {
  }

  lemma IssueUpdatesSpecial(b: Buffer, i: Instr, pc: Word, valueA: Word, valueB: Word, hi: Word, lo: Word, c0: C0File)
    requires Buffered(b, i, pc, Special(hi, lo, Uncounted(c0))) && Plain(i)
    ensures var after := SpecialAfter(b, valueA, Multiply(true, valueA, valueB), Multiply(false, valueA, valueB),
                                      Special(hi, lo, c0));
            Special(after.hi, after.lo, Uncounted(after.c0))
            == Effect(i, pc, valueA, valueB, Special(hi, lo, Uncounted(c0))).special
  {
    hide Holds, BranchTarget, JumpTarget, Multiply, Alu;
    if i.Mtc0? {
      assert Uncounted(c0[i.cr := valueA]) == if i.cr == COUNT then Uncounted(c0) else Uncounted(c0)[i.cr := valueA];
    }
  }

  lemma IssueNamesDest(b: Buffer, i: Instr, pc: Word, last: RegNum, valueA: Word, valueB: Word, s: Special)
    requires Buffered(b, i, pc, s) && Plain(i)
    ensures IssuedLast(b, false, last, valueA, valueB) == Dest(Effect(i, pc, valueA, valueB, s).uop)
  {
    hide Holds, BranchTarget, JumpTarget, Multiply, Alu;
  }
}
