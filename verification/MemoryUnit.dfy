/** The memory stage: loads, word stores in one pass and byte stores in two. */
module MemoryUnit {
  import opened Words
  import opened Isa
  import opened Machine
  import opened Ports

  /** The pins of one RAM bank as this stage drives them: an address, and data while writing. */
  datatype BankPins = BankPins(addr: Option<Index>, data: Option<Word>, writeEnable: bool)

  const RELEASED := BankPins(None, None, false)

  /** Both banks. */
  datatype RamPins = RamPins(baseBank: BankPins, extBank: BankPins)

  const ALL_RELEASED := RamPins(RELEASED, RELEASED)

  /** One bank driven, the other left free. */
  function Drive(inExtBank: bool, pins: BankPins): RamPins
  {
    if inExtBank then RamPins(RELEASED, pins) else RamPins(pins, RELEASED)
  }

  function EndWrite(p: RamPins): RamPins
  {
    RamPins(p.baseBank.(writeEnable := false), p.extBank.(writeEnable := false))
  }

  /** Where the result of the stage comes from. */
  datatype Selection = Selection(output: Word, useOutput: bool, useEthernet: bool, ramChoice: bool)

  function Selected(s: Selection, baseData: Word, extData: Word, enet: Word): Word
  {
    if s.useOutput then s.output
    else if s.useEthernet then enet
    else if s.ramChoice then extData
    else baseData
  }

  /** The byte store in progress. */
  datatype ByteStore = ByteStore(inTheMiddle: bool, targetData: Word, replacePos: Lanes)

  predicate IsEthernet(addr: Word) { addr % 0x1000_0000 in {0xFD0_0018, 0xFD0_001C} }

  class MemoryUnit {
    // outputs
    var holdFromMemory: bool
    var memOutput: Word
    var back: BackPort
    var pins: RamPins
    /** A store to a device register, as address and data. */
    var deviceWrite: Option<(Word, Word)>
    // internal
    var selection: Selection
    var latched: Controls
    var memData: Word
    var memAddr: Word
    var sb: ByteStore

    constructor ()
      ensures !holdFromMemory && !back.write && !sb.inTheMiddle && pins == ALL_RELEASED
    {
      holdFromMemory, memOutput, back, pins, deviceWrite := false, 0, BackPort(false, 0, false, 0), ALL_RELEASED, None;
      selection, latched, memData, memAddr := Selection(0, false, false, false), NO_REQUEST, 0, 0;
      sb := ByteStore(false, 0, 0);
    }

    /** First edge: take in the request, or the merged word of a byte store in progress. */
    method S0(inputs: Controls, physical: Word)
      modifies `pins, `deviceWrite, `selection, `memData, `memAddr, `holdFromMemory
      ensures pins == ALL_RELEASED && deviceWrite == None && !selection.useEthernet && !holdFromMemory
      ensures memData == if sb.inTheMiddle then sb.targetData else inputs.memData
      ensures memAddr == if sb.inTheMiddle then old(memAddr) else physical
    {
      pins := ALL_RELEASED;
      deviceWrite := None;
      selection := selection.(useEthernet := false);
      if sb.inTheMiddle {
        memData := sb.targetData;
      } else {
        memData := inputs.memData;
        memAddr := physical;
      }
      holdFromMemory := false;
    }

    /** The stage reads: a load, or the first pass of a byte store. */
    predicate Reading(inputs: Controls)
      reads `sb
    {
      inputs.memRead || (inputs.memWrite && inputs.memByteOnly && !sb.inTheMiddle)
    }

    /** Second edge: start the access. `status` is the device register selected for reading. */
    method S1(inputs: Controls, aluOutput: Word, status: Word)
      modifies `sb, `holdFromMemory, `selection, `pins, `deviceWrite, `latched
      ensures latched == inputs
      ensures old(Reading(inputs)) ==>
                && sb == (if inputs.memWrite then ByteStore(true, old(sb.targetData), BytePos(memAddr)) else old(sb))
                && holdFromMemory == (inputs.memWrite || old(holdFromMemory))
                && (!ReadsDevice(memAddr) ==>
                      && !selection.useOutput && selection.useEthernet == old(selection.useEthernet)
                      && selection.ramChoice == InExtBank(memAddr)
                      && pins == Drive(InExtBank(memAddr), BankPins(Some(Row(memAddr)), None, false)))
                && (ReadsDevice(memAddr) ==>
                      && pins == old(pins)
                      && (IsEthernet(memAddr) ==> !selection.useOutput && selection.useEthernet)
                      && (!IsEthernet(memAddr) ==> selection.useOutput && selection.output == status))
      ensures !old(Reading(inputs)) ==> !sb.inTheMiddle && holdFromMemory == old(holdFromMemory) && selection.useOutput
      ensures !old(Reading(inputs)) && (inputs.memWrite || old(sb.inTheMiddle)) ==>
                && selection.output == memData
                && (WritesDevice(memAddr) ==> pins == old(pins) && deviceWrite == Some((memAddr, memData)))
                && (!WritesDevice(memAddr) ==>
                      pins == Drive(InExtBank(memAddr), BankPins(Some(Row(memAddr)), Some(memData), true)))
      ensures !old(Reading(inputs)) && !inputs.memWrite && !old(sb.inTheMiddle) ==>
                selection.output == aluOutput && pins == old(pins)
    {
      hide InExtBank, Row, ReadsDevice, WritesDevice, BytePos, IsEthernet, Drive;
      if Reading(inputs) {
        if inputs.memWrite {
          sb := sb.(inTheMiddle := true, replacePos := BytePos(memAddr));
          holdFromMemory := true;
        }
        StartRead(status);
      } else if inputs.memWrite || sb.inTheMiddle {
        sb := sb.(inTheMiddle := false);
        selection := selection.(output := memData, useOutput := true);
        if WritesDevice(memAddr) {
          deviceWrite := Some((memAddr, memData));
        } else {
          pins := Drive(InExtBank(memAddr), BankPins(Some(Row(memAddr)), Some(memData), true));
        }
      } else {
        selection := selection.(output := aluOutput, useOutput := true);
      }
      latched := inputs;
    }

    /** Reads go to a device register or to one RAM bank. The serial port and the interrupt line
        answer at once, the network chip at the third edge. */
    method StartRead(status: Word)
      modifies `selection, `pins
      ensures !ReadsDevice(memAddr) ==>
                && selection == old(selection).(useOutput := false, ramChoice := InExtBank(memAddr))
                && pins == Drive(InExtBank(memAddr), BankPins(Some(Row(memAddr)), None, false))
      ensures ReadsDevice(memAddr) ==>
                && pins == old(pins)
                && selection == if IsEthernet(memAddr) then old(selection).(useOutput := false, useEthernet := true)
                                else old(selection).(useOutput := true, output := status)
    {
      hide *;
      if ReadsDevice(memAddr) {
        if IsEthernet(memAddr) {
          selection := selection.(useOutput := false, useEthernet := true);
        } else {
          selection := selection.(useOutput := true, output := status);
        }
      } else {
        selection := selection.(useOutput := false, ramChoice := InExtBank(memAddr));
        pins := Drive(InExtBank(memAddr), BankPins(Some(Row(memAddr)), None, false));
      }
    }

    /** Third edge: collect the data and publish the register write. */
    method S2(baseData: Word, extData: Word, enet: Word)
      modifies `memOutput, `sb, `back, `pins
      ensures memOutput == Selected(selection, baseData, extData, enet)
      ensures sb == if old(sb).inTheMiddle then old(sb).(targetData := memOutput) else old(sb)
      ensures back == BackPort(latched.regWrite, latched.regAddr, latched.regByteOnly, BytePos(memAddr))
      ensures pins == EndWrite(old(pins))
    {
      hide *;
      memOutput := Selected(selection, baseData, extData, enet);
      if sb.inTheMiddle {
        sb := sb.(targetData := memOutput);
      }
      pins := EndWrite(pins);
      back := BackPort(latched.regWrite, latched.regAddr, latched.regByteOnly, BytePos(memAddr));
    }

    /** Last edge: put the stored byte into the word that was read, and release the bus. */
    method S3()
      modifies `sb, `pins
      ensures pins == ALL_RELEASED
      ensures sb == if old(sb).inTheMiddle
                    then old(sb).(targetData := MergeLane(old(sb).targetData, old(sb).replacePos, memData))
                    else old(sb)
    {
      hide Lane, BigEndian;
      if sb.inTheMiddle {
        var b := memData % 0x100;
        var w := sb.targetData;
        if sb.replacePos == 3 {
          w := BigEndian(Lane(w, 0), Lane(w, 1), Lane(w, 2), b);
        } else if sb.replacePos == 2 {
          w := BigEndian(Lane(w, 0), Lane(w, 1), b, Lane(w, 3));
        } else if sb.replacePos == 1 {
          w := BigEndian(Lane(w, 0), b, Lane(w, 2), Lane(w, 3));
        } else {
          w := BigEndian(b, Lane(w, 1), Lane(w, 2), Lane(w, 3));
        }
        sb := sb.(targetData := w);
      }
      pins := ALL_RELEASED;
    }
  }
}
