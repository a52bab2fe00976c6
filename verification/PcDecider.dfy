/** The next-address stage. */
module PcDecider {
  import opened Words
  import opened Machine

  const BEGIN_PC: Word := 0x8000_0000
  const BIOS_BEGIN_PC: Word := 0xBFC0_0000

  class PcDecider {
    var pc: Word
    var fetchPc: Word
    var virtualPage: PageNumber
    var realAddr: Word
    var ramSelect: bool
    var savedRow: Index
    /** The address this stage drives on both banks, `None` while it leaves the bus free. */
    var drives: Option<Index>

    constructor (resetOnBios: bool)
      ensures pc == fetchPc == if resetOnBios then BIOS_BEGIN_PC else BEGIN_PC
      ensures virtualPage == Page(pc) && !ramSelect && savedRow == 0 && drives == Some(0)
    {
      var begin := if resetOnBios then BIOS_BEGIN_PC else BEGIN_PC;
      pc, fetchPc := begin, begin;
      virtualPage := Page(begin);
      realAddr, ramSelect, savedRow, drives := 0, false, 0, Some(0);
    }

    /** The first edge advances the fetch address unless decode was held. */
    method S0(hold: bool, jumpTrue: bool, jumpAddr: Word)
      modifies `fetchPc
      ensures fetchPc == if hold then old(fetchPc) else Follow(old(fetchPc), if jumpTrue then Some(jumpAddr) else None)
    {
      if !hold {
        if jumpTrue {
          fetchPc := jumpAddr;
        } else {
          fetchPc := Wrap(fetchPc + 4);
        }
      }
    }

    /** The second edge asks for the translation and leaves the bus to the memory stage. */
    method S1()
      modifies `virtualPage, `drives
      ensures virtualPage == Page(fetchPc) && drives == None
    {
      virtualPage := Page(fetchPc);
      drives := None;
    }

    method S2(realPage: PageNumber)
      modifies `realAddr
      ensures realAddr == Translate(realPage, fetchPc)
    {
      realAddr := Translate(realPage, fetchPc);
    }

    /** The last edge presents the next instruction, or the held one again. */
    method S3(hold: bool)
      modifies `pc, `ramSelect, `savedRow, `drives
      ensures hold ==> pc == old(pc) && ramSelect == old(ramSelect) && savedRow == old(savedRow)
      ensures !hold ==> pc == fetchPc && ramSelect == InExtBank(realAddr) && savedRow == Row(realAddr)
      ensures drives == Some(savedRow)
    {
      hide InExtBank, Row;
      if !hold {
        pc := fetchPc;
        ramSelect := InExtBank(realAddr);
        savedRow := Row(realAddr);
      }
      drives := Some(savedRow);
    }
  }
}
