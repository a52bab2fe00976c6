/** The RAM chips and the boot ROM on the shared address bus. */
module RamChips {
  import opened Words
  import opened Machine
  import opened MemoryUnit

  class RamChips {
    var baseBank: Bank
    var extBank: Bank
    const rom: Rom
    ghost var log: seq<(bool, Index, Word)>

    ghost function Contents(): Ram
      reads this
    {
      Ram(baseBank, extBank, rom, log)
    }

    constructor (baseBank: Bank, extBank: Bank, rom: Rom)
      ensures Contents() == Ram(baseBank, extBank, rom, [])
    {
      this.baseBank, this.extBank, this.rom, log := baseBank, extBank, rom, [];
    }

    /** The end of a write pulse stores the data on the bus at the address on the bus. */
    method EndOfPulse(pins: RamPins)
      modifies this
      ensures forall ext: bool, row: Index, v: Word ::
                pins == Drive(ext, BankPins(Some(row), Some(v), true)) ==>
                  Contents() == WriteRow(old(Contents()), ext, row, v)
      ensures !pins.baseBank.writeEnable && !pins.extBank.writeEnable ==> Contents() == old(Contents())
    {
      if pins.baseBank.writeEnable && pins.baseBank.addr.Some? && pins.baseBank.data.Some? {
        var row, v := pins.baseBank.addr.value, pins.baseBank.data.value;
        baseBank := baseBank[row := v];
        log := log + [(false, row, v)];
      }
      if pins.extBank.writeEnable && pins.extBank.addr.Some? && pins.extBank.data.Some? {
        var row, v := pins.extBank.addr.value, pins.extBank.data.value;
        extBank := extBank[row := v];
        log := log + [(true, row, v)];
      }
    }
  }
}
