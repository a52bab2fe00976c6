/** The register file with its two multipliers, as clocked hardware. */
module RegisterUnit {
  import opened Words
  import opened Isa
  import opened Machine

  /** The value that reaches the register file: one byte lane, zero extended, for byte loads. */
  function WriteValue(value: Word, byteOnly: bool, bytePos: Lanes): Word
  {
    if byteOnly then Lane(value, bytePos) else value
  }

  /** The write port as the fetch stage drives it. */
  datatype WritePort = WritePort(enable: bool, number: RegNum, value: Word, byteOnly: bool, bytePos: Lanes)

  /** A write port as the register write it causes, if any. */
  function PortWrite(w: WritePort): Option<(RegNum, Word)>
  {
    if w.enable then Some((w.number, WriteValue(w.value, w.byteOnly, w.bytePos))) else None
  }

  class RegisterUnit {
    var gpr: Registers
    ghost var log: seq<(RegNum, Word)>
    var valueA: Word
    var valueB: Word
    var signedProduct: Product
    var unsignedProduct: Product

    ghost function Contents(): RegFile
      reads this
    {
      RegFile(gpr, log)
    }

    /** After reset every register is zero except the stack pointer. */
    constructor ()
      ensures Contents() == RegFile(seq(32, _ => 0)[29 := 0x807F_FF00], [])
    {
      gpr := seq(32, _ => 0)[29 := 0x807F_FF00];
      log := [];
      valueA, valueB := 0, 0;
      signedProduct, unsignedProduct := Product(0, 0), Product(0, 0);
    }

    /** The falling clock edge writes, and reads both ports as if the write had come first. */
    method FallingEdge(w: WritePort, readA: RegNum, readB: RegNum)
      modifies `gpr, `log, `valueA, `valueB
      ensures Contents() == match PortWrite(w)
                            case None => old(Contents())
                            case Some(entry) => Set(old(Contents()), entry.0, entry.1)
      ensures valueA == Get(Contents(), readA) && valueB == Get(Contents(), readB)
    {
      hide Lane;
      var value := WriteValue(w.value, w.byteOnly, w.bytePos);
      var writes := w.enable && w.number != 0;
      valueA := if writes && readA == w.number then value else gpr[readA];
      valueB := if writes && readB == w.number then value else gpr[readB];
      if writes {
        gpr := gpr[w.number := value];
        log := log + [(w.number, value)];
      }
    }

    /** The rising clock edge latches both products of the values read before it. */
    method RisingEdge()
      modifies `signedProduct, `unsignedProduct
      ensures signedProduct == Multiply(true, valueA, valueB)
      ensures unsignedProduct == Multiply(false, valueA, valueB)
    {
      signedProduct := Multiply(true, valueA, valueB);
      unsignedProduct := Multiply(false, valueA, valueB);
    }
  }
}
