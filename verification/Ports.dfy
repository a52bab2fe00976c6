/** Groups of signals that pass between the clocked stages. */
module Ports {
  import opened Words
  import opened Isa

  /** Memory and register requests travelling with an instruction. */
  datatype Controls = Controls(memRead: bool, memWrite: bool, memByteOnly: bool, memData: Word,
                               regWrite: bool, regByteOnly: bool, regAddr: RegNum)

  const NO_REQUEST := Controls(false, false, false, 0, false, false, 0)

  /** A bubble is made by dropping the three request signals; the rest keeps its old value. */
  function Squash(c: Controls): Controls
  {
    c.(memRead := false, memWrite := false, regWrite := false)
  }

  /** The register write leaving the memory stage. */
  datatype BackPort = BackPort(write: bool, addr: RegNum, byteOnly: bool, bytePos: Lanes)

  datatype AluPort = AluPort(op: AluOp, a: Word, b: Word)

  function Result(p: AluPort): Word { Alu(p.op, p.a, p.b) }

  /** The combinations of requests the decoder produces. */
  predicate Proper(c: Controls)
  {
    && (c.memRead ==> !c.memWrite && c.regWrite)
    && (c.memWrite ==> !c.regWrite)
    && (c.regWrite && !c.memRead ==> !c.regByteOnly)
  }

  /** The micro-operation that a set of requests stands for, with the value to write back and the
      address to access. */
  function UopOf(c: Controls, value: Word, addr: Word): Uop
  {
    if c.memRead then LoadAt(addr, c.regByteOnly, c.regAddr)
    else if c.memWrite then StoreAt(addr, c.memByteOnly, c.memData)
    else if c.regWrite then WriteBack(value, c.regAddr)
    else Bubble
  }
}
