/** The execute stage: latches its operands, translates addresses, and keeps its instruction
    while the memory stage rewrites a byte. */
module AluWrapper {
  import opened Words
  import opened Isa
  import opened Ports

  class AluWrapper {
    // latched inputs
    var operands: AluPort
    var latched: Controls
    // outputs
    var aluOutput: Word
    var physical: Word
    var out: Controls
    var virtualPage: PageNumber
    var tlbException: bool
    var tlbExceptionOnWrite: bool
    // sequencing
    var skipOne: bool
    var doNotReadInput: bool

    constructor ()
      ensures out == NO_REQUEST && !tlbException && !skipOne && !doNotReadInput
    {
      operands, latched, out := AluPort(PASS_A, 0, 0), NO_REQUEST, NO_REQUEST;
      aluOutput, physical, virtualPage := 0, 0, 0;
      tlbException, tlbExceptionOnWrite, skipOne, doNotReadInput := false, false, false, false;
    }

    /** The first edge takes in the next instruction unless the stage is frozen. */
    method S0(alu: AluPort, inputs: Controls)
      modifies `operands, `latched
      ensures operands == if doNotReadInput then old(operands) else alu
      ensures latched == if doNotReadInput then old(latched) else inputs
    {
      if !doNotReadInput {
        operands := alu;
        latched := inputs;
      }
    }

    /** The second edge presents the page to the translation buffer. */
    method S1()
      modifies `virtualPage
      ensures virtualPage == Page(Result(operands))
    {
      virtualPage := Page(Result(operands));
    }

    /** The last edge hands the instruction to the memory stage, or a bubble while that stage is
        busy, or raises a translation exception. */
    method S3(holdFromMemory: bool, realPage: PageNumber, tlbBad: bool)
      modifies `aluOutput, `physical, `out, `tlbException, `tlbExceptionOnWrite, `skipOne, `doNotReadInput
      ensures doNotReadInput == holdFromMemory
      ensures old(skipOne) || holdFromMemory ==>
                && out == Squash(old(out)) && aluOutput == 0 && physical == old(physical)
                && !tlbException && !skipOne
      ensures !old(skipOne) && !holdFromMemory && tlbBad && (latched.memWrite || latched.memRead) ==>
                && out == Squash(old(out)) && aluOutput == Result(operands) && tlbException && skipOne
                && tlbExceptionOnWrite == !latched.memRead && physical == old(physical)
      ensures !old(skipOne) && !holdFromMemory && !(tlbBad && (latched.memWrite || latched.memRead)) ==>
                && out == latched && aluOutput == Result(operands)
                && physical == Translate(realPage, Result(operands)) && !tlbException && !skipOne
    {
      hide Alu, Translate;
      doNotReadInput := holdFromMemory;
      if skipOne || holdFromMemory {
        out := Squash(out);
        aluOutput := 0;
        tlbException := false;
        skipOne := false;
      } else if tlbBad && (latched.memWrite || latched.memRead) {
        out := Squash(out);
        aluOutput := Result(operands);
        skipOne := true;
        tlbException := true;
        tlbExceptionOnWrite := !latched.memRead;
      } else {
        aluOutput := Result(operands);
        physical := Translate(realPage, Result(operands));
        out := latched;
        tlbException := false;
      }
    }
  }
}
