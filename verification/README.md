# A verified model of the pipelined MIPS computer and its software

This project models the five-stage MIPS32 processor (VHDL), the network code of its web server
(C), its boot loader (C) and sender (Python), its assembler (Python), the Intel HEX tool (Python)
and the two translation buffers, the hardware's and the host terminal's (VHDL and C++), and proves
what they are meant to do. `dafny verify dfyconfig.toml` checks everything.

## What is proved

**Processor.** `Machine` is a machine that executes one instruction at a time, with one delay slot;
its decoding and arithmetic (`Isa`) follow the hardware, not the MIPS manual. `Pipeline` is the
pipeline with one transition per macro-cycle of four clocks. The clocked processes themselves are
classes with one method per clock edge (`Fetcher`, `Decoder`, `RegisterUnit`, `AluWrapper`,
`PcDecider`, `MemoryUnit`, `Tlb`, `RamChips`), wired together in `Computer` as in CPU/TOP.vhdl.

- `Computer.MacroCycle`: four clock edges of the wired hardware are one `Pipeline.Step`, or end in a
  translation fault, and after no edge is a RAM address bus driven by two stages.
- `Refinement`: each `Step` is one step of the one-instruction machine or none; whole runs agree;
  register and RAM writes come in program order; an operand is read only when no older instruction
  will still write it; every jump has exactly one delay slot.
- `Liveness`: an instruction is held for at most three macro-cycles, with one exception, and the
  exception is stated exactly (see "Deviations" below).
- Addresses are virtual: instructions and data go through the eight translation slots, which
  `tlbwi` changes.
- `Computer.RunFromReset` puts these together for the hardware from reset; `SpinBehaves` and
  `Programs.MappingBehaves` give programs that meet its hypotheses for runs of every length, the
  second one with a page mapped by `tlbwi` and a byte stored to it and loaded back.
- `Instructions` states every group of instructions by the numbers in its word: what one step of the
  one-instruction machine does to registers, memory bytes, special registers and slots.
- `Fetcher.EntryMeans`, which the contracts of the fetch stage include, states exception entry and
  return by bit and number.
- `Fetcher.RunUndisturbed`: with arbitrary inputs, interrupts are never nested.

The hypotheses (`Machine.WellBehaved`) are about the run of the one-instruction machine: it fetches
from the boot ROM or from a fixed set of program words, uses mapped addresses of RAM only, stores
outside the program words, does not access a page that the very next instruction moves, has
interrupts masked, and executes no system call, no return from exception, no read of the
free-running counter. Linking branches are included.

**Network code.** The TCP server is a class that works on the frame arrays, proved equal to a
transition function; over that function are proved delivery safety over a network that loses,
duplicates and reorders, both for segments and for the octets of frames, the whole transfer for any
file and chunk length, the exact limit the segment counter sets, and that every segment sent carries
a checksum that verifies. `TcpLaws` states the function state by state, in numbers and flags, and
the frames octet by octet. Received packets are followed through the IP layer to the frame that goes
back: every writer of the transmit buffer keeps it octets, and a frame of octets survives the 16-bit
port of the network chip, so the peer's buffer holds exactly the frame that carries the segment or
the echoed message.

**Tools.** Reading what the Intel HEX tool writes gives the same areas back, with the start address
and, when the text shows it, the mode. `HexLaws` says by their characters exactly which lines are
accepted, what they hold, and that no single changed byte but the length passes. A program's words
mean to the processor what the mnemonics say, and labels resolve to the marked instruction. A boot
transfer puts the file in memory whatever single data words the line spoils. Both translation
buffers are partial maps, and agree when loaded with the same entries.

## Deviations found in the code

- `bgezal` or `bltzal` directly after an instruction that writes a register it compares stalls for
  ever: while it is held, the newer scoreboard entry is not cleared
  (CPU/FetcherAndRegister.vhdl:694). Its `rt` field counts as a compared register.
  `Liveness.IssuedIffNoHang` is the exact condition, `LoadThenLinkHangs` an instance.
- `tlbwi` writes its slot while it is still in decode, so a load or store directly before it already
  goes through the new entry. `Refinement.RemapExactly` is the exact condition for this not to show:
  the new entry keeps the page mapped, to RAM, with the same outcome (`KeptExactly` spells the
  outcome out). `Programs.MovedLoadDiffers`, `UnmappedLoadFaults` and `MovedToDevice` are instances in
  which it shows, as another word loaded, a fault, and a device reached.
- The Intel HEX reader fails on every start record of 16-bit mode, because it unpacks four bytes
  from a slice of two (tools/ihex.py:27). `IHex.RoundTripIff` is the exact condition.
- An established server answers any acknowledgement number, even one outside the file: a repeated
  opening segment makes it send memory from before the file. `TcpProtocol.StaysInsideIff` is the
  exact condition, `RepeatedSynLeavesFile` an instance.
- The server counts segments, not time: a transfer completes only if its chunks number at most the
  limit less four (`TcpTransfer.CompletesIff`). The compiled values satisfy this.
- Differences from the MIPS manual that the model keeps: `lb` does not extend the sign; `lh`,
  `lhu`, `lwl`, `lwr` decode as stores; `sltiu` extends with zeros; `jalr` always links register 31;
  register shifts use the whole count register.
- The assembler takes the number of `addiu` as unsigned and the processor extends its sign, so the
  result is the sum asked for if and only if the number is below 0x8000
  (`Toolchain.AddiuExactly`).
- The stack answers packets whatever their destination address, and always from its own. The TCP
  checksum covers the address the packet was sent to, so `TcpWire.AnswerVerifies` is about packets
  addressed to the server.

## Model

| member | source | states |
|---|---|---|
| `Computer.RunFromReset` | CPU/TOP.vhdl:491-580 | from reset, for any number of macro-cycles, any outside inputs and any well-behaved program without a hanging pair: the register and RAM writes are those of the one-instruction machine in order, short of at most three and two in flight; PC, HI, LO and coprocessor 0 agree; the translation slots are those of the executed slot writes, with one that is held in decode; Count has counted the macro-cycles since it was last written; at least every fourth macro-cycle issued |
| `Computer.SpinBehaves` | CPU/PCdecider.vhdl:44-54 | the hypotheses of the main result can be met: a jump to itself at the reset address runs well-behaved for ever |
| `Computer.Computer.Run` | CPU/TOP.vhdl:491-580 | the wired signals, translation slots and Count included, stand for a pipeline state after every run, and its programmer's view is the one-instruction machine after the issued instructions |
| `Computer.Computer.MacroCycle` | CPU/TOP.vhdl:491-580 | four clock edges of all stages are one step of the pipeline, or end in a fault exactly when the access leaving the execute stage is not mapped by the slots as the instruction in decode left them; Count advances or takes the value written; no address bus is left driven by two stages |
| `Computer.Computer.FaultSeen` | CPU/FetcherAndRegister.vhdl:256-266 | the fetch stage sees that fault, with its kind and address, in the next macro-cycle |
| `Computer.Computer.StartDevice` | CPU/Memory.vhdl:179-230 | an access that reaches a device register drives no RAM row and takes or leaves the device's data |
| `Computer.CountIsClock` | CPU/FetcherAndRegister.vhdl:686-687 | while no instruction writes it, Count is the number of macro-cycles modulo 2^32 |
| `Computer.Computer.Phase0` | CPU/TOP.vhdl:497-575 | first edge of every stage: from the standing state to operands read and instruction decoded |
| `Computer.Computer.Phase1` | CPU/TOP.vhdl:491-575 | second edge: hazard found, memory access started, pages presented for translation, the slot of a decoded `tlbwi` written, instruction address released, products latched |
| `Computer.Computer.Phase2` | CPU/TOP.vhdl:491-575 | third edge: access completed, hold final, fetch address translated by the slots as just written |
| `Computer.Computer.Phase3` | CPU/TOP.vhdl:491-575 | fourth edge: the signals stand for the next pipeline state, or show the fault and everything else of it |
| `Computer.Computer.constructor` | CPU/FetcherAndRegister.vhdl:211-237 | reset stands for the empty pipeline at the reset address |
| `Refinement.StepRefines` | CPU/FetcherAndRegister.vhdl:622-825 | one macro-cycle changes the programmer's view by one instruction when decode is not held and not at all when it is |
| `Refinement.StepConsistent` | CPU/FetcherAndRegister.vhdl:643-721 | every macro-cycle keeps the scoreboard entries naming the destinations in the execute and memory stages, through stalls and freezes |
| `Refinement.RunRefines` | CPU/FetcherAndRegister.vhdl:246-825 | after any number of macro-cycles the programmer's view is the one-instruction machine after as many instructions as were issued |
| `Refinement.HazardFree` | CPU/FetcherAndRegister.vhdl:622-633 | a register named by no scoreboard entry is read with the value every older instruction in flight will leave in it |
| `Refinement.IssuesAsViewed` | CPU/FetcherAndRegister.vhdl:691-817 | an issued instruction has the effect it has in the one-instruction machine |
| `Refinement.FetchesCurrent` | CPU/FetcherAndRegister.vhdl:189-191 | the word decoded now is the word found when all stores in flight are done |
| `Refinement.KsegSame` | CPU/TLB.vhdl:118-120 | in a kernel segment translation changes no load and no store |
| `Refinement.RemapExactly` | CPU/FetcherAndRegister.vhdl:310-323 | with an access directly before a `tlbwi` that is not frozen, the macro-cycle ends without fault, in a state the invariant covers, one instruction further, if and only if the new entry keeps the page mapped, to RAM, with the same outcome |
| `Refinement.KeptExactly` | CPU/ALUWrapper.vhdl:128-152 | that condition as a caller can look it up: mapped, no device, and for a load equal words at the two places, for a store the same word |
| `Refinement.RemapViews` | CPU/ALUWrapper.vhdl:141-150 | when neither faults nor devices come in, the view follows exactly when the outcomes agree |
| `Liveness.UnsteadyIsTlbwi` | CPU/FetcherAndRegister.vhdl:310-323 | only a `tlbwi` in decode moves the page of the access before it |
| `Programs.MovedLoadDiffers` | CPU/FetcherAndRegister.vhdl:310-323 | an instance: `lw` from 0x5000, then a `tlbwi` that moves the page from frame 5 to frame 6 with another word |
| `Programs.UnmappedLoadFaults` | CPU/ALUWrapper.vhdl:128-139 | an instance: the `tlbwi` unmaps the page and the macro-cycle ends in a fault |
| `Programs.MovedToDevice` | CPU/Memory.vhdl:179-189 | an instance: the `tlbwi` moves the page onto the serial port, at the same row of the same bank |
| `Programs.MappingBehaves` | CPU/FetcherAndRegister.vhdl:301-323 | a program that maps a page with `tlbwi`, stores a byte to it and loads it back meets the hypotheses for runs of every length and ends with the byte in its register and in RAM |
| `Refinement.WritesInOrder` | CPU/Registers.vhd:78-81 | at every moment the writes made to registers and RAM are a prefix of the sequential ones, short of at most three and two; special registers and slots agree |
| `Refinement.DrainedAgrees` | CPU/Memory.vhdl:146-318 | with nothing in flight registers and RAM equal the sequential ones |
| `Refinement.OneDelaySlot` | CPU/PCdecider.vhdl:62-96 | after a taken jump the successor is issued, however long it is held, then the target; no jump is lost or taken twice |
| `Refinement.SequentialDelaySlot` | CPU/PCdecider.vhdl:62-69 | in the one-instruction machine a jump takes effect after exactly one more instruction, and only a jump breaks the succession |
| `Machine.SlotsAreWritten` | CPU/FetcherAndRegister.vhdl:310-323 | the slots of a running program are the run of writes its `tlbwi` instructions executed |
| `Liveness.StallsEnd` | CPU/FetcherAndRegister.vhdl:622-650 | an instruction that is not stuck is issued after at most three held macro-cycles, with the view unchanged |
| `Liveness.StallDecreases` | CPU/FetcherAndRegister.vhdl:643-701 | each held macro-cycle lowers the number of stalls left by one |
| `Liveness.StallsBounded` | CPU/FetcherAndRegister.vhdl:622-650 | the measure is at most three and zero exactly when decode is not held |
| `Liveness.IssueSticks` | CPU/FetcherAndRegister.vhdl:693-701 | decode gets stuck exactly after a writer of a register that the next instruction, a linking branch, compares |
| `Liveness.HangsForever` | CPU/FetcherAndRegister.vhdl:693-701 | a hanging pair stops the machine for ever |
| `Liveness.IssuedIffNoHang` | CPU/FetcherAndRegister.vhdl:693-701 | instruction number k is issued eventually if and only if no earlier instruction forms a hanging pair with its successor |
| `Liveness.LoadThenLinkHangs` | CPU/FetcherAndRegister.vhdl:693-701 | an instance of a hanging pair: `ori $4, $0, 1` before `bgezal $4` |
| `Liveness.Progress` | CPU/FetcherAndRegister.vhdl:622-701 | without a hanging pair k instructions issue within 4k macro-cycles |
| `Liveness.Throughput` | CPU/FetcherAndRegister.vhdl:622-701 | without a hanging pair at least one macro-cycle in four issues |
| `ByteMemory.ByteNames` | CPU/Memory.vhdl:199-207 | bank, row and lane name each of the 2^23 bytes once |
| `ByteMemory.StoreByteChangesOne` | CPU/Memory.vhdl:294-306 | a byte store changes exactly the addressed byte |
| `ByteMemory.StoreWordChangesFour` | CPU/Memory.vhdl:231-240 | a word store replaces its four bytes, big-endian, and no other |
| `ByteMemory.LoadWordAssembles` | CPU/Memory.vhdl:268-278 | a word load is its four bytes, most significant first |
| `ByteMemory.TwoPassStore` | CPU/Memory.vhdl:162-211 | the first pass of a byte store freezes the execute stage and leaves RAM alone; the second changes exactly one byte |
| `Words.MergeLaneLanes` | CPU/Memory.vhdl:296-306 | replacing a lane changes that lane to the low byte and no other lane |
| `Fetcher.Fetcher.S0` | CPU/FetcherAndRegister.vhdl:246-620 | first edge: disturbances in priority order, which leave the buffer and all but the bad address alone; else, from a settled buffer, the buffer asks for what a plain instruction means, `eret` asks for a jump to EPC and clears EXL, a system call becomes pending, `tlbwi` arms its slot write from the entry registers, a write to Compare lowers the timer line |
| `Fetcher.Fetcher.S1` | CPU/FetcherAndRegister.vhdl:622-641 | second edge: hold exactly on a register clash with either scoreboard entry |
| `Fetcher.Fetcher.S2` | CPU/FetcherAndRegister.vhdl:643-689 | third edge: scoreboard advance, hold for memory, and the whole exception entry with every coprocessor 0 register and the counter |
| `Fetcher.Fetcher.S3` | CPU/FetcherAndRegister.vhdl:691-825 | last edge: a bubble when held or skipped, else the issue; newer scoreboard entry, HI, LO, coprocessor 0, skip flags and the timer line |
| `Fetcher.Fetcher.EnterException` | CPU/FetcherAndRegister.vhdl:652-684 | exception entry: cause, return address, mask bit, squashed buffer and jump to the handler |
| `Fetcher.EntryMeans` | CPU/FetcherAndRegister.vhdl:652-684 | a data fault (codes 2 and 3) leaves PC - 8 in EPC, an interrupt (0), system call (8) or fetch fault (31) leaves PC; Cause has the code, 31 shown as 2, in bits 6 to 2, the lines in bits 15 to 8 and its other bits; Status bit 1 is set on entry and cleared on return, its other bits kept |
| `InterruptHandler.LinesMean` | CPU/InterruptHandler.vhdl:33-40 | an interrupt is raised exactly with bit 0 of Status set, bit 1 clear, and the timer on with bit 15 or the serial port with bit 12; they are reported in bits 7 and 4 |
| `Computer.Computer.PriorityOrder` | CPU/FetcherAndRegister.vhdl:246-275 | an interrupt comes before a data fault and that before a fetch fault |
| `Fetcher.Fetcher.DecodeSideEffects` | CPU/FetcherAndRegister.vhdl:282-383 | what decoding alone changes: Status on return from exception, the armed translation write, the timer line, the pending system call |
| `Fetcher.Fetcher.UpdateLast` | CPU/FetcherAndRegister.vhdl:693-801 | the newer scoreboard entry after the last edge, kept while a linking branch is held |
| `Fetcher.Fetcher.Issue` | CPU/FetcherAndRegister.vhdl:721-817 | the outputs, special registers and skip flags of an issue |
| `Fetcher.Fetcher.EmitBubble` | CPU/FetcherAndRegister.vhdl:703-720 | the outputs and skip flags of a bubble |
| `Fetcher.Fetcher.RunUndisturbed` | CPU/FetcherAndRegister.vhdl:180-290 | over every run with arbitrary inputs, between two interrupt entries a return from exception was decoded or Status was written |
| `Fetcher.IssueMeans` | CPU/FetcherAndRegister.vhdl:744-811 | issuing a buffer that asks for an instruction produces its effect: operation, jump and write request |
| `Fetcher.IssueUpdatesSpecial` | CPU/FetcherAndRegister.vhdl:723-769 | HI, LO and coprocessor 0 after an issue are those of the instruction's effect |
| `Fetcher.IssueNamesDest` | CPU/FetcherAndRegister.vhdl:693-800 | the newer scoreboard entry after an issue is the instruction's destination |
| `Decoder.DecodeSignals` | CPU/FetcherAndRegister.vhdl:277-607 | from a settled buffer, which every issue and every stall leaves, the buffer asks for exactly what the instruction word means, reads of Count included; for `eret` a jump to EPC and nothing else, for a system call what was there before |
| `Decoder.DecodeBranchSignals` | CPU/FetcherAndRegister.vhdl:526-570 | the branches: condition, link flag, target |
| `Decoder.DecodeMemorySignals` | CPU/FetcherAndRegister.vhdl:482-511 | loads and stores: address operands, width, destination or data |
| `Decoder.DecodeCp0Signals` | CPU/FetcherAndRegister.vhdl:277-324 | the coprocessor instructions: reads of every register with its value, writes, slot writes, and the jump of `eret` to EPC |
| `Decoder.DecodeRTypeSignals` | CPU/FetcherAndRegister.vhdl:326-395 | register instructions, multiplication, HI and LO moves, system call |
| `Decoder.DecodeShiftSignals` | CPU/FetcherAndRegister.vhdl:396-456 | shifts, with swapped operands for register counts, and jumps through a register |
| `Decoder.DecodeJumpSignals` | CPU/FetcherAndRegister.vhdl:458-480 | absolute jumps: target, link address |
| `Decoder.DecodeUpperSignals` | CPU/FetcherAndRegister.vhdl:513-525 | `lui`: the number in the upper half, forwarded |
| `Decoder.DecodeImmediateSignals` | CPU/FetcherAndRegister.vhdl:571-607 | immediate instructions: operation and kind of extension |
| `Instructions.LoadMeans` | CPU/FetcherAndRegister.vhdl:482-502 | over one step: `lw` gives the register the four bytes of the word at base plus signed offset, the first one highest; `lb` and `lbu` give it the one byte, extended with zeros; nothing else changes |
| `Instructions.StoreMeans` | CPU/FetcherAndRegister.vhdl:503-511 | over one step: `sb` replaces one byte, `sw` and the other store codes the four bytes of the word, and no other byte, register or special state changes |
| `Instructions.ByteIs` | CPU/Memory.vhdl:199-207 | the byte at an address: bit 22 chooses the bank, the first byte of a word is its highest |
| `Instructions.PhysicalIs` | CPU/TLB.vhdl:118-120 | the physical address, from 0x80000000 to 0xBFFFFFFF without its top bits and elsewhere with the frame some slot gives the page |
| `Instructions.BranchMeans` | CPU/FetcherAndRegister.vhdl:526-570 | over one step: each branch is taken exactly on its comparison with zero or between registers, goes to the place its signed offset names, and the linking ones leave PC + 8 in register 31 when taken |
| `Instructions.JumpMeans` | CPU/FetcherAndRegister.vhdl:458-480 | over one step: the target of `j` and `jal`, and PC + 8 in register 31 for `jal` |
| `Instructions.JumpRegisterMeans` | CPU/FetcherAndRegister.vhdl:436-455 | over one step: `jr` and `jalr` go to the register, and `jalr` leaves PC + 8 in register 31 |
| `Instructions.MultiplyMeans` | CPU/FetcherAndRegister.vhdl:330-344 | over one step: HI times 2^32 plus LO is the product of the two registers, as signed numbers for `mult` and unsigned for `multu` |
| `Instructions.MoveMeans` | CPU/FetcherAndRegister.vhdl:346-377 | over one step: `mfhi`, `mflo`, `mthi` and `mtlo` copy between a register and HI or LO |
| `Instructions.CoprocessorMoveMeans` | CPU/FetcherAndRegister.vhdl:291-309 | over one step: `mfc0` and `mtc0` copy between a register and the coprocessor register named |
| `Instructions.SlotWriteMeans` | CPU/FetcherAndRegister.vhdl:310-323 | over one step: `tlbwi` writes the slot that Index modulo 8 names, with pair, frames, dirty and valid bits from EntryHi and the two EntryLo by position; every other slot stays |
| `Instructions.AluCalculates` | CPU/ALU.vhd:19-77 | each operation: sums and differences modulo 2^32, signed and unsigned comparison, logic and shifts bit by bit |
| `Instructions.RegisterMeans` | CPU/FetcherAndRegister.vhdl:385-395 | over one step: a register operation writes its result to the third register alone |
| `Instructions.ShiftMeans` | CPU/FetcherAndRegister.vhdl:396-434 | over one step: shifts by the amount in the word or by the whole first register |
| `Instructions.ImmediateMeans` | CPU/FetcherAndRegister.vhdl:571-607 | over one step: operations with a number, sign-extended or zero-extended by their code |
| `Instructions.UpperMeans` | CPU/FetcherAndRegister.vhdl:513-525 | over one step: `lui` puts the number in the upper half |
| `Instructions.FetchMeans` | CPU/FetcherAndRegister.vhdl:189-191 | the word executed: boot ROM at 0xBFC00000, else RAM at the physical address of PC |
| `Instructions.SoftwareDevices` | CPU/Memory.vhdl:179-230 | the device addresses the software uses reach devices |
| `Instructions.RamIsFree` | CPU/Memory.vhdl:179-230 | no address of the RAM is a device |
| `RegisterUnit.RegisterUnit.FallingEdge` | CPU/Registers.vhd:60-96 | one write, with lane selection, and both reads as if the write had come first; register 0 never changes |
| `RegisterUnit.RegisterUnit.constructor` | CPU/Registers.vhd:72-77 | after reset every register is zero except the stack pointer |
| `AluWrapper.AluWrapper.S0` | CPU/ALUWrapper.vhdl:89-104 | a frozen stage keeps its instruction, else takes in the next |
| `AluWrapper.AluWrapper.S3` | CPU/ALUWrapper.vhdl:112-155 | hand-over to the memory stage, bubble on freeze or skip, translation exception |
| `PcDecider.PcDecider.S0` | CPU/PCdecider.vhdl:62-71 | the fetch address follows the jump or the successor unless held |
| `PcDecider.PcDecider.constructor` | CPU/PCdecider.vhdl:44-58 | the two start addresses |
| `PcDecider.PcDecider.S3` | CPU/PCdecider.vhdl:84-96 | a held stage presents the same instruction again, else the translated next one |
| `MemoryUnit.MemoryUnit.S0` | CPU/Memory.vhdl:146-170 | takes in a request, or the merged word of a byte store in progress |
| `MemoryUnit.MemoryUnit.S1` | CPU/Memory.vhdl:172-251 | starts a read, the first pass of a byte store with its hold, or a write, on the right bank and row or device |
| `MemoryUnit.MemoryUnit.StartRead` | CPU/Memory.vhdl:179-207 | a read goes to a device register or to the row of one bank |
| `MemoryUnit.MemoryUnit.S2` | CPU/Memory.vhdl:253-292 | the data of the chosen source, kept for the second pass, and the register write |
| `MemoryUnit.MemoryUnit.S3` | CPU/Memory.vhdl:294-318 | the stored byte replaces one lane of the word read |
| `RamChips.RamChips.EndOfPulse` | CPU/Memory.vhdl:231-281 | the end of a write pulse writes exactly the driven row of the driven bank |
| `Digits.LogicByDigit` | CPU/ALU.vhd:34-41 | each logic operation is, bit by bit, the one its name says |
| `Digits.ShiftByDigit` | CPU/ALU.vhd:67-72 | each shift below 32 moves every bit by its count and fills with zeros or the sign |
| `Digits.ProductExact` | CPU/Registers.vhd:51-57 | HI and LO together are the exact signed or unsigned product |
| `Tlb.LookupIsMap` | CPU/TLB.vhdl:43-185 | outside the kernel segments either lookup is the partial map the slots hold, and bad exactly outside it |
| `Tlb.SearchFinds` | CPU/TLB.vhdl:49-116 | a lookup is bad exactly when no slot serves the page |
| `Tlb.OrderIrrelevant` | CPU/TLB.vhdl:49-116 | the order of the slots does not change any lookup |
| `Tlb.WriteRemaps` | CPU/TLB.vhdl:35-41 | writing a slot remaps its two pages and no page of another pair |
| `Tlb.HoldsLastWrite` | CPU/TLB.vhdl:35-41 | after a run of writes each slot holds the EntryHi and EntryLo values last written to it |
| `Tlb.EmptyUntilWritten` | CPU/TLB.vhdl:36-37 | a slot never written is empty |
| `Tlb.RunIsMap` | CPU/TLB.vhdl:35-185 | after every run of slot writes that leaves live pairs distinct, a lookup outside the kernel segments is the partial map declared by the EntryHi and EntryLo values last written to each slot, and bad exactly where none declares the page |
| `HostTlb.AddedTidy` | win-term/memory.cpp:118-158 | adding keeps used entries a prefix with distinct pairs and takes a new entry exactly when needed and possible |
| `HostTlb.AddedIsUpdate` | win-term/memory.cpp:118-158 | an add changes the answer for its own page and no other; a full table is left as it was |
| `HostTlb.TableIsMap` | win-term/memory.cpp:82-158 | after any run of additions the lookup is the map of the last frames added, with pages of a ninth pair refused |
| `HostTlb.VisitedWords` | win-term/memory.cpp:14-31 | the word each address reaches after any run of additions: the low 29 bits from 0x80000000 to 0xBFFFFFFF, else through the frame last added for its page; visitable exactly when that is aligned and below 4 megabytes |
| `HostTlb.HardwareAgrees` | win-term/memory.cpp:82-104 | hardware and host buffers with the same entries give the same answer |
| `HostTlb.HostMemory.SearchInTlb` | win-term/memory.cpp:82-104 | the scanning loop computes the lookup although it stops at the first pair |
| `HostTlb.HostMemory.AddTlbEntry` | win-term/memory.cpp:118-158 | the two scanning loops perform the addition; a full table is reported, exactly when there is neither a matching nor a free entry, and left as it was |
| `HostTlb.HostMemory.Visitable` | win-term/memory.cpp:14-31 | visitable exactly when the address translates to an aligned word in range |
| `HostTlb.HostMemory.WriteWord` | win-term/memory.cpp:37-41 | a write changes the translated word and no other |
| `HostTlb.HostMemory.ReadWord` | win-term/memory.cpp:33-35 | the word at the translated address |
| `HostTlb.HostMemory.Resolve` | win-term/memory.cpp:106-116 | the translated address of every address that has a translation |
| `HostTlb.HostMemory.constructor` | win-term/memory.cpp:9-12 | no translations, every word all ones |
| `TcpServer.TcpServer.HandleSegment` | kernel/userprog-webserver/tcp.c:32-99 | the variables and the segment sent after any received segment are those of the transition function; a segment sent leaves in a frame of octets addressed to its sender, otherwise the transmit buffer is untouched |
| `TcpServer.TcpServer.AnswerPeer` | kernel/userprog-webserver/tcp.c:61-98 | the same for a segment of the connected peer |
| `TcpServer.TcpServer.SendPacket` | kernel/userprog-webserver/tcp.c:101-135 | one frame goes out: IP and Ethernet headers of a reply around the encoding of header, payload and checksum; the transmit buffer stays octets |
| `TcpServer.TcpServer.BuildSegment` | kernel/userprog-webserver/tcp.c:102-131 | the octets of the segment in the transmit buffer are its encoding |
| `TcpServer.TcpServer.ServeSegment` | kernel/userprog-webserver/tcp.c:78-98 | an established connection answers by the acknowledgement number: nothing, a chunk or FIN |
| `TcpServer.TcpServer.OpenConnection` | kernel/userprog-webserver/tcp.c:41-49 | the peer is remembered and the numbers start anew |
| `TcpServer.TcpServer.SamePeer` | kernel/userprog-webserver/tcp.c:54-60 | ports and addresses are those remembered |
| `TcpServer.TcpServer.WriteHeader` | kernel/userprog-webserver/tcp.c:102-113 | the twenty header octets with a zero checksum |
| `TcpServer.TcpServer.CopyPayload` | kernel/userprog-webserver/tcp.c:114 | the payload octets, header untouched |
| `TcpServer.TcpServer.AddPseudoHeader` | kernel/userprog-webserver/tcp.c:116-121 | the sum of the pseudo-header (section 3.1 of RFC 793) |
| `TcpServer.TcpServer.constructor` | kernel/userprog-webserver/tcp.c:23-30 | the initial variables |
| `TcpServer.SentVerifies` | kernel/userprog-webserver/tcp.c:115-131 | every segment sent consists of octets and its checksum verifies with the pseudo-header |
| `TcpServer.SentReadsBack` | kernel/userprog-webserver/tcp.c:102-114 | ports, numbers, flags and payload read from the octets are those meant |
| `TcpLaws.OpeningLaw` | kernel/userprog-webserver/tcp.c:41-53 | an opening segment: number 1001 and the received number plus one go out with SYN and ACK, and the peer is remembered |
| `TcpLaws.StrangerLaw` | kernel/userprog-webserver/tcp.c:54-60 | a segment of any other port or address sends nothing and changes nothing but the counter |
| `TcpLaws.ResetLaw` | kernel/userprog-webserver/tcp.c:61-64 | a reset by the peer closes the connection in every state, silently |
| `TcpLaws.ResetThenOpens` | kernel/userprog-webserver/tcp.c:41-64 | after it the next SYN, of whatever peer, opens afresh |
| `TcpLaws.ClosedLaw` | kernel/userprog-webserver/tcp.c:35-40 | a closed or timed-out connection sends nothing to its peer |
| `TcpLaws.HandshakeLaw` | kernel/userprog-webserver/tcp.c:71-77 | the acknowledgement of the handshake establishes the connection and its numbers, anything else only counts |
| `TcpLaws.FinalLaw` | kernel/userprog-webserver/tcp.c:65-70 | after the FIN a segment is answered with RST, numbered by the acknowledgement received, and the connection closes |
| `TcpLaws.EstablishedLaw` | kernel/userprog-webserver/tcp.c:78-98 | an established connection, by the position acknowledged: silence, a chunk of the file or the FIN, each with its numbers and flags |
| `TcpLaws.HearsByPlace` | kernel/userprog-webserver/tcp.c:32-34 | which octets of a frame are ports, addresses, numbers and flags |
| `TcpLaws.SentByPlace` | kernel/userprog-webserver/tcp.c:102-114 | every octet of a header sent, by place |
| `TcpLaws.LengthReadsBack` | kernel/userprog-webserver/ip.c:16-45 | the length the stack reads is the length a reply was written with |
| `TcpProtocol.DeliverySafety` | kernel/userprog-webserver/tcp.c:41-98 | over a network that loses, duplicates and reorders: the client's buffer is a prefix of the file, each octet sent is the file's octet at its sequence number, FIN only when the client has everything |
| `TcpWire.WireSafety` | kernel/userprog-webserver/tcp.c:32-135 | the same with frames of octets on the network, as the stack receives and emits them: prefix, each payload octet at the number its frame gives it, FIN only when all is received |
| `TcpWire.WireStep` | kernel/userprog-webserver/tcp.c:41-98 | every action on frames keeps the protocol invariant of the segments they stand for |
| `TcpWire.ReadsMeant` | kernel/userprog-webserver/tcp.c:102-114 | the client reads from an emitted frame the segment the server meant |
| `TcpWire.AnswerVerifies` | kernel/userprog-webserver/tcp.c:115-131 | an answer to a packet addressed to the server verifies with the addresses of the frame it arrives in |
| `TcpWire.DeliverPacket` | kernel/userprog-webserver/ip.c:16-29 | handling a packet is one delivery of that system, with the frame emitted as its answer |
| `TcpProtocol.NextInv` | kernel/userprog-webserver/tcp.c:41-98 | every action of server, client and network keeps the protocol invariant |
| `TcpProtocol.AnswersHonestly` | kernel/userprog-webserver/tcp.c:78-98 | what the server answers to a justified acknowledgement is a chunk of the file, or FIN once everything is acknowledged |
| `TcpProtocol.AcceptExtends` | kernel/userprog-webserver/tcp.c:88-93 | accepting the expected segment keeps the buffer a prefix ending at a chunk boundary |
| `TcpProtocol.StaysInsideIff` | kernel/userprog-webserver/tcp.c:78-97 | exactly which acknowledgement numbers keep the server inside the file |
| `TcpProtocol.RepeatedSynLeavesFile` | kernel/userprog-webserver/tcp.c:41-98 | a repeated opening segment makes the compiled server send 1000 octets from before the file |
| `TcpTransfer.WholeTransfer` | kernel/userprog-webserver/tcp.c:32-99 | an acknowledging client gets one SYN, then every chunk, numbered by its place and with neither SYN, FIN nor RST, then one FIN and one RST; the payloads are the whole file |
| `TcpTransfer.ChunkByChunk` | kernel/userprog-webserver/tcp.c:78-97 | after i acknowledged chunks the connection is open, the counter is i + 1 and the payloads are the first i chunks |
| `TcpTransfer.Closing` | kernel/userprog-webserver/tcp.c:65-87 | the last two segments: FIN once everything is acknowledged, then RST |
| `TcpTransfer.TimesOut` | kernel/userprog-webserver/tcp.c:35-40 | with too many chunks the connection is closed before the transfer is complete |
| `TcpTransfer.CompletesIff` | kernel/userprog-webserver/tcp.c:16-40 | the transfer completes exactly when the segment limit exceeds the number of chunks by more than three |
| `TcpTransfer.CompiledCompletes` | kernel/userprog-webserver/tcp.c:14-21 | with the compiled constants the transfer takes twenty segments |
| `Checksum.StoredChecksumVerifies` | kernel/userprog-webserver/tcp.c:127-131 | a message with the computed checksum stored folds to all ones (section 1 of RFC 1071) |
| `Checksum.SumFits` | kernel/userprog-webserver/tcp.c:116-126 | the accumulator stays below 2^31 for every message an IPv4 packet can carry |
| `Checksum.FoldTwice` | kernel/userprog-webserver/tcp.c:127-128 | two folds reach 16 bits and keep the sum modulo 2^16 - 1 |
| `Checksum.SumWords` | kernel/userprog-webserver/tcp.c:122-126 | the summing loop, odd lengths included |
| `Checksum.SumByPosition` | kernel/userprog-webserver/tcp.c:122-126 | the sum weighs each octet by its position, the earlier of two being the higher |
| `Checksum.IcmpChecksum` | kernel/userprog-webserver/icmp.c:30-44 | for every length the stored octets are the checksum of the message with a zero field, a message that has the field verifies, and nothing else changes |
| `Checksum.SumLowOctets` | kernel/userprog-webserver/icmp.c:33-38 | the summing loop over low octets |
| `Octets.MemCpy` | kernel/userprog-webserver/utils.c:19-22 | the copied octets are reduced to eight bits, nothing else changes, a buffer of octets stays one; within one array an overlapped source repeats |
| `Octets.Mem2Int` | kernel/userprog-webserver/utils.c:25-32 | the 32-bit number the octets spell |
| `Octets.Int2Mem` | kernel/userprog-webserver/utils.c:34-39 | the region becomes the octets of the number, nothing else changes, a buffer of octets stays one |
| `Octets.MemCmp` | kernel/userprog-webserver/utils.c:12-17 | zero exactly when the regions agree |
| `Octets.FourOctets` | kernel/userprog-webserver/utils.c:25-39 | a 32-bit integer survives being written and read as four octets |
| `Frames.SendFrame` | kernel/userprog-webserver/ethernet.c:123-128 | the packing loop emits, for any entries, the bitwise or of two entries a word |
| `Frames.PairOfOctets` | kernel/userprog-webserver/ethernet.c:124-125 | on octets that or is the sum of the two halves |
| `Frames.PortOrder` | kernel/userprog-webserver/ethernet.c:123-128 | on the port the earlier octet of two is the lower half of the word |
| `Frames.FrameArrives` | kernel/userprog-webserver/ethernet.c:123-164 | a sent frame of octets is what the receiving buffer starts with |
| `Frames.ReceiveFrame` | kernel/userprog-webserver/ethernet.c:160-164 | the unpacking loop, with the one octet more it writes for odd lengths |
| `Frames.FrameRoundTrip` | kernel/userprog-webserver/ethernet.c:123-164 | a frame comes back as sent if and only if it consists of octets, odd lengths included |
| `Frames.SetTx` | kernel/userprog-webserver/ethernet.c:169-174 | addresses and type are written, the rest stays, octets stay octets |
| `Frames.CopyConstant` | kernel/userprog-webserver/utils.c:19-22 | copying a constant array of octets |
| `Ip.MakeReply` | kernel/userprog-webserver/ip.c:31-45 | every header field of a reply, addressed to the sender of the received frame; payload and unwritten fields stay, octets stay octets |
| `Ip.ReplyReadsBack` | kernel/userprog-webserver/ip.c:31-45 | the receiver reads its own addresses and the length meant |
| `Icmp.HandleEcho` | kernel/userprog-webserver/icmp.c:14-28 | exactly echo requests are answered, with an echo of the same identifier and data whose checksum verifies, in a reply frame; octets stay octets |
| `Icmp.BuildEcho` | kernel/userprog-webserver/icmp.c:18-24 | the message of the answer |
| `Icmp.EchoArrives` | kernel/userprog-webserver/icmp.c:14-28 | through the chip's port the requesting host's buffer holds the whole reply, and the echoed message verifies |
| `Stack.HandlePacket` | kernel/userprog-webserver/ip.c:16-29 | plain IPv4 packets go to the protocol they name with the length they claim, all others change nothing; the server stays valid, its buffers octets |
| `Stack.EmittedArrives` | kernel/userprog-webserver/ethernet.c:116-164 | the words of an emitted frame, received, leave exactly the frame that carries the segment |
| `Stack.SegmentArrives` | kernel/userprog-webserver/ethernet.c:160-164 | the receiving loop does so |
| `IHex.RoundTrip` | tools/ihex.py:5-191 | for every mode, row width and set of separated areas in range, reading what is printed gives the same areas, or the reader's failure on a 16-bit start record |
| `IHex.RoundTripIff` | tools/ihex.py:24-28 | the areas come back if and only if no start address is printed in 16-bit mode |
| `IHex.RowsRead` | tools/ihex.py:149-182 | reading the rows of one area rebuilds it chunk by chunk across 64K boundaries |
| `IHex.AreasRead` | tools/ihex.py:149-182 | the base left by one area never disturbs the next, because areas are written in order |
| `IHex.RowInserts` | tools/ihex.py:92-110 | a row is joined to the area it continues, whatever the dictionary's order |
| `HexText.LineRoundTrip` | tools/ihex.py:116-144 | parsing a printed line gives the record back |
| `HexText.ChecksumCancels` | tools/ihex.py:112-114 | with its checksum a line sums to zero modulo 256 |
| `HexText.LinesOfRender` | tools/ihex.py:139-144 | the lines of the printed text are its records, one each |
| `HexLaws.AcceptedExactly` | tools/ihex.py:116-137 | a line is accepted if and only if it is a colon and pairs of hexadecimal digits in either case, with at least length + 5 bytes of which the first length + 5 sum to zero modulo 256 |
| `HexLaws.SpelledParses` | tools/ihex.py:116-137 | when accepted, kind, address and data are the bytes by position, the high address byte first; when only the sum is wrong, the checksum is the error |
| `HexLaws.ChangedByteFails` | tools/ihex.py:131-135 | changing any one byte of an accepted line but the length makes reading the file fail there |
| `HexLaws.StripMeans` | tools/ihex.py:11-12 | exactly the blanks at both ends of a line are dropped |
| `HexLaws.PrintedMeans` | tools/ihex.py:139-144 | every character of a printed line |
| `HexLaws.RowsByWidth` | tools/ihex.py:149-182 | data record number n of an area has the bytes from n times the width on, at their address modulo 64K |
| `HexLaws.RecordMeans` | tools/ihex.py:20-39 | what a record of each kind does to the base, and which kinds fail |
| `HexLaws.InsertMeans` | tools/ihex.py:100-110 | byte by byte: an insertion leaves the new bytes at their addresses, the old ones elsewhere, and other areas alone |
| `IHexFile.IHexFile.ReadLines` | tools/ihex.py:5-41 | the areas read, or the exception, are a possible outcome of the reading specification for some order of the dictionary, and the specified one when the order does not matter; mode and start address are those the records imply |
| `IHex.OnlyOutcome` | tools/ihex.py:92-110 | when no insertion is touched by two areas there is only one possible outcome |
| `IHexFile.IHexFile.InsertData` | tools/ihex.py:100-110 | bytes are put at their address, extending one of the areas they touch, or the only one |
| `IHexFile.IHexFile.GetArea` | tools/ihex.py:92-98 | an area that contains the address or ends just before it, none exactly when there is none |
| `IHexFile.IHexFile.Write` | tools/ihex.py:146-191 | the text of the file's records in the only increasing order of the areas, failing exactly when a number does not fit |
| `IHexFile.IHexFile.WriteArea` | tools/ihex.py:149-182 | the text of one area's rows with the base records they need |
| `IHexFile.IHexFile.SortedStarts` | tools/ihex.py:149 | the start addresses of all areas in increasing order |
| `IHexMeta.MetaRoundTrip` | tools/ihex.py:20-36 | reading a printed file gives back a 32-bit start address, and the mode exactly when some row starts beyond the first 64K or a start address was printed, 8-bit mode otherwise |
| `IHexMeta.AreasAreRows` | tools/ihex.py:159-177 | base records are printed exactly when some row of some area starts beyond the first 64K of a wider mode |
| `IHexFile.Reread` | tools/ihex.py:5-191 | writing and reading a file object gives equal areas, fails exactly on a 16-bit start address, gives back a 32-bit one, and the mode exactly when the text shows it |
| `Assembler.LineParser.ParseLine` | tools/asm2bincode.py:72-93 | a mark names the next instruction, an instruction yields its word and counts, failures change nothing |
| `Assembler.AcceptedExactly` | tools/asm2bincode.py:16-69 | a line is assembled if and only if its operands are, mnemonic by mnemonic, registers below 32, numbers in the stated ranges, or known labels whose line or distance fits as a signed number |
| `Assembler.Assemble` | tools/asm2bincode.py:100-106 | all words in order, or failure at the first failing line |
| `Assembler.PointsAreMarks` | tools/asm2bincode.py:76-92 | a known label is the number of instructions before its last mark, and known labels are exactly those marked before |
| `Toolchain.AssembledComputes` | tools/asm2bincode.py:32-63 | for every arithmetic, logic, shift and immediate mnemonic and all operands, labels included, register shift counts below 32, the processor computes what the mnemonic says, writes the destination and changes nothing else; for `addiu` with the number as the processor reads it |
| `Toolchain.AddiuExactly` | tools/asm2bincode.py:51 | `addiu` gives the sum the line asks for if and only if its number is below 0x8000 |
| `Toolchain.UpperComputes` | tools/asm2bincode.py:55 | `lui` puts its number in the upper half of the register |
| `Instructions.BareLines` | tools/asm2bincode.py:64-69 | the words of `nop`, `eret`, `syscall` and `tlbwi` |
| `Instructions.NopMeans` | tools/asm2bincode.py:64-69 | over one step the word of `nop` changes nothing but the place in the program |
| `Instructions.TlbwiLine` | tools/asm2bincode.py:64-69 | the word of `tlbwi` performs the slot write |
| `Instructions.EretLine` | tools/asm2bincode.py:64-69 | the word of `eret` decodes as return from exception |
| `Instructions.SyscallLine` | tools/asm2bincode.py:64-69 | the word of `syscall` decodes as system call |
| `Instructions.JrLine` | tools/asm2bincode.py:49 | over one step the word of `jr` goes to the address in its register |
| `Instructions.CoprocessorLine` | tools/asm2bincode.py:64-69 | over one step the words of `mfc0` and `mtc0` copy between the two registers named |
| `Instructions.LwLine` | tools/asm2bincode.py:56-57 | over one step the word of `lw` loads the word at the named register plus the signed number |
| `Instructions.SwLine` | tools/asm2bincode.py:56-57 | over one step the word of `sw` stores the named register there |
| `Toolchain.LineDecodes` | CPU/FetcherAndRegister.vhdl:385-434 | every such line decodes to the operation, registers and number it names |
| `Toolchain.AluComputes` | CPU/ALU.vhd:19-77 | the arithmetic unit's operation for a mnemonic is the mnemonic's meaning |
| `Toolchain.BranchWord` | tools/asm2bincode.py:58-59 | the word of a branch to a label holds the signed distance |
| `Toolchain.JumpWord` | tools/asm2bincode.py:62-63 | the word of a jump to a label holds its line |
| `Toolchain.LabelsResolve` | tools/asm2bincode.py:21-30 | in every program that assembles and is loaded at 0x80000000, a taken branch or jump goes to the instruction after the last earlier mark of its label, and it is taken exactly on its condition |
| `Toolchain.TargetResolves` | CPU/FetcherAndRegister.vhdl:540-544 | the decoder's address for a label operand is 0x80000000 + 4 * points[label] |
| `Boot.Transfer` | tools/bios.py:45-58 | whatever the line does to single data words or to answers, the blocks whose address fits 32 bits are in memory, and nothing else changed |
| `Boot.FileInMemory` | tools/bios.py:33-58 | after a whole transfer each byte of the file, padded with zeros to a multiple of 64, is in its place, and other words are as before |
| `Boot.Write64Byte` | tools/bios.py:33-42 | retrying until the answer matches leaves exactly the block in memory |
| `Boot.AcceptedIsRight` | tools/bios.py:40-42 | a block is accepted only if the words the loader got are those sent |
| `Boot.ChangeShows` | tools/bios.py:19-23 | changing one word of a block changes the exclusive or, so it causes a retry |
| `Boot.ParityByBit` | tools/bios.py:19-23 | the answer to a block is the parity of its words in every bit |
| `Boot.LineOrder` | bios/main.c:51-69 | a word travels highest byte first in both directions |
| `Boot.Checksum` | tools/bios.py:19-23 | the exclusive or of the sixteen words |
| `Boot.Board.Round` | bios/main.c:29-44 | one round of the loader: stray bytes are dropped; a block is stored and answered with its exclusive or |
| `Boot.Board.Read4Byte` | bios/main.c:51-60 | the big-endian word of the next four bytes |
| `Boot.Board.Write4Byte` | bios/main.c:62-69 | the four bytes of the word, most significant first |

## Left out

- Devices: serial port, display and network chip registers appear only as values read (`Inputs`)
  and as stores leaving the memory stage; the runs proved use RAM addresses only. The serial port's
  own process (the UART source) is not part of this model.
- Resuming after an exception: exception entry is modelled edge by edge in `Fetcher`, but the
  pipeline theorems cover runs without exceptions.
- Translation misses: the pipeline theorems are about runs in which every page used is mapped; a
  miss enters exception state, which is modelled edge by edge only.
- Reads of the Count register in the pipeline theorems: its value depends on the clock and not only on
  the program. What it holds is stated.
- Multiplier cores: exact products after one clock; synthesis, timing, the ROM image and the clock
  selection are not modelled.
- Shift counts with bit 31 set: `sra` by such a count has no meaning in the source; the model fills
  with the sign.
- Frames.ReceiveFrame: a length above the buffer, which the source does not check, would write past
  the array; the model has no memory beyond it.
- Icmp.HandleEcho: an echo request that claims more octets than a frame holds, for the same reason.
- Icmp.BuildEcho: the same.
- Stack.HandlePacket: the same limit for echo requests; no other packet is limited.
- HostTlb.HostMemory.Resolve: addresses without a translation, for which the source returns an
  uninitialised variable.
- HostTlb.HostMemory.WriteWord: addresses outside the memory, where the source's effect is undefined.
- HostTlb.HostMemory.ReadWord: the same.
- ARP: it only moves octets. The header checksum of a reply is left to the network chip
  (kernel/userprog-webserver/ethernet.c:56-58), and its identification is not written.
- TCP liveness under loss: the server never sends a segment again on its own.
- Set-up of the network chip and its status words.
- Intel HEX: `extract_data` and the files themselves.
- Assembler.LineParser.ParseLine: takes a line already stripped of its comment and split into
  mnemonic and operands; the splitting, a register written without `$`, and the file of bytes
  printed at the end are not modelled.
- Host memory: reading and writing single bytes, and deletion of entries.
- Boot transfer: time-outs of the line, and corruption of the start code, the address or two words
  of one block at once; two equal changes cancel in the checksum.
- Execution of the loader's and the kernel's own code on the processor model.
