# Verified model of the ARM64 guest core

This project models the part of an AArch64 user-mode emulator that decides what a guest program computes, and
proves properties of that model with Dafny 4.11. `dafny verify dfyconfig.toml` checks all of it.

The emulator has two engines over one processor context and one guest memory. The *interpreter* executes one
instruction a step. The *block engine* translates up to a hundred instructions at a time into straight-line code
that loads, computes on and stores the raw bytes of the context; it caches the blocks, chains them, and falls
back to the interpreter. A memory manager keeps a list of mapped segments with a growing heap, and an ELF loader
prepares the first state.

How the model is laid out:

| modules | subject |
|---|---|
| Words, BitFacts, Memory, Heap, Footprint | 64-bit words and bit operations; single bits; the segment list as a flat partial byte map; the program break |
| Machine, Alu, Interp | registers, flags, operands, instructions; what each integer instruction does; the step and run semantics |
| Cpu, Interpreter | the context and the interpreter as they run, updating fields in place, proved against Interp |
| ContextLayout, Ir, Translator, GeneratedCode | the raw bytes of the context, the emitted code, the translation, and what emitted code does to the bytes |
| Fragment, FragmentExact | the instruction forms on which both engines agree, and the proof that it is exactly those |
| Blocks, Engine, Jit | block building, cache, chaining and the run loops as functions with the refinement proofs, and as methods |
| Witness | a concrete program that meets every condition of the refinement |
| Bits, Meanings, PairTransfers | what each instruction leaves: bit by bit, as a value, and in memory, down to the single step |
| Comparison, ConditionalOps, Bitfields, WideArithmetic, Frames, Idioms | what the interpreter's instructions mean in combination |
| Segments, Trampolines, Relr, StackImage, Loader | the loader: image placement, symbol binding, packed relocations, the initial stack, and all of it in order |

The main theorem is `Engine.EngineRefinesInterpreter`, restated for the running loop as `Jit.RunWithJit`. Its
conditions speak of the program alone: whenever its plain run comes back to an address it finds there the word it
found before, and every executed word that the block compiler handles is in the agreeing fragment. Code may be mapped
or written after the start, and changed where it does not run again. Nothing is assumed about blocks or where they
end; of a cache that is not empty at the start, only that its blocks were compiled from words that the run finds.
`Engine.EngineRefinesFromCold` states the same for an empty cache, on the run alone.

The instruction decoder, the system calls, host floating point and the opcodes outside the integer core are
parameters (`Interp.Env`): arbitrary fixed functions shared by both engines. The host's mapping call is a
parameter that refuses, or grants zeroed bytes.

What the proofs found:

* The compiler's ORR copies its second operand and drops the third; it reads shifted, extended and
  constant-shifted operands without the shift; its 32-bit ASR, its 32-bit shifts by 32 or more and its 32-bit shifts
  by a register differ from the interpreter's; WSP is a name of the stack pointer for the compiler and of nothing for
  the interpreter; MRS and MSR act on the thread register whatever register is named; FMOV copies eight bytes
  whatever part is named; a vector SUB writes nothing; and an instruction whose operands the compiler does not
  know, such as FMOV of an immediate, is skipped. `FragmentExact.FragmentIsExact` proves that over all forms that the
  instruction set has, and that the interpreter's own integer arms run, the two engines agree on every register file
  if and only if the instruction is in the fragment; `FragmentExact.Disagreement` gives a register file that shows the
  difference. The fragment depends on the destination's width: a sign extension from 32 bits is harmless in a 32-bit
  addition.
* The interpreter looks for the cache-zeroing instruction before it decodes; the compiler never looks for it. The
  model assumes of the decoder that it gives no such word an opcode of the compiler's list (`IsZeroLine`).
* UBFX and SBFX take their width modulo 64, so a 64-bit field of a 64-bit register extracts as zero, where UBFM and
  SBFM give the register. `Bitfields.ExtractAgrees` states when they agree, in both directions.
* BLR writes the link register before it reads its operand, and RET ignores its operand.
  `Idioms.CallThroughRegister` proves that BLR calls through every register but X30, and
  `Idioms.ReturnThroughRegister` that RET returns through X30 alone.
* SBFM that moves a low field upward leaves zeros above it, where the architecture copies the field's sign there.
  `Bits.SignedInsert` proves that the two agree exactly when the field's top bit is clear or the field reaches the top of
  the register; `Bits.SignedInsertDiffers` gives values.
* The first of the interpreter's two patterns for skipped system words is contained in the second
  (`Meanings.SystemWords`).
* SDIV of the smallest value by -1 stops the host program; the model gives it an error of its own.
* A failing write has stored its longest mapped prefix, and a pair store may land its first half only.

Where the code writes `a + b` on 64-bit values outside a wrapping call, and where it negates, the model wraps, as an
optimised build does.

## Model

| member | source | states |
|---|---|---|
| Memory.ReadSpec | src/memory/mod.rs:193-235 | A read succeeds exactly when every byte of its range is mapped, and then returns those bytes |
| Memory.MappedPrefix | src/memory/mod.rs:157-191 | The longest mapped prefix of a range: every byte of it is mapped, and the next one is not |
| Memory.WriteExact | src/memory/mod.rs:157-191 | A write succeeds exactly when its whole range is mapped, stores exactly the longest mapped prefix, and changes no other byte |
| Memory.ReadAfterWrite | src/memory/mod.rs:157-235 | What was written is read back, and reads of other ranges are unaffected |
| Memory.Read64AfterWrite | src/memory/mod.rs:157-235 | A stored little-endian word is read back |
| Words.LeDigits | src/interp/mod.rs:1051-1060 | Byte i of a stored word is its digit i to base 256, least significant first |
| Memory.ReadCongruence | src/memory/mod.rs:193-235 | A read depends on the bytes of its range alone, not on how segments divide them |
| Memory.ReadStringExact | src/memory/mod.rs:250-262 | A string read returns a NUL-free string exactly when that string and a NUL lie at the address |
| Memory.MemoryManager.constructor | src/memory/mod.rs:42-51 | A new manager has nothing mapped, no heap, and the fixed start for anonymous mappings |
| Memory.MemoryManager.Write | src/memory/mod.rs:157-191 | The chunk loop over segments stores the longest mapped prefix of the flat map, says whether that was everything, and ends |
| Memory.MemoryManager.Read | src/memory/mod.rs:193-235 | Fast path and chunk loop both answer as the flat map does, and the loop ends |
| Memory.MemoryManager.ReadString | src/memory/mod.rs:250-262 | Byte by byte, the string up to the first NUL, or failure at the first unmapped byte |
| Memory.MemoryManager.MapAnonymous | src/memory/mod.rs:89-115 | Appends a zeroed segment at the target, or at the host's address for target 0; size 0 or a refusal changes nothing |
| Memory.MemoryManager.SetBrkBase | src/memory/mod.rs:52-57 | Base, break and mapped end all become the page-aligned base |
| Memory.MemoryManager.SetBrk | src/memory/mod.rs:59-82 | Answers queries, moves the break inside mapped memory, grows by whole pages, and changes nothing on a refusal |
| Memory.MemoryManager.Munmap | src/memory/mod.rs:138-155 | Drops the first segment that starts at the page, and only it, also when the host's own unmapping then fails |
| Heap.AppendSegment | src/memory/mod.rs:107-114 | A new segment apart from the others adds its bytes and leaves every mapped byte alone |
| Heap.MapExact | src/memory/mod.rs:89-115 | A mapping adds exactly a range of zero bytes at the requested address, or at the host's for 0; refused or empty it changes nothing |
| Heap.GrowKeeps | src/memory/mod.rs:59-82 | Growing the heap keeps every mapped byte and adds zeros |
| Heap.RemoveSegment | src/memory/mod.rs:138-155 | Removing a segment unmaps exactly its bytes |
| Heap.StepKeeps | src/memory/mod.rs:59-82 | Every break request and every store keeps the heap tiled, page-aligned and within its bounds, and keeps unstored bytes |
| Heap.HeapSurvives | src/memory/mod.rs:52-82 | Over any sequence of break requests and stores: the bounds hold, the base is fixed, no byte is lost by growing or by shrinking and regrowing, and every access below the break succeeds |
| Heap.BrkAnswer | src/memory/mod.rs:59-82 | When a break request is refused, what it answers, and that a refusal changes nothing |
| Heap.BaseStartsHeap | src/memory/mod.rs:52-57 | Setting the base above what is loaded starts a well-formed empty heap, less than a page above it |
| Cpu.MasksSelect | src/cpu/mod.rs:51-65 | The flag masks select bits 31 to 28 |
| Cpu.MasksSet | src/cpu/mod.rs:67-74 | Masking and or-ing the flags in sets exactly the four flags |
| Cpu.CpuContext.constructor | src/cpu/mod.rs:33-35 | A new context is all zero |
| Cpu.CpuContext.SetX | src/cpu/mod.rs:37-41 | Writes a register below 31 and ignores the rest |
| Cpu.CpuContext.GetX | src/cpu/mod.rs:43-49 | Reads a register below 31, and 0 otherwise |
| Cpu.CpuContext.GetN | src/cpu/mod.rs:51-53 | The N flag of the process state |
| Cpu.CpuContext.GetZ | src/cpu/mod.rs:55-57 | The Z flag |
| Cpu.CpuContext.GetC | src/cpu/mod.rs:59-61 | The C flag |
| Cpu.CpuContext.GetV | src/cpu/mod.rs:63-65 | The V flag |
| Cpu.CpuContext.SetNzcv | src/cpu/mod.rs:67-74 | Getters then read the given flags, and the other bits of the process state are kept |
| Cpu.CpuContext.SetV64 | src/cpu/mod.rs:83-88 | Sets the low half of a vector register and clears the high half |
| Cpu.CpuContext.SetReg | src/interp/mod.rs:189-204 | Writes a register by name: W writes zero-extend, a part of a vector clears the rest, zero registers ignore the write, nothing else changes |
| Interpreter.EvalMemAddr | src/interp/mod.rs:310-354 | The address of each operand form, with pre- and post-index write-back |
| Interpreter.WriteBack | src/interp/mod.rs:403-499 | A data arm changes its destination, flags and thread register as computed and nothing else |
| Interpreter.Branch | src/interp/mod.rs:828-924 | The next pc and the link register of each branch |
| Interpreter.StorePair | src/interp/mod.rs:1041-1064 | Two stores after the write-back; a failing second store leaves the first |
| Interpreter.LoadPair | src/interp/mod.rs:1065-1096 | Two loads after the write-back; registers change only if both succeed |
| Interpreter.Step | src/interp/mod.rs:364-2808 | One step in place is the step function: same context, memory and outcome, on every state, errors included |
| Interpreter.RunMaxSteps | src/interp/mod.rs:2876-2886 | The bounded run, with its report of limit, exit or error |
| Interpreter.RunToEnd | src/interp/mod.rs:2871-2874 | The unbounded run of a program that ends, ends in that program's final state |
| Interp.RunSplit | src/interp/mod.rs:2871-2886 | Running j steps and then k more is running j + k |
| Interp.EndedStays | src/interp/mod.rs:2871-2886 | Once a run has ended, more fuel changes nothing |
| ContextLayout.LoadWord | src/cpu/mod.rs:2-25 | Loading an aligned word of the raw context reads the field laid out there |
| ContextLayout.StoreWord | src/cpu/mod.rs:2-25 | Storing an aligned word sets exactly that field: distinct fields never alias |
| ContextLayout.ParseLayout | src/cpu/mod.rs:2-25 | The raw bytes determine every register: no field is lost or shared |
| ContextLayout.FieldOffsets | src/cpu/mod.rs:2-25 | The byte offset of every field: Xi at 8i, SP at 248, pc at 256, process state at 264, vector i at 272 + 16i, thread register at 784 |
| GeneratedCode.LoadRegSim | src/jit/mod.rs:156-183 | The emitted load of any register name: Xi from 8i, SP from 248, W and WSP masked, zero registers and vector names 0 |
| GeneratedCode.StoreRegSim | src/jit/mod.rs:185-197 | The emitted store to any register name is one register write, masked for W and WSP, none for zero registers and vector names, and touches nothing else |
| GeneratedCode.LoadVecSim | src/jit/mod.rs:98-108 | The emitted vector load reads the low eight bytes at 272 + 16i |
| GeneratedCode.StoreVecSim | src/jit/mod.rs:110-116 | The emitted vector store sets the low eight bytes and clears the high eight |
| GeneratedCode.DataCode | src/jit/mod.rs:270-565 | For every data instruction of the list, whatever its operands, the emitted code is one register-file update and touches nothing else; an instruction without the operands it needs emits nothing |
| GeneratedCode.FloatCode | src/jit/mod.rs:495-530 | FADD, FSUB, FMUL and FDIV apply the host operation to the low halves of the first and second source, in that order, and clear the destination's high half |
| Fragment.NeutralShiftValue | src/interp/mod.rs:206-236 | The shifts of a register operand that leave the low bits of every value as they are, at either width |
| Fragment.BinaryAgrees | src/jit/mod.rs:292-409 | ADD, SUB, AND and EOR of the fragment leave the same registers in both engines |
| Fragment.ShiftAgreement | src/jit/mod.rs:410-460 | So do the wide shifts by equal amounts, and the narrow ones by a constant below 32 (0 for ASR) |
| Fragment.MoveAgrees | src/jit/mod.rs:274-291 | So do MOV, and ORR whose third operand adds no bit |
| Fragment.FloatMoveAgreement | src/jit/mod.rs:531-549 | So do the eight-byte FMOV moves |
| Fragment.DataAgrees | src/jit/mod.rs:270-565 | Every data instruction of the fragment leaves the same registers in both engines |
| Fragment.InstructionSim | src/jit/mod.rs:270-565 | Emitted code of a fragment instruction takes the raw bytes to the interpreter's registers, and a branch returns the interpreter's next pc |
| FragmentExact.FragmentIsExact | src/jit/mod.rs:270-565 | On every form of the instruction set that the interpreter's integer arms run, the two engines agree on every register file if and only if the instruction is in the fragment |
| FragmentExact.Disagreement | src/jit/mod.rs:270-565 | For each such form outside the fragment, a register file on which the engines differ |
| FragmentExact.SkippedIsExact | src/jit/mod.rs:531-564 | What the compiler skips for want of a register operand agrees exactly when the interpreter's arm writes nothing |
| FragmentExact.DroppedOperand | src/jit/mod.rs:274-291 | ORR of two registers differs on some register file |
| FragmentExact.DroppedShift | src/jit/mod.rs:376-392 | AND with a shifted register differs |
| FragmentExact.DroppedNarrowShift | src/jit/mod.rs:292-313 | A 32-bit ADD with a shifted register differs |
| FragmentExact.NarrowRegisterShift | src/jit/mod.rs:410-426 | A 32-bit LSL by a register differs |
| FragmentExact.NarrowStackPointer | src/jit/mod.rs:156-197 | ADD to WSP differs |
| FragmentExact.SkippedImmediate | src/jit/mod.rs:531-549 | FMOV of an immediate differs |
| FragmentExact.HarmlessExtension | src/interp/mod.rs:206-236 | A 32-bit ADD of a register sign-extended from 32 bits agrees |
| FragmentExact.SourceShows | src/interp/mod.rs:206-280 | For each operand that does not agree at a width, a register file on which the compiler reads other low bits |
| FragmentExact.CodeAgreesIff | src/jit/mod.rs:270-565 | The difference in registers is a difference in the raw bytes that a block leaves |
| Blocks.BuildAdvances | src/jit/mod.rs:247-588 | The loop moves four bytes an instruction, at most a hundred times |
| Blocks.KindOf | src/jit/mod.rs:270-576 | Which instructions the compiler refuses, which it passes over, and which leave the block |
| Blocks.CompileExtent | src/jit/mod.rs:247-620 | A block covers the instructions up to the first that leaves it, is refused or cannot be read, at most a hundred; when a block comes of them, and what is reported otherwise |
| Blocks.StepInFragment | src/interp/mod.rs:364-402 | A fragment instruction steps without failing and touches only registers and pc |
| Blocks.FlagsKept | src/interp/mod.rs:403-924 | No fragment instruction changes the process state |
| Blocks.BuildSim | src/jit/mod.rs:251-597 | The invariant of the translation loop: the code so far equals the interpreter steps so far |
| Blocks.BlockPreservesMeaning | src/jit/mod.rs:228-620 | Running a block gives exactly the state of k interpreter steps, 1 <= k <= 100, and returns their pc; memory and flags are untouched; the block spans 4 to 400 bytes |
| Engine.LookupServes | src/jit/mod.rs:228-231 | A cached address is served its own block whatever memory holds; a compiled block is served to every later lookup; a failure changes nothing; no lookup touches another entry |
| Engine.ExecuteExact | src/jit/mod.rs:622-634 | With a block, one execute is the plain run's state after j steps, 1 <= j <= 100, whose registers the block leaves and whose pc it returns; if that pc is the block's own start, the block's effects stand and the execute ends as the plain run does after j + 1 |
| Engine.ExecuteRefines | src/jit/mod.rs:622-638 | One execute is one or more steps of the plain run, or ends as it ends; where nothing compiles it is exactly one |
| Engine.ChainRefines | src/jit/mod.rs:640-655 | A chain of executes is at least as many plain steps, or ends as the plain run ends |
| Engine.ChainSplit | src/jit/mod.rs:640-655 | A chain of a + b executes is a chain of a and then, if that can go on, a chain of b |
| Engine.RunJitRefines | src/interp/mod.rs:2858-2869 | The run loop makes at least a thousand plain steps a round and ends as the plain run ends |
| Engine.EngineRefinesInterpreter | src/interp/mod.rs:2858-2874 | If the plain run ends, the engine's run ends with the same context, memory and result, within one round for every thousand steps; and conversely; for every program that finds the same word whenever it executes at an address |
| Engine.TextOfRun | src/jit/mod.rs:228-231 | Such a program has a text: the words it executes |
| Engine.EngineRefinesFromCold | src/interp/mod.rs:2858-2874 | The same from an empty cache, conditions stated on the run alone |
| Engine.EntryHolds | src/jit/mod.rs:228-231 | Where the run reaches a cached block, memory holds the words the block was compiled from |
| Engine.BuildCovered | src/jit/mod.rs:255-588 | Translation reads only words that the plain run is about to execute, and finds what the run finds |
| Engine.CacheStaysSound | src/jit/mod.rs:229-231 | Over any history of lookups and memory changes, entries stay what was compiled, are never replaced, and appear only where compilation succeeded |
| Engine.CachedBlockSummarises | src/jit/mod.rs:612-619 | An entry starts at its key and summarises one to a hundred steps from any state that still holds its bytes |
| Witness.ConditionsMet | src/interp/mod.rs:2858-2874 | The conditions of the refinement are met by a concrete program that maps its code as it runs, has it compiled, and ends as the interpreter does |
| Jit.JitEngine.constructor | src/jit/mod.rs:200-212 | A new engine has an empty, sound cache |
| Jit.JitEngine.GetBlock | src/jit/mod.rs:218-226 | A lookup returns the entry and counts a hit or a miss |
| Jit.TranslateBlock | src/jit/mod.rs:247-597 | The translation loop, with its early return, computes the block |
| Jit.JitEngine.CompileAndGet | src/jit/mod.rs:228-620 | A repeated lookup returns the same block, a failed one leaves no entry, and soundness is kept |
| Jit.JitEngine.Execute | src/jit/mod.rs:622-638 | Execute in place equals its specification and keeps the cache sound |
| Jit.JitEngine.ExecuteBlockChain | src/jit/mod.rs:640-655 | The chain loop in place equals its specification and keeps the cache sound |
| Jit.StepWithJit | src/interp/mod.rs:2850-2856 | Stepping the engine is a chain of one |
| Jit.RunWithJit | src/interp/mod.rs:2858-2869 | For a program whose plain run ends, the loop ends, with the plain run's context, memory and error |
| BitFacts.WordBits | src/interp/mod.rs:1275-1363 | Every bit of the 64-bit and, or, exclusive or and complement, for all operands |
| Bits.LogicBits | src/interp/mod.rs:1275-1346 | After EOR, ORR, AND or ANDS of any operands, at both widths, each destination bit is the exclusive or, or, or and of the sources' bits; nothing else changes |
| Bits.TestFlags | src/interp/mod.rs:1321-1363 | ANDS and TST set N to the top common bit, Z when there is no common bit, and clear C and V; TST writes no result |
| Bits.ShiftBits | src/interp/mod.rs:206-236 | Where each shift and each extension of a register operand moves every bit, at both widths |
| Bits.ImmShiftBits | src/interp/mod.rs:256-268 | The same for shifted immediates, always in 64 bits |
| Bits.ImmReadings | src/interp/mod.rs:48-60 | The signed and unsigned readings of an immediate agree modulo 2^64, and each form is read as written |
| Bits.OperandBits | src/interp/mod.rs:270-280 | The value of every operand form, bit by bit; the forms without one count as zero |
| Bits.ExtendBits | src/interp/mod.rs:2369-2398 | Sign extension repeats the field's top bit upward |
| Bits.ShiftInstructionBits | src/interp/mod.rs:2572-2663 | LSL, LSR, ASR and ROR move every bit as the shifted operand of their kind, by the amount modulo the width |
| Bits.ExtractPairBits | src/interp/mod.rs:2664-2682 | EXTR of any two sources takes a width of bits from the first above the second |
| Bits.BitfieldMoveBits | src/interp/mod.rs:2475-2541 | Every bit of UBFM and SBFM, in both directions, with positions modulo the width |
| Bits.SignedInsert | src/interp/mod.rs:2506-2541 | SBFM with imms < immr is the architecture's sign-extended move exactly when the field's top bit is clear or the field reaches the register's top |
| Bits.SignedInsertDiffers | src/interp/mod.rs:2506-2541 | A value on which it is not |
| Meanings.WriteThenRead | src/interp/mod.rs:167-204 | What every register name reads after a write through any name: same storage, cut to both sizes; other storage untouched; names without storage read 0 |
| Meanings.VectorWriteClears | src/interp/mod.rs:189-204 | A write to a part of a vector register clears the rest |
| Meanings.FetchedWord | src/interp/mod.rs:364-371 | The fetched word is its four bytes, least significant first, and is there exactly when they are mapped |
| Meanings.SystemWords | src/interp/mod.rs:375-391 | The words taken for cache zeroing and the undecodable words skipped, as ranges of numbers |
| Meanings.StepStops | src/interp/mod.rs:364-398 | When a step exits, faults on unmapped code, skips an undecodable word, or faults on it |
| Meanings.DataStep | src/interp/mod.rs:403-2808 | Every data instruction of the integer core continues at the next word and touches registers alone |
| Meanings.SumLeft | src/interp/mod.rs:403-591 | ADD, SUB and MOV of any operands leave the sum, difference or value modulo the destination's width, and nothing else changes |
| Meanings.ProductLeft | src/interp/mod.rs:674-731 | MUL, MADD and MSUB leave the product, and the addend plus or minus it, modulo the width, for any addend |
| Meanings.DivideStops | src/interp/mod.rs:656-673 | SDIV fails exactly for the least value over -1 at its width, and gives 0 for divisor 0 |
| Meanings.SelectLeft | src/interp/mod.rs:1133-1155 | CSEL, CSINC, CSINV and CSNEG leave the first source, or the second as it is, plus one, complemented or negated |
| Meanings.SetLeft | src/interp/mod.rs:1178-1193 | CSET and CSETM leave one or all ones at the width, or zero |
| Meanings.ConditionalCompare | src/interp/mod.rs:1194-1246 | CCMP and CCMN: every comparison, or the sum's four flags, when the condition holds; otherwise the flags are bits 3 to 0 of any immediate; nothing else changes |
| Meanings.SystemRegisters | src/interp/mod.rs:1247-1274 | What MRS reads from each system register, and that MSR writes the thread register alone |
| Meanings.AddressLeft | src/interp/mod.rs:811-828 | ADR leaves its label, ADRP the start of the label's page |
| Meanings.BranchStep | src/interp/mod.rs:829-924 | Where B, BR, CBZ, CBNZ, BL, BLR and RET go, and the link register they leave |
| Meanings.BareBranchStep | src/interp/mod.rs:829-920 | A branch without its operands goes on at the next word |
| Meanings.ConditionalBranchStep | src/interp/mod.rs:836-861 | A conditional branch goes to its target when its condition holds, and otherwise to the next word |
| Meanings.SystemCall | src/interp/mod.rs:2792-2806 | A system call keeps what its handler leaves, stops on error or exit, and otherwise goes on at the next word whatever pc the handler set |
| Meanings.OutsideCore | src/interp/mod.rs:2798-2806 | An instruction outside the integer core leaves exactly what its own arm leaves |
| Meanings.ZeroLineStep | src/interp/mod.rs:375-383 | Cache zeroing clears the aligned 64 bytes around its address and changes no other byte and no register |
| PairTransfers.ImmediateAddresses | src/interp/mod.rs:310-333 | The address and write-back of the plain, signed-offset, pre-index and post-index forms, for every base register and offset |
| PairTransfers.IndexedAddresses | src/interp/mod.rs:334-352 | Base plus index, shifted or extended, as a number; post-index by a register uses the base and writes base plus index back |
| PairTransfers.StoreStep | src/interp/mod.rs:1041-1064 | STP at a signed offset from any base: both values at base plus offset, at both widths, no other byte and no register changed |
| PairTransfers.LoadStep | src/interp/mod.rs:1065-1096 | LDP there reads both back and changes only its destinations |
| PairTransfers.StoredPairReturns | src/interp/mod.rs:1041-1096 | What STP stores LDP at the same offset returns, however much later, at both widths |
| PairTransfers.StoreFault | src/interp/mod.rs:1041-1064 | A store whose second half is unmapped stores the first and is a memory fault |
| PairTransfers.LoadFault | src/interp/mod.rs:1065-1096 | A load from a range that is not wholly mapped is a memory fault and changes nothing |
| Comparison.OverflowBit | src/interp/mod.rs:501-539 | The xor test of sign bits is a statement about the three signs |
| Comparison.SubFlagsMean | src/interp/mod.rs:501-539 | The four flags of a subtraction in terms of the operands' signed and unsigned values |
| Comparison.SubFlagsCompare | src/interp/mod.rs:501-539 | After a comparison each condition holds exactly when its mathematical comparison does, at both widths |
| Comparison.AddFlagsMean | src/interp/mod.rs:403-499 | C is unsigned and V signed overflow of the sum; N and Z describe its low bits |
| Comparison.CompareAndBranch | src/interp/mod.rs:836-861 | CMP then B.cond reaches the target exactly when the comparison holds |
| Comparison.CompareAndSelect | src/interp/mod.rs:1133-1155 | CMP then CSEL, of either width, picks the first source exactly when the comparison holds |
| Comparison.AddSetsFlags | src/interp/mod.rs:403-499 | ADDS leaves the sum and its overflows; CMN the same flags and no result |
| Comparison.SubSetsFlags | src/interp/mod.rs:501-539 | SUBS leaves the difference and the flags of CMP |
| Comparison.TestAndBranch | src/interp/mod.rs:1321-1363 | TST then B.EQ or B.MI branches on no common bit, or on both sign bits |
| ConditionalOps.CompareChain | src/interp/mod.rs:1194-1246 | CMP and any number of CCMP #0,EQ leave EQ for all equal; with CCMP #4,NE for some equal |
| ConditionalOps.InvertNegates | src/interp/mod.rs:289-308 | Inverting a condition negates its test, and inverting twice is nothing |
| ConditionalOps.IncrementAliases | src/interp/mod.rs:1156-1177 | CINC, CINV and CNEG are CSINC, CSINV and CSNEG under the inverted condition |
| ConditionalOps.SetAliases | src/interp/mod.rs:1178-1193 | CSET and CSETM are CSINC and CSINV of a zero register under the inverted condition |
| Bitfields.MoveSelects | src/interp/mod.rs:2475-2505 | UBFM with imms >= immr is the selected field |
| Bitfields.MoveExtends | src/interp/mod.rs:2506-2541 | SBFM with imms >= immr is the field's true sign extension |
| Bitfields.ExtractAgrees | src/interp/mod.rs:2430-2541 | UBFM equals UBFX and SBFM equals SBFX exactly when the width is below 64 or the source is 0 |
| Bitfields.LsrIsUbfm | src/interp/mod.rs:2616-2631 | LSR is UBFM to the top bit |
| Bitfields.LslIsUbfm | src/interp/mod.rs:2572-2615 | Three-operand LSL is UBFM at the wrapped position |
| Bitfields.AsrIsSbfm | src/interp/mod.rs:2632-2647 | ASR is SBFM to the top bit |
| Bitfields.SxtIsSbfm | src/interp/mod.rs:2369-2398 | SXTB, SXTH and SXTW are SBFM of the low 8, 16 and 32 bits |
| Bitfields.UxtIsUbfm | src/interp/mod.rs:2399-2428 | UXTB, UXTH and UXTW are UBFM of the low 8, 16 and 32 bits |
| Bitfields.ExtrIsRor | src/interp/mod.rs:2648-2682 | EXTR with equal sources is ROR |
| WideArithmetic.UnsignedProduct | src/interp/mod.rs:674-694 | UMULH and MUL are the halves of the exact unsigned product |
| WideArithmetic.SignedProduct | src/interp/mod.rs:674-706 | SMULH and MUL are the halves of the exact signed product |
| WideArithmetic.MulIsMadd | src/interp/mod.rs:674-718 | MUL is MADD with a zero addend, at both widths |
| WideArithmetic.UnsignedRemainder | src/interp/mod.rs:644-731 | UDIV then MSUB is Euclidean division; a zero divisor gives quotient 0 |
| WideArithmetic.SignedRemainder | src/interp/mod.rs:656-731 | SDIV then MSUB truncates toward zero and leaves a remainder of the dividend's sign below the divisor's magnitude |
| Frames.PushStores | src/interp/mod.rs:1041-1064 | A pre-indexed push stores both registers at the lowered stack pointer and nothing elsewhere |
| Frames.PopLoads | src/interp/mod.rs:1065-1096 | A post-indexed pop loads both registers and raises the stack pointer |
| Frames.NestedFramesRestore | src/interp/mod.rs:1041-1096 | Any nesting of frames restores the stack pointer and every register it saves, and writes only below the starting stack pointer, down to its depth |
| Frames.FrameRestores | src/interp/mod.rs:310-333 | One frame around any such body does |
| Idioms.CallReturns | src/interp/mod.rs:891-924 | BL reaches its label changing only the link register, and RET comes back after it |
| Idioms.CallThroughRegister | src/interp/mod.rs:891-898 | BLR always reaches its register's address if and only if the register is not X30 |
| Idioms.ReturnThroughRegister | src/interp/mod.rs:921-924 | RET Xn always reaches the address in Xn if and only if n is 30 |
| Idioms.PageAddress | src/interp/mod.rs:811-819 | ADRP and ADD of the low twelve bits form the address |
| Idioms.ThreadPointerRoundTrip | src/interp/mod.rs:1247-1274 | MSR then MRS of the thread register is a copy |
| Idioms.VectorMoveRoundTrip | src/interp/mod.rs:2159-2167 | FMOV to a double-word name and back is the identity, and clears the high half |
| Segments.PageEndIsAligned | src/loader/mod.rs:82-85 | The mapped size covers the segment and ends at the page-aligned end of its range |
| Segments.LoadOneExact | src/loader/mod.rs:87-93 | One segment maps its pages, which then hold file bytes and zeros, and changes nothing else |
| Segments.ImageLoads | src/loader/mod.rs:63-98 | With disjoint page ranges every segment reads back as its file data and zeros, earlier bytes are kept, and every new segment ends at or below the page-aligned end of the image |
| Segments.HighestEnd | src/loader/mod.rs:95-97 | The highest address reported is the largest segment end, and one of them |
| Segments.RefusedLoad | src/loader/mod.rs:87 | A refused mapping stops the load where the segments before it left it |
| Segments.LoadSegments | src/loader/mod.rs:61-98 | The loop computes that memory and the highest address, and stops where a mapping or a store fails |
| Segments.LoadSegment | src/loader/mod.rs:80-93 | One turn of the loop |
| Segments.MapFixed | src/loader/mod.rs:102-105 | The two fixed mappings, whether granted or refused, and the two stores into them |
| Segments.FixedPages | src/loader/mod.rs:102-105 | Granted, they run from 0x7f000000 to 0x7f030000 and hold 1 at 0x7f010300 and at 0x7f010310 and zeros elsewhere; nothing below changes |
| Segments.HeapAboveImage | src/loader/mod.rs:95-104 | Whatever is stored in between, the heap then starts at or above every image segment and below the fixed mappings |
| Segments.ImageSurvives | src/memory/mod.rs:52-82 | No later break request, and no store elsewhere, changes what an image segment reads as |
| Trampolines.BindAllKeeps | src/loader/mod.rs:133-140 | Every binding keeps the table an index of the list, and no address once given changes |
| Trampolines.TableIsBijection | src/loader/mod.rs:109-147 | Each bound name has one place and the address 0x7f000000 + 8 * place; names and addresses correspond one to one; below 0x2000 names none reaches the data symbols |
| Trampolines.StoresUseFinalTable | src/loader/mod.rs:109-168 | Storing while binding is the same as storing from the finished table |
| Trampolines.SlotsHold | src/loader/mod.rs:109-168 | Every mapped slot that no other overlaps ends holding the word its relocation asks for |
| Trampolines.InternalSlots | src/loader/mod.rs:147-165 | At the end of the loop, a mapped slot apart from the others holds address + bias + addend modulo 2^64 for a defined symbol of nonzero address, and bias + addend without a symbol, for one of address 0, and for an undefined one without a name |
| Trampolines.DataSlots | src/loader/mod.rs:116-130 | The eight data symbols end at their eight addresses, and none of them is among the trampolines |
| Trampolines.TrampolineSlots | src/loader/mod.rs:131-145 | Every other outside name ends, in each of its slots, at 0x7f000000 + 8 * its one position in the list |
| Trampolines.BindRelocations | src/loader/mod.rs:107-168 | The loop over relocations makes those stores and that list of thunks |
| Relr.ListedIsPrescribed | src/loader/mod.rs:181-206 | The visited addresses are exactly those that the "Relative Relocation Table" section of the System V gABI prescribes |
| Relr.ForwardIsSpaced | src/loader/mod.rs:181-206 | If no address entry goes back, visited addresses increase by at least 8 |
| Relr.RelocateExact | src/loader/mod.rs:187-205 | Then every mapped visited word gains the bias modulo 2^64 exactly once, and no other byte changes |
| Relr.SectionRelocates | src/loader/mod.rs:181-207 | The same for a whole section, stated over the prescribed addresses |
| Relr.RelocateAt | src/loader/mod.rs:182-187 | One word at any target: read, add the bias, store, if it is mapped |
| Relr.RelocateBitmap | src/loader/mod.rs:194-205 | The bit loop relocates the addresses of the set bits in order |
| Relr.RelocateSection | src/loader/mod.rs:181-207 | The loop over entries relocates all visited addresses in order |
| Relr.RoundTrip | src/loader/mod.rs:181-206 | Decoding a greedy encoding of any strictly increasing list of 8-aligned addresses gives the list back |
| StackImage.PushString | src/loader/mod.rs:222-228 | A pushed string and its NUL are read back at the new stack pointer |
| StackImage.PushStrings | src/loader/mod.rs:221-244 | All strings, each at its pointer directly below the one before, none overwritten by a later one |
| StackImage.PushVector | src/loader/mod.rs:289-314 | Below the data: auxiliary pairs, 0, environment pointers, 0, argument pointers, count |
| StackImage.BuildStack | src/loader/mod.rs:214-314 | For arguments and environment that fit: the exact 16-byte aligned stack pointer, the whole vector and every string in place, and no byte outside the stack and no mapped range changed |
| StackImage.ImageStrings | src/memory/mod.rs:250-262 | In the finished image, reading the string at any pointer of a NUL-free argument gives that argument |
| StackImage.ImageVector | src/loader/mod.rs:263-314 | The words upward from the stack pointer, by position, with the auxiliary pairs in order |
| StackImage.AuxiliaryValues | src/loader/mod.rs:263-282 | Each key of the auxiliary vector with its value: 3 program headers, 4 their size, 5 their number, 6 page size, 9 entry point, 15 platform name, 17 clock rate, 25 random bytes, every other 0; no key twice |
| StackImage.AuxiliaryData | src/loader/mod.rs:246-256 | At the address of key 15 the string "aarch64" is read, and at that of key 25 sixteen bytes 0x42 |
| Loader.LoadProgram | src/loader/mod.rs:61-320 | The stages in order, on a fresh memory: the load fails exactly when the host refuses a mapping of the image or the stack; otherwise below the stack lies the linked image, in the stack its image, and the break starts at the end of the segments |
| Loader.ImageByteReads | src/loader/mod.rs:61-320 | In a loaded program every byte of a segment that no relocation writes is the file's byte, or zero beyond the file's bytes |
| Loader.SlotReads | src/loader/mod.rs:107-320 | A slot apart from the others and from every packed word holds its symbol's final word at the end of the load |
| Loader.PackedReads | src/loader/mod.rs:170-320 | A word that one packed section relocates holds at the end of the load what the image had there plus the bias, whatever other sections come before and after |
| Loader.HeapReady | src/loader/mod.rs:212-218 | The heap of a loaded program is well formed and empty, above every segment and apart from the fixed pages and the stack |
| Loader.PackedWord | src/loader/mod.rs:170-207 | Over any number of packed sections each word gains the bias once |
| Loader.LinkedElsewhere | src/loader/mod.rs:107-207 | The relocations write no byte outside their slots and packed words |

## Left out

* Opcodes outside the integer core (other loads and stores, MOVK and its relatives, BFM and the BFI family, UBFIZ and
  SBFIZ, four-operand LSL, TBZ and TBNZ, floating point, SIMD, exclusives): one parameter stands for all of them. So do
  vector operands of integer opcodes.
* System call bodies, thunks (`step_with_thunk_lookup`), tracing and logging.
* The decoder, which is a parameter; so the model does not say which words decode to which instruction.
* Machine code generation: the emitted code has the meaning of the intermediate instructions, shifts taking their
  amount modulo 64, and generation itself does not fail.
* The direct host-pointer path for addresses at or above 0x500000000000: the stack is an ordinary mapped segment.
* Overlapping segments, segments in page zero, and host ranges that reach 2^64.
* Segment contents are sequences that a write replaces, so writing through a shared host pointer is not modelled; nor are
  page protection and what the host itself unmaps.
* Reading files, parsing ELF and Mach-O structures, and looking up symbol names.
* A run that never ends: the run loops are modelled by their bounded forms and, as methods, for programs that end.
* The counters of cache hits and misses do not wrap.
- Interpreter.RunToEnd: states nothing of a program that runs forever, because a loop without end has no final state.
- Jit.RunWithJit: the same; for such programs Engine.RunJitRefines relates every round to the plain run.
- FragmentExact.FragmentIsExact: says nothing of operand lists that the instruction set does not have, nor of FADD, FSUB,
  FMUL, FDIV and the vector forms of ADD, MOV, AND, EOR and ORR, which the interpreter runs in arms that are a parameter here.
- Relr.RelocateSection: addresses whose sum with the bias reaches 2^64 are excluded.
- StackImage.BuildStack: argument lists that do not fit the stack are excluded; the environment is a parameter, of which the loader uses five fixed strings.
- Loader.LoadProgram: segments that reach the fixed pages, hold more file bytes than memory or overlap in pages, and strings that do not fit the stack, are excluded.
- Loader.PackedReads: sections whose address entries go back are excluded, as in Relr.SectionRelocates.
- Loader.ImageByteReads: the same.
- Loader.SlotReads: the same.
- Segments.LoadSegments: page ranges that overlap each other or existing segments are excluded.
- Segments.LoadSegment: the same.
- Relr.RelocateBitmap: the same exclusion as Relr.RelocateSection.
- Memory.MemoryManager.Write: without the direct host-pointer path for high addresses.
- Memory.MemoryManager.Read: the same.
- Interpreter.StorePair: pairs of vector registers are left to the parameter for other opcodes.
- Interpreter.LoadPair: the same.
- Interpreter.Step: arms outside the integer core are that parameter.
- Jit.JitEngine.CompileAndGet: errors of code generation itself are not modelled; in the source they fall back to a step.
- GeneratedCode.DataCode: ADRP whose second operand is not a label, which the instruction set does not have, is outside it.
