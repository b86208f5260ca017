# A verified model of the zlvm toolchain

zlvm is a toolchain for a small 32-bit machine: a macro expander, a two-pass
assembler with raw and object output, an object and executable image format, a
static linker, a loader and a CPU emulator. This project models that chain in
Dafny and proves what each stage promises and what the stages promise together.

Each stage has a specification on values (functions and datatypes), the
algorithm as the program runs it (methods with loops, classes whose fields are
updated in place, arrays that are patched), a proof that the second computes the
first, and lemmas that say what the specification means.

| file | contents |
|---|---|
| `Wrappers`, `Bits`, `Bytes`, `Diagnostics` | results and folds, bit operators and powers of two, little-endian byte strings, error codes |
| `ImageFormat`, `ImageRoundTrip`, `ImageDescription` | image records, the written and the read form, that they are inverse, and what the bytes of an image mean |
| `ImageEncoder`, `ImageDecoder` | the codec as loops over buffers |
| `Linking`, `LinkProofs`, `LinkOutcomes`, `Linker` | the linker as a function, its properties, when it succeeds and how it fails, and the linker as loops that patch section buffers |
| `Loading`, `LinkAndLoad` | the loader, and that whatever links also loads with every byte accounted for |
| `Alu`, `Instructions`, `Machine`, `MachineProofs`, `InstructionEffects`, `VirtualMachine` | arithmetic unit, instruction format, the machine as a step function on flat memory, its run invariants, what each instruction does in integers and bytes, and the emulator object with its separate ROM and RAM |
| `Tokens`, `Lexer`, `LexerProofs`, `LexerRoundTrip` | tokens, the scanner that cuts a source into them, that nothing but blanks is lost, and that written tokens are read back |
| `Numbers`, `Directives` | numeric literals and data directives |
| `Macros`, `MacroProofs`, `MacroCalls`, `MacroExpander` | macro capture and expansion, and what a call emits |
| `Layout`, `LayoutProofs`, `SourceLayout`, `Statements`, `StatementMeaning` | sections, offsets, `.align`, `.locate`, procedure labels, operands, and what they mean for a source line |
| `RawAssembly`, `ObjectAssembly`, `ObjectProofs`, `AssemblyOutcomes`, `LabelTables`, `Assembler` | labels, raw and object translation, when they succeed, the label list, the assembler object |
| `Toolchain` | assembled, linked, loaded and fetched: the theorems that cross all stages |
| `LabelAddresses`, `SelfJump` | which address a label operand holds when it is executed, and a program for which it is the wrong one |
| `Programs`, `ProgramOutcomes` | whole programs: where a linked and a direct one start, that linked and direct execution of one source agree, and when sources link |

Conventions: C strings are sequences of non-zero bytes; `size_t` has 64 bits; a
`char` is signed, as on x86-64, which matters only for a character operand above
127; allocation never fails; ROM and RAM together are smaller than the host's 2^64 bytes.
Failures that leave a C function through an error code or a long jump are result
values, except in `LoadImage` and `LoadDump`, which report them as the program does.
In specifications a run of the linker, of the macro expander or of the machine is
a value (`LinkRun`, `Run`, `Steps`), so that properties range over every run.

Where the documentation and the code disagree, the code was followed. The
instruction set (docs/ISA.md:130-131) calls a label operand an absolute address. In
object mode that fails for a label of the statement's own section: the operand is
the section offset and no relocation is made. `SelfJump.OwnLabelMissed` is such a
program, `start: jmp #start`, placed at 8 and jumping to 0.
`LabelAddresses.LabelIsAbsolute` says exactly when the documented meaning holds: the
label is in another section, or the linker's inputs put the section at address 0
(`LabelAddresses.AtZero`, a condition on the decoded objects alone). A label of
another section or of another object is always reached.
Expanding an expansion again can fail, because arguments and skipped definitions
can leave an `.endmacro` in the output (`MacroProofs.ExpansionCanFailAgain` is
such a program, `MacroProofs.ExpansionIsFixpoint` says exactly when it happens).

## Model

| member | source | states |
|---|---|---|
| Bits.ClearLowBitPowerOfTwo | emulator/src/Image.c:91-93 | an alignment the check `a & (a - 1) == 0` accepts is a power of two |
| Bits.PowerOfTwoClearsLowBit | emulator/src/Image.c:91-93 | every power of two passes that check |
| Bits.MaskRoundsDown | emulator/src/Linker.c:25-35 | masking with the complement of a power of two minus one rounds down to a multiple |
| Bytes.ReadBack | emulator/src/Image.c:38-59 | a value written little-endian in n bytes reads back modulo 2^(8n) |
| Bytes.Put | emulator/src/Image.c:38-47 | the shift-and-store loop writes exactly the value's little-endian bytes and keeps all others |
| Bytes.Get | emulator/src/Image.c:49-59 | the shift-and-or loop reads the number those bytes stand for |
| ImageEncoder.AppendString | emulator/src/Image.c:78-89 | succeeds exactly when the string and its terminator fit; returns the old cursor as offset and changes nothing on failure |
| ImageEncoder.StringSize | emulator/src/Image.c:149-168 | the running, overflow-checked sum is the size of the string table, or overflow is reported exactly when that size is not representable |
| ImageEncoder.Check | emulator/src/Image.c:126-253 | reports the first check the image fails, and otherwise the offsets of all regions |
| ImageEncoder.EncodeImage | emulator/src/Image.c:126-330 | the buffer filled through two cursors is the image's written form, or the error is the first failing check |
| ImageDecoder.ReadSectionTable | emulator/src/Image.c:418-454 | the record loop returns all section records or fails exactly when one is unreadable |
| ImageDecoder.DecodeImage | emulator/src/Image.c:332-530 | on any bytes, reading only inside them, the image read or the error of the first failing check |
| ImageRoundTrip.DecodeEncode | emulator/src/Image.c:126-530 | every accepted image decodes to itself up to null names, bss data and an executable's entry symbol |
| ImageRoundTrip.EncodeNormal | emulator/src/Image.c:126-330 | encoding that normal form gives the same bytes again |
| ImageRoundTrip.DecodedIsStructural | emulator/src/Image.c:332-530 | whatever bytes are accepted, the image passes every structural check of the encoder and is already normal |
| ImageRoundTrip.EncodeDecode | emulator/src/Image.c:332-530 | re-encoding a decoded image fails exactly when it has become too large, and otherwise decodes to the same image |
| ImageDescription.DecodesDescribed | emulator/src/Image.c:332-530 | an input is accepted with an image exactly when its bytes describe that image: header, table places, every record field, strings, section bytes and the record checks, each told in bytes |
| ImageDescription.DecodeErrors | emulator/src/Image.c:332-400 | which inputs get which error: magic, version, tables that do not fit, and everything else malformed |
| ImageDescription.EncodesSound | emulator/src/Image.c:126-253 | an image is accepted exactly when its records, its entry and its total size satisfy the stated bounds |
| LinkProofs.AlignLeast | emulator/src/Linker.c:25-35 | the aligned address is the least multiple of the alignment at or above the value |
| LinkProofs.PlaceHolds | emulator/src/Linker.c:108-134 | located sections keep their address, automatic ones get the least aligned address behind the previous end, all end by 4096 and none overlap |
| LinkOutcomes.PlacementOutcome | emulator/src/Linker.c:108-134 | placement succeeds exactly when there are addresses that satisfy the rules for all sections; otherwise the first section without one decides between overlap and overflow |
| LinkProofs.FindSectionIs | emulator/src/Linker.c:49-58 | the linear search by object and index finds exactly that object's section |
| LinkProofs.MergedAt | emulator/src/Linker.c:145-174 | the merged table holds every symbol in order, moved to its section's final address modulo 2^32 |
| LinkProofs.ExportIsUnique | emulator/src/Linker.c:160-211 | after the duplicate check a global name has one definition, and the search returns its address |
| LinkOutcomes.MergeOutcome | emulator/src/Linker.c:160-171 | merging succeeds exactly when no two different symbols are global, defined and of one name, and reports nothing but a duplicate |
| LinkProofs.StepPatches | emulator/src/Linker.c:175-235 | one relocation writes S + A, or S + A - P in range, as four bytes at its place and nothing else |
| LinkProofs.RelocationHolds | emulator/src/Linker.c:175-235 | after all relocations, every word no later relocation overlaps holds its S + A or S + A - P |
| LinkProofs.UncoveredKept | emulator/src/Linker.c:175-235 | a section byte no relocation covers never changes |
| LinkOutcomes.RelocateOutcome | emulator/src/Linker.c:176-230 | relocation succeeds exactly when every reference is defined somewhere and every word is in range; otherwise the first failing record decides the error |
| Linker.SelectEntry | emulator/src/Linker.c:87-98 | the requested entry, else the first object's that names one, else `start` |
| LinkOutcomes.EntryChosen | emulator/src/Linker.c:84-95 | the entry is the requested name, else the first one an object names, else start |
| LinkOutcomes.EntryOutcome | emulator/src/Linker.c:231-240 | the entry address is that of the first definition of the name, or 0 without one |
| LinkOutcomes.FinishOutcome | emulator/src/Linker.c:240-276 | the last refusals: no entry, a file of more than 2^32 - 1 bytes, an entry outside every text section |
| LinkOutcomes.LinkOutcome | emulator/src/Linker.c:60-292 | the outcome of a whole link by conditions on the decoded objects, one for each refusal, in the order of the checks |
| LinkOutcomes.TooManySections | emulator/src/Linker.c:98-101 | more than 2^32 - 1 sections never link |
| LinkOutcomes.NotAnObject | emulator/src/Linker.c:75-83 | one input that is no object file makes the link incompatible, whatever the others are |
| Linker.PlaceSections | emulator/src/Linker.c:99-134 | the nested loops with a moving cursor compute the placement |
| Linker.MergeSymbols | emulator/src/Linker.c:136-174 | the nested loops compute the merged table or its first error |
| Linker.ApplyRelocations | emulator/src/Linker.c:175-235 | patching the section buffers in place leaves the relocated contents |
| Linker.LinkObjects | emulator/src/Linker.c:60-282 | the whole linker returns what the specification links, or its first error |
| Loading.OutsideKept | emulator/src/VirtualMachineInternal.c:103-113 | a ROM byte outside all sections survives a load |
| Loading.SectionsLoaded | emulator/src/VirtualMachineInternal.c:103-113 | sections that do not overlap are all found at their addresses |
| Loading.LastSectionWins | emulator/src/VirtualMachineInternal.c:101-111 | where sections of an image overlap, the bytes of the last one are loaded |
| Loading.LoadAccepts | emulator/src/VirtualMachineInternal.c:78-100 | an image is loaded exactly when it decodes to an executable whose sections end inside ROM, and which error it gets otherwise |
| LinkAndLoad.LinkedProgramLoads | emulator/src/VirtualMachineInternal.c:71-119 | whatever links also loads; ROM holds each section's relocated bytes at its address, everything else is unchanged, and execution starts in a text section |
| LinkAndLoad.RelocatedWordInRom | emulator/src/Linker.c:213-233 | the relocated value is found as a word in the loaded ROM |
| LinkAndLoad.PlainByteInRom | emulator/src/Linker.c:255-263 | an unrelocated byte is loaded as its object supplied it |
| LinkAndLoad.BssUntouched | emulator/src/VirtualMachineInternal.c:105-106 | a bss section of a linked program consists of zeros |
| LinkAndLoad.EntryIsSymbol | emulator/src/Linker.c:236-248 | the entry is the final address of the first defined symbol with the selected name |
| Alu.TruncatedDivision | emulator/src/ALU.c:6-78 | signed division truncates toward zero: q * d + r = n, the remainder is smaller than the divisor and has the dividend's sign |
| Alu.DivisionOverflow | emulator/src/ALU.c:80-108 | the quotient leaves 32 bits exactly for the most negative word by -1 |
| Alu.LogicalBits | emulator/src/ALU.c:32-51 | each bit of a logical result is that operation on the operands' bits |
| Alu.Unit.Compute | emulator/src/ALU.c:6-78 | the result is the exact integer modulo 2^32 and the flags are those of the exact integer |
| Alu.Unit.SetSignedFlags | emulator/src/ALU.c:80-108 | V is set exactly when the exact result does not fit a signed word |
| Alu.Unit.SetUnsignedFlags | emulator/src/ALU.c:110-133 | C is carry-out for sums and products and no-borrow for differences |
| Instructions.DecodedEncoded | emulator/src/Instruction.c:12-45 | decoding an encoded instruction gives it back |
| Instructions.EncodedDecoded | emulator/src/Instruction.c:12-45 | encoding any decoded eight bytes gives those bytes |
| Instructions.Encode | emulator/src/Instruction.c:12-27 | refuses exactly short buffers and fields without encoding, and then writes nothing |
| Instructions.Decode | emulator/src/Instruction.c:29-45 | any eight bytes decode, and only fewer are refused |
| MachineProofs.ReadAfterWrite | emulator/src/VirtualMachineInternal.c:545-565 | a write of any width followed by a read returns the value modulo the width and keeps all other bytes, across the ROM/RAM boundary too |
| MachineProofs.MemoryInstructionFails | emulator/src/VirtualMachineInternal.c:361-397 | a load or store of any width fails exactly when some byte of it lies outside memory, and then changes nothing but the status, not even the bytes inside |
| MachineProofs.PushUndoesPop | emulator/src/VirtualMachineInternal.c:567-611 | pushing back what was popped restores the machine |
| MachineProofs.PopUndoesPush | emulator/src/VirtualMachineInternal.c:567-611 | popping returns the pushed word and restores the pointers, except exactly when the push wrapped the stack pointer at the last word address |
| MachineProofs.PushAppends | emulator/src/VirtualMachineInternal.c:590-611 | a push appends to the list of words in [bp, sp) and changes nothing but the pushed word and the stack pointer; what is left is a stack exactly when the pointer did not wrap |
| MachineProofs.PopRemoves | emulator/src/VirtualMachineInternal.c:567-588 | a pop removes and returns the last word of that list and moves nothing but the stack pointer; it fails exactly on the empty stack |
| MachineProofs.ErrorIsAtomic | emulator/src/VirtualMachineInternal.c:160-444 | an instruction of any opcode that ends in an error leaves registers, flags and memory as after the fetch |
| MachineProofs.StepErrorIsAtomic | emulator/src/VirtualMachineInternal.c:121-158 | a turn that fails changes nothing but the status and, after a fetch, the program counter |
| MachineProofs.RunSteady | emulator/src/VirtualMachineInternal.c:121-135 | at every turn of every run $zero is zero and the arithmetic unit is reset |
| MachineProofs.StopIsFinal | emulator/src/VirtualMachineInternal.c:613-625 | a stopped machine never changes again, so the first error sticks |
| MachineProofs.RunDisciplined | emulator/src/VirtualMachineInternal.c:567-611 | in every run whose instructions do not write $sp or $bp, bp = 4096, 4096 <= sp <= 4352 and sp is a multiple of 4 |
| MachineProofs.UnsignedComparison | emulator/src/VirtualMachineInternal.c:446-494 | after a compare, eq, ne, hs, lo, uh and ul hold exactly for the unsigned relations |
| MachineProofs.SignedComparison | emulator/src/VirtualMachineInternal.c:446-494 | after a signed compare, eq, ne, lt, le, gt and ge hold exactly for the signed relations, overflow included |
| MachineProofs.CompareInstruction | emulator/src/VirtualMachineInternal.c:417-428 | the four compare instructions leave those flags and write no register |
| InstructionEffects.HoldsIsSatisfied | emulator/src/VirtualMachineInternal.c:446-494 | the condition table in terms of the flags: five pairs of set and clear, and the four relations with their negations |
| InstructionEffects.Skips | emulator/src/VirtualMachineInternal.c:160-173 | a false condition has no effect, an unknown one and an unknown register are errors without further effect |
| InstructionEffects.Moves | emulator/src/VirtualMachineInternal.c:215-220 | MOVR and MOVI copy a register or the immediate and change nothing else |
| InstructionEffects.Adds | emulator/src/VirtualMachineInternal.c:222-225 | ADDR and ADDI leave the sum modulo 2^32 and the flags of the exact sum |
| InstructionEffects.Subtracts | emulator/src/VirtualMachineInternal.c:226-229 | SUBR and SUBI leave the difference modulo 2^32; carry means no borrow |
| InstructionEffects.Multiplies | emulator/src/VirtualMachineInternal.c:230-233 | MULR and MULI leave the product modulo 2^32; carry means it needs more bits |
| InstructionEffects.Counts | emulator/src/VirtualMachineInternal.c:352-359 | INC and DEC add and subtract 1 modulo 2^32 |
| InstructionEffects.DividesUnsigned | emulator/src/VirtualMachineInternal.c:234-262 | DIV and MOD leave the only quotient and remainder with q * y + r = x and r < y |
| InstructionEffects.DividesByZero | emulator/src/VirtualMachineInternal.c:631-636 | all eight divisions by zero change the status alone |
| InstructionEffects.SignedArithmetic | emulator/src/VirtualMachineInternal.c:264-296 | ADDS, SUBS and MULS leave the exact signed result modulo 2^32, with V when it is no signed word |
| InstructionEffects.SignedDivision | emulator/src/VirtualMachineInternal.c:276-304 | DIVS and MODS leave the truncated quotient and remainder; only the least word by minus one overflows |
| InstructionEffects.CombinesBits | emulator/src/VirtualMachineInternal.c:306-350 | each logical instruction leaves the word whose bits combine the operands bit by bit |
| InstructionEffects.Loads | emulator/src/VirtualMachineInternal.c:361-378 | loads read one, two or four bytes in little-endian order and keep the rest of the register |
| InstructionEffects.Stores | emulator/src/VirtualMachineInternal.c:380-397 | stores write the low bytes of the register, the lowest first, and no other byte |
| InstructionEffects.Compares | emulator/src/VirtualMachineInternal.c:417-428 | the compare instructions set the flags of the unsigned or signed difference and nothing else |
| InstructionEffects.Jumps | emulator/src/VirtualMachineInternal.c:406-415 | JMP and JMPAL go to the immediate, JMPAL keeps $pc in $lp, RET goes to $lp |
| InstructionEffects.DoesNothing | emulator/src/VirtualMachineInternal.c:188-189 | NOP and SYSCALL change nothing; opcodes from 56 on are errors |
| InstructionEffects.Interrupts | emulator/src/VirtualMachineInternal.c:675-693 | the four services write, read and halt; other codes do nothing |
| InstructionEffects.Pushes | emulator/src/VirtualMachineInternal.c:201-206 | PUSHR and PUSHI write one word at $sp and move it, or say exactly why not |
| InstructionEffects.Pops | emulator/src/VirtualMachineInternal.c:191-200 | POP and POPR move $sp below the top word and POPR copies it, or say exactly why not |
| InstructionEffects.Duplicates | emulator/src/VirtualMachineInternal.c:207-213 | DUP pushes the top word once more, or fails as a whole |
| InstructionEffects.SubtractionUndoesAddition | emulator/src/VirtualMachineInternal.c:222-250 | a subtraction behind the addition of the same operand restores the register, except exactly when a non-zero register was its own operand |
| InstructionEffects.ReturnResumes | emulator/src/VirtualMachineInternal.c:406-415 | in any run a RET that finds $lp as its JMPAL set it resumes behind that JMPAL |
| VirtualMachine.Emulator.constructor | emulator/src/VirtualMachineInternal.c:34-49 | a new machine is zero everywhere and ready |
| VirtualMachine.Emulator.ReadByte | emulator/src/VirtualMachineInternal.c:496-506 | two separate stores read like one flat memory |
| VirtualMachine.Emulator.WriteByte | emulator/src/VirtualMachineInternal.c:508-519 | a byte written to either store changes exactly that byte of the flat memory |
| VirtualMachine.Emulator.ReadLittleEndian | emulator/src/VirtualMachineInternal.c:545-555 | the byte loop reads the little-endian number, or sets the error and gives zero |
| VirtualMachine.Emulator.WriteLittleEndian | emulator/src/VirtualMachineInternal.c:557-565 | the byte loop stores the number's low bytes or only sets the error |
| VirtualMachine.Emulator.PopWord | emulator/src/VirtualMachineInternal.c:567-588 | does to the object what the specified pop does |
| VirtualMachine.Emulator.PushWord | emulator/src/VirtualMachineInternal.c:590-611 | does to the object what the specified push does |
| VirtualMachine.Emulator.CheckCondition | emulator/src/VirtualMachineInternal.c:446-494 | holds exactly for the condition's flags; an unknown condition sets the error |
| VirtualMachine.Emulator.FetchInstruction | emulator/src/VirtualMachineInternal.c:137-158 | eight single-byte fetches give the decoded instruction and move $pc by eight, or nothing but the status changes |
| VirtualMachine.Emulator.DoOperation | emulator/src/VirtualMachineInternal.c:631-648 | computes and copies the flags, or reports division by zero and changes nothing else |
| VirtualMachine.Emulator.RunInstruction | emulator/src/VirtualMachineInternal.c:160-444 | the in-place dispatch computes the specified next state for every opcode, condition and register field |
| VirtualMachine.Emulator.LoadDump | emulator/src/VirtualMachineInternal.c:60-69 | a program that fits ROM replaces its front and sets entry 0; a larger one only sets the error |
| VirtualMachine.DumpReplaces | emulator/src/VirtualMachineInternal.c:60-69 | the state after a dump, byte by byte: the program, then the ROM as it was, and entry 0 |
| VirtualMachine.Emulator.LoadImage | emulator/src/VirtualMachineInternal.c:71-119 | copies the sections and the entry, or reports why not and changes nothing |
| VirtualMachine.Emulator.Run | emulator/src/VirtualMachineInternal.c:121-135 | for every machine whose run stops, the loop ends halted or in error in the state that iterating the step from the entry point reaches |
| VirtualMachine.Emulator.RunTurns | emulator/src/VirtualMachineInternal.c:121-135 | any number of turns of the loop, of runs that stop and of runs that do not, is that many steps from the entry point |
| VirtualMachine.MergedByMask | emulator/src/VirtualMachineInternal.c:361-372 | masking and or-ing replaces exactly the low byte or half word of a register |
| Numbers.DigitTestsAgree | asm/src/Lexer.c:357-363 | the lexer's digit test and the converter's digit values agree in all four bases |
| Numbers.ValidateNumericToken | asm/src/Lexer.c:365-379 | accepts exactly digits with single delimiters between digits |
| Numbers.WellFormedIsGroups | asm/src/Lexer.c:365-379 | an accepted literal consists of groups of digits with one delimiter between each two |
| Numbers.GroupsAreWellFormed | asm/src/Lexer.c:365-379 | all such literals are accepted |
| Numbers.LetterDigits | asm/src/Token.c:88-98 | the letters a to f count from 10 in either case |
| Numbers.RemoveDigitDelimiters | asm/src/Lexer.c:385-393 | compacts the buffer in place to the literal without delimiters, terminated, and keeps what lies behind |
| Numbers.StrippedKeepsValue | asm/src/Lexer.c:385-393 | removing delimiters leaves only digits and the same value |
| Numbers.GuardExact | asm/src/Token.c:103-107 | the overflow guard fires exactly when the next value exceeds 64 bits |
| Numbers.TokenIntValue | asm/src/Token.c:65-110 | on any text, the value of its digits, overflow or malformed, whichever comes first |
| Numbers.ConvertedStripped | asm/src/Token.c:65-110 | a validated literal converts to its mathematical value exactly when that is below 2^64, else overflows, and is never malformed |
| Numbers.NumeralRoundTrip | asm/src/Token.c:65-110 | the numeral of every number reads back as the number, exactly up to the largest 64-bit value |
| Lexer.Scanner.NextChar | asm/src/Lexer.c:81-94 | line and column stay those of the current position |
| Lexer.Scanner.ReadNumber | asm/src/Lexer.c:210-318 | the scanned characters up to the token's end have the meaning of the literal in the base its prefix selects; the line stays and the column moves by the characters read |
| Lexer.Scanner.ReadLexeme | asm/src/Lexer.c:117-276 | the switch over the first character reads the specified token, or reports an unclosed quote or a bad number |
| Lexer.Scanner.ReadToken | asm/src/Lexer.c:100-324 | skips blanks, reads one token and appends it with its place, or finds the end |
| Lexer.Scanner.ReadAll | asm/src/zlasm.c:50-56 | the loop lists the tokens of the whole source or reports the first error |
| Lexer.LexArgument | asm/src/Macros.c:165-177 | a named argument's text must hold exactly one token |
| LexerProofs.LexemeSpelled | asm/src/Lexer.c:117-276 | every token is spelled in the source as its kind and text say: with its mark, its quotes, its colon, or as a number with prefix and delimiters |
| LexerProofs.TokensCover | asm/src/Lexer.c:100-324 | the tokens lie in the source in order without overlap at the places they carry, line and column included, and every character outside them is white space within a line |
| LexerProofs.OnlyTokenIsAll | asm/src/Macros.c:165-177 | a named argument is accepted exactly when its text lexes to a single token, which is its value |
| LexerRoundTrip.LexemeFound | asm/src/Lexer.c:117-276 | every spelling of a token is read as that token when nothing runs into it from behind |
| LexerRoundTrip.WrittenLexes | asm/src/Lexer.c:100-324 | a list of tokens, however spelled and spaced, is read back as these tokens |
| LexerRoundTrip.NumeralLexes | asm/src/Lexer.c:210-238 | 0x, 0o, 0b or nothing before the numeral of any 64-bit number in that base is one integer token whose text converts to the number |
| Directives.NumericReadsBack | asm/src/Directive.c:141-165 | every emitted number is at its place in little-endian form and unchanged |
| Directives.EmittedDataReadsBack | asm/src/Directive.c:141-165 | data placed in memory reads back as its source values with the machine's scalar reads |
| Directives.NumbersAccepted | asm/src/Directive.c:141-165 | numeric data is accepted exactly when every value fits the width and all fit the address space |
| Directives.TextEmitted | asm/src/Directive.c:68-113 | .ascii emits the bytes of its items in order, .asciiz a zero behind them, unless they exceed the address space |
| Directives.TextRefused | asm/src/Directive.c:68-113 | a number above 255 in a string directive is refused, and nothing else stands in the way of the bytes |
| Directives.EncodeNumericData | asm/src/Directive.c:141-165 | the nested loops emit the values' bytes, or report a value that does not fit the width |
| Directives.EncodeText | asm/src/Directive.c:68-113 | strings, characters and small numbers are appended in order, with the terminator of .asciiz |
| MacroProofs.CapturedWell | asm/src/Macros.c:82-145 | captured macros have unique names, unique identifier parameters and bodies without definitions |
| MacroProofs.ArgumentsBindOnce | asm/src/Macros.c:179-229 | an accepted invocation gives every parameter exactly one value: the first arguments by position, the rest each by its own name, no two to one parameter |
| MacroCalls.ArgumentsAccepted | asm/src/Macros.c:179-229 | arguments are accepted exactly when they bind every parameter once, and which value each parameter then gets |
| MacroCalls.DefinitionAccepted | asm/src/Macros.c:82-130 | a definition is captured exactly when it has a new name, distinct identifiers as parameters and an .endmacro before any further .macro, with only comments behind it |
| MacroCalls.NameFindsDefinition | asm/src/Macros.c:50-57 | in an accepted program each definition is found under its name with the parameters of its header and the lines up to its .endmacro |
| MacroCalls.CallEmits | asm/src/Macros.c:244-276 | on tokens, at any depth of nesting: a call emits what its body gives, token by token the kind and text between header and .endmacro with parameters replaced by their values; a body without calls is emitted as it is |
| MacroCalls.QuietCallEmits | asm/src/Macros.c:259-272 | no call arises in a body whose lines start neither with calls nor with parameters, so it is emitted token by token in the place of the call |
| MacroCalls.DefinitionSkipped | asm/src/Macros.c:147-154 | a definition emits nothing, and expansion goes on behind the line of its .endmacro |
| MacroProofs.RecursionIsDiagnosed | asm/src/Macros.c:231-276 | in every expansion the active macros are distinct and at most 64, and recursion is reported exactly for an active macro or a 65th nesting; with at most 64 macros only for an active one |
| MacroProofs.DepthNeedsMacros | asm/src/Macros.c:252-255 | the depth limit alone can stop only a program with more than 64 macros |
| MacroProofs.ExpansionIsComplete | asm/src/Macros.c:278-311 | no definition is emitted, and no emitted line, also behind labels, starts with a known macro or a marked name |
| MacroProofs.ExpansionIsFixpoint | asm/src/Macros.c:313-325 | expanding an expansion again returns it unchanged, except exactly when it holds an .endmacro: then it is refused |
| MacroProofs.ExpansionCanFailAgain | asm/src/Macros.c:147-154 | a concrete program whose expansion cannot be expanded again |
| MacroProofs.OutputIsLocated | asm/src/Macros.c:278-311 | the source is tiled by single tokens, definitions and calls, in order and without a gap; the output is theirs one after the other: each single token unchanged, nothing for a definition, and for a call what it emits, all located at that call's own name however deep the nesting |
| MacroExpander.BindArguments | asm/src/Macros.c:179-229 | the loop over an argument line computes the binding or its first error, with the lexer run on the text of each named argument |
| MacroExpander.Expander.CaptureDefinition | asm/src/Macros.c:82-130 | captures one definition to the front of the table, or reports the error and keeps the table |
| MacroExpander.Expander.CaptureMacros | asm/src/Macros.c:132-145 | the scan captures all definitions or finds the first error |
| MacroExpander.Expander.ExpandMacro | asm/src/Macros.c:244-276 | emits an invocation's expansion, leaves the active part of the stack array as it was, and terminates by the nesting and the tokens that remain |
| MacroExpander.Expander.ExpandRange | asm/src/Macros.c:278-311 | appends the expansion of a range to the output, with its attempted invocations and its error |
| MacroExpander.Expander.ExpandTokens | asm/src/Macros.c:313-325 | the whole expander computes the specified run |
| MacroExpander.ExpandSource | asm/src/zlasm.c:50-59 | from a source's characters to its expanded tokens, or the first error of the lexer or the expander |
| MacroExpander.SkipMacroDefinition | asm/src/Macros.c:147-154 | continues behind the line of the next .endmacro |
| LayoutProofs.PaddedAligns | asm/src/Assembler.c:93-101 | `.align` moves the end to a multiple of the alignment by less than one alignment and never moves an empty section |
| LayoutProofs.StepKeeps | asm/src/Assembler.c:49-166 | every line and directive keeps the layout well formed and moves no section's end back |
| LayoutProofs.RunWellLaid | asm/src/Assembler.c:49-218 | in every layout the lines of a section are ordered and disjoint, inside their section, and every section is inside ROM |
| LayoutProofs.RunGrows | asm/src/Assembler.c:168-218 | later lines start at or behind where a section ended before, and settled addresses do not change |
| LayoutProofs.OutputIsBounded | asm/src/Assembler.c:186-218 | a program has at most six sections and at most 4096 bytes of lines for each |
| LayoutProofs.RecordedFrom | asm/src/Assembler.c:198-218 | every recorded line comes from one statement or data line, in source order, with its qualified label |
| LayoutProofs.AlignedLine | asm/src/Assembler.c:85-107 | in a section without .locate the first line behind `.align n` starts at a multiple of n, and n divides the section's final alignment |
| LayoutProofs.NeverLocated | asm/src/Assembler.c:111-131 | a section without .locate keeps address and flags zero |
| SourceLayout.LocateAccepts | asm/src/Assembler.c:111-131 | .locate is accepted exactly at or behind the end of its section and inside ROM |
| SourceLayout.AlignAccepted | asm/src/Assembler.c:85-107 | .align is accepted exactly for a power of two whose next multiple is inside ROM |
| SourceLayout.RecordAccepts | asm/src/Assembler.c:191-206 | a line is accepted exactly when it ends inside ROM |
| SourceLayout.StepAccepts | asm/src/Assembler.c:49-166 | which lines a layout accepts, kind by kind |
| SourceLayout.LayoutAccepts | asm/src/Assembler.c:49-166 | a source is laid out exactly when each of its lines is accepted and .proc is not the last one |
| SourceLayout.LocatedLine | asm/src/Assembler.c:111-131 | behind an accepted `.locate a` the first line with bytes in that section lies at a: section address plus offset |
| SourceLayout.MarkedIs | asm/src/Assembler.c:119-121 | a section is marked as located exactly when a .locate met it empty |
| SourceLayout.SizeStep | asm/src/Assembler.c:49-166 | what each line makes of the size of each section |
| SourceLayout.NextLineBehind | asm/src/Assembler.c:198-205 | a line lies directly behind the one before it in its section unless .align or .locate stands between them |
| SourceLayout.CurrentIsNamed | asm/src/Assembler.c:168-184 | a line stands in the section the last .section names, text at first, and that has the kind its name says |
| SourceLayout.LabelsQualified | asm/src/Assembler.c:57-144 | the line behind `.proc p` is labelled p, other labels in the procedure are qualified by p, and the rest are as written |
| SourceLayout.NamesListed | asm/src/Assembler.c:79-110 | .global and .extern list exactly their names, and the last .entry counts |
| Statements.ParseRegister | asm/src/Assembler.c:724-796 | the guarded digit loop and the name table find the register a name denotes |
| Statements.NumberedRegister | asm/src/Assembler.c:730-750 | r and a number, with any leading zeros, is a register exactly below 32 |
| RawAssembly.LabelsHold | asm/src/Assembler.c:240-258 | the first pass gives each label the bytes before its line, and fails exactly on a repeated label |
| RawAssembly.LinesEmitted | asm/src/Assembler.c:260-346 | each line's bytes are in the output behind the sizes of the lines before it |
| RawAssembly.PassesAgree | asm/src/Assembler.c:240-346 | a label's address is where its line's bytes are, and every use of it encodes that address |
| RawAssembly.SizesNeverOverflow | asm/src/Assembler.c:326-339 | no program that was laid out can fail for the size of its output |
| RawAssembly.LabelsFit | asm/src/Assembler.c:296-299 | the oversized-label diagnostic is unreachable |
| RawAssembly.EncodingNeverFails | asm/src/Assembler.c:313-316 | the internal error after a failed encoding is unreachable |
| AssemblyOutcomes.RawAccepted | asm/src/Assembler.c:240-346 | a laid-out source gives a direct program exactly when no label repeats, every line is sound and every use is of a label |
| AssemblyOutcomes.ObjectAccepted | asm/src/Assembler.c:369-490 | and an object exactly when also .global lists labels only, uses are of labels or external names, no line is in bss and the file is not too large |
| StatementMeaning.RegisterIs | asm/src/Assembler.c:724-796 | a name denotes a register exactly when it is its alias in the instruction set or r and its number |
| StatementMeaning.SpecialRegisters | asm/src/Assembler.c:752-796 | zero, v0, a0, lp, sp, bp and pc denote the registers by which the machine knows them |
| StatementMeaning.OperandsAreUsed | asm/src/Assembler.c:591-679 | the assembler asks for exactly the registers and operand that the machine uses for the opcode |
| StatementMeaning.StatementFields | asm/src/Assembler.c:272-317 | a statement is assembled to an instruction exactly when each of the five fields is what the statement says |
| StatementMeaning.LinkedFields | asm/src/Assembler.c:436-468 | a fetched statement of a linked program has the opcode, condition and registers that were written |
| RawAssembly.FetchesStatement | emulator/src/VirtualMachineInternal.c:141-158 | with the program at the start of ROM, fetching at a statement's address gives the statement's instruction |
| ObjectProofs.ContentsHold | asm/src/Assembler.c:420-477 | section contents are each line's bytes at its offset and zero in every gap, and nothing is in bss |
| ObjectProofs.RelocationsHold | asm/src/Assembler.c:445-463 | the relocations are those of the lines and of nothing else |
| ObjectProofs.RelocationSite | asm/src/Assembler.c:445-463 | a relocation patches the operand word of a label use that its section does not define |
| ObjectProofs.LabelFound | asm/src/Assembler.c:385-419 | every label is found in the symbol table with its line's section and offset, whatever .global and .extern add |
| ObjectProofs.LabelUseResolved | asm/src/Assembler.c:440-463 | a use of a label of its section holds the offset; any other is relocated against the label's symbol |
| ObjectProofs.GlobalFound | asm/src/Assembler.c:403-409 | a name that .global lists has a global symbol, whatever .extern adds |
| ObjectProofs.GlobalsAreLabels | asm/src/Assembler.c:403-409 | the symbol table is refused exactly when .global lists a name that is no label |
| ObjectProofs.GlobalIsListed | asm/src/Assembler.c:403-409 | a defined global symbol is one that .global lists |
| ObjectProofs.SymbolExists | asm/src/Assembler.c:385-419 | a name has a symbol exactly when it is a label or .extern lists it, and what the latter is |
| ObjectProofs.NamesOnce | asm/src/Assembler.c:385-419 | a symbol table has every name once |
| ObjectProofs.ExternalFound | asm/src/Assembler.c:410-419 | a name that is no label has a symbol only through .extern, and that symbol is undefined |
| ObjectProofs.DefinedIsLabel | asm/src/Assembler.c:385-419 | every defined symbol of an object is one of its labels, with that line's section and offset |
| ObjectProofs.BssIsEmpty | asm/src/Assembler.c:420-434 | an accepted object has no bytes in bss |
| ObjectProofs.SectionImageFields | asm/src/Assembler.c:369-384 | a section is written with its name, place and alignment as they were laid out |
| ObjectProofs.ObjectIsStructural | asm/src/Assembler.c:369-489 | the assembled image passes every structural check of the encoder |
| ObjectProofs.ObjectRefusedForSizeOnly | asm/src/Assembler.c:484-488 | encoding an assembled object fails exactly when it is too large for the format |
| LabelTables.EntryUpdated | asm/src/LabelTable.c:17-27 | overwriting an entry's address is a map update |
| LabelTables.LabelTable.GetIfExist | asm/src/LabelTable.c:45-55 | walking the list is looking the name up in the map |
| LabelTables.LabelTable.SetOrCreate | asm/src/LabelTable.c:17-43 | overwriting in place or appending a node updates the map at that name only |
| Assembler.Context.SelectSection | asm/src/Assembler.c:168-184 | selects the section of that name or appends a new one of its kind |
| Assembler.Context.RecordLine | asm/src/Assembler.c:198-218 | records the line at the section's end and grows it, or reports that it leaves ROM |
| Assembler.Context.ProcessDirectives | asm/src/Assembler.c:49-166 | the loop that edits the following line's label computes the layout or its first error |
| Assembler.Context.ProcessLabels | asm/src/Assembler.c:240-258 | leaves exactly the first pass's label map in the table, or reports a duplicate |
| Assembler.Context.TranslateRaw | asm/src/Assembler.c:260-346 | the growing buffer holds the lines' bytes, or the first error is reported |
| Assembler.Context.CollectSymbols | asm/src/Assembler.c:385-419 | the three loops compute the symbol table or report an undefined global |
| Assembler.Context.TranslateObject | asm/src/Assembler.c:369-490 | filling one zeroed buffer per section gives the object image, encoded |
| Assembler.Assemble | asm/src/zlasm.c:63-69 | the passes in order are the raw assembly of the source lines |
| Assembler.AssembleToObject | asm/src/zlasm.c:63-69 | the passes in order are the object assembly of the source lines |
| Toolchain.PartHolds | asm/src/Assembler.c:369-490 | an assembled object decodes to its normal image, with all guarantees of layout, contents, symbols and relocations |
| Toolchain.AlignmentSurvives | emulator/src/Linker.c:117-131 | in a section without .locate the first line behind `.align n` has a linked absolute address divisible by n |
| Toolchain.FetchesLinkedStatement | emulator/src/VirtualMachineInternal.c:141-158 | assembled, linked and loaded, a statement is fetched at its final address with its relocated operand equal to its symbol's address |
| Toolchain.FirstSectionAboveZero | emulator/src/Linker.c:108-123 | the linker never puts the first section at address 0 by itself |
| LabelAddresses.PlacedAtZero | emulator/src/Linker.c:108-134 | the linker puts a section at address 0 exactly when only empty sections lie between it and a section that its object put there |
| LabelAddresses.OwnSectionLabel | asm/src/Assembler.c:447-452 | a use of a label of its own section is fetched as the section offset, which is the label's address exactly when the inputs put the section at address 0 |
| LabelAddresses.LabelReachedAcrossSections | asm/src/Assembler.c:453-463 | a use of a label of another section of the object is fetched with that label's final address |
| LabelAddresses.LabelReachedAcrossObjects | emulator/src/Linker.c:185-233 | a use of a name that is no label of its object is fetched with the final address of the label another object exports under that name |
| LabelAddresses.LabelIsAbsolute | docs/ISA.md:130-131 | a label of the object is fetched as its absolute address exactly when another section defines it or its section is put at address 0 |
| LabelAddresses.LocatedLineAddress | emulator/src/Linker.c:108-123 | `.locate a` puts the first line with bytes behind it at address a of the linked program exactly when some .locate met its section empty or the section ends up at 0; otherwise the linker adds its own address |
| ProgramOutcomes.EntryFromSources | emulator/src/Linker.c:84-95 | for programs built from sources, the entry is the requested name, else the last .entry of the first source with one, else start |
| ProgramOutcomes.DuplicatesAreExports | emulator/src/Linker.c:160-171 | for programs built from sources, the linker sees a duplicate exactly when two sources label and .global one name |
| ProgramOutcomes.FailuresAreUnknown | emulator/src/Linker.c:176-230 | and a relocation fails only for a name that its source uses without labelling it and that no source exports |
| ProgramOutcomes.ProgramLinks | emulator/src/Linker.c:60-292 | when its sections can be placed, a program links exactly without duplicate exports and unknown names, with an entry in text and a file that is not too large; each failure has its own error |
| SelfJump.OwnLabelMissed | asm/src/Assembler.c:447-452 | a concrete one-line program that assembles, links and loads at 8, and whose jump to itself is fetched with operand 0 and goes to 0 |
| Programs.EntryIsFirstLabel | emulator/src/Linker.c:236-248 | in a program built from sources the entry is the final address of the first line labelled with the selected name, over all sources in order |
| Programs.ProgramStarts | emulator/src/VirtualMachineInternal.c:121-158 | whatever assembles and links also loads and starts at that line; when it is a statement, it is the first instruction fetched |
| Programs.DumpStarts | emulator/src/VirtualMachineInternal.c:60-69 | a direct program starts at 0, and a statement on its first line is the first instruction fetched |
| Programs.LinkedHoldsRaw | asm/src/Assembler.c:369-490 | for a source of one section without gaps the ROM of any linked program it is part of holds its direct output at the section's address, byte for byte |
| Programs.ModesFetchAlike | emulator/src/VirtualMachineInternal.c:141-158 | so linked and direct execution of it fetch the same instruction at every place |
| Programs.ModesCoincide | emulator/src/VirtualMachineInternal.c:60-119 | linked alone and put at address 0 by its inputs, it gives the same machine as its dump in everything but the entry, which is never 0 when linked |
| Toolchain.DumpedStatementFetches | emulator/src/VirtualMachineInternal.c:60-69 | a raw program loaded as a dump is fetched statement by statement at its labels' addresses |

## Left out

- VirtualMachine.Emulator.Run: demands that the run stops, because the program's loop returns for no other run; what a run that never stops does is stated turn by turn by RunTurns.
- Assembler.AssembleToObject: demands that the encoded names and buffers fit the host's address space.
- ImageEncoder.EncodeImage: demands that names and buffers fit the host's address space, and reads a data pointer only where the caller supplied the declared size.
- Linker.LinkObjects: demands that every object buffer is smaller than the address space.
- VirtualMachine.Emulator.constructor: excludes RAM sizes for which ROM and RAM exceed the host's 2^64 bytes, which no allocation gives, so the guard against a wrapping end of memory always passes.
- LinkOutcomes.LinkOutcome: tells the errors apart for at most 2^32 - 1 sections in all objects together; with more of them a moved symbol's 32-bit section index wraps, and TooManySections says that such a link never succeeds.
- ProgramOutcomes.ProgramLinks: speaks of the same number of sections.
- The host's `fputc` and `fgetc` are an output sequence and an input sequence of the machine; the debug printing of registers is left out.
- Allocation failure, null arguments and the out-parameters cleared on failure; after a failed decode the model has no image.
- Diagnostic messages and source positions of errors; only the error code is modelled.
- The parser, `validate_directive`, and the mnemonic, directive and condition name tables: lines arrive with a known or unknown opcode, a valid condition and typed directive arguments. The errors for an unknown directive or condition are therefore not part of the model.
- Character literals with escapes: a character argument arrives as its byte.
- Reading and writing files, the command-line programs and the public wrappers around assembler, linker and machine.
- Weak symbols have no behaviour in the program, and the system-call instruction does nothing; both are modelled as that.
- The bit-field layout of the status register and the byte views of a register value.
