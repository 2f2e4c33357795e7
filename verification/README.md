# ARM-Simulator core in Dafny

A model of the two packages that hold the logic of ARM-Simulator, a disassembler and
simulator for a small LEGv8 subset, with proofs about them.

- **Decoder and renderer** (`pkg/instructions/instructions.go`).
  - A program is a list of 32-character binary lines.
  - Each line becomes an `Instruction` until the first BREAK. The rest become `Data` words.
  - Line k gets position 96 + 4k.
  - A word is classified by looking its leading 11, 11, 10, 9 or 8 bits up in five opcode tables, in that order. Then come the fixed patterns for B, NOP and BREAK.
  - The format's fields are cut out by shift and mask. The I, CB and B fields are sign-extended by complementing inside the field.
  - Every instruction renders as bit groups, its position and its assembly text. Every data word renders as its bits, its position and its value.
- **Executor** (`pkg/simulator/simulator.go`).
  - The machine has 32 `int64` registers and a list of data entries addressed by position.
  - `ApplyInstructionToSimulator` performs one instruction and returns the number of instructions to move by.
  - The run loop starts at instruction 0 in cycle 1 and renders the state after every step.
  - It stops after a BREAK, or once more than 100 non-BREAK steps have run.
  - It exits the process when the next index lies outside the program.

Modules, one file each:

| file | module | contents |
|---|---|---|
| `bits.dfy` | `Bits` | int32/int64 wrap-around, shifts, bitwise operators, division lemmas |
| `opcodes.dfy` | `Opcodes` | the five opcode tables and classification (`ValueToOpAndType`) |
| `decoder.dfy` | `Decoder` | binary parsing, two's complement, field extraction, the line split |
| `encoding.dfy` | `Encoding` | an encoder used only as the partner of the decoder (round trips) |
| `text.dfy` | `Text` | decimal formatting, tab joins and splits |
| `renderer.dfy` | `Renderer` | `InstructionToString`, `DataToString`, the disassembly listing |
| `machine.dfy` | `Machine` | the simulator state, the data list, `ApplyInstructionToSimulator` |
| `dump.dfy` | `Dump` | tab-separated rows of numbers and the data dump of `StateToString` |
| `runner.dfy` | `Runner` | the run loop, its trace and its transcript |

Words are unbounded integers in [0, 2^32). A shift is a division by a power of two and a mask
is a remainder. Go's `int32`/`int64` wrap-around is written out as `Wrap32`/`Wrap64`.
AND, ORR and EOR go through `bv64`.

The executor is parameterised by `Semantics`:
- `AsWritten` follows the source line by line.
- `Intended` repairs the three defects listed under Findings and nothing else.

The run loop is generic over the one-step function (`Executor`). Its lemmas therefore hold for both readings.

The model keeps these behaviours of the code exactly as written:
- The runaway guard stops after 101 steps without a BREAK: `instructionCounter` is compared with `> 100` after it is incremented (simulator.go:64-65).
- A word that matches no pattern classifies as the empty pair (instructions.go:174). It then renders as the empty string, since no case of the renderer's switch fills the result (instructions.go:357-358). It executes as a no-op, since no case of the executor's switch matches (simulator.go:77-120).
- The MOVK mask `& 0xFFFF` keeps the low 16 bits of the two's complement, which is exactly the Euclidean remainder by 2^16; it is written that way.
- STUR and LDUR as written: see Findings.

## Model

| member | source | states |
|---|---|---|
| Opcodes.TablesInvertOpcodes | pkg/instructions/instructions.go:380-400 | every mnemonic is filed under exactly one opcode in its table and every table key maps back to it |
| Opcodes.ValueToOpAndType | pkg/instructions/instructions.go:142-175 | a recognised word's class is encoded by its top 11 bits, and any class those bits encode is the one chosen, so the first-match order never matters |
| Opcodes.ClassesDisjoint | pkg/instructions/instructions.go:142-175 | no 11-bit prefix encodes two classes, and a prefix encodes an R/D/I/IM/CB op exactly when the table keyed by its leading 11/11/10/9/8 bits holds that op |
| Decoder.ParseBinary | pkg/instructions/instructions.go:123-129 | the value `ParseUint(binary, 2, …)` gives for a bit string of length n lies below 2^n |
| Decoder.BinaryRoundTrip | pkg/instructions/instructions.go:123-129 | ParseBinary inverts writing in binary: parsing the binary text of a value below 2^width gives the value back |
| Decoder.BinaryRoundTripText | pkg/instructions/instructions.go:123-129 | writing a parsed binary string at its own width gives the string back |
| Decoder.LineValueSpellsLine | pkg/instructions/instructions.go:106-109 | the word stored for a line is the unsigned number the line spells |
| Decoder.SignExtendToTwos | pkg/instructions/instructions.go:131-140 | sign extension inverts two's-complement encoding for every value in range |
| Decoder.TwosComplement | pkg/instructions/instructions.go:131-140 | although it tests bit 0 rather than bit 31, TwosComplement reads every 32-bit word as signed 32-bit two's complement |
| Decoder.ImmediateIsSigned12 | pkg/instructions/instructions.go:196-203 | the I immediate is bits 10-21 read as 12-bit two's complement |
| Decoder.CondBranchOffsetIsSigned19 | pkg/instructions/instructions.go:224-231 | the CB offset is bits 5-23 read as 19-bit two's complement |
| Decoder.BranchOffsetIsSigned26 | pkg/instructions/instructions.go:238-245 | the B offset is bits 0-25 read as 26-bit two's complement |
| Decoder.Immediate | pkg/instructions/instructions.go:198-203 | the I immediate lies in [-2048, 2047] |
| Decoder.CondBranchOffset | pkg/instructions/instructions.go:226-231 | the CB offset lies in [-2^18, 2^18) |
| Decoder.BranchOffset | pkg/instructions/instructions.go:240-245 | the B offset lies in [-2^25, 2^25) |
| Decoder.DecodeFields | pkg/instructions/instructions.go:177-256 | every format's fields are in range (registers below 32, shamt below 64, address below 512, shiftCode in {0,16,32,48}, field below 65536) and the instruction has the class it was decoded under |
| Decoder.Decode | pkg/instructions/instructions.go:109-111 | the decoded instruction is well formed, has the class that any pattern matching the top 11 bits names, and is unrecognised exactly when no pattern matches |
| Decoder.BinaryToInstruction | pkg/instructions/instructions.go:106-113 | the instruction keeps its line, its word is the value whose 32 bits spell the line, it is `Decode` of that word (so it has the class the word's top bits name and is well formed), and its position is 0 until the program split sets it |
| Decoder.BinaryToData | pkg/instructions/instructions.go:115-121 | a data word keeps its line and holds the line's value as signed 32-bit |
| Decoder.SplitUnique | pkg/instructions/instructions.go:83-104 | a program splits into instruction and data segments in exactly one place |
| Decoder.ConvertLinesToInstructions | pkg/instructions/instructions.go:83-104 | line k is decoded at position 96+4k; the instructions run up to and including the first BREAK, the data words are the rest, and there is no data without a BREAK |
| Decoder.SplitLines | pkg/instructions/instructions.go:86-102 | the loop with its "BREAK seen" flag splits any line list after the first item that is a break |
| Decoder.SplitOfDecoded | pkg/instructions/instructions.go:94-99 | a decoded prefix ending in its only BREAK, or covering every line, is the unique split |
| Encoding.RFormatReassembles | pkg/instructions/instructions.go:179-184 | opcode<<21, rm<<16, shamt<<10, rn<<5 and rd add up to the word again |
| Encoding.DFormatReassembles | pkg/instructions/instructions.go:185-189 | a D word is its opcode, address, the two unused bits 10-11, rn and rd |
| Encoding.IFormatReassembles | pkg/instructions/instructions.go:196-205 | an I word is its opcode, the immediate's 12-bit two's complement, rn and rd |
| Encoding.IMFormatReassembles | pkg/instructions/instructions.go:212-216 | an IM word is its opcode, shiftCode/16, field and rd |
| Encoding.CBFormatReassembles | pkg/instructions/instructions.go:224-232 | a CB word is its opcode, the offset's 19-bit two's complement and rd |
| Encoding.BFormatReassembles | pkg/instructions/instructions.go:238-245 | a B word is the prefix 000101 and the offset's 26-bit two's complement |
| Encoding.EncodeDecode | pkg/instructions/instructions.go:177-256 | decoding loses nothing: re-encoding a decoded word gives the word back, except bits 10-11 of a D word |
| Encoding.DecodeEncode | pkg/instructions/instructions.go:142-256 | every well-formed instruction is decoded from its encoding, so classification and field extraction reach every instruction in range |
| Encoding.DFormatIgnoresBits10To11 | pkg/instructions/instructions.go:185-189 | two D words that differ only in bits 10-11 decode alike |
| Renderer.Mnemonic | pkg/instructions/instructions.go:142-175 | the mnemonic is empty exactly for an unrecognised word |
| Renderer.Operands | pkg/instructions/instructions.go:190-271 | the operands are empty exactly for NOP, BREAK and an unrecognised word, and hold neither a tab nor a line break |
| Renderer.Args | pkg/instructions/instructions.go:190-271 | the assembly text is empty exactly for an unrecognised word |
| Renderer.ArgsFields | pkg/instructions/instructions.go:190-271 | the assembly text is one line and splits at its tab into the mnemonic and, for every format written with operands, the operands |
| Renderer.Cuts | pkg/instructions/instructions.go:274-359 | the bit-group boundaries of every recognised format increase from 0 to 32 |
| Renderer.Groups | pkg/instructions/instructions.go:274-359 | group j is the slice of the raw bits between boundaries j and j+1 |
| Renderer.InstructionToString | pkg/instructions/instructions.go:274-359 | a line is empty exactly when the word is unrecognised |
| Renderer.BitGroupsSpellRaw | pkg/instructions/instructions.go:274-359 | deleting the spaces from the bit groups gives back the raw line, and the groups hold no tab |
| Renderer.RenderedBitsSpellRaw | pkg/instructions/instructions.go:274-359 | a rendered instruction splits at tabs into the raw bits (once spaces are removed), the position in decimal, and then exactly the fields of its assembly text `Args`, the last one carrying the line break |
| Renderer.DataToString | pkg/instructions/instructions.go:361-367 | a data line ends in a newline and splits at tabs into its bits, position and value in decimal |
| Renderer.ConvertInstructionsAndDataToStrings | pkg/instructions/instructions.go:369-378 | one line per instruction, in order, followed by one line per data word, in order |
| Text.IntToDecimalReadsBack | pkg/simulator/simulator.go:125-130 | `%d` text of an integer starts with '-' exactly when it is negative and reads back as its magnitude |
| Machine.InitializeSimulator | pkg/simulator/simulator.go:16-20 | every register is zero and the data list is copied in order |
| Machine.FindDataMeaning | pkg/simulator/simulator.go:22-29 | the loop over the data list finds the value of the first entry at the address, or 0 when no entry is there |
| Machine.GetDataFromAddress | pkg/simulator/simulator.go:22-29 | the value of the first entry of the simulator's data at the address, or 0 when no entry is there |
| Machine.Store | pkg/simulator/simulator.go:31-42 | what PutDataIntoAddress evidently means: the address then reads the value, every other address reads as before, and the list grows by at most the one appended entry |
| Machine.SetRegister | pkg/simulator/simulator.go:79 | one register takes the value and nothing else changes |
| Machine.ShiftWeight | pkg/simulator/simulator.go:115 | `math.Pow(2, shiftCode)` is exactly 2^shiftCode for the four shift codes |
| Machine.Apply | pkg/simulator/simulator.go:74-121 | only the destination register changes (only LDUR among the D ops writes one); the data list changes only for a repaired STUR; B moves by its offset; CBZ/CBNZ move by the offset exactly when the register is / is not zero and leave the state alone; every other instruction, NOP, BREAK and unrecognised ones included, moves by 1 |
| Machine.ApplyD | pkg/simulator/simulator.go:94-99 | LDUR sets rd to the first data entry at the address it reaches, or to 0 when none is there, and changes no other register and no data; the address is, as written, the register's number plus 4·address modulo 2^16, and repaired, the register's value plus 4·address; STUR never touches a register; as written it changes nothing; repaired, the address reads back the register's low 32 bits and every other address reads as before |
| Machine.ROpResultMeaning | pkg/simulator/simulator.go:78-113 | the ALU `ROpResult` on the R-format cases of the switch: ADD and SUB (lines 78-81) and LSL (line 108) agree with the mathematical result modulo 2^64; ASR (line 110) is floor division by 2^shamt keeping the sign; LSR (line 112) divides the unsigned reading |
| Machine.ROpMeaning | pkg/simulator/simulator.go:78-113 | the same ALU meanings read off the register after `Apply`: ADD and SUB (lines 78-81) and LSL modulo 2^64, ASR as floor division keeping the sign, LSR on the unsigned reading (lines 108-113) |
| Machine.IOpMeaning | pkg/simulator/simulator.go:82-85 | ADDI and SUBI agree with the mathematical result modulo 2^64 |
| Machine.IMMeaning | pkg/simulator/simulator.go:114-118 | `ApplyIM` on the register's old value: MOVZ leaves exactly field·2^shiftCode in its 64 bits; the repaired MOVK (`Movk`) puts the field in the 16 bits at shiftCode and keeps the bits below and above; MOVK as written adds the field at shiftCode, less 0xFFFF for a negative register, for every field of 64 or more |
| Machine.MovzPlacesField | pkg/simulator/simulator.go:114-115 | MOVZ leaves exactly field·2^shiftCode in the register's 64 bits |
| Machine.MovkSetsSlice | pkg/simulator/simulator.go:116-118 | the repaired MOVK (`Movk`) puts the field in the 16 bits at shiftCode and keeps the bits below and above |
| Machine.MovkAsWritten | pkg/simulator/simulator.go:116-118 | as written, for every field of 64 or more the shift leaves only sign bits, so the register is not spliced: the field at the shift code is added to it, less 0xFFFF when it is negative, in int64 arithmetic |
| Machine.MovkAsWrittenAddsInstead | pkg/simulator/simulator.go:117-118 | as written, MOVK 0x5678 LSL 0 over 0x1234 gives 0x68AC, where the repaired one gives 0x5678 |
| Machine.MovkAsWrittenSubtractsUnscaled | pkg/simulator/simulator.go:117-118 | as written, MOVK 16 LSL 16 over 0x1_0000 subtracts the old slice at weight 1 and gives 0x10_FFFF, where the repaired one gives 0x10_0000 |
| Machine.SturIsLost | pkg/simulator/simulator.go:97-99 | as written, STUR leaves the simulator unchanged |
| Machine.StoreThenLoadAsWritten | pkg/simulator/simulator.go:94-99 | as written, a value stored at an address does not load back |
| Machine.StoreThenLoad | pkg/simulator/simulator.go:94-99 | repaired, LDUR after STUR at the same base and offset loads the stored register's low 32 bits, and no other address changes |
| Machine.LoadAsWrittenUsesIndex | pkg/simulator/simulator.go:94-96 | as written, LDUR reads the data at the register's number plus 4·address, not at its contents |
| Machine.LoadAsWrittenMissesBase | pkg/simulator/simulator.go:94-96 | as written, a load based on a register holding 200 misses the entry at 200 |
| Runner.ExtendTrace | pkg/simulator/simulator.go:56-63 | appending the step taken at the next index keeps a trace a trace |
| Runner.RunFromTrace | pkg/simulator/simulator.go:50-69 | from any point, the loop either attempts an index outside the program or returns a trace that extends the entries so far, ends at its first BREAK or after 101 steps |
| Runner.Run | pkg/simulator/simulator.go:44-72 | a run that exits attempted an index outside the program; a run that returns holds 1 to 101 entries, ends on a BREAK exactly when it stopped at one, and holds exactly 101 entries when the step cap stopped it |
| Runner.RunIsTrace | pkg/simulator/simulator.go:44-72 | a run that returns holds 1 to 101 entries with cycles 1, 2, …; each ran the instruction at its index on the state the previous one left; the first is instruction 0; it stops exactly at its first BREAK, or at 101 entries; a run that does not return attempted an index outside the program |
| Runner.EmptyProgramIsFatal | pkg/simulator/simulator.go:51-54 | a program without instructions exits at once, attempting index 0 |
| Runner.StateToString | pkg/simulator/simulator.go:123-153 | the text opens with the separator line and `Cycle:` with the cycle number and a tab, and closes with `data:` and the data dump |
| Runner.RowLine | pkg/simulator/simulator.go:131-136 | a register row (`RegisterRow`) is one line and splits at its tabs into its tag and its registers in decimal |
| Runner.StateLines | pkg/simulator/simulator.go:123-153 | the state's text, line by line: the separator; the cycle line, splitting at its tabs into `Cycle:` with the cycle, the position and the fields of the assembly text; a blank line; `registers:` and the four rows of `RegisterBlock`, each splitting into `r00:`, `r08:`, `r16:` or `r24:` and its eight registers in decimal; a blank line; `data:`; then the lines of the data dump |
| Runner.Transcribe | pkg/simulator/simulator.go:44-72 | for any one-step function: the strings are returned exactly when the run returns, line k is the rendering for cycle k+1 of the state and instruction of step k, and an exit carries the index the run attempted |
| Runner.RunInstructionsAndReturnStrings | pkg/simulator/simulator.go:44-72 | line k is the rendering for cycle k+1 of the state after step k of the run and of its instruction, between 1 and 101 lines; otherwise, exactly when the run cannot go on, the exit with the index out of range, which an empty program reaches at index 0 |
| Dump.RowFields | pkg/simulator/simulator.go:131-136 | a register row splits at its tabs into its tag and each register in decimal |
| Dump.DataRowsSplit | pkg/simulator/simulator.go:137-151 | the data dump in rows of eight is the dump of the whole rows followed by the last row |
| Dump.DumpAdvance | pkg/simulator/simulator.go:139-148 | each entry adds its piece (position and value to open a row, tab and value inside it, newline after the eighth) to the dump of the entries before it |
| Dump.DumpEnd | pkg/simulator/simulator.go:149-151 | closing an unfinished row with a newline completes the dump |
| Dump.DumpData | pkg/simulator/simulator.go:137-151 | the loop with its eightCount builds exactly the rows of eight entries, each row on its own line |

## Left out

- `pkg/files/files.go` and `team11_project2.go`: file I/O, argument parsing and output wiring. They are not part of this model.
- Decoder.LineValue: the error path of `BinaryToUnsignedInt` (`ParseUint` failing and printing) is not modelled. Every line is required to be exactly 32 characters of `0`/`1`.
- Runner.RunInstructionsAndReturnStrings: printing "Branched out of the instruction space" and `os.Exit(1)` become the `Exited(attempted)` result. The runaway message becomes the `LoopCap` stop.
- Machine.ShiftWeight: `math.Pow` on floats is replaced by the exact power of two, which is what the float computation gives for exponents 0, 16, 32 and 48.
- Machine.Apply: AND, ORR and EOR are modelled through `bv64`, but no lemma states their bitwise meaning.
- Machine.DataAddress: the repaired address `registers[rn] + 4·address` is an unbounded integer; no 16-bit truncation is applied to it.
- Machine.Store: this is the evidently intended PutDataIntoAddress. It updates the first entry at the address, or appends a new entry with an empty raw string. As written, the store is not modelled as an operation; see Findings.
- The `opcode` and `typeofInstruction` fields of an instruction are not kept. The `OpClass` carries the same information.
- `GetArgs`, `GetOp` and the other getters are field selections on the datatypes.
- Text.IntToDecimal: Go's `%d` is modelled for integers only; no other verb of `fmt` is modelled.
- Runner.RunFrom: the loop itself carries no contract of its own; `Runner.RunFromTrace` states what it returns.
- Machine.MovkAsWritten: the contract covers every field of 64 or more; for smaller fields the result is shown on the two examples only (`Machine.MovkAsWrittenAddsInstead`, `Machine.MovkAsWrittenSubtractsUnscaled`).

## Findings

| source | as written | input that shows it | evidently intended | confidence | as-written member | corrected member |
|---|---|---|---|---|---|---|
| pkg/simulator/simulator.go:31-42, 97-99 | `PutDataIntoAddress` receives the simulator by value and updates the loop's copy of an entry (or appends to its own copy of the list), so STUR changes nothing | R1 = 5, `STUR R1, [R0, #0]` then `LDUR R2, [R0, #0]` leaves R2 = 0 | the store reaches the simulator's data list and the load returns 5 | not executed | Machine.SturIsLost, Machine.StoreThenLoadAsWritten | Machine.Store, Machine.StoreThenLoad |
| pkg/simulator/simulator.go:95, 98 | LDUR and STUR add the register's number `Rn`, not its contents, to 4·address | R1 = 200, data entry at position 200 holding 7, `LDUR R2, [R1, #0]` loads 0 | the effective address is `registers[Rn] + 4·address` and the load gives 7 | not executed | Machine.LoadAsWrittenUsesIndex, Machine.LoadAsWrittenMissesBase | Machine.StoreThenLoad |
| pkg/simulator/simulator.go:117-118 | MOVK takes the old slice by shifting by `field` instead of `shiftCode`, and subtracts it without scaling it back by 2^shiftCode | R0 = 0x1234, `MOVK R0, 0x5678, LSL 0` gives 0x68AC; R0 = 0x1_0000, `MOVK R0, 16, LSL 16` gives 0x10_FFFF | the 16 bits at shiftCode are replaced by the field, giving 0x5678 and 0x10_0000 | not executed | Machine.MovkAsWritten, Machine.MovkAsWrittenAddsInstead, Machine.MovkAsWrittenSubtractsUnscaled | Machine.MovkSetsSlice |
