# LC-3 virtual machine, modelled in Dafny

This is a Dafny model of the core of `lc3-vm`. The program emulates the LC-3
educational instruction set. It has eight general registers, PC and a
condition register (COND), a 65536-word memory with a keyboard mapped at
0xFE00/0xFE02, and sixteen opcodes.

The model covers five source files:

- `src/util.rs`: big-endian byte joining, sign extension of 5/6/9/11-bit
  fields, and `base_r_with_offset`. Pure functions in module `Util`.
- `src/opcodes.rs`: the decoder `Opcode::try_from`, modelled as written.
  It never sign-extends: every offset and immediate is a zero-extended
  mask. Module `Opcodes` adds a canonical encoder and proves the decoder
  and encoder are inverses on the decoder's range.
- `src/memory.rs`: class `Memory.Memory` over an `array<bv16>`, with
  checked `write`/`read` and the `load_bulk` loop.
- `src/vm.rs`, the newer engine, modelled twice:
  - module `Machine`: a state machine over values, with state
    (running, registers, memory, input still to read, output written).
    Every instruction, trap and step returns the new state or a `Fault`
    that stands for the source's panic. Loading an image is the exception:
    see "## Left out".
  - class `Vm.VM`: registers and memory as arrays updated in place. Each
    method is proved to agree with the `Machine` function its `ensures`
    names. On success the outcome and the new state agree; on a fault only
    the outcome does.
  - The instruction-level properties are proved about `Machine` in
    `MachineFacts`, `ConsoleFacts` and `RunFacts`.
- `src/main.rs`: the crate root still compiles an older copy of the VM.
  Module `Legacy` models it on the same `Machine.State`, only where it
  differs. `LegacyFacts` compares the two engines instruction by
  instruction:
  - register ADD overflows;
  - `advance_pc` overflows at 0xFFFF;
  - PC-relative addresses are computed in `i16`;
  - JSR/JSRR do not link R7;
  - LDR/STR add the offset to the register *index*;
  - GETC/IN do nothing;
  - `read` has no keyboard.

Representation:

| Rust | Dafny |
|---|---|
| `u16` | `bv16` |
| `i16` | `bv16`, its two's-complement pattern (`Util.Signed` gives its value) |
| `u8` | `bv8` |
| `usize` | `nat` |

`i16 as usize` is `Util.UsizeOfI16`: sign extension to 64 bits, so a
negative sum becomes an address of at least 2^63. Console input is a
sequence of bytes consumed in order. Console output is a sequence of bytes
appended to.

## Model

| member | source | states |
|---|---|---|
| Util.JoinU8 | src/util.rs:5-9 | the joined word's value is `hi * 256 + lo`; its high byte is `hi` and its low byte is `lo` |
| Util.JoinSplit | src/util.rs:5-9 | joining the high and low byte of any word gives the word back |
| Util.SignExtImm5 | src/util.rs:31-39 | the result read as `i16` lies in -16..15; it is the 5-bit field when bit 4 is clear and field - 32 when it is set; its low 5 bits are the field's |
| Util.SignExtImm6 | src/util.rs:11-19 | the same for 6 bits: range -32..31, field or field - 64, low 6 bits kept |
| Util.SignExtImm9 | src/util.rs:21-29 | the same for 9 bits: range -256..255, field or field - 512, low 9 bits kept |
| Util.SignExtImm11 | src/util.rs:41-49 | the same for 11 bits: range -1024..1023, field or field - 2048, low 11 bits kept |
| Util.SignExtReadsOnlyField | src/util.rs:11-49 | each extender gives the same result on the word and on its masked field: bits above the field make no difference |
| Util.UsizeOfI16 | src/util.rs:2 | `i16 as usize` is below 2^64; a non-negative value is unchanged; a negative one becomes at least 2^63 |
| Util.TruncateSignExtended | src/main.rs:302-312 | widening an `i16` to `usize` and truncating back with `as u16` gives the same 16 bits |
| Util.BaseROffset | src/util.rs:1-3 | the low 16 bits are index + offset; the result is below 0x8000 exactly when that 16-bit sum is; otherwise it is at least 2^63; for an index below 8 and a 6-bit offset it is the plain sum |
| Opcodes.Decode | src/opcodes.rs:96-253 | `Opcode::try_from`: its failures are stated by Opcodes.DecodeFailsOnlyOnUnknownTrap (only an unknown trap byte, carried in the error); the field layout of each opcode is stated by the `Decode*` lemmas below, and the range and round trip by Opcodes.EncodeDecode and Opcodes.DecodeEncode |
| Opcodes.DecodeFailsOnlyOnUnknownTrap | src/opcodes.rs:96-253 | decoding fails exactly on a TRAP word whose low byte is outside 0x20..0x25, with that byte as the error; the `Err(())` arm is unreachable |
| Opcodes.DecodeAdd | src/opcodes.rs:99-120 | ADD: dr from bits 11..9 and sr1 from bits 8..6; bit 5 clear gives register bits 2..0, bit 5 set gives immediate bits 4..0 |
| Opcodes.DecodeAnd | src/opcodes.rs:121-142 | AND decodes with the same fields as ADD |
| Opcodes.DecodeBranch | src/opcodes.rs:143-151 | BR: n, z, p from bits 11, 10, 9; offset from bits 8..0, zero-extended |
| Opcodes.DecodeJump | src/opcodes.rs:152-162 | base field 7 gives RET; any other base gives JMP on it |
| Opcodes.DecodeSubroutine | src/opcodes.rs:163-174 | bit 11 set gives JSR with offset bits 7..0; bit 11 clear gives JSRR with base bits 8..6 |
| Opcodes.DecodeLoad | src/opcodes.rs:175-181 | LD: dr from bits 11..9, offset from bits 7..0 |
| Opcodes.DecodeLoadIndirect | src/opcodes.rs:182-188 | LDI: dr from bits 11..9, offset from bits 7..0 |
| Opcodes.DecodeLoadRegister | src/opcodes.rs:189-196 | LDR: dr from bits 11..9, base from bits 8..6, offset from bits 5..0 |
| Opcodes.DecodeLoadEffective | src/opcodes.rs:197-203 | LEA: dr from bits 10..8, offset from bits 7..0 |
| Opcodes.DecodeNot | src/opcodes.rs:204-210 | NOT takes both dr and sr from bits 11..9, so sr equals dr |
| Opcodes.DecodeStore | src/opcodes.rs:212-218 | ST: sr from bits 10..8, offset from bits 7..0 |
| Opcodes.DecodeStoreIndirect | src/opcodes.rs:219-225 | STI: sr from bits 10..8, offset from bits 7..0 |
| Opcodes.DecodeStoreRegister | src/opcodes.rs:226-233 | STR: sr from bits 11..9, base from bits 8..6, offset from bits 5..0 |
| Opcodes.DecodeFixed | src/opcodes.rs:211-247 | nibble 0b1000 always decodes to RTI and nibble 0b1101 always to RESERVED; neither is an error |
| Opcodes.DecodeTrap | src/opcodes.rs:234-246 | low byte 0x20..0x25 decodes to GETC, OUT, PUTS, IN, PUTSP, HALT in that order |
| Opcodes.AddImmediateRange | src/opcodes.rs:112-118 | ADD's immediate, read as `i16`, lies in 0..31: it is never negative |
| Opcodes.AndImmediateRange | src/opcodes.rs:134-140 | AND's immediate, read as `i16`, lies in 0..31 |
| Opcodes.BranchOffsetRange | src/opcodes.rs:149 | BR's offset, read as `i16`, lies in 0..511 |
| Opcodes.Encode | src/opcodes.rs:96-253 | the canonical word of an instruction in the decoder's range carries its opcode number in bits 15..12; Opcodes.DecodeEncode proves the decoder inverts it |
| Opcodes.DecodeEncode | src/opcodes.rs:96-253 | decoding the canonical word of any instruction in the decoder's range gives that instruction back |
| Opcodes.EncodeDecode | src/opcodes.rs:96-253 | every decoded instruction is in the decoder's range (register indices below 8, zero-extended offsets, JMP never on R7, NOT with sr = dr) and keeps its opcode nibble; encoding it rebuilds the word except for the bits the decoder ignores |
| Memory.Origin | src/memory.rs:41 | the origin is `buff[0] * 256 + buff[1]`, below 65536 |
| Memory.WordCount | src/memory.rs:45-50 | the loader copies min((len - 2) / 2, 0xFFFF - origin) words |
| Memory.ImageWord | src/memory.rs:46 | word k of the image is `buff[2 + 2k] * 256 + buff[3 + 2k]` |
| Memory.LoadableImage | src/memory.rs:40-51 | the images `load_bulk` copies without a panic: at least two bytes, and no odd trailing byte that the copy reaches |
| Memory.LoadedImage | src/memory.rs:40-51 | the memory after loading has 65536 cells; which cells hold image words is stated by Memory.LoadedCell and Memory.LoadedImageBounds |
| Memory.Memory.constructor | src/memory.rs:19-23 | a new memory has 65536 cells, all zero |
| Memory.Memory.Write | src/memory.rs:25-31 | below 65536 exactly that cell changes; at or past 65536 it is `OutOfBoundsWrite(addr)` and nothing changes |
| Memory.Memory.Read | src/memory.rs:33-38 | below 65536 it gives the cell; otherwise `OutOfBoundsRead(addr)` |
| Memory.ReadAfterWrite | src/memory.rs:25-38 | after `write(addr, val)`, `read(addr)` gives `val`; past the end both fail; every other address reads as it did before the write |
| Memory.Memory.LoadBulk | src/memory.rs:40-51 | the memory afterwards is `LoadedImage`: image words from the origin, every other cell unchanged |
| Memory.LoadedCell | src/memory.rs:40-51 | one cell of the loaded memory: an image word inside the loaded range, the old cell outside it |
| Memory.LoadedImageBounds | src/memory.rs:40-51 | cell 0xFFFF is never written; cells outside the loaded range keep their value; cell origin + k holds `join_u8(buff[2+2k], buff[3+2k])` |
| Memory.LoadExample | src/vm.rs:405-418 | the image [0x30,0x00,0xca,0xfe,0xba,0xbe] loads 0xcafe at 0x3000 and 0xbabe at 0x3001 and leaves the neighbouring cells alone |
| Machine.FlagOfBits | src/vm.rs:69-80 | `cond_flag` on the COND bits: Pos, Zero, Neg for 1, 2, 4 and None for any other pattern (MachineFacts.CondFlagBits; Machine.BitsOfFlag shows it inverts `set_cond_flag`) |
| Machine.CondFlag | src/vm.rs:69-80 | `FlagOfBits` of the COND register; not None exactly on the patterns 1, 2, 4 (MachineFacts.CondFlagBits) |
| Machine.BitsOfFlag | src/vm.rs:82-89 | `cond_flag` reads back the flag `set_cond_flag` stored; the stored pattern is 1, 2 or 4 exactly for Pos, Zero, Neg |
| Machine.SetCondFlag | src/vm.rs:82-89 | only COND changes, and it then reads as the given flag |
| Machine.FlagFor | src/vm.rs:309-316 | never None; Zero exactly for 0; Neg exactly when the top bit is set (negative as `i16`) |
| Machine.SetFlags | src/vm.rs:309-316 | only COND changes, and it holds the flag of the result's sign; every other register, the memory and the console keep their values |
| Machine.WriteResult | src/vm.rs:113-114 | DR holds the result, COND its flag, and every other register, the memory and the console are unchanged |
| Machine.Pc | src/vm.rs:269-271 | the PC register; every `Machine` function that moves PC states its new value through it (Machine.SetPc, RunFacts.AdvancePcWraps) |
| Machine.SetPc | src/vm.rs:273-276 | only PC changes, and it holds the new value |
| Machine.Link | src/vm.rs:173-183 | only the registers change: R7 takes PC (stated with its callers by MachineFacts.SubroutineLinks and MachineFacts.TrapLinks) |
| Machine.PcWithOffset | src/vm.rs:282-285 | `wrapping_add_signed` on the 16-bit PC: the address is (PC + offset) modulo 2^16, as MachineFacts.LeaAddress, MachineFacts.LoadReadsOneCell and MachineFacts.StoreWritesOneCell state |
| Machine.AdvancePc | src/vm.rs:278-280 | PC + 1 modulo 2^16 and nothing else (RunFacts.AdvancePcWraps) |
| Machine.HandleKeyboard | src/vm.rs:298-307 | registers unchanged; with no input left it faults; otherwise one byte is consumed and KBSR/KBDR are set from it (MachineFacts.KeyboardPoll) |
| Machine.Read | src/vm.rs:287-292 | registers unchanged; KBSR polls the keyboard first; any other cell is read without a change; past the end the out-of-bounds panic (MachineFacts.ReadCell, MachineFacts.KeyboardPoll) |
| Machine.ReadWithOffset | src/vm.rs:294-296 | `read` at PC + offset modulo 2^16: registers unchanged; the address is always in bounds, so it faults only when it polls KBSR with no input left (MachineFacts.PcRelativeRead, ReadCell, KeyboardPoll) |
| Machine.Operand | src/vm.rs:106-151 | the `imm_flag` choice of ADD and AND: the source register's value, or the immediate's 16-bit pattern (MachineFacts.AddAdds, MachineFacts.AndMasks) |
| Machine.PutsChars | src/vm.rs:332-341 | PUTS's loop from a cell on: the low bytes of the cells before the first zero cell, or the index panic at 0x10000 (ConsoleFacts.PutsUpToZero, ConsoleFacts.PutsRunsOff) |
| Machine.PackedChars | src/vm.rs:357-364 | one PUTSP cell: its low byte, then its high byte when nonzero (ConsoleFacts.UnpackedLength) |
| Machine.PutspChars | src/vm.rs:354-367 | PUTSP's loop from a cell on: the packed characters of the cells before the first zero cell, or the index panic at 0x10000 (ConsoleFacts.PutspUpToZero, PutspRunsOff, UnpackedLength) |
| Machine.ReadChar | src/vm.rs:320-325 | GETC's read, also the tail of IN (lines 342-353): faults exactly when no input is left; otherwise R0 takes the next byte, the flag is set and the byte is consumed (ConsoleFacts.GetcReads, ConsoleFacts.InPromptsThenReads) |
| Machine.Trap | src/vm.rs:318-372 | a valid state on success; each trap is described by the ConsoleFacts lemmas (GETC, IN, OUT, PUTS, PUTSP, HALT) |
| Machine.Operate | src/vm.rs:106-151 | ADD, AND (and NOT, LEA at lines 215-226) give a valid state; their results are stated by MachineFacts.AddAdds, AndMasks, NotComplements and LeaAddress |
| Machine.Control | src/vm.rs:152-183 | BR, JMP, RET, JSR and JSRR give a valid state; stated by MachineFacts.BranchTakenIff, JumpTargets, SubroutineLinks and SubroutineRegisterLinks |
| Machine.Load | src/vm.rs:184-214 | LD, LDI and LDR give a valid state; stated by MachineFacts.LoadReadsOneCell, LoadIndirectReads, LoadIndirectThroughKeyboard and LoadRegisterAddress |
| Machine.Write | src/vm.rs:242 | `memory[dir] = val`: below 65536 exactly that cell changes; otherwise the out-of-bounds panic |
| Machine.Store | src/vm.rs:231-256 | ST, STI and STR give a valid state; stated by MachineFacts.StoreWritesOneCell, StoreIndirectWritesOneCell, StoreIndirectThroughKeyboard and StoreRegisterAddress |
| Machine.Exec | src/vm.rs:104-267 | `execute`: a valid state on success; RTI changes nothing, RESERVED is the reserved-instruction panic, TRAP links R7 first (MachineFacts.TrapLinks, RunFacts.StepReserved, RunFacts.StepReturnFromInterrupt) |
| Machine.Step | src/vm.rs:47-62 | one turn of the loop gives a valid state; stated by RunFacts.StepExecutes, StepReserved, StepReturnFromInterrupt, StepUnknownTrap and StepHalt |
| Machine.RunLoop | src/vm.rs:47-62 | the loop for at most `fuel` turns keeps the state valid; a stopped machine is left as it is (RunFacts.RunLoopStopped) |
| Machine.Run | src/vm.rs:44-63 | `run` sets `running` and loops; a valid state on success (RunFacts.HaltProgram) |
| Machine.Init | src/vm.rs:32-42 | `VM::new` gives a valid state; its contents are stated by RunFacts.InitState and RunFacts.InitExample |
| MachineFacts.SetFlagsBySign | src/vm.rs:309-316 | COND holds exactly one of 1, 2, 4, chosen by the sign of the result as `i16` |
| MachineFacts.CondFlagBits | src/vm.rs:69-89 | `cond_flag` is not None exactly on the patterns 1, 2 and 4, and `set_cond_flag` stores those patterns back |
| MachineFacts.AddAdds | src/vm.rs:106-125 | ADD puts the sum modulo 2^16 in DR and sets the flags from it; nothing else changes |
| MachineFacts.WrappingAddWide | src/vm.rs:111 | `wrapping_add` is the unbounded sum modulo 2^16 |
| MachineFacts.AddExamples | src/vm.rs:439-494 | 0 + immediate 0xFFFB (-5) gives 0xFFFB with flag Neg and leaves R1, R2 at 0; 0xFFFF + R2 = 2 gives 1 with flag Pos; 0xFFFF + immediate 2 gives 1 with flag Pos |
| MachineFacts.AddSimpleExample | src/vm.rs:419-437 | with R1 = 3 and R2 = 5, register ADD gives 8 with flag Pos and leaves R1, R2 alone |
| MachineFacts.AndExamples | src/vm.rs:495-551 | with R1 = 4 and R2 = 7: R1 AND R1 gives 4, R1 AND immediate 9 gives 0, R1 AND immediate 0 gives 0 with flag Zero; R1, R2 left alone |
| MachineFacts.AndMasks | src/vm.rs:126-151 | AND puts in DR exactly the bits set in both operands and sets the flags; nothing else changes |
| MachineFacts.NotComplements | src/vm.rs:221-226 | NOT puts 0xFFFF minus the value in DR and sets the flags; applied twice it gives the value back |
| MachineFacts.LeaAddress | src/vm.rs:215-220 | LEA puts (PC + offset) modulo 2^16 in DR and sets the flags; memory is not read |
| MachineFacts.BranchTakenIff | src/vm.rs:152-163 | BR is taken iff (n and Neg) or (z and Zero) or (p and Pos); when taken PC becomes (PC + offset) modulo 2^16 and nothing else changes; when not taken the state is unchanged |
| MachineFacts.BranchExamples | src/vm.rs:152-163 | BRnzp is taken whenever some flag is set but not while COND holds no flag; BR with no condition bit never branches |
| MachineFacts.JumpTargets | src/vm.rs:164-172 | JMP sets PC to the base register and RET sets it to R7; no other register changes |
| MachineFacts.SubroutineLinks | src/vm.rs:173-178 | JSR saves PC in R7 and moves PC by the offset modulo 2^16; a RET afterwards returns to the saved PC |
| MachineFacts.SubroutineRegisterLinks | src/vm.rs:179-183 | JSRR saves PC in R7 before reading the base register, so JSRR R7 leaves PC where it was |
| MachineFacts.TrapLinks | src/vm.rs:257-261 | TRAP saves PC in R7 before the service routine runs |
| MachineFacts.ReadCell | src/vm.rs:287-292 | reading a cell other than KBSR gives the cell and changes nothing; past the end it is the out-of-bounds panic |
| MachineFacts.KeyboardPoll | src/vm.rs:298-307 | reading KBSR consumes one input byte b. If b is nonzero, KBSR reads 0x8000 and KBDR holds b. If b is 0, KBSR reads 0. No other cell changes. With no byte left it faults |
| MachineFacts.LoadRegisterAddress | src/vm.rs:204-214 | LDR faults exactly when the `i16` sum of base register and offset is negative, at an address of at least 2^63; otherwise DR holds that cell |
| MachineFacts.StoreRegisterAddress | src/vm.rs:250-256 | STR faults exactly when that sum is negative; otherwise exactly that one cell takes the source register |
| MachineFacts.StoreWritesOneCell | src/vm.rs:231-243 | ST never faults and changes exactly the cell at (PC + offset) modulo 2^16, and no register |
| MachineFacts.LoadReadsOneCell | src/vm.rs:184-189 | away from KBSR, LD puts the cell at (PC + offset) modulo 2^16 in DR, sets the flag, and nothing else changes; at KBSR it faults exactly when no input is left, and otherwise gives `PolledInto` of that address |
| MachineFacts.PolledInto | src/vm.rs:287-307 | a keyboard poll followed by a load into DR: one input byte consumed, DR holds the polled cell, COND its flag, the memory is the polled memory, every other register and the output unchanged |
| MachineFacts.LoadInBounds | src/vm.rs:184-189 | LD's address is always in bounds: it can only fault by polling the keyboard with no input left |
| MachineFacts.LoadIndirectInBounds | src/vm.rs:190-203 | both of LDI's addresses are in bounds: its only fault is an exhausted keyboard |
| MachineFacts.LoadIndirectReads | src/vm.rs:190-203 | when neither the PC-relative cell nor the address stored there is KBSR, LDI never faults, DR holds the cell at the stored address, the flag is set and nothing else changes |
| MachineFacts.LoadIndirectPollsStored | src/vm.rs:190-203 | when the stored address is KBSR, LDI faults exactly when no input is left, and otherwise gives `PolledInto` of KBSR: the keyboard is polled before the second read |
| MachineFacts.LoadIndirectThroughKeyboard | src/vm.rs:190-203 | when the PC-relative cell is KBSR: LDI faults exactly when no input is left; otherwise the poll leaves 0x8000 (nonzero byte) or 0 in KBSR, and DR receives the untouched cell at that status address |
| MachineFacts.StoreIndirectWritesOneCell | src/vm.rs:244-249 | when the PC-relative cell is not KBSR, STI never faults and writes the source register into exactly the cell whose address is stored there; no register changes |
| MachineFacts.StoreIndirectThroughKeyboard | src/vm.rs:244-249 | when the PC-relative cell is KBSR: STI faults exactly when no input is left; otherwise it writes the source register at the status address (0x8000 or 0) in the polled memory |
| MachineFacts.StoreIndirectInBounds | src/vm.rs:244-249 | STI's addresses are in bounds: its only fault is an exhausted keyboard |
| MachineFacts.PcRelativeRead | src/vm.rs:282-296 | a read at a 16-bit address faults only when it polls KBSR with no input left |
| MachineFacts.ReadAfterWrite | src/vm.rs:242-292 | after a store to a cell other than KBSR, `read` of that cell gives the stored value and changes nothing; any other non-KBSR address reads (or fails) as before |
| ConsoleFacts.GetcReads | src/vm.rs:320-325 | GETC faults iff no input is left. Otherwise R0 gets the next byte, zero-extended, and the flag is Zero or Pos. The byte is consumed; nothing else changes |
| ConsoleFacts.InPromptsThenReads | src/vm.rs:342-353 | IN prints "Enter a character: " and a newline, then reads like GETC |
| ConsoleFacts.OutPrints | src/vm.rs:326-331 | OUT appends the low byte of R0 to the output and changes nothing else |
| ConsoleFacts.HaltStops | src/vm.rs:368-370 | HALT clears `running` and nothing else; the run loop then stops immediately |
| ConsoleFacts.PutsUpToZero | src/vm.rs:332-341 | PUTS on a string terminated by a zero cell prints exactly the low bytes of the cells before it |
| ConsoleFacts.PutsRunsOff | src/vm.rs:332-341 | PUTS with no zero cell before the end of memory is the index panic at 0x10000 |
| ConsoleFacts.PutspUpToZero | src/vm.rs:354-367 | PUTSP on a terminated string prints each cell's low byte, then its high byte when nonzero |
| ConsoleFacts.PutspRunsOff | src/vm.rs:354-367 | PUTSP with no zero cell before the end of memory is the index panic at 0x10000 |
| ConsoleFacts.UnpackedLength | src/vm.rs:354-367 | PUTSP prints one or two characters per cell, and exactly what PUTS prints when every high byte is zero |
| ConsoleFacts.PutsPrints | src/vm.rs:332-341 | the PUTS trap on the terminated string at R0 appends its low bytes to the output and changes nothing else |
| ConsoleFacts.PutspPrints | src/vm.rs:354-367 | the PUTSP trap on the terminated string at R0 appends its packed characters and changes nothing else |
| RunFacts.InitState | src/vm.rs:32-42 | a new machine: PC 0x3000, COND no flag, R0..R7 zero, not running, no output, image words from the origin, every other cell zero |
| RunFacts.InitExample | src/vm.rs:405-418 | with image [0x30,0x00,0xca,0xfe,0xba,0xbe], cells 0x3000 and 0x3001 hold 0xcafe and 0xbabe, and every cell below 0x3000 is zero |
| RunFacts.AdvancePcWraps | src/vm.rs:278-285 | advancing adds 1 to PC modulo 2^16, so 0xFFFF becomes 0; no other register changes |
| RunFacts.StepExecutes | src/vm.rs:47-62 | a step fetches the word at PC and executes its decoded instruction with PC already advanced |
| RunFacts.StepReserved | src/vm.rs:262-265 | a step on opcode nibble 0b1101 is the reserved-instruction panic |
| RunFacts.StepReturnFromInterrupt | src/vm.rs:227-230 | a step on RTI only advances PC |
| RunFacts.StepUnknownTrap | src/vm.rs:53-57 | decoding fails only on an unknown trap byte, and the step then faults with that byte |
| RunFacts.StepHalt | src/vm.rs:47-62 | a step on 0xF025 stops the machine with PC and R7 both at the advanced PC, memory and console unchanged |
| RunFacts.RunLoopStopped | src/vm.rs:47 | the loop leaves a stopped machine as it is |
| RunFacts.HaltProgram | src/vm.rs:44-63 | the program made of one TRAP HALT at 0x3000 stops after one step with PC and R7 at 0x3001 and no output |
| Vm.VM.constructor | src/vm.rs:32-42 | `VM::new` builds exactly `Machine.Init(data, stdin)` |
| Vm.VM.ReadDataIntoMemory | src/vm.rs:91-102 | the loop leaves the memory equal to `LoadedImage` of the old memory |
| Vm.VM.Pc | src/vm.rs:269-271 | the PC of the state the arrays represent (`Machine.Pc`) |
| Vm.VM.PcWithOffset | src/vm.rs:282-285 | `Machine.PcWithOffset` of that state: (PC + offset) modulo 2^16 (MachineFacts.LeaAddress) |
| Vm.VM.Fetch | src/vm.rs:65-67 | the word at PC |
| Vm.VM.CondFlag | src/vm.rs:69-80 | the flag whose pattern COND holds, None for any other pattern |
| Vm.VM.SetCondFlag | src/vm.rs:82-89 | the new state is `Machine.SetCondFlag` of the old one |
| Vm.VM.SetFlags | src/vm.rs:309-316 | the new state is `Machine.SetFlags` of the old one |
| Vm.VM.SetPc | src/vm.rs:273-276 | the new state is `Machine.SetPc` of the old one |
| Vm.VM.AdvancePc | src/vm.rs:278-280 | the new state is `Machine.AdvancePc` of the old one |
| Vm.VM.HandleKeyboard | src/vm.rs:298-307 | outcome and new state are those of `Machine.HandleKeyboard` |
| Vm.VM.Read | src/vm.rs:287-292 | value, outcome and new state are those of `Machine.Read` |
| Vm.VM.ReadWithOffset | src/vm.rs:294-296 | value, outcome and new state are those of `Machine.ReadWithOffset`: the cell at PC + offset modulo 2^16, faulting only when it polls an exhausted keyboard at KBSR |
| Vm.VM.WriteResult | src/vm.rs:113-114 | the new state is `Machine.WriteResult` of the old one |
| Vm.VM.Link | src/vm.rs:174 | the new state is `Machine.Link` of the old one |
| Vm.VM.PutsLoop | src/vm.rs:332-341 | the loop's outcome and output are those of the PUTS trap |
| Vm.VM.PutspLoop | src/vm.rs:354-367 | the loop's outcome and output are those of the PUTSP trap |
| Vm.VM.ReadChar | src/vm.rs:320-325 | outcome and new state are those of `Machine.ReadChar`: a fault when no input is left, otherwise R0 takes the next byte and the flag is set |
| Vm.VM.HandleTrapCode | src/vm.rs:318-372 | outcome and new state are those of `Machine.Trap` |
| Vm.VM.ExecuteOperate | src/vm.rs:106-151 | ADD, AND (and NOT, LEA at lines 215-226) produce the state `Machine.Operate` gives |
| Vm.VM.ExecuteControl | src/vm.rs:152-183 | BR, JMP, RET, JSR and JSRR produce the state `Machine.Control` gives |
| Vm.VM.ExecuteLoad | src/vm.rs:184-214 | LD, LDI and LDR produce the outcome and state `Machine.Load` gives |
| Vm.VM.Write | src/vm.rs:242 | outcome and new state are those of `Machine.Write` |
| Vm.VM.ExecuteStore | src/vm.rs:231-256 | ST, STI and STR produce the outcome and state `Machine.Store` gives |
| Vm.VM.Execute | src/vm.rs:104-267 | outcome and new state are those of `Machine.Exec` |
| Vm.VM.Run | src/vm.rs:44-63 | outcome and new state are those of `Machine.Run` for the same fuel |
| Legacy.PcWithOffset | src/main.rs:310-312 | the `usize` address has the same low 16 bits as the newer engine's; it is in bounds exactly when the 16-bit sum is non-negative as `i16`, and then equals it |
| Legacy.SetPc | src/main.rs:302-304 | `new_pc as u16`: PC holds the low 16 bits |
| Legacy.AdvancePc | src/main.rs:306-308 | `+= 1` overflows exactly at PC 0xFFFF; below that it is the newer engine's advance |
| Legacy.Read | src/main.rs:314-316 | the cell at the position with no keyboard poll; past the end the out-of-bounds panic |
| Legacy.SetFlags | src/main.rs:322-331 | Zero for 0, Pos above 0 as `i16`, Neg otherwise: the same state as the newer engine's `set_flags` |
| Legacy.CondFlagAnySet | src/main.rs:111-113 | true exactly when COND holds 1, 2 or 4 |
| Legacy.WriteResult | src/main.rs:139-256 | `registers[dr] = res; set_flags(res)` is the newer engine's `Machine.WriteResult` |
| Legacy.Operate | src/main.rs:139-184 | ADD, AND (and LEA, NOT at lines 245-256) give a valid state; stated by LegacyFacts.AddRegisterOverflow, AddRegisterSum, AddImmediateWraps and OperateAgrees |
| Legacy.Control | src/main.rs:185-214 | BR, JMP, RET, JSR and JSRR give a valid state; stated by LegacyFacts.BranchAgrees, JumpAgrees, ReturnAgrees, JsrDoesNotLink and JsrrDoesNotLink |
| Legacy.Load | src/main.rs:215-244 | LD, LDI and LDR give a valid state; stated by LegacyFacts.LoadPcRelative, LoadIndirectPcRelative, LoadIndirectAgrees and LoadRegisterIndex |
| Legacy.Store | src/main.rs:261-285 | ST, STI and STR give a valid state; stated by LegacyFacts.StorePcRelative, StoreIndirectPcRelative and StoreRegisterIndex |
| Legacy.Trap | src/main.rs:333-369 | GETC and IN change nothing; OUT, PUTS, PUTSP and HALT behave as in the newer engine |
| Legacy.Exec | src/main.rs:137-296 | the older `execute`: a valid state on success; compared with `Machine.Exec` instruction by instruction in LegacyFacts |
| Legacy.Step | src/main.rs:75-91 | one turn of the older loop gives a valid state (LegacyFacts.StepCompared) |
| LegacyFacts.AddRegisterOverflow | src/main.rs:139-148 | register ADD faults with `AddOverflow` exactly when the true sum exceeds 0xFFFF |
| LegacyFacts.AddRegisterSum | src/main.rs:139-148 | without overflow, register ADD gives the newer engine's state |
| LegacyFacts.AddImmediateWraps | src/main.rs:149-158 | immediate ADD wraps through `i16` and gives the newer engine's state |
| LegacyFacts.AddOverflowExample | src/main.rs:139-158 | with R1 = 0xFFFF and R2 = 2, register ADD panics here where the newer engine gives 1; immediate ADD of 2 gives 1 |
| LegacyFacts.OperateAgrees | src/main.rs:159-256 | AND, NOT and LEA give the newer engine's state; LEA's `as u16` undoes the `i16` address |
| LegacyFacts.BranchAgrees | src/main.rs:185-196 | BR gives the newer engine's state |
| LegacyFacts.JumpAgrees | src/main.rs:197-200 | JMP gives the newer engine's state |
| LegacyFacts.ReturnAgrees | src/main.rs:201-205 | RET gives the newer engine's state |
| LegacyFacts.JsrDoesNotLink | src/main.rs:206-210 | JSR moves PC to the same target as the newer engine but leaves R7 unchanged, where the newer engine stores PC in it |
| LegacyFacts.JsrrDoesNotLink | src/main.rs:211-214 | JSRR only sets PC to the base register |
| LegacyFacts.LoadPcRelative | src/main.rs:215-220 | LD faults exactly when PC + offset is negative as `i16`, at an address of at least 2^63. Otherwise DR holds that cell, as in the newer engine away from KBSR |
| LegacyFacts.LoadIndirectPcRelative | src/main.rs:221-234 | LDI faults exactly when its PC-relative address is negative as `i16`; otherwise DR holds the cell whose address is stored there |
| LegacyFacts.LoadIndirectAgrees | src/main.rs:221-234 | when neither the PC-relative address nor the address stored there is KBSR, LDI gives the newer engine's outcome and state |
| LegacyFacts.StorePcRelative | src/main.rs:261-273 | ST faults exactly when PC + offset is negative as `i16`; otherwise it gives the newer engine's state |
| LegacyFacts.StoreIndirectPcRelative | src/main.rs:274-279 | STI faults exactly when its PC-relative address is negative as `i16`; otherwise exactly the cell at the stored address takes the source register, and when the PC-relative address is not KBSR this is the newer engine's result |
| LegacyFacts.LoadRegisterIndex | src/main.rs:235-244 | LDR reads cell `baseR + offset` (the register index, not its contents) for every decodable instruction |
| LegacyFacts.StoreRegisterIndex | src/main.rs:280-285 | STR writes cell `baseR + offset` for every decodable instruction |
| LegacyFacts.ReadHasNoKeyboard | src/main.rs:314-316 | reading KBSR gives the stored cell and consumes no input, where the newer engine consumes a byte |
| LegacyFacts.ReadAfterWrite | src/main.rs:314-316 | after a store, the older `read` gives the stored value at that cell, KBSR included, and the old value everywhere else |
| LegacyFacts.TrapsCompared | src/main.rs:286-290 | TRAP links R7 in both engines; GETC and IN then do nothing; every other trap matches the newer engine |
| LegacyFacts.FlagsAlwaysSet | src/main.rs:111-113 | after `set_flags` some flag is always set; no flag is set exactly when COND reads None |
| LegacyFacts.StepCompared | src/main.rs:75-91 | the step faults at PC 0xFFFF before decoding; below that it advances PC as the newer engine does and runs the older `execute` on the decoded word |

## Left out

- `src/terminal.rs` (termios mode switching and the foreign `getchar`) is host I/O and is not part of this model. The `Terminal` type used by `src/main.rs` is not part of this model; its `out(ch)` is taken to append `ch` to the output.
- `main()` reading `2048.obj` from disk. The image is a parameter of `Machine.Init` / `Vm.VM.constructor`.
- Real stdin and stdout are replaced by an input byte sequence and an output byte sequence. Blocking, `flush`, the `eprint!` echo to stderr and all tracing (`eprintln!`, `dbg!`, the `Debug` impl, `cycle_count`) are left out because they change no machine state.
- The tracing lines the older engine writes to stdout are deliberately left out of the modelled `output`. In `src/main.rs` the macro that would silence `println!` (lines 5-11) is commented out, so these lines do reach stdout: the per-instruction traces, "GETC: Not implemented", "IN: Not implemented" and "r2:" (line 89). Only the characters the traps print are modelled.
- ConsoleFacts.OutPrints, ConsoleFacts.PutsPrints, ConsoleFacts.PutspPrints: the output is the raw byte. The source prints `byte as char`, which is written as two UTF-8 bytes for codes 0x80..0xFF.
- Machine.Run, Vm.VM.Run: the loop runs at most `fuel` turns. A program that has not halted after `fuel` steps is left with `running` still set.
- A panic during execution (an instruction, a trap or a step) is a `Fault` outcome. The state after the panic, and the unwinding, are not modelled; the class methods leave it unspecified.
- Memory.Memory.LoadBulk, Vm.VM.ReadDataIntoMemory, Vm.VM.constructor: the image must satisfy `Memory.LoadableImage`. It needs at least two bytes, and no odd trailing byte that the copy reaches. `load_bulk` and `read_data_into_memory` panic on any other image: on `buff[0]`/`buff[1]` for an image shorter than two bytes (`src/memory.rs:41`, `src/vm.rs:92`), and on `buff[buff_i + 1]` (`data[data_i + 1]` in `src/vm.rs:97`) for an odd trailing byte (`src/memory.rs:46`). That panic is a precondition here, not a `Fault`. The same holds for Machine.Init.
- Machine.SetPc takes a `u16`. Every caller in `src/vm.rs` passes a `u16` widened to `usize`, so the `try_from(..).expect` in `set_pc` cannot fail and is not modelled.
- Machine.Exec, Vm.VM.Execute and Legacy.Exec require register indices below 10. The source would panic on a larger index, but the decoder only produces indices below 8 (Opcodes.EncodeDecode).
- The decoder's `Err(())` arm and the `run` branch that handles it are modelled, and proved unreachable (Opcodes.DecodeFailsOnlyOnUnknownTrap).
- The older engine of `src/main.rs` is modelled on values (module Legacy), not as a class. It updates the same arrays with the same loops as `src/vm.rs`, so the in-place update and its frames are captured only for the newer engine.
- The older engine's `run` (`src/main.rs:69-92`) is the same loop as the newer one's, so only its body, `Legacy.Step`, is modelled.
- The older engine's `VM::new` and `read_data_into_memory` are the newer engine's with an empty input (`Machine.Init`). Its `join_u8` and `base_r_with_offset` are `Util.JoinU8` and `Util.BaseROffset`.
- LegacyFacts.AddRegisterOverflow: overflow of `+` and `+=` on `u16` is taken as the panic of a debug build. A release build would wrap, and would then agree with the newer engine.
