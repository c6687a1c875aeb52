# dax86: the execute step for opcodes C0..CF

This project is a Dafny model of the part of the dax86 32-bit x86 emulator that executes
the opcode block C0..CF, and of the emulator state and access layer those handlers use.

- `machine.dfy` (module `Machine`) holds the CPU state of `emulator.h`:
  - the machine word types;
  - the numbering of the general registers, the 8-bit register names, the segment and control registers;
  - the state record, as the class `Emulator` and as the value `State` (`Emulator.View`).
- `access.dfy` (module `Access`) is the access layer of `emulator_functions.h`:
  - the eflags masks, setters and readers, and the add/sub flag update;
  - code fetch relative to eip;
  - little-endian memory;
  - 8- and 32-bit register access;
  - the 32-bit stack, and popping a selector.

  Each mutator is a method whose `modifies` clause names the fields it changes. It is specified by a function on values, and the layer's properties are lemmas about those functions.
- `modrm.dfy` (module `Operands`) is the ModR/M operand layer the handlers call:
  - the decoded descriptor;
  - `parse_modrm` as a decoder parameter;
  - the rm8/rm32 accessors: mode 3 is a register, any other mode is memory at the effective address.
- `shift.dfy` (module `Shift`) holds the shift/rotate unit. Its fourteen operations are function values, so the results about C0/C1 hold for any implementation of them.
- `instructions_c0.dfy` (module `InstructionsC0`) holds the handlers:
  - the count normalisation loops;
  - the C0/C1 group with its second dispatch;
  - `ret`, `ret_far`, `les`/`lds`, the immediate moves C6/C7, `leave`, `int imm8` and `iret`.

  Each handler is a method. Its postcondition equates the new state with a step function (`After…`) of the old state. Lemmas state what each step does:
  - how far eip moves;
  - what the written operand or register now reads;
  - which flags, registers, selectors and memory bytes are unchanged;
  - round trips against the stack frames a call, a far call, a function prologue and an interrupt push.

Integers are unbounded in Dafny. Every uint32_t addition in the source (`emu->eip += n`, the stack pointer moving by 4, `address + 2`) is written with an explicit reduction modulo 2^32 (`Wrap32`). eflags is a 32-bit bit-vector, so the masks are bit operations.

A handler that meets a sub-code it has no case for does not exit the process in this model. It returns `Unimplemented(opcode, subcode)`, with eip just past the ModR/M bytes. `int imm8` returns `Interrupt(vector, true)`, which is what `handle_interrupt` receives.

The code advances eip by 2 inside `int_imm8` (instructions_C0.c:376), before it calls `handle_interrupt`. The model follows the code and does not leave that advance to the interrupt logic.

## Model

| member | source | states |
|---|---|---|
| Machine.Wrap32 | emulator.h:62-70 | storing an arithmetic result in a uint32_t field keeps it modulo 2^32, and values already in range are unchanged |
| Machine.RegisterIndex | emulator.h:20-30 | the eight general registers are numbered 0..7 in ModR/M REG order (EAX=0 … EDI=7), and EAX..EBX are exactly the ones below 4 |
| Machine.RegisterAt | emulator.h:6-30 | a 3-bit REG/RM field names the register with that number |
| Machine.RegisterNumbering | emulator.h:20-30 | the register numbering is a bijection between the eight registers and 0..7 |
| Machine.Register8Index | emulator.h:31-38 | AL..BL are numbered as EAX..EBX and each xH as xL + 4, so every 8-bit index is in 0..7 |
| Machine.ByteAliasesOnlyForFirstFour | emulator.h:10-18 | a 32-bit register has an 8-bit name exactly when it is EAX, ECX, EDX or EBX |
| Machine.SegmentIndex | emulator.h:41-50 | the six selectors CS, DS, ES, SS, FS, GS are numbered 0..5 |
| Machine.SegmentNumbering | emulator.h:41-50 | no two selectors share a number |
| Machine.ControlIndex | emulator.h:52-60 | the five control registers CR0..CR4 are numbered 0..4 |
| Machine.Emulator.View | emulator.h:62-70 | a valid state record has eight general registers, six selectors and at most 2^32 memory bytes |
| Machine.Emulator.constructor | emulator.h:62-70 | a valid record with every field of the struct over a loaded image, with eip at the entry point; the zero eflags, registers, selectors and control registers are this model's choice of initial values, since the header only declares the fields |
| Access.FlagMasksDisjoint | emulator_functions.h:9-14 | each eflags mask is a single bit and distinct masks share no bit |
| Access.WithFlag | emulator_functions.h:54-59 | after `set_*_flag(on)` the mask's bit is set exactly when `on`, and every other eflags bit is kept |
| Access.WithFlagKeepsOthers | emulator_functions.h:54-66 | setting one flag does not change what the reader of any other flag reports |
| Access.ArithmeticFlagsMeaning | emulator_functions.h:68-69 | from a raw 64-bit result: carry iff it exceeds 32 bits, zero and sign from its low 32 bits, overflow as given, no other eflags bit touched |
| Access.AddOverflowMeaning | emulator_functions.h:68 | the operand-sign overflow test of the add update holds exactly when the signed sum does not fit in 32 bits |
| Access.SubOverflowMeaning | emulator_functions.h:69 | the operand-sign overflow test of the sub update holds exactly when the signed difference does not fit in 32 bits |
| Access.AddFlagsMeaning | emulator_functions.h:68 | for v1 + v2: carry iff the sum exceeds 0xFFFFFFFF, zero iff its low 32 bits are 0, sign iff bit 31 of them is set, overflow iff the signed sum overflows |
| Access.SubResult | emulator_functions.h:69 | the 64-bit difference reaches 2^32 exactly when v1 < v2, and its low 32 bits are zero exactly when v1 == v2 |
| Access.SubFlagsMeaning | emulator_functions.h:69 | for v1 - v2: carry iff v1 < v2, zero iff v1 == v2, sign from bit 31 of the difference, overflow iff the signed difference overflows |
| Access.Store32 | emulator_functions.h:30 | a 32-bit store leaves the length and every byte outside its four bytes unchanged |
| Access.Load32Store32 | emulator_functions.h:30-34 | a 32-bit read after a 32-bit write at the same address returns the written value |
| Access.Load32StoreElsewhere | emulator_functions.h:30-34 | a 32-bit write does not change a 32-bit read that does not overlap it |
| Access.SetReg8Meaning | emulator_functions.h:38-40 | `get_register8` after `set_register8` on the same index returns the value; only the named byte of the owning register changes; no other register or 8-bit name changes |
| Access.Reg8Named | emulator.h:10-38 | the 8-bit names read the documented byte: AL..BL the low byte of EAX..EBX, AH..BH the second byte of the same register |
| Access.SetReg32Meaning | emulator_functions.h:42-44 | `get_register32` after `set_register32` on the same index returns the value; no other register changes |
| Access.PoppedSpUndoesPush | emulator_functions.h:48-50 | ESP + 4 after ESP - 4 (both modulo 2^32) is the original ESP |
| Access.Popped | emulator_functions.h:50 | a pop raises ESP by 4 modulo 2^32 |
| Access.Pushed | emulator_functions.h:48 | after `push32(v)` ESP is lowered by 4 modulo 2^32 and the word on top of the stack is `v`; no other register, selector, eflags, eip or memory byte outside the four written changes |
| Access.PushPopRoundTrip | emulator_functions.h:48-50 | `push32(v)` then `pop32()` returns `v` and restores ESP and every other register, selector, eflags and eip |
| Access.PushKeepsOlderWords | emulator_functions.h:48-50 | a push does not overwrite the word that was on top before it |
| Access.GetCode8 | emulator_functions.h:18 | reads the byte at eip + index (zero-extended) and does not move eip |
| Access.GetSignCode8 | emulator_functions.h:20 | the byte at eip + index read as signed |
| Access.GetCode16 | instructions_C0.c:319 | the little-endian 16-bit value at eip + index, below 2^16 |
| Access.GetCode32 | emulator_functions.h:22 | the little-endian 32-bit value at eip + index |
| Access.GetSignCode32 | emulator_functions.h:24 | the 32-bit value at eip + index read as signed |
| Access.SetMemory8 | emulator_functions.h:28 | stores the low byte of the value at the address and changes no other byte |
| Access.SetMemory32 | emulator_functions.h:30 | stores the value little-endian in four bytes at the address |
| Access.GetMemory8 | emulator_functions.h:32 | the byte at the address, zero-extended |
| Access.GetMemory16 | instructions_C0.c:256 | the little-endian 16-bit value at the address (flat memory, segment ignored) |
| Access.GetMemory32 | instructions_C0.c:257 | the little-endian 32-bit value at the address (flat memory, segment ignored) |
| Access.SetRegister8 | emulator_functions.h:38 | the register file becomes the 8-bit write of `SetReg8` |
| Access.GetRegister8 | emulator_functions.h:40 | low byte of EAX..EBX for indices 0..3, their second byte for 4..7 |
| Access.SetRegister32 | emulator_functions.h:42 | replaces exactly the indexed register |
| Access.GetRegister32 | emulator_functions.h:44 | the indexed register |
| Access.GetSegRegister16 | instructions_C0.c:388 | the indexed selector |
| Access.SetSegRegister16 | instructions_C0.c:258 | replaces exactly the indexed selector |
| Access.Push32 | emulator_functions.h:48 | the state becomes `Pushed`: ESP - 4, value stored there |
| Access.Pop32 | emulator_functions.h:50 | returns the word at ESP and the state becomes `Popped` |
| Access.PopSegmentRegister | instructions_C0.c:364 | a 32-bit pop whose low 16 bits become the indexed selector |
| Access.SetFlag | emulator_functions.h:54-59 | eflags becomes `WithFlag` of the mask and condition |
| Access.IsFlag | emulator_functions.h:61-66 | reports whether the mask's bit is set |
| Access.UpdateEflagsAdd | emulator_functions.h:68 | eflags becomes `AddFlags` of the operands and raw result |
| Access.UpdateEflagsSub | emulator_functions.h:69 | eflags becomes `SubFlags` of the operands and raw result |
| Operands.Advance | instructions_C0.c:27 | `eip += n` moves eip by n modulo 2^32 and changes nothing else |
| Operands.WithRm8 | instructions_C0.c:304 | after `set_rm8` the operand reads the value; a register operand changes only the named byte of its owning register, no other register and no memory; a memory operand changes no register and no other byte |
| Operands.WithRm32 | instructions_C0.c:338 | after `set_rm32` the operand reads the value; a register operand changes no other register and no memory, a memory operand no register and no byte outside its four |
| Operands.WithRm32KeepsDisjoint | instructions_C0.c:338 | a memory write through rm32 leaves every non-overlapping memory operand reading as before |
| Operands.ParseModRM | instructions_C0.c:94-95 | the descriptor decoded at eip, and eip moved past the bytes consumed |
| Operands.GetRm8 | instructions_C0.c:29 | the rm8 operand: an 8-bit register for mode 3, otherwise the byte at the effective address |
| Operands.SetRm8 | instructions_C0.c:304 | the state becomes `WithRm8` |
| Operands.GetRm32 | instructions_C0.c:143 | the rm32 operand: a register for mode 3, otherwise the 32-bit word at the effective address |
| Operands.SetRm32 | instructions_C0.c:321 | the state becomes `WithRm32` |
| InstructionsC0.Normalized | instructions_C0.c:15-22 | the count the loop leaves is at most w, zero exactly when the input is zero, and inputs up to w come back unchanged |
| InstructionsC0.NormalizedIsResidue8 | instructions_C0.c:15-22 | the 8-bit count is congruent to the imm8 modulo 8 |
| InstructionsC0.NormalizedIsResidue32 | instructions_C0.c:129-136 | the 32-bit count is congruent to the imm8 modulo 32 |
| InstructionsC0.AdjustImm8ForRm8 | instructions_C0.c:15-22 | the subtract-8 loop returns the normalised count for width 8 |
| InstructionsC0.AdjustImm8ForRm32 | instructions_C0.c:129-136 | the subtract-32 loop returns the normalised count for width 32 |
| InstructionsC0.SubCode | instructions_C0.c:97-122 | each operation's own sub-code is one of 0..7 other than 6 |
| InstructionsC0.GroupOp | instructions_C0.c:97-126 | a sub-code selects an operation exactly when it is 0..7; 0..5 and 7 select ROL, ROR, RCL, RCR, SHL, SHR, SAR; 6 selects the same as 5 |
| InstructionsC0.GroupOpReachesEveryOp | instructions_C0.c:97-122 | every one of the seven operations has a sub-code that selects it |
| InstructionsC0.CarryInUnusedUnlessTaken | instructions_C0.c:24-88 | ROL, ROR and SHL are not passed the carry flag: their result does not depend on it |
| InstructionsC0.WithCarryOut | instructions_C0.c:40-88 | RCL..SAR set CF to the carry-out; ROL/ROR leave eflags; no other bit or field changes |
| InstructionsC0.ShiftRm8Imm8 | instructions_C0.c:24-88 | read and normalise the count, eip += 1, write the result to rm8, set CF: the state becomes `AfterShiftRm8Imm8` |
| InstructionsC0.ShiftRm8Imm8Effect | instructions_C0.c:24-88 | eip moves by 1; rm8 reads the unit's result for the normalised count and the incoming carry; selectors kept; register operand keeps memory, memory operand keeps registers |
| InstructionsC0.ShiftRm8Imm8Flags | instructions_C0.c:24-88 | ROL/ROR leave eflags unchanged; the others set CF to the carry-out; no other eflags bit changes |
| InstructionsC0.CodeC0 | instructions_C0.c:90-127 | eip past the opcode, decode, dispatch: the state and outcome become `AfterCodeC0` |
| InstructionsC0.CodeC0Dispatch | instructions_C0.c:90-127 | C0 continues exactly for sub-codes 0..7, with eip moved by 1 + ModR/M length + 1; any other sub-code reports (C0, sub-code) with eip past the ModR/M bytes and nothing else changed |
| InstructionsC0.ShiftRm32Imm8 | instructions_C0.c:138-202 | as the 8-bit group on rm32 with the count normalised to 32: the state becomes `AfterShiftRm32Imm8` |
| InstructionsC0.ShiftRm32Imm8Effect | instructions_C0.c:138-202 | eip moves by 1; rm32 reads the unit's result; selectors kept; register operand keeps memory, memory operand keeps registers |
| InstructionsC0.ShiftRm32Imm8Flags | instructions_C0.c:138-202 | ROL/ROR leave eflags unchanged; the others set CF to the carry-out; no other eflags bit changes |
| InstructionsC0.CodeC1 | instructions_C0.c:204-241 | the state and outcome become `AfterCodeC1` |
| InstructionsC0.CodeC1Dispatch | instructions_C0.c:204-241 | C1 continues exactly for sub-codes 0..7, with eip moved by 1 + ModR/M length + 1; otherwise reports (C1, sub-code) with eip past the ModR/M bytes |
| InstructionsC0.Ret | instructions_C0.c:248-251 | eip becomes the popped word, with no other adjustment |
| InstructionsC0.RetReturnsToPushedAddress | instructions_C0.c:243-251 | `ret` after a pushed return address jumps to it and restores ESP, registers, selectors and eflags |
| InstructionsC0.RetFar | instructions_C0.c:361-365 | eip from the first popped word, then CS from the second: the state becomes `AfterRetFar` |
| InstructionsC0.RetFarReturnsToPushedFrame | instructions_C0.c:356-365 | after CS and a return address are pushed, `ret_far` restores eip, CS and ESP and leaves everything else but the frame bytes as before |
| InstructionsC0.LoadSegR32 | instructions_C0.c:253-260 | selector from the effective address into the segment register, offset from address + 2 into the REG register |
| InstructionsC0.Les | instructions_C0.c:268-274 | eip past opcode and ModR/M, then the far pointer loaded into ES and REG |
| InstructionsC0.Lds | instructions_C0.c:282-288 | eip past opcode and ModR/M, then the far pointer loaded into DS and REG |
| InstructionsC0.LoadFarPointerEffect | instructions_C0.c:253-288 | the segment register holds the 16-bit selector at the address and REG the 32-bit offset at address + 2; no other register or selector, eflags or memory changes; eip moved by 1 + ModR/M length |
| InstructionsC0.MovRm8Imm8 | instructions_C0.c:297-305 | the state becomes `AfterMovRm8Imm8` |
| InstructionsC0.MovRm8Imm8Effect | instructions_C0.c:290-305 | rm8 reads the byte after the ModR/M bytes; eip moved by 1 + ModR/M length + 1; eflags and selectors unchanged |
| InstructionsC0.MovRm16Imm16 | instructions_C0.c:314-322 | the state becomes `AfterMovRm16Imm16` |
| InstructionsC0.MovRm16Imm16Effect | instructions_C0.c:307-322 | the whole rm32 operand reads the 16-bit immediate zero-extended (below 2^16); eip moved by 1 + ModR/M length + 2; eflags and selectors unchanged |
| InstructionsC0.MovRm32Imm32 | instructions_C0.c:331-339 | the state becomes `AfterMovRm32Imm32` |
| InstructionsC0.MovRm32Imm32Effect | instructions_C0.c:324-339 | rm32 reads the 32-bit immediate after the ModR/M bytes; eip moved by 1 + ModR/M length + 4; eflags and selectors unchanged |
| InstructionsC0.Leave | instructions_C0.c:346-354 | ESP := EBP, EBP := pop, eip += 1: the state becomes `AfterLeave` |
| InstructionsC0.LeaveUndoesPrologue | instructions_C0.c:341-354 | after `push ebp; mov ebp, esp`, `leave` restores ESP, EBP and every other register and moves eip by 1 |
| InstructionsC0.IntImm8 | instructions_C0.c:373-378 | hands the byte at eip + 1 to the interrupt logic as a software interrupt, with eip moved by 2 and nothing else changed |
| InstructionsC0.Privilege | instructions_C0.c:388 | the level `CS & 3` reads is in 0..3 |
| InstructionsC0.Iret | instructions_C0.c:385-401 | the state becomes `AfterIret` |
| InstructionsC0.IretEffect | instructions_C0.c:385-401 | eip, CS and the whole of eflags come from the words at ESP, ESP + 4, ESP + 8; ESP and SS are popped from ESP + 12 and ESP + 16 exactly when the new CS & 3 exceeds the old, otherwise ESP ends at ESP + 12 and SS stays; other registers, selectors and memory unchanged |
| InstructionsC0.IretReturnsFromInterruptFrame | instructions_C0.c:380-401 | after eflags, CS and a return address are pushed, a same- or inner-level `iret` restores eip, CS, eflags and ESP and every other register and selector |

## Left out

- The bodies of `rol8` … `sar32` (shift.h) are not part of this model. The handlers receive them as a `ShiftUnit` of function values, so no property of the shift results themselves is stated.
- The seven `*_rm8_imm8` and seven `*_rm32_imm8` handlers differ only in which unit operation they call, whether they pass it the current CF (RCL, RCR, SHR and SAR do; ROL, ROR and SHL do not) and whether they set CF from its carry-out. Each family is one method, `ShiftRm8Imm8` or `ShiftRm32Imm8`, taking the operation as a parameter.
- `parse_modrm` and `calc_memory_address` (modrm.c) are not part of this model. Decoding is a function parameter that yields the descriptor, with its effective address and the number of bytes consumed.
- `get_rm8`/`set_rm8`/`get_rm32`/`set_rm32` are modelled by their documented dispatch: mode 3 is a register, any other mode is memory at the effective address.
- LoadFarPointerEffect: for mode 3, `les`/`lds` read memory at the descriptor's address field, whatever `calc_memory_address` would do there.
- `pop_segment_register` is not shown. It is modelled as a 32-bit pop whose low 16 bits become the selector.
- `handle_interrupt`, `write_interrupt` and the IRQ constants of interrupt.h are interrupt and device emulation outside this core. `int_imm8` is modelled up to that call and returns the vector as an `Interrupt` outcome.
- `panic_exit` and the `printf` diagnostics of the group dispatch are modelled as the `Unimplemented` outcome, not as I/O and process exit.
- Segment translation is not modelled; memory is flat. The header declares `get_memory32(emu, address)`, but the handlers call `get_memory16/32(emu, DS, address)`. The model takes the call-site shape and ignores the segment argument.
- Out-of-range memory accesses are fatal in the emulator. Here they are preconditions (`Within`, `CanPop`, `CanPush`, the `…Ready` predicates), so the fatal path is not modelled.
- `update_eflags_add/sub` bodies are not part of this model; the header only declares them with a `uint64_t` raw result. The flag rule is this model's own definition: carry when the raw result is 2^32 or more, zero and sign from its low 32 bits, overflow by the operand-sign rule.
- Port I/O, the control-register semantics, the run loop and image loading are not part of this model. The control registers are a field of `Emulator` that no handler touches.
- IretReturnsFromInterruptFrame: covers only a return to the same or a more privileged level. The outer-level branch (ESP and SS popped) is stated by `IretEffect`, not as a round trip.
- The privileged-flag checks that `iret` skips, as its own comment notes, are absent in the source and absent here.
- Privilege: the contract states only that the level is in 0..3; that it is the selector's low two bits (`& 3`, computed as `% 4`) is its definition, which the `iret` lemmas unfold.
