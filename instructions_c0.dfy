/**
 * The execute step for opcodes C0..CF (instructions_C0.c): the C0/C1
 * shift-and-rotate group with an imm8 count, near and far return, the
 * far-pointer loads LES/LDS, the immediate moves C6/C7, LEAVE, INT imm8
 * and IRET.
 *
 * Every handler is a method on the state record. Its postcondition ties
 * the new state to a step function on state values (`After…`), and the
 * lemmas below state what each step does: how far eip moves, which
 * registers, selectors, flags and memory bytes change, and which stay.
 */
module InstructionsC0 {
  import opened Machine
  import opened Access
  import opened Operands
  import opened Shift

  datatype Option<T> = None | Some(value: T)

  /**
   * How a handler ends: the run loop continues; `int imm8` hands the
   * vector to the interrupt logic; or a group sub-code has no case, where
   * the emulator prints a diagnostic and exits.
   */
  datatype Status =
    | Continue
    | Interrupt(vector: u8, software: bool)
    | Unimplemented(opcode: u8, subcode: u8)

  const EBP_INDEX: nat := RegisterIndex(EBP)
  const CS_INDEX: nat := SegmentIndex(CS)
  const DS_INDEX: nat := SegmentIndex(DS)
  const ES_INDEX: nat := SegmentIndex(ES)
  const SS_INDEX: nat := SegmentIndex(SS)

  // ---------------------------------------------------------------------
  // The shift count

  /**
   * The count the subtraction loops leave: a value above w loses w until
   * it is at most w, so 0 stays 0 and every other value ends in 1..w.
   */
  function Normalized(v: u8, w: u8): (r: u8)
    requires w > 0
    ensures r <= w
    ensures r == 0 <==> v == 0
    ensures v <= w ==> r == v
    decreases v
  {
    if v <= w then v else Normalized(v - w, w)
  }

  /** For 8-bit operands the normalised count is the same count modulo 8. */
  lemma {:induction false} NormalizedIsResidue8(v: u8)
    ensures Normalized(v, 8) % 8 == v % 8
    decreases v
  {
    if v > 8 {
      NormalizedIsResidue8(v - 8);
      assert Normalized(v, 8) == Normalized(v - 8, 8);
    }
  }

  /** For 32-bit operands the normalised count is the same count modulo 32. */
  lemma {:induction false} NormalizedIsResidue32(v: u8)
    ensures Normalized(v, 32) % 32 == v % 32
    decreases v
  {
    if v > 32 {
      NormalizedIsResidue32(v - 32);
      assert Normalized(v, 32) == Normalized(v - 32, 32);
    }
  }

  /** `adjust_imm8_for_rm8`: subtracts 8 while the count is above 8. */
  method AdjustImm8ForRm8(val: u8) returns (r: u8)
    ensures r == Normalized(val, 8)
  {
    r := val;
    while r > 8
      invariant Normalized(r, 8) == Normalized(val, 8)
      decreases r
    {
      r := r - 8;
    }
  }

  /** `adjust_imm8_for_rm32`: subtracts 32 while the count is above 32. */
  method AdjustImm8ForRm32(val: u8) returns (r: u8)
    ensures r == Normalized(val, 32)
  {
    r := val;
    while r > 32
      invariant Normalized(r, 32) == Normalized(val, 32)
      decreases r
    {
      r := r - 32;
    }
  }

  // ---------------------------------------------------------------------
  // The group dispatch

  /** The seven operations of the shift/rotate group. */
  datatype ShiftOp = ROL | ROR | RCL | RCR | SHL | SHR | SAR

  /** The ModR/M opcode field that selects each operation (SHL as 4, SHR as 5). */
  function SubCode(op: ShiftOp): (r: u8)
    ensures r < 8 && r != 6
  {
    match op
    case ROL => 0
    case ROR => 1
    case RCL => 2
    case RCR => 3
    case SHL => 4
    case SHR => 5
    case SAR => 7
  }

  /**
   * The second dispatch of `code_c0`/`code_c01` on the ModR/M opcode field:
   * 0..7 select an operation, sub-code 6 the same one as 5; any other value
   * has no case.
   */
  function GroupOp(sub: u8): (r: Option<ShiftOp>)
    ensures r.Some? <==> sub < 8
    ensures r.Some? && sub != 6 ==> SubCode(r.value) == sub
    ensures sub == 6 ==> r == GroupOp(5)
  {
    match sub
    case 0 => Some(ROL)
    case 1 => Some(ROR)
    case 2 => Some(RCL)
    case 3 => Some(RCR)
    case 4 => Some(SHL)
    case 5 => Some(SHR)
    case 6 => Some(SHR)
    case 7 => Some(SAR)
    case _ => None
  }

  /** Every operation is reached from its own sub-code. */
  lemma {:induction false} GroupOpReachesEveryOp(op: ShiftOp)
    ensures GroupOp(SubCode(op)) == Some(op)
  {
    match op
    case ROL =>
    case ROR =>
    case RCL =>
    case RCR =>
    case SHL =>
    case SHR =>
    case SAR =>
  }

  /** RCL, RCR, SHR and SAR are passed the current carry flag. */
  predicate TakesCarry(op: ShiftOp)
  {
    op in {RCL, RCR, SHR, SAR}
  }

  /** Every operation but the two plain rotates writes the carry flag. */
  predicate UpdatesCarry(op: ShiftOp)
  {
    op !in {ROL, ROR}
  }

  /** The unit's 8-bit operation for `op`; for the plain rotates the carry field is unused. */
  function Shift8(unit: ShiftUnit, op: ShiftOp, v: u8, count: u8, cf: bool): ShiftRes8
  {
    match op
    case ROL => ShiftRes8(unit.rol8(v, count), cf)
    case ROR => ShiftRes8(unit.ror8(v, count), cf)
    case RCL => unit.rcl8(v, count, cf)
    case RCR => unit.rcr8(v, count, cf)
    case SHL => unit.shl8(v, count)
    case SHR => unit.shr8(v, count, cf)
    case SAR => unit.sar8(v, count, cf)
  }

  /** The unit's 32-bit operation for `op`; for the plain rotates the carry field is unused. */
  function Shift32(unit: ShiftUnit, op: ShiftOp, v: u32, count: u8, cf: bool): ShiftRes32
  {
    match op
    case ROL => ShiftRes32(unit.rol32(v, count), cf)
    case ROR => ShiftRes32(unit.ror32(v, count), cf)
    case RCL => unit.rcl32(v, count, cf)
    case RCR => unit.rcr32(v, count, cf)
    case SHL => unit.shl32(v, count)
    case SHR => unit.shr32(v, count, cf)
    case SAR => unit.sar32(v, count, cf)
  }

  /** Only RCL, RCR, SHR and SAR depend on the incoming carry. */
  lemma {:induction false} CarryInUnusedUnlessTaken(unit: ShiftUnit, op: ShiftOp, v: u8, w: u32, count: u8)
    requires !TakesCarry(op)
    ensures Shift8(unit, op, v, count, false).result == Shift8(unit, op, v, count, true).result
    ensures Shift32(unit, op, w, count, false).result == Shift32(unit, op, w, count, true).result
    ensures UpdatesCarry(op) ==> Shift8(unit, op, v, count, false) == Shift8(unit, op, v, count, true)
    ensures UpdatesCarry(op) ==> Shift32(unit, op, w, count, false) == Shift32(unit, op, w, count, true)
  {
    match op
    case ROL =>
    case ROR =>
    case SHL =>
  }

  // ---------------------------------------------------------------------
  // The 8-bit group (C0)

  /** The imm8 count byte at eip and the rm operand are both there. */
  predicate ShiftRm8Ready(s: State, m: ModRM)
  {
    Rm8Accessible(s, m) && Within(|s.memory|, s.eip, 1)
  }

  /** Carry flag updated from the result when the operation writes it. */
  function WithCarryOut(s: State, op: ShiftOp, carry: bool): (r: State)
    ensures r.registers == s.registers && r.memory == s.memory
    ensures r.segmentRegisters == s.segmentRegisters && r.eip == s.eip
    ensures !UpdatesCarry(op) ==> r.eflags == s.eflags
    ensures UpdatesCarry(op) ==> FlagSet(r.eflags, CARRY_FLAG) == carry
    ensures r.eflags & !CARRY_FLAG == s.eflags & !CARRY_FLAG
  {
    if UpdatesCarry(op) then s.(eflags := WithFlag(s.eflags, CARRY_FLAG, carry)) else s
  }

  /**
   * `rol_rm8_imm8` … `sar_rm8_imm8`: read and normalise the count at eip,
   * advance eip by 1, apply the operation to the rm8 operand and write the
   * result back, then set the carry flag from the carry-out.
   */
  function AfterShiftRm8Imm8(s: State, m: ModRM, op: ShiftOp, unit: ShiftUnit): State
    requires ShiftRm8Ready(s, m)
  {
    var res := ShiftOutcome8(s, m, op, unit);
    WithCarryOut(WithRm8(Advance(s, 1), m, res.result), op, res.carry)
  }

  /** What the unit returns for the rm8 operand, the normalised count at eip and the current carry. */
  function ShiftOutcome8(s: State, m: ModRM, op: ShiftOp, unit: ShiftUnit): ShiftRes8
    requires ShiftRm8Ready(s, m)
  {
    Shift8(unit, op, Rm8(s, m), Normalized(s.memory[s.eip], 8), FlagSet(s.eflags, CARRY_FLAG))
  }

  method ShiftRm8Imm8(emu: Emulator, m: ModRM, op: ShiftOp, unit: ShiftUnit)
    requires emu.Valid() && ShiftRm8Ready(emu.View(), m)
    modifies emu`eip, emu`registers, emu`eflags, emu.memory
    ensures emu.Valid()
    ensures emu.View() == AfterShiftRm8Imm8(old(emu.View()), m, op, unit)
  {
    ghost var s0 := emu.View();
    var code := GetCode8(emu, 0);
    var count := AdjustImm8ForRm8(code);
    emu.eip := Wrap32(emu.eip as int + 1);
    var v := GetRm8(emu, m);
    var cf := IsFlag(emu, CARRY_FLAG);
    var res := Shift8(unit, op, v, count, cf);
    assert res == ShiftOutcome8(s0, m, op, unit);
    SetRm8(emu, m, res.result);
    if UpdatesCarry(op) {
      SetFlag(emu, CARRY_FLAG, res.carry);
    }
  }

  /**
   * One 8-bit group operation: eip moves past the count byte; the rm8
   * operand then reads the unit's result for the normalised count and the
   * incoming carry; selectors never change, and a register operand leaves
   * memory alone while a memory operand leaves the registers alone.
   */
  lemma {:induction false} ShiftRm8Imm8Effect(s: State, m: ModRM, op: ShiftOp, unit: ShiftUnit)
    requires ShiftRm8Ready(s, m)
    ensures AfterShiftRm8Imm8(s, m, op, unit).eip == Wrap32(s.eip + 1)
    ensures Rm8Accessible(AfterShiftRm8Imm8(s, m, op, unit), m)
    ensures Rm8(AfterShiftRm8Imm8(s, m, op, unit), m) == ShiftOutcome8(s, m, op, unit).result
    ensures AfterShiftRm8Imm8(s, m, op, unit).segmentRegisters == s.segmentRegisters
    ensures IsRegisterOperand(m) ==> AfterShiftRm8Imm8(s, m, op, unit).memory == s.memory
    ensures !IsRegisterOperand(m) ==> AfterShiftRm8Imm8(s, m, op, unit).registers == s.registers
  {
  }

  /**
   * The flags after one 8-bit group operation: the plain rotates leave
   * eflags as they were; the others set CF to the carry-out; no operation
   * touches any other flag bit.
   */
  lemma {:induction false} ShiftRm8Imm8Flags(s: State, m: ModRM, op: ShiftOp, unit: ShiftUnit)
    requires ShiftRm8Ready(s, m)
    ensures !UpdatesCarry(op) ==> AfterShiftRm8Imm8(s, m, op, unit).eflags == s.eflags
    ensures UpdatesCarry(op) ==>
              FlagSet(AfterShiftRm8Imm8(s, m, op, unit).eflags, CARRY_FLAG) == ShiftOutcome8(s, m, op, unit).carry
    ensures AfterShiftRm8Imm8(s, m, op, unit).eflags & !CARRY_FLAG == s.eflags & !CARRY_FLAG
  {
  }

  /** The descriptor decoded right after the opcode byte. */
  function ModRMAfterOpcode(s: State, decode: Decoder): ModRM
  {
    DecodeAt(Advance(s, 1), decode)
  }

  /** The state after the opcode byte and the ModR/M bytes: eip has moved by 1 + their length. */
  function PastModRM(s: State, decode: Decoder): (r: State)
    ensures r == Advance(s, 1 + ModRMAfterOpcode(s, decode).length)
  {
    var s1 := Advance(s, 1);
    AdvanceTwice(s, 1, DecodeAt(s1, decode).length);
    Advance(s1, DecodeAt(s1, decode).length)
  }

  /** A group operation, when the sub-code selects one, finds its operands. */
  predicate CodeC0Ready(s: State, decode: Decoder)
  {
    var m := ModRMAfterOpcode(s, decode);
    GroupOp(m.reg).Some? ==> ShiftRm8Ready(PastModRM(s, decode), m)
  }

  /** `code_c0`: eip past the opcode, decode ModR/M, dispatch on its opcode field. */
  function AfterCodeC0(s: State, decode: Decoder, unit: ShiftUnit): (State, Status)
    requires WellFormed(s) && CodeC0Ready(s, decode)
  {
    var m := ModRMAfterOpcode(s, decode);
    match GroupOp(m.reg)
    case None => (PastModRM(s, decode), Unimplemented(0xC0, m.reg))
    case Some(op) => (AfterShiftRm8Imm8(PastModRM(s, decode), m, op, unit), Continue)
  }

  method CodeC0(emu: Emulator, decode: Decoder, unit: ShiftUnit) returns (status: Status)
    requires emu.Valid() && CodeC0Ready(emu.View(), decode)
    modifies emu`eip, emu`registers, emu`eflags, emu.memory
    ensures emu.Valid()
    ensures (emu.View(), status) == AfterCodeC0(old(emu.View()), decode, unit)
  {
    emu.eip := Wrap32(emu.eip as int + 1);
    var m := ParseModRM(emu, decode);
    match GroupOp(m.reg) {
      case None =>
        status := Unimplemented(0xC0, m.reg);
      case Some(op) =>
        ShiftRm8Imm8(emu, m, op, unit);
        status := Continue;
    }
  }

  /**
   * C0 with any sub-code: the handler continues exactly when the sub-code
   * is 0..7, and then eip has moved by 1 (opcode) + the ModR/M length + 1
   * (count); otherwise it reports the opcode and sub-code with eip just
   * past the ModR/M bytes and nothing else changed.
   */
  lemma {:induction false} CodeC0Dispatch(s: State, decode: Decoder, unit: ShiftUnit)
    requires WellFormed(s) && CodeC0Ready(s, decode)
    ensures AfterCodeC0(s, decode, unit).1 == Continue <==> ModRMAfterOpcode(s, decode).reg < 8
    ensures ModRMAfterOpcode(s, decode).reg < 8 ==>
              AfterCodeC0(s, decode, unit).0.eip == Wrap32(s.eip + 1 + ModRMAfterOpcode(s, decode).length + 1)
    ensures ModRMAfterOpcode(s, decode).reg >= 8 ==>
              AfterCodeC0(s, decode, unit)
              == (Advance(s, 1 + ModRMAfterOpcode(s, decode).length), Unimplemented(0xC0, ModRMAfterOpcode(s, decode).reg))
  {
    var m := ModRMAfterOpcode(s, decode);
    if m.reg < 8 {
      ShiftRm8Imm8Effect(PastModRM(s, decode), m, GroupOp(m.reg).value, unit);
      AdvanceTwice(s, 1 + m.length, 1);
    }
  }

  // ---------------------------------------------------------------------
  // The 32-bit group (C1)

  /** The imm8 count byte at eip and the rm32 operand are both there. */
  predicate ShiftRm32Ready(s: State, m: ModRM)
  {
    Rm32Accessible(s, m) && Within(|s.memory|, s.eip, 1)
  }

  /** `rol_rm32_imm8` … `sar_rm32_imm8`, as `AfterShiftRm8Imm8` with a count normalised to 32. */
  function AfterShiftRm32Imm8(s: State, m: ModRM, op: ShiftOp, unit: ShiftUnit): State
    requires ShiftRm32Ready(s, m)
  {
    var res := ShiftOutcome32(s, m, op, unit);
    WithCarryOut(WithRm32(Advance(s, 1), m, res.result), op, res.carry)
  }

  /** What the unit returns for the rm32 operand, the normalised count at eip and the current carry. */
  function ShiftOutcome32(s: State, m: ModRM, op: ShiftOp, unit: ShiftUnit): ShiftRes32
    requires ShiftRm32Ready(s, m)
  {
    Shift32(unit, op, Rm32(s, m), Normalized(s.memory[s.eip], 32), FlagSet(s.eflags, CARRY_FLAG))
  }

  method ShiftRm32Imm8(emu: Emulator, m: ModRM, op: ShiftOp, unit: ShiftUnit)
    requires emu.Valid() && ShiftRm32Ready(emu.View(), m)
    modifies emu`eip, emu`registers, emu`eflags, emu.memory
    ensures emu.Valid()
    ensures emu.View() == AfterShiftRm32Imm8(old(emu.View()), m, op, unit)
  {
    ghost var s0 := emu.View();
    var code := GetCode8(emu, 0);
    var count := AdjustImm8ForRm32(code);
    emu.eip := Wrap32(emu.eip as int + 1);
    var v := GetRm32(emu, m);
    var cf := IsFlag(emu, CARRY_FLAG);
    var res := Shift32(unit, op, v, count, cf);
    assert res == ShiftOutcome32(s0, m, op, unit);
    SetRm32(emu, m, res.result);
    if UpdatesCarry(op) {
      SetFlag(emu, CARRY_FLAG, res.carry);
    }
  }

  /**
   * One 32-bit group operation: eip moves past the count byte; the rm32
   * operand then reads the unit's result for the normalised count and the
   * incoming carry; selectors never change, and a register operand leaves
   * memory alone while a memory operand leaves the registers alone.
   */
  lemma {:induction false} ShiftRm32Imm8Effect(s: State, m: ModRM, op: ShiftOp, unit: ShiftUnit)
    requires ShiftRm32Ready(s, m)
    ensures AfterShiftRm32Imm8(s, m, op, unit).eip == Wrap32(s.eip + 1)
    ensures Rm32Accessible(AfterShiftRm32Imm8(s, m, op, unit), m)
    ensures Rm32(AfterShiftRm32Imm8(s, m, op, unit), m) == ShiftOutcome32(s, m, op, unit).result
    ensures AfterShiftRm32Imm8(s, m, op, unit).segmentRegisters == s.segmentRegisters
    ensures IsRegisterOperand(m) ==> AfterShiftRm32Imm8(s, m, op, unit).memory == s.memory
    ensures !IsRegisterOperand(m) ==> AfterShiftRm32Imm8(s, m, op, unit).registers == s.registers
  {
  }

  /**
   * The flags after one 32-bit group operation: the plain rotates leave
   * eflags as they were; the others set CF to the carry-out; no operation
   * touches any other flag bit.
   */
  lemma {:induction false} ShiftRm32Imm8Flags(s: State, m: ModRM, op: ShiftOp, unit: ShiftUnit)
    requires ShiftRm32Ready(s, m)
    ensures !UpdatesCarry(op) ==> AfterShiftRm32Imm8(s, m, op, unit).eflags == s.eflags
    ensures UpdatesCarry(op) ==>
              FlagSet(AfterShiftRm32Imm8(s, m, op, unit).eflags, CARRY_FLAG) == ShiftOutcome32(s, m, op, unit).carry
    ensures AfterShiftRm32Imm8(s, m, op, unit).eflags & !CARRY_FLAG == s.eflags & !CARRY_FLAG
  {
  }

  /** A 32-bit group operation, when the sub-code selects one, finds its operands. */
  predicate CodeC1Ready(s: State, decode: Decoder)
  {
    var m := ModRMAfterOpcode(s, decode);
    GroupOp(m.reg).Some? ==> ShiftRm32Ready(PastModRM(s, decode), m)
  }

  /** `code_c01`: eip past the opcode, decode ModR/M, dispatch on its opcode field. */
  function AfterCodeC1(s: State, decode: Decoder, unit: ShiftUnit): (State, Status)
    requires WellFormed(s) && CodeC1Ready(s, decode)
  {
    var m := ModRMAfterOpcode(s, decode);
    match GroupOp(m.reg)
    case None => (PastModRM(s, decode), Unimplemented(0xC1, m.reg))
    case Some(op) => (AfterShiftRm32Imm8(PastModRM(s, decode), m, op, unit), Continue)
  }

  method CodeC1(emu: Emulator, decode: Decoder, unit: ShiftUnit) returns (status: Status)
    requires emu.Valid() && CodeC1Ready(emu.View(), decode)
    modifies emu`eip, emu`registers, emu`eflags, emu.memory
    ensures emu.Valid()
    ensures (emu.View(), status) == AfterCodeC1(old(emu.View()), decode, unit)
  {
    emu.eip := Wrap32(emu.eip as int + 1);
    var m := ParseModRM(emu, decode);
    match GroupOp(m.reg) {
      case None =>
        status := Unimplemented(0xC1, m.reg);
      case Some(op) =>
        ShiftRm32Imm8(emu, m, op, unit);
        status := Continue;
    }
  }

  /** C1 with any sub-code, as `CodeC0Dispatch`. */
  lemma {:induction false} CodeC1Dispatch(s: State, decode: Decoder, unit: ShiftUnit)
    requires WellFormed(s) && CodeC1Ready(s, decode)
    ensures AfterCodeC1(s, decode, unit).1 == Continue <==> ModRMAfterOpcode(s, decode).reg < 8
    ensures ModRMAfterOpcode(s, decode).reg < 8 ==>
              AfterCodeC1(s, decode, unit).0.eip == Wrap32(s.eip + 1 + ModRMAfterOpcode(s, decode).length + 1)
    ensures ModRMAfterOpcode(s, decode).reg >= 8 ==>
              AfterCodeC1(s, decode, unit)
              == (Advance(s, 1 + ModRMAfterOpcode(s, decode).length), Unimplemented(0xC1, ModRMAfterOpcode(s, decode).reg))
  {
    var m := ModRMAfterOpcode(s, decode);
    if m.reg < 8 {
      ShiftRm32Imm8Effect(PastModRM(s, decode), m, GroupOp(m.reg).value, unit);
      AdvanceTwice(s, 1 + m.length, 1);
    }
  }

  // ---------------------------------------------------------------------
  // RET (C3) and RET far (CB)

  /** `ret`: eip becomes the popped word; nothing is added to it. */
  function AfterRet(s: State): State
    requires CanPop(s)
  {
    Popped(s).(eip := Top(s))
  }

  method Ret(emu: Emulator)
    requires emu.Valid() && CanPop(emu.View())
    modifies emu`registers, emu`eip
    ensures emu.Valid()
    ensures emu.View() == AfterRet(old(emu.View()))
  {
    var v := Pop32(emu);
    emu.eip := v;
  }

  /**
   * A return address pushed onto the stack is where `ret` goes: eip
   * becomes that address, ESP is back to its value before the push, and
   * the other registers, the selectors and eflags are as they were.
   */
  lemma {:induction false} RetReturnsToPushedAddress(s: State, address: u32)
    requires CanPush(s)
    ensures AfterRet(Pushed(s, address)) == s.(memory := Pushed(s, address).memory, eip := address)
  {
    PushPopRoundTrip(s, address);
  }

  /** The two words `ret_far` pops are there. */
  predicate RetFarReady(s: State)
  {
    CanPop(s) && CanPop(AfterRet(s))
  }

  /** `ret_far`: eip from the first popped word, then CS from the low half of the second. */
  function AfterRetFar(s: State): State
    requires RetFarReady(s)
  {
    PoppedSegment(AfterRet(s), CS_INDEX)
  }

  method RetFar(emu: Emulator)
    requires emu.Valid() && RetFarReady(emu.View())
    modifies emu`registers, emu`eip, emu`segmentRegisters
    ensures emu.Valid()
    ensures emu.View() == AfterRetFar(old(emu.View()))
  {
    var v := Pop32(emu);
    emu.eip := v;
    PopSegmentRegister(emu, CS_INDEX);
  }

  /**
   * A far call's frame (CS pushed as a 32-bit word, then the return
   * address) is what `ret_far` unwinds: eip and CS come back, ESP is back
   * to its value before both pushes, and nothing else but the frame's
   * bytes differs.
   */
  lemma {:induction false} RetFarReturnsToPushedFrame(s: State, cs: u16, address: u32)
    requires CanPush(s) && CanPush(Pushed(s, cs))
    ensures var pushed := Pushed(Pushed(s, cs), address);
            AfterRetFar(pushed)
            == s.(memory := pushed.memory, eip := address,
                  segmentRegisters := s.segmentRegisters[CS_INDEX := cs])
  {
    var once := Pushed(s, cs);
    var pushed := Pushed(once, address);
    RetReturnsToPushedAddress(once, address);
    PushKeepsOlderWords(once, address);
    PushPopRoundTrip(s, cs);
    var x := AfterRet(pushed);
    assert x.registers == Popped(pushed).registers && x.memory == pushed.memory;
    assert Top(x) == cs;
    assert once.segmentRegisters == s.segmentRegisters;
    assert x.segmentRegisters == s.segmentRegisters;
    var r := AfterRetFar(pushed);
    assert r.registers == s.registers;
    assert r.segmentRegisters == s.segmentRegisters[CS_INDEX := cs];
    assert r.eflags == s.eflags && r.eip == address && r.memory == pushed.memory;
  }

  // ---------------------------------------------------------------------
  // LES (C4) and LDS (C5)

  /** The far pointer at the effective address: a 16-bit selector, then a 32-bit offset at address + 2. */
  predicate FarPointerReadable(s: State, m: ModRM)
  {
    && WellFormed(s)
    && m.reg < 8
    && Within(|s.memory|, m.address, 2)
    && Within(|s.memory|, Wrap32(m.address as int + 2), 4)
  }

  /** `load_seg_r32`: the selector goes to segment register `seg`, the offset to the REG register. */
  function AfterLoadSegR32(s: State, seg: nat, m: ModRM): (r: State)
    requires FarPointerReadable(s, m) && seg < SEGMENT_REGISTERS_COUNT
    ensures WellFormed(r)
  {
    var selector := Load16(s.memory, m.address);
    var offset := Load32(s.memory, Wrap32(m.address as int + 2));
    s.(segmentRegisters := s.segmentRegisters[seg := selector],
       registers := s.registers[m.reg := offset])
  }

  method LoadSegR32(emu: Emulator, seg: nat, m: ModRM)
    requires emu.Valid() && FarPointerReadable(emu.View(), m) && seg < SEGMENT_REGISTERS_COUNT
    modifies emu`registers, emu`segmentRegisters
    ensures emu.Valid()
    ensures emu.View() == AfterLoadSegR32(old(emu.View()), seg, m)
  {
    var address := m.address;
    var selector := GetMemory16(emu, DS, address);
    var offset := GetMemory32(emu, DS, Wrap32(address as int + 2));
    SetSegRegister16(emu, seg, selector);
    SetRegister32(emu, m.reg as nat, offset);
  }

  /** The far pointer named by the ModR/M bytes after the opcode can be read. */
  predicate LoadFarPointerReady(s: State, decode: Decoder)
  {
    FarPointerReadable(PastModRM(s, decode), ModRMAfterOpcode(s, decode))
  }

  /** `les` (seg = ES) and `lds` (seg = DS): eip past opcode and ModR/M, then `load_seg_r32`. */
  function AfterLoadFarPointer(s: State, decode: Decoder, seg: nat): State
    requires LoadFarPointerReady(s, decode) && seg < SEGMENT_REGISTERS_COUNT
  {
    AfterLoadSegR32(PastModRM(s, decode), seg, ModRMAfterOpcode(s, decode))
  }

  method Les(emu: Emulator, decode: Decoder)
    requires emu.Valid() && LoadFarPointerReady(emu.View(), decode)
    modifies emu`eip, emu`registers, emu`segmentRegisters
    ensures emu.Valid()
    ensures emu.View() == AfterLoadFarPointer(old(emu.View()), decode, ES_INDEX)
  {
    emu.eip := Wrap32(emu.eip as int + 1);
    var m := ParseModRM(emu, decode);
    LoadSegR32(emu, ES_INDEX, m);
  }

  method Lds(emu: Emulator, decode: Decoder)
    requires emu.Valid() && LoadFarPointerReady(emu.View(), decode)
    modifies emu`eip, emu`registers, emu`segmentRegisters
    ensures emu.Valid()
    ensures emu.View() == AfterLoadFarPointer(old(emu.View()), decode, DS_INDEX)
  {
    emu.eip := Wrap32(emu.eip as int + 1);
    var m := ParseModRM(emu, decode);
    LoadSegR32(emu, DS_INDEX, m);
  }

  /**
   * LES/LDS: the named segment register holds the selector at the
   * effective address, the REG register the offset at address + 2; every
   * other register and selector, eflags and memory are unchanged, and eip
   * has moved past the opcode and the ModR/M bytes.
   */
  lemma {:induction false} LoadFarPointerEffect(s: State, decode: Decoder, seg: nat)
    requires LoadFarPointerReady(s, decode) && seg < SEGMENT_REGISTERS_COUNT
    ensures var m := ModRMAfterOpcode(s, decode);
            var r := AfterLoadFarPointer(s, decode, seg);
            && r.segmentRegisters[seg] == Load16(s.memory, m.address)
            && r.registers[m.reg] == Load32(s.memory, Wrap32(m.address as int + 2))
            && (forall k :: 0 <= k < SEGMENT_REGISTERS_COUNT && k != seg ==> r.segmentRegisters[k] == s.segmentRegisters[k])
            && (forall k :: 0 <= k < REGISTERS_COUNT && k != m.reg as int ==> r.registers[k] == s.registers[k])
            && r.eflags == s.eflags && r.memory == s.memory
            && r.eip == Wrap32(s.eip + 1 + m.length)
  {
  }

  // ---------------------------------------------------------------------
  // MOV rm8, imm8 (C6) and MOV rm16/rm32, imm (C7)

  /** Where an immediate that follows the opcode and ModR/M bytes starts. */
  function ImmediateAddress(s: State, decode: Decoder): (a: u32)
    ensures a == Wrap32(s.eip + 1 + ModRMAfterOpcode(s, decode).length)
  {
    PastModRM(s, decode).eip
  }

  /** The rm8 operand and the immediate byte after the ModR/M bytes are there. */
  predicate MovRm8Imm8Ready(s: State, decode: Decoder)
  {
    var s2 := PastModRM(s, decode);
    ShiftRm8Ready(s2, ModRMAfterOpcode(s, decode))
  }

  /** `mov_rm8_imm8`: the byte after the ModR/M bytes, written to rm8; eip moves past it. */
  function AfterMovRm8Imm8(s: State, decode: Decoder): State
    requires MovRm8Imm8Ready(s, decode)
  {
    var m := ModRMAfterOpcode(s, decode);
    var s2 := PastModRM(s, decode);
    var value := s2.memory[s2.eip];
    WithRm8(Advance(s2, 1), m, value)
  }

  method MovRm8Imm8(emu: Emulator, decode: Decoder)
    requires emu.Valid() && MovRm8Imm8Ready(emu.View(), decode)
    modifies emu`eip, emu`registers, emu.memory
    ensures emu.Valid()
    ensures emu.View() == AfterMovRm8Imm8(old(emu.View()), decode)
  {
    emu.eip := Wrap32(emu.eip as int + 1);
    var m := ParseModRM(emu, decode);
    var value := GetCode8(emu, 0);
    emu.eip := Wrap32(emu.eip as int + 1);
    SetRm8(emu, m, value);
  }

  /** The rm32 operand and `width` immediate bytes after the ModR/M bytes are there. */
  predicate MovRm32ImmReady(s: State, decode: Decoder, width: nat)
  {
    var s2 := PastModRM(s, decode);
    Rm32Accessible(s2, ModRMAfterOpcode(s, decode)) && Within(|s2.memory|, s2.eip, width)
  }

  /** `mov_rm16_imm16`: the 16-bit immediate, zero-extended, written through `set_rm32`; eip moves past it. */
  function AfterMovRm16Imm16(s: State, decode: Decoder): State
    requires MovRm32ImmReady(s, decode, 2)
  {
    var m := ModRMAfterOpcode(s, decode);
    var s2 := PastModRM(s, decode);
    WithRm32(Advance(s2, 2), m, Load16(s2.memory, s2.eip))
  }

  method MovRm16Imm16(emu: Emulator, decode: Decoder)
    requires emu.Valid() && MovRm32ImmReady(emu.View(), decode, 2)
    modifies emu`eip, emu`registers, emu.memory
    ensures emu.Valid()
    ensures emu.View() == AfterMovRm16Imm16(old(emu.View()), decode)
  {
    emu.eip := Wrap32(emu.eip as int + 1);
    var m := ParseModRM(emu, decode);
    var value := GetCode16(emu, 0);
    emu.eip := Wrap32(emu.eip as int + 2);
    SetRm32(emu, m, value);
  }

  /** `mov_rm32_imm32`: the 32-bit immediate written to rm32; eip moves past it. */
  function AfterMovRm32Imm32(s: State, decode: Decoder): State
    requires MovRm32ImmReady(s, decode, 4)
  {
    var m := ModRMAfterOpcode(s, decode);
    var s2 := PastModRM(s, decode);
    WithRm32(Advance(s2, 4), m, Load32(s2.memory, s2.eip))
  }

  method MovRm32Imm32(emu: Emulator, decode: Decoder)
    requires emu.Valid() && MovRm32ImmReady(emu.View(), decode, 4)
    modifies emu`eip, emu`registers, emu.memory
    ensures emu.Valid()
    ensures emu.View() == AfterMovRm32Imm32(old(emu.View()), decode)
  {
    emu.eip := Wrap32(emu.eip as int + 1);
    var m := ParseModRM(emu, decode);
    var value := GetCode32(emu, 0);
    emu.eip := Wrap32(emu.eip as int + 4);
    SetRm32(emu, m, value);
  }

  /**
   * MOV rm8, imm8: the rm8 operand reads the immediate byte (the byte
   * after the ModR/M bytes), eip has moved by 1 + ModR/M length + 1, and
   * eflags and the selectors are unchanged.
   */
  lemma {:induction false} MovRm8Imm8Effect(s: State, decode: Decoder)
    requires MovRm8Imm8Ready(s, decode)
    ensures Rm8Accessible(AfterMovRm8Imm8(s, decode), ModRMAfterOpcode(s, decode))
    ensures Rm8(AfterMovRm8Imm8(s, decode), ModRMAfterOpcode(s, decode)) == s.memory[ImmediateAddress(s, decode)]
    ensures AfterMovRm8Imm8(s, decode).eip == Wrap32(s.eip + 1 + ModRMAfterOpcode(s, decode).length + 1)
    ensures AfterMovRm8Imm8(s, decode).eflags == s.eflags
    ensures AfterMovRm8Imm8(s, decode).segmentRegisters == s.segmentRegisters
  {
    AdvanceTwice(s, 1 + ModRMAfterOpcode(s, decode).length, 1);
  }

  /**
   * MOV rm16, imm16: the whole 32-bit rm operand reads the immediate
   * zero-extended (so it is below 2^16), eip has moved by
   * 1 + ModR/M length + 2, and eflags and the selectors are unchanged.
   */
  lemma {:induction false} MovRm16Imm16Effect(s: State, decode: Decoder)
    requires MovRm32ImmReady(s, decode, 2)
    ensures Rm32Accessible(AfterMovRm16Imm16(s, decode), ModRMAfterOpcode(s, decode))
    ensures Rm32(AfterMovRm16Imm16(s, decode), ModRMAfterOpcode(s, decode)) == Load16(s.memory, ImmediateAddress(s, decode))
    ensures Rm32(AfterMovRm16Imm16(s, decode), ModRMAfterOpcode(s, decode)) < 0x1_0000
    ensures AfterMovRm16Imm16(s, decode).eip == Wrap32(s.eip + 1 + ModRMAfterOpcode(s, decode).length + 2)
    ensures AfterMovRm16Imm16(s, decode).eflags == s.eflags
    ensures AfterMovRm16Imm16(s, decode).segmentRegisters == s.segmentRegisters
  {
    AdvanceTwice(s, 1 + ModRMAfterOpcode(s, decode).length, 2);
  }

  /**
   * MOV rm32, imm32: the rm32 operand reads the four immediate bytes
   * after the ModR/M bytes, eip has moved by 1 + ModR/M length + 4, and
   * eflags and the selectors are unchanged.
   */
  lemma {:induction false} MovRm32Imm32Effect(s: State, decode: Decoder)
    requires MovRm32ImmReady(s, decode, 4)
    ensures Rm32Accessible(AfterMovRm32Imm32(s, decode), ModRMAfterOpcode(s, decode))
    ensures Rm32(AfterMovRm32Imm32(s, decode), ModRMAfterOpcode(s, decode)) == Load32(s.memory, ImmediateAddress(s, decode))
    ensures AfterMovRm32Imm32(s, decode).eip == Wrap32(s.eip + 1 + ModRMAfterOpcode(s, decode).length + 4)
    ensures AfterMovRm32Imm32(s, decode).eflags == s.eflags
    ensures AfterMovRm32Imm32(s, decode).segmentRegisters == s.segmentRegisters
  {
    AdvanceTwice(s, 1 + ModRMAfterOpcode(s, decode).length, 4);
  }

  // ---------------------------------------------------------------------
  // LEAVE (C9)

  /** The word at EBP, which `leave` pops, is there. */
  predicate LeaveReady(s: State)
  {
    WellFormed(s) && Within(|s.memory|, s.registers[EBP_INDEX], 4)
  }

  /** `leave`: ESP := EBP, then EBP := pop32(), then eip += 1. */
  function AfterLeave(s: State): State
    requires LeaveReady(s)
  {
    var s1 := s.(registers := s.registers[ESP_INDEX := s.registers[EBP_INDEX]]);
    var s2 := Popped(s1);
    Advance(s2.(registers := s2.registers[EBP_INDEX := Top(s1)]), 1)
  }

  method Leave(emu: Emulator)
    requires emu.Valid() && LeaveReady(emu.View())
    modifies emu`registers, emu`eip
    ensures emu.Valid()
    ensures emu.View() == AfterLeave(old(emu.View()))
  {
    var ebpVal := GetRegister32(emu, EBP_INDEX);
    SetRegister32(emu, ESP_INDEX, ebpVal);
    var v := Pop32(emu);
    SetRegister32(emu, EBP_INDEX, v);
    emu.eip := Wrap32(emu.eip as int + 1);
  }

  /** The stack frame `push ebp; mov ebp, esp` sets up. */
  function Prologue(s: State): (r: State)
    requires CanPush(s)
    ensures WellFormed(r)
  {
    var p := Pushed(s, s.registers[EBP_INDEX]);
    p.(registers := p.registers[EBP_INDEX := p.registers[ESP_INDEX]])
  }

  /**
   * `leave` tears down the frame `push ebp; mov ebp, esp` built: ESP and
   * EBP are back to their values before the prologue, the other registers
   * are unchanged, and eip has moved by 1.
   */
  lemma {:induction false} LeaveUndoesPrologue(s: State)
    requires CanPush(s)
    ensures LeaveReady(Prologue(s))
    ensures AfterLeave(Prologue(s)) == Advance(s.(memory := Prologue(s).memory), 1)
  {
    var p := Pushed(s, s.registers[EBP_INDEX]);
    PushPopRoundTrip(s, s.registers[EBP_INDEX]);
    var f := Prologue(s);
    var s1 := f.(registers := f.registers[ESP_INDEX := f.registers[EBP_INDEX]]);
    assert s1.registers == p.registers[EBP_INDEX := p.registers[ESP_INDEX]];
    assert Top(s1) == Top(p) == s.registers[EBP_INDEX];
    var s2 := Popped(s1);
    assert s2.registers[EBP_INDEX := Top(s1)] == s.registers;
  }

  // ---------------------------------------------------------------------
  // INT imm8 (CD)

  /** The vector byte after the opcode is there. */
  predicate IntImm8Ready(s: State)
  {
    WellFormed(s) && Within(|s.memory|, CodeAddress(s.eip, 1), 1)
  }

  /** The vector `int_imm8` reads: the byte at eip + 1. */
  function Vector(s: State): u8
    requires IntImm8Ready(s)
  {
    s.memory[CodeAddress(s.eip, 1)]
  }

  /**
   * `int_imm8` up to the call of `handle_interrupt`: reads the vector at
   * eip + 1, advances eip by 2 and hands over the vector as a software
   * interrupt; nothing else has changed at that point.
   */
  method IntImm8(emu: Emulator) returns (status: Status)
    requires emu.Valid() && IntImm8Ready(emu.View())
    modifies emu`eip
    ensures emu.Valid()
    ensures status == Interrupt(Vector(old(emu.View())), true)
    ensures emu.View() == Advance(old(emu.View()), 2)
  {
    var intNum := GetCode8(emu, 1);
    emu.eip := Wrap32(emu.eip as int + 2);
    status := Interrupt(intNum, true);
  }

  // ---------------------------------------------------------------------
  // IRET (CF)

  /** The privilege level of a code selector: its low two bits (RPL), `selector & 3`. */
  function Privilege(selector: u16): (r: nat)
    ensures r < 4
  {
    selector % 4
  }

  /** A popped word as the eflags register. */
  function AsEflags(v: u32): bv32
  {
    v as bv32
  }

  /** The state after popping eip, then CS, then eflags. */
  function IretInnerPops(s: State): (r: State)
    requires RetFarReady(s) && CanPop(AfterRetFar(s))
    ensures WellFormed(r)
  {
    var s2 := AfterRetFar(s);
    Popped(s2).(eflags := AsEflags(Top(s2)))
  }

  /** True when the popped CS is less privileged than the CS `iret` started from. */
  predicate ReturnsToOuterLevel(s: State)
    requires RetFarReady(s) && CanPop(AfterRetFar(s))
  {
    Privilege(IretInnerPops(s).segmentRegisters[CS_INDEX]) > Privilege(s.segmentRegisters[CS_INDEX])
  }

  /** The words `iret` pops are there: three, and two more on a return to an outer level. */
  predicate IretReady(s: State)
  {
    && RetFarReady(s) && CanPop(AfterRetFar(s))
    && (ReturnsToOuterLevel(s) ==> CanPop(IretInnerPops(s)) && CanPop(Popped(IretInnerPops(s))))
  }

  /**
   * `iret`: CPL is CS & 3 taken before any pop; eip, CS and eflags are
   * popped; when the new CS & 3 is greater than CPL, a saved ESP and SS are
   * popped too and ESP takes the saved value.
   */
  function AfterIret(s: State): State
    requires IretReady(s)
  {
    var s3 := IretInnerPops(s);
    if ReturnsToOuterLevel(s) then
      var s5 := PoppedSegment(Popped(s3), SS_INDEX);
      s5.(registers := s5.registers[ESP_INDEX := Top(s3)])
    else
      s3
  }

  method Iret(emu: Emulator)
    requires emu.Valid() && IretReady(emu.View())
    modifies emu`registers, emu`eip, emu`segmentRegisters, emu`eflags
    ensures emu.Valid()
    ensures emu.View() == AfterIret(old(emu.View()))
  {
    var cs := GetSegRegister16(emu, CS_INDEX);
    var cpl := cs % 4;
    var v := Pop32(emu);
    emu.eip := v;
    PopSegmentRegister(emu, CS_INDEX);
    var flags := Pop32(emu);
    emu.eflags := AsEflags(flags);
    var newCs := GetSegRegister16(emu, CS_INDEX);
    if newCs % 4 > cpl {
      var espVal := Pop32(emu);
      PopSegmentRegister(emu, SS_INDEX);
      SetRegister32(emu, ESP_INDEX, espVal);
    }
  }

  /** The address of the k-th 32-bit word above ESP (uint32_t arithmetic). */
  function StackSlot(s: State, k: nat): u32
    requires WellFormed(s)
  {
    Wrap32(s.registers[ESP_INDEX] as int + 4 * k)
  }

  /** One pop moves ESP one slot up. */
  lemma {:induction false} PopAdvancesSlot(s: State, t: State, k: nat)
    requires WellFormed(s) && WellFormed(t)
    requires t.registers[ESP_INDEX] == StackSlot(s, k)
    ensures PoppedSp(t.registers[ESP_INDEX]) == StackSlot(s, k + 1)
  {
    Wrap32Add(s.registers[ESP_INDEX] as int + 4 * k, 4);
  }

  /**
   * IRET: eip, CS and eflags come from the words at ESP, ESP + 4 and
   * ESP + 8. The return is to an outer level exactly when the low two bits
   * of the new CS exceed those of the old; then ESP and SS come from the
   * words at ESP + 12 and ESP + 16, otherwise ESP ends at ESP + 12 and SS
   * stays. The other general registers, the other selectors and memory are
   * unchanged.
   */
  lemma {:induction false} IretEffect(s: State)
    requires IretReady(s)
    ensures Within(|s.memory|, StackSlot(s, 0), 4)
    ensures Within(|s.memory|, StackSlot(s, 1), 4)
    ensures Within(|s.memory|, StackSlot(s, 2), 4)
    ensures AfterIret(s).eip == Load32(s.memory, StackSlot(s, 0))
    ensures AfterIret(s).segmentRegisters[CS_INDEX] == Low16(Load32(s.memory, StackSlot(s, 1)))
    ensures AfterIret(s).eflags == Load32(s.memory, StackSlot(s, 2)) as bv32
    ensures ReturnsToOuterLevel(s)
            <==> Privilege(Low16(Load32(s.memory, StackSlot(s, 1)))) > Privilege(s.segmentRegisters[CS_INDEX])
    ensures !ReturnsToOuterLevel(s) ==>
              && AfterIret(s).registers[ESP_INDEX] == StackSlot(s, 3)
              && AfterIret(s).segmentRegisters[SS_INDEX] == s.segmentRegisters[SS_INDEX]
    ensures ReturnsToOuterLevel(s) ==>
              && Within(|s.memory|, StackSlot(s, 3), 4)
              && Within(|s.memory|, StackSlot(s, 4), 4)
              && AfterIret(s).registers[ESP_INDEX] == Load32(s.memory, StackSlot(s, 3))
              && AfterIret(s).segmentRegisters[SS_INDEX] == Low16(Load32(s.memory, StackSlot(s, 4)))
    ensures forall k :: 0 <= k < REGISTERS_COUNT && k != ESP_INDEX ==> AfterIret(s).registers[k] == s.registers[k]
    ensures forall k :: 0 <= k < SEGMENT_REGISTERS_COUNT && k != CS_INDEX && k != SS_INDEX
              ==> AfterIret(s).segmentRegisters[k] == s.segmentRegisters[k]
    ensures AfterIret(s).memory == s.memory
  {
    var s1 := AfterRet(s);
    var s2 := AfterRetFar(s);
    var s3 := IretInnerPops(s);
    assert s.registers[ESP_INDEX] == StackSlot(s, 0);
    PopAdvancesSlot(s, s, 0);
    PopAdvancesSlot(s, s1, 1);
    PopAdvancesSlot(s, s2, 2);
    assert s3.registers[ESP_INDEX] == StackSlot(s, 3);
    if ReturnsToOuterLevel(s) {
      PopAdvancesSlot(s, s3, 3);
    }
  }

  /**
   * The frame an x86 interrupt or exception pushes (EFLAGS, then CS as a
   * 32-bit word, then the return address) is what `iret` unwinds on a
   * return to the same or a more privileged level: eip, CS and eflags come
   * back, ESP is back to its value before the three pushes, and every other
   * register and selector is as it was.
   */
  lemma {:induction false} IretReturnsFromInterruptFrame(s: State, flags: u32, cs: u16, address: u32)
    requires CanPush(s) && CanPush(Pushed(s, flags)) && CanPush(Pushed(Pushed(s, flags), cs))
    requires Privilege(cs) <= Privilege(s.segmentRegisters[CS_INDEX])
    ensures IretReady(Pushed(Pushed(Pushed(s, flags), cs), address))
    ensures var frame := Pushed(Pushed(Pushed(s, flags), cs), address);
            AfterIret(frame)
            == s.(memory := frame.memory, eip := address, eflags := flags as bv32,
                  segmentRegisters := s.segmentRegisters[CS_INDEX := cs])
  {
    var f1 := Pushed(s, flags);
    var f2 := Pushed(f1, cs);
    var frame := Pushed(f2, address);
    RetFarReturnsToPushedFrame(f1, cs, address);
    var x := AfterRetFar(frame);
    assert x.registers == f1.registers && x.memory == frame.memory;
    // The slot written last lies eight bytes below the eflags word, so it leaves that word alone.
    var sp := f1.registers[ESP_INDEX];
    var slot := PushedSp(f2.registers[ESP_INDEX]);
    assert slot as int + 4 <= sp as int || sp as int + 4 <= slot as int;
    Load32StoreElsewhere(f2.memory, slot, sp, address);
    PushKeepsOlderWords(f1, cs);
    PushPopRoundTrip(f1, cs);
    assert Top(x) == flags;
    PushPopRoundTrip(s, flags);
    var r := IretInnerPops(frame);
    assert r.registers == s.registers;
    assert r.segmentRegisters == s.segmentRegisters[CS_INDEX := cs];
    assert r.eflags == flags as bv32 && r.eip == address && r.memory == frame.memory;
  }
}
