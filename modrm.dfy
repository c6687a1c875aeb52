/**
 * The ModR/M operand layer (modrm.h): the descriptor `parse_modrm` fills
 * in, and the `get_rm8/set_rm8/get_rm32/set_rm32` accessors that resolve
 * the rm operand to a register or to memory at the effective address.
 *
 * modrm.c is not part of this model. The decoder is a parameter: any
 * function from the bytes, the address of the ModR/M byte and the
 * register file to a descriptor. The accessors follow the documented
 * dispatch: mode 3 names a register, every other mode the memory operand
 * at the descriptor's effective address.
 */
module Operands {
  import opened Machine
  import opened Access

  /**
   * A decoded ModR/M byte: the mode (`mod`), the REG field (`opcode` /
   * `reg_index`, a union in the source), the RM field, the effective
   * address of a memory operand (what `calc_memory_address` returns), and
   * how many bytes `parse_modrm` consumed (ModR/M, SIB and displacement).
   */
  datatype ModRM = ModRM(mode: u8, reg: u8, rm: u8, address: u32, length: nat)

  /** `parse_modrm`, seen from outside: memory, the address of the ModR/M byte and the registers give the descriptor. */
  type Decoder = (seq<u8>, u32, seq<u32>) -> ModRM

  /** The descriptor for the ModR/M byte at eip. */
  function DecodeAt(s: State, decode: Decoder): ModRM
  {
    decode(s.memory, s.eip, s.registers)
  }

  /** `eip + n` in uint32_t arithmetic. */
  function Advance(s: State, n: nat): (r: State)
    ensures r.eip == Wrap32(s.eip + n)
    ensures r.(eip := s.eip) == s
  {
    s.(eip := Wrap32(s.eip as int + n))
  }

  /** Two successive advances add up. */
  lemma {:induction false} AdvanceTwice(s: State, n: nat, k: nat)
    ensures Advance(Advance(s, n), k) == Advance(s, n + k)
  {
    Wrap32Add(s.eip as int + n, k);
  }

  /** True when the rm operand names a register rather than memory. */
  predicate IsRegisterOperand(m: ModRM)
  {
    m.mode == 3
  }

  /** The 8-bit rm operand exists: an 8-bit register name, or a byte inside memory. */
  predicate Rm8Accessible(s: State, m: ModRM)
  {
    && WellFormed(s)
    && if IsRegisterOperand(m) then m.rm < 8 else Within(|s.memory|, m.address, 1)
  }

  /** The 32-bit rm operand exists: a general register, or four bytes inside memory. */
  predicate Rm32Accessible(s: State, m: ModRM)
  {
    && WellFormed(s)
    && if IsRegisterOperand(m) then m.rm < 8 else Within(|s.memory|, m.address, 4)
  }

  /** What `get_rm8` reads. */
  function Rm8(s: State, m: ModRM): u8
    requires Rm8Accessible(s, m)
  {
    if IsRegisterOperand(m) then Reg8(s.registers, m.rm as nat) else s.memory[m.address]
  }

  /** What `get_rm32` reads. */
  function Rm32(s: State, m: ModRM): u32
    requires Rm32Accessible(s, m)
  {
    if IsRegisterOperand(m) then s.registers[m.rm] else Load32(s.memory, m.address)
  }

  /**
   * The state after `set_rm8(m, v)`: a register operand changes the named
   * byte of its owning register, no other byte of it, no other register and
   * no memory; a memory operand changes one byte of memory and no register. eflags, selectors and eip never change.
   */
  function WithRm8(s: State, m: ModRM, v: u8): (r: State)
    requires Rm8Accessible(s, m)
    ensures Rm8Accessible(r, m) && Rm8(r, m) == v
    ensures r.eflags == s.eflags && r.segmentRegisters == s.segmentRegisters && r.eip == s.eip
    ensures IsRegisterOperand(m) ==> r.memory == s.memory
    ensures IsRegisterOperand(m) ==>
              forall k :: 0 <= k < REGISTERS_COUNT && k != m.rm as int % 4 ==> r.registers[k] == s.registers[k]
    ensures IsRegisterOperand(m) && m.rm < 4 ==> r.registers[m.rm] / 0x100 == s.registers[m.rm] / 0x100
    ensures IsRegisterOperand(m) && m.rm >= 4 ==> r.registers[m.rm - 4] % 0x100 == s.registers[m.rm - 4] % 0x100
    ensures IsRegisterOperand(m) && m.rm >= 4 ==> r.registers[m.rm - 4] / 0x1_0000 == s.registers[m.rm - 4] / 0x1_0000
    ensures !IsRegisterOperand(m) ==> r.registers == s.registers && |r.memory| == |s.memory|
    ensures !IsRegisterOperand(m) ==> forall i :: 0 <= i < |s.memory| && i != m.address ==> r.memory[i] == s.memory[i]
  {
    if IsRegisterOperand(m) then
      SetReg8Meaning(s.registers, m.rm as nat, v);
      s.(registers := SetReg8(s.registers, m.rm as nat, v))
    else
      s.(memory := s.memory[m.address := v])
  }

  /**
   * The state after `set_rm32(m, v)`: a register operand replaces one
   * register; a memory operand replaces four bytes and no other byte.
   * eflags, selectors and eip never change.
   */
  function WithRm32(s: State, m: ModRM, v: u32): (r: State)
    requires Rm32Accessible(s, m)
    ensures Rm32Accessible(r, m) && Rm32(r, m) == v
    ensures r.eflags == s.eflags && r.segmentRegisters == s.segmentRegisters && r.eip == s.eip
    ensures IsRegisterOperand(m) ==> r.memory == s.memory
    ensures IsRegisterOperand(m) ==> forall k :: 0 <= k < REGISTERS_COUNT && k != m.rm as int ==> r.registers[k] == s.registers[k]
    ensures !IsRegisterOperand(m) ==> r.registers == s.registers && |r.memory| == |s.memory|
    ensures !IsRegisterOperand(m) ==>
              forall i :: 0 <= i < |s.memory| && !(m.address <= i < m.address + 4) ==> r.memory[i] == s.memory[i]
  {
    if IsRegisterOperand(m) then
      s.(registers := s.registers[m.rm := v])
    else
      Load32Store32(s.memory, m.address, v);
      s.(memory := Store32(s.memory, m.address, v))
  }

  /** A 32-bit memory write leaves every 32-bit memory operand that does not overlap it reading as before. */
  lemma {:induction false} WithRm32KeepsDisjoint(s: State, m: ModRM, n: ModRM, v: u32)
    requires Rm32Accessible(s, m) && Rm32Accessible(s, n)
    requires !IsRegisterOperand(m) && !IsRegisterOperand(n)
    requires m.address + 4 <= n.address || n.address + 4 <= m.address
    ensures Rm32(WithRm32(s, m, v), n) == Rm32(s, n)
  {
    Load32StoreElsewhere(s.memory, m.address, n.address, v);
  }

  /** `parse_modrm(emu, &modrm)`: decodes at eip and moves eip past the bytes it consumed. */
  method ParseModRM(emu: Emulator, decode: Decoder) returns (m: ModRM)
    requires emu.Valid()
    modifies emu`eip
    ensures emu.Valid()
    ensures m == DecodeAt(old(emu.View()), decode)
    ensures emu.View() == Advance(old(emu.View()), m.length)
  {
    m := decode(emu.memory[..], emu.eip, emu.registers);
    emu.eip := Wrap32(emu.eip as int + m.length);
  }

  /** `get_rm8(emu, &modrm)`. */
  method GetRm8(emu: Emulator, m: ModRM) returns (v: u8)
    requires emu.Valid() && Rm8Accessible(emu.View(), m)
    ensures v == Rm8(emu.View(), m)
  {
    if IsRegisterOperand(m) {
      v := GetRegister8(emu, m.rm as nat);
    } else {
      var b := GetMemory8(emu, m.address);
      v := b;
    }
  }

  /** `set_rm8(emu, &modrm, value)`. */
  method SetRm8(emu: Emulator, m: ModRM, v: u8)
    requires emu.Valid() && Rm8Accessible(emu.View(), m)
    modifies emu`registers, emu.memory
    ensures emu.Valid()
    ensures emu.View() == WithRm8(old(emu.View()), m, v)
  {
    if IsRegisterOperand(m) {
      SetRegister8(emu, m.rm as nat, v);
    } else {
      SetMemory8(emu, m.address, v);
    }
  }

  /** `get_rm32(emu, &modrm)`; memory is flat, so no segment takes part in the read. */
  method GetRm32(emu: Emulator, m: ModRM) returns (v: u32)
    requires emu.Valid() && Rm32Accessible(emu.View(), m)
    ensures v == Rm32(emu.View(), m)
  {
    if IsRegisterOperand(m) {
      v := GetRegister32(emu, m.rm as nat);
    } else {
      v := GetMemory32(emu, DS, m.address);
    }
  }

  /** `set_rm32(emu, &modrm, value)`. */
  method SetRm32(emu: Emulator, m: ModRM, v: u32)
    requires emu.Valid() && Rm32Accessible(emu.View(), m)
    modifies emu`registers, emu.memory
    ensures emu.Valid()
    ensures emu.View() == WithRm32(old(emu.View()), m, v)
  {
    if IsRegisterOperand(m) {
      SetRegister32(emu, m.rm as nat, v);
    } else {
      SetMemory32(emu, m.address, v);
    }
  }
}
