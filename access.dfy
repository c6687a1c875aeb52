/**
 * The access layer over the emulator state (emulator_functions.h): code
 * fetch relative to eip, byte memory, 8/32-bit register access, the
 * 32-bit stack, and the individual eflags bits.
 *
 * Each mutator is a method on the state record whose `modifies` clause
 * names the only fields it may change; each is specified by a function on
 * plain values (a register file as seq<u32>, memory as seq<u8>), and the
 * properties of the layer are proved about those functions.
 */
module Access {
  import opened Machine

  // ---------------------------------------------------------------------
  // Eflags

  const CARRY_FLAG: bv32 := 0x1
  const ZERO_FLAG: bv32 := 0x40
  const SIGN_FLAG: bv32 := 0x80
  const INT_ENABLE_FLAG: bv32 := 0x200
  const DIRECTION_FLAG: bv32 := 0x400
  const OVERFLOW_FLAG: bv32 := 0x800

  /** The six masks the emulator names, one per setter/reader pair. */
  predicate IsFlagMask(m: bv32)
  {
    || m == CARRY_FLAG || m == ZERO_FLAG || m == SIGN_FLAG
    || m == INT_ENABLE_FLAG || m == DIRECTION_FLAG || m == OVERFLOW_FLAG
  }

  /** Each mask is a single bit, and distinct masks share no bit. */
  lemma FlagMasksDisjoint(m1: bv32, m2: bv32)
    requires IsFlagMask(m1) && IsFlagMask(m2)
    ensures m1 != 0 && m1 & (m1 - 1) == 0
    ensures m1 != m2 ==> m1 & m2 == 0
  {
  }

  /** What `is_carry`, `is_zero`, … report: whether the mask's bit is set. */
  predicate FlagSet(eflags: bv32, mask: bv32)
  {
    eflags & mask != 0
  }

  /**
   * eflags after `set_*_flag(emu, on)`: the matching reader reports `on`
   * afterwards, and every other bit is kept.
   */
  function WithFlag(eflags: bv32, mask: bv32, on: bool): (r: bv32)
    requires IsFlagMask(mask)
    ensures (r & mask != 0) == on
    ensures r & !mask == eflags & !mask
  {
    if on then eflags | mask else eflags & !mask
  }

  /** Setting one flag does not change what the reader of any other flag reports. */
  lemma {:induction false} WithFlagKeepsOthers(eflags: bv32, mask: bv32, other: bv32, on: bool)
    requires IsFlagMask(mask) && IsFlagMask(other) && mask != other
    ensures FlagSet(WithFlag(eflags, mask, on), other) == FlagSet(eflags, other)
  {
    FlagMasksDisjoint(mask, other);
  }

  /** Sign bit of a 32-bit word. */
  predicate Negative(v: u32)
  {
    v >= 0x8000_0000
  }

  /** Two's-complement reading of a 32-bit word. */
  function Signed32(v: u32): (r: int)
    ensures -0x8000_0000 <= r < 0x8000_0000
    ensures r < 0 <==> Negative(v)
    ensures Wrap32(r) == v
  {
    if Negative(v) then v - 0x1_0000_0000 else v
  }

  /** Carry, zero and sign from a raw 64-bit result; overflow as computed by the caller. */
  function ArithmeticFlags(eflags: bv32, result: u64, overflow: bool): bv32
  {
    var low := Wrap32(result);
    var e1 := WithFlag(eflags, CARRY_FLAG, result / 0x1_0000_0000 != 0);
    var e2 := WithFlag(e1, ZERO_FLAG, low == 0);
    var e3 := WithFlag(e2, SIGN_FLAG, Negative(low));
    WithFlag(e3, OVERFLOW_FLAG, overflow)
  }

  /** eflags after `update_eflags_add(emu, v1, v2, result)`. */
  function AddFlags(eflags: bv32, v1: u32, v2: u32, result: u64): bv32
  {
    var overflow := Negative(v1) == Negative(v2) && Negative(v1) != Negative(Wrap32(result));
    ArithmeticFlags(eflags, result, overflow)
  }

  /** eflags after `update_eflags_sub(emu, v1, v2, result)`. */
  function SubFlags(eflags: bv32, v1: u32, v2: u32, result: u64): bv32
  {
    var overflow := Negative(v1) != Negative(v2) && Negative(v1) != Negative(Wrap32(result));
    ArithmeticFlags(eflags, result, overflow)
  }

  /** The bits of eflags that the arithmetic updates write. */
  const ARITHMETIC_FLAGS: bv32 := CARRY_FLAG | ZERO_FLAG | SIGN_FLAG | OVERFLOW_FLAG

  /** The four arithmetic flags as `ArithmeticFlags` leaves them, and nothing else touched. */
  lemma {:induction false} ArithmeticFlagsMeaning(eflags: bv32, result: u64, overflow: bool)
    ensures var r := ArithmeticFlags(eflags, result, overflow);
            && FlagSet(r, CARRY_FLAG) == (result >= 0x1_0000_0000)
            && FlagSet(r, ZERO_FLAG) == (Wrap32(result) == 0)
            && FlagSet(r, SIGN_FLAG) == Negative(Wrap32(result))
            && FlagSet(r, OVERFLOW_FLAG) == overflow
            && r & !ARITHMETIC_FLAGS == eflags & !ARITHMETIC_FLAGS
  {
    var low := Wrap32(result);
    var e1 := WithFlag(eflags, CARRY_FLAG, result / 0x1_0000_0000 != 0);
    var e2 := WithFlag(e1, ZERO_FLAG, low == 0);
    var e3 := WithFlag(e2, SIGN_FLAG, Negative(low));
    var r := WithFlag(e3, OVERFLOW_FLAG, overflow);
    WithFlagKeepsOthers(e1, ZERO_FLAG, CARRY_FLAG, low == 0);
    WithFlagKeepsOthers(e2, SIGN_FLAG, CARRY_FLAG, Negative(low));
    WithFlagKeepsOthers(e3, OVERFLOW_FLAG, CARRY_FLAG, overflow);
    WithFlagKeepsOthers(e2, SIGN_FLAG, ZERO_FLAG, Negative(low));
    WithFlagKeepsOthers(e3, OVERFLOW_FLAG, ZERO_FLAG, overflow);
    WithFlagKeepsOthers(e3, OVERFLOW_FLAG, SIGN_FLAG, overflow);
  }

  /**
   * The sign-bit test `update_eflags_add` uses for overflow holds exactly
   * when the sum of the signed operands does not fit in 32 bits.
   */
  lemma {:induction false} AddOverflowMeaning(v1: u32, v2: u32)
    ensures (Negative(v1) == Negative(v2) && Negative(v1) != Negative(Wrap32(v1 + v2)))
         == !(-0x8000_0000 <= Signed32(v1) + Signed32(v2) < 0x8000_0000)
  {
    if v1 + v2 >= 0x1_0000_0000 {
      assert Wrap32(v1 + v2) == v1 + v2 - 0x1_0000_0000;
    }
  }

  /**
   * The sign-bit test `update_eflags_sub` uses for overflow holds exactly
   * when the difference of the signed operands does not fit in 32 bits.
   */
  lemma {:induction false} SubOverflowMeaning(v1: u32, v2: u32)
    ensures (Negative(v1) != Negative(v2) && Negative(v1) != Negative(Wrap32(v1 - v2)))
         == !(-0x8000_0000 <= Signed32(v1) - Signed32(v2) < 0x8000_0000)
  {
    if v1 < v2 {
      assert Wrap32(v1 - v2) == v1 - v2 + 0x1_0000_0000;
    }
  }

  /**
   * For the 64-bit sum of two zero-extended operands, `update_eflags_add`
   * sets carry iff the sum exceeds 0xFFFFFFFF, zero iff the 32-bit sum is 0,
   * sign iff the 32-bit sum is negative, overflow iff the sum of the signed
   * operands does not fit in 32 bits, and keeps every other bit of eflags.
   */
  lemma {:induction false} AddFlagsMeaning(eflags: bv32, v1: u32, v2: u32)
    ensures var r := AddFlags(eflags, v1, v2, v1 + v2);
            && FlagSet(r, CARRY_FLAG) == (v1 + v2 > 0xFFFF_FFFF)
            && FlagSet(r, ZERO_FLAG) == (Wrap32(v1 + v2) == 0)
            && FlagSet(r, SIGN_FLAG) == Negative(Wrap32(v1 + v2))
            && FlagSet(r, OVERFLOW_FLAG) == !(-0x8000_0000 <= Signed32(v1) + Signed32(v2) < 0x8000_0000)
            && r & !ARITHMETIC_FLAGS == eflags & !ARITHMETIC_FLAGS
  {
    var overflow := Negative(v1) == Negative(v2) && Negative(v1) != Negative(Wrap32(v1 + v2));
    AddOverflowMeaning(v1, v2);
    ArithmeticFlagsMeaning(eflags, v1 + v2, overflow);
    var r := AddFlags(eflags, v1, v2, v1 + v2);
    assert FlagSet(r, CARRY_FLAG) == (v1 + v2 > 0xFFFF_FFFF);
    assert FlagSet(r, ZERO_FLAG) == (Wrap32(v1 + v2) == 0);
  }

  /** Reduction modulo 2^64: the uint64_t difference of two zero-extended operands. */
  function Wrap64(x: int): u64
  {
    x % 0x1_0000_0000_0000_0000
  }

  /** The 64-bit difference reaches 2^32 exactly when it borrowed, and its low half is the 32-bit difference. */
  lemma {:induction false} SubResult(v1: u32, v2: u32)
    ensures Wrap64(v1 - v2) >= 0x1_0000_0000 <==> v1 < v2
    ensures Wrap32(Wrap64(v1 - v2)) == Wrap32(v1 - v2)
    ensures Wrap32(v1 - v2) == 0 <==> v1 == v2
  {
    if v1 < v2 {
      assert Wrap64(v1 - v2) == 0x1_0000_0000_0000_0000 + v1 - v2;
      assert Wrap32(v1 - v2) == 0x1_0000_0000 + v1 - v2;
    }
  }

  /**
   * For the 64-bit difference of two zero-extended operands,
   * `update_eflags_sub` sets carry iff v1 < v2 (a borrow), zero iff
   * v1 == v2, sign iff the 32-bit difference is negative, overflow iff the
   * difference of the signed operands does not fit in 32 bits, and keeps
   * every other bit of eflags.
   */
  lemma {:induction false} SubFlagsMeaning(eflags: bv32, v1: u32, v2: u32)
    ensures var r := SubFlags(eflags, v1, v2, Wrap64(v1 - v2));
            && FlagSet(r, CARRY_FLAG) == (v1 < v2)
            && FlagSet(r, ZERO_FLAG) == (v1 == v2)
            && FlagSet(r, SIGN_FLAG) == Negative(Wrap32(v1 - v2))
            && FlagSet(r, OVERFLOW_FLAG) == !(-0x8000_0000 <= Signed32(v1) - Signed32(v2) < 0x8000_0000)
            && r & !ARITHMETIC_FLAGS == eflags & !ARITHMETIC_FLAGS
  {
    var result := Wrap64(v1 - v2);
    SubResult(v1, v2);
    SubOverflowMeaning(v1, v2);
    var overflow := Negative(v1) != Negative(v2) && Negative(v1) != Negative(Wrap32(result));
    ArithmeticFlagsMeaning(eflags, result, overflow);
    var r := SubFlags(eflags, v1, v2, result);
    assert FlagSet(r, CARRY_FLAG) == (v1 < v2);
    assert FlagSet(r, ZERO_FLAG) == (v1 == v2);
    assert FlagSet(r, SIGN_FLAG) == Negative(Wrap32(v1 - v2));
  }

  // ---------------------------------------------------------------------
  // Bytes, words and memory images

  /** Two's-complement reading of a byte, as `get_sign_code8` gives it. */
  function Signed8(b: u8): (r: int)
    ensures -0x80 <= r < 0x80
    ensures r < 0 <==> b >= 0x80
    ensures r % 0x100 == b
  {
    if b < 0x80 then b else b - 0x100
  }

  /** True when the `n` bytes starting at `address` lie inside a buffer of `length` bytes. */
  predicate Within(length: int, address: u32, n: nat)
  {
    address + n <= length
  }

  /** Little-endian 16-bit value at byte `a`. */
  function Load16(mem: seq<u8>, a: nat): u16
    requires a + 2 <= |mem|
  {
    mem[a] as int + 0x100 * mem[a + 1] as int
  }

  /** Little-endian 32-bit value at byte `a`. */
  function Load32(mem: seq<u8>, a: nat): u32
    requires a + 4 <= |mem|
  {
    mem[a] as int + 0x100 * mem[a + 1] as int + 0x1_0000 * mem[a + 2] as int + 0x100_0000 * mem[a + 3] as int
  }

  /** Byte `k` (0 = least significant) of a 32-bit word. */
  function ByteOf(v: u32, k: nat): u8
    requires k < 4
  {
    if k == 0 then v % 0x100
    else if k == 1 then (v / 0x100) % 0x100
    else if k == 2 then (v / 0x100 / 0x100) % 0x100
    else v / 0x100 / 0x100 / 0x100
  }

  /** The image after a little-endian 32-bit write at byte `a`. */
  function Store32(mem: seq<u8>, a: nat, v: u32): (r: seq<u8>)
    requires a + 4 <= |mem|
    ensures |r| == |mem|
    ensures forall i :: 0 <= i < |mem| && !(a <= i < a + 4) ==> r[i] == mem[i]
  {
    mem[a := ByteOf(v, 0)][a + 1 := ByteOf(v, 1)][a + 2 := ByteOf(v, 2)][a + 3 := ByteOf(v, 3)]
  }

  /** A 32-bit write followed by a 32-bit read at the same address gives back the value. */
  lemma {:induction false} Load32Store32(mem: seq<u8>, a: nat, v: u32)
    requires a + 4 <= |mem|
    ensures Load32(Store32(mem, a, v), a) == v
  {
    var r := Store32(mem, a, v);
    assert r[a] == ByteOf(v, 0) && r[a + 1] == ByteOf(v, 1);
    assert r[a + 2] == ByteOf(v, 2) && r[a + 3] == ByteOf(v, 3);
  }

  /** A 32-bit write does not change a 32-bit read that does not overlap it. */
  lemma {:induction false} Load32StoreElsewhere(mem: seq<u8>, a: nat, b: nat, v: u32)
    requires a + 4 <= |mem| && b + 4 <= |mem|
    requires a + 4 <= b || b + 4 <= a
    ensures Load32(Store32(mem, a, v), b) == Load32(mem, b)
  {
    var r := Store32(mem, a, v);
    assert r[b] == mem[b] && r[b + 1] == mem[b + 1];
    assert r[b + 2] == mem[b + 2] && r[b + 3] == mem[b + 3];
  }

  // ---------------------------------------------------------------------
  // Register files

  /** A register file: one 32-bit word per general register. */
  predicate IsRegisterFile(regs: seq<u32>)
  {
    |regs| == REGISTERS_COUNT
  }

  /** `x` with its low byte replaced by `v` (`x & 0xFFFFFF00 | v`). */
  function WithLowByte(x: u32, v: u8): (y: u32)
    ensures y % 0x100 == v
    ensures y / 0x100 == x / 0x100
  {
    x - x % 0x100 + v
  }

  /** `x` with its second byte replaced by `v` (`x & 0xFFFF00FF | v << 8`). */
  function WithSecondByte(x: u32, v: u8): (y: u32)
    ensures (y / 0x100) % 0x100 == v
    ensures y % 0x100 == x % 0x100
    ensures y / 0x1_0000 == x / 0x1_0000
  {
    x - ((x / 0x100) % 0x100) * 0x100 + v * 0x100
  }

  /** `get_register8`: indices 0..3 read the low byte of EAX..EBX, 4..7 their second byte. */
  function Reg8(regs: seq<u32>, i: nat): u8
    requires IsRegisterFile(regs) && i < REGISTERS_COUNT
  {
    if i < 4 then regs[i] % 0x100 else (regs[i - 4] / 0x100) % 0x100
  }

  /** The register file after `set_register8(emu, i, v)`. */
  function SetReg8(regs: seq<u32>, i: nat, v: u8): (r: seq<u32>)
    requires IsRegisterFile(regs) && i < REGISTERS_COUNT
    ensures IsRegisterFile(r)
  {
    if i < 4 then regs[i := WithLowByte(regs[i], v)]
    else regs[i - 4 := WithSecondByte(regs[i - 4], v)]
  }

  /**
   * An 8-bit write is read back by an 8-bit read of the same index; of the
   * owning register it changes only the named byte (the bits above the low
   * byte, or the bytes on either side of the second byte); it changes no
   * other register, and so every other 8-bit name reads as before.
   */
  lemma {:induction false} SetReg8Meaning(regs: seq<u32>, i: nat, v: u8)
    requires IsRegisterFile(regs) && i < REGISTERS_COUNT
    ensures Reg8(SetReg8(regs, i, v), i) == v
    ensures i < 4 ==> SetReg8(regs, i, v)[i] / 0x100 == regs[i] / 0x100
    ensures i >= 4 ==> && SetReg8(regs, i, v)[i - 4] % 0x100 == regs[i - 4] % 0x100
                       && SetReg8(regs, i, v)[i - 4] / 0x1_0000 == regs[i - 4] / 0x1_0000
    ensures forall k :: 0 <= k < REGISTERS_COUNT && k != i % 4 ==> SetReg8(regs, i, v)[k] == regs[k]
    ensures forall j :: 0 <= j < REGISTERS_COUNT && j != i ==> Reg8(SetReg8(regs, i, v), j) == Reg8(regs, j)
  {
    var r := SetReg8(regs, i, v);
    forall j | 0 <= j < REGISTERS_COUNT && j != i
      ensures Reg8(r, j) == Reg8(regs, j)
    {
      if j % 4 != i % 4 {
        assert r[j % 4] == regs[j % 4];
      } else if i < 4 {
        var x := regs[i];
        assert r[i] == WithLowByte(x, v);
        assert (r[i] / 0x100) % 0x100 == (x / 0x100) % 0x100;
      } else {
        assert r[i - 4] == WithSecondByte(regs[i - 4], v);
      }
    }
  }

  /**
   * The 8-bit names read the byte of `emulator.h`'s layout: AL..BL the low
   * byte of EAX..EBX, AH..BH the second byte of the same register.
   */
  lemma {:induction false} Reg8Named(regs: seq<u32>, r: Register8)
    requires IsRegisterFile(regs)
    ensures Reg8(regs, Register8Index(r))
            == if IsHighByte(r) then (regs[RegisterIndex(Owner(r))] / 0x100) % 0x100
               else regs[RegisterIndex(Owner(r))] % 0x100
  {
  }

  /** A 32-bit write is read back and changes no other register. */
  lemma SetReg32Meaning(regs: seq<u32>, i: nat, v: u32)
    requires IsRegisterFile(regs) && i < REGISTERS_COUNT
    ensures IsRegisterFile(regs[i := v]) && regs[i := v][i] == v
    ensures forall k :: 0 <= k < REGISTERS_COUNT && k != i ==> regs[i := v][k] == regs[k]
  {
  }

  // ---------------------------------------------------------------------
  // The stack, as values

  /** Index of ESP in the register file. */
  const ESP_INDEX: nat := RegisterIndex(ESP)

  /** The stack pointer after a push: ESP - 4 in uint32_t arithmetic. */
  function PushedSp(sp: u32): (r: u32)
    ensures r as int == if sp >= 4 then sp - 4 else sp + 0x1_0000_0000 - 4
  {
    Wrap32(sp as int - 4)
  }

  /** The stack pointer after a pop: ESP + 4 in uint32_t arithmetic. */
  function PoppedSp(sp: u32): (r: u32)
    ensures PushedSp(r) == sp
  {
    Wrap32(sp as int + 4)
  }

  /** A push is undone by a pop: the stack pointer comes back. */
  lemma {:induction false} PoppedSpUndoesPush(sp: u32)
    ensures PoppedSp(PushedSp(sp)) == sp
  {
    if sp < 4 {
      assert PushedSp(sp) == sp + 0x1_0000_0000 - 4;
    }
  }

  /** `pop32` can read the four bytes at ESP. */
  predicate CanPop(s: State)
  {
    WellFormed(s) && Within(|s.memory|, s.registers[ESP_INDEX], 4)
  }

  /** The value `pop32` returns: the 32-bit word at ESP. */
  function Top(s: State): u32
    requires CanPop(s)
  {
    Load32(s.memory, s.registers[ESP_INDEX])
  }

  /** The state after `pop32`: ESP raised by 4, nothing else changed. */
  function Popped(s: State): (r: State)
    requires WellFormed(s)
    ensures WellFormed(r)
    ensures r.registers[ESP_INDEX] == PoppedSp(s.registers[ESP_INDEX])
  {
    s.(registers := s.registers[ESP_INDEX := PoppedSp(s.registers[ESP_INDEX])])
  }

  /** `push32` can write the four bytes below ESP. */
  predicate CanPush(s: State)
  {
    WellFormed(s) && Within(|s.memory|, PushedSp(s.registers[ESP_INDEX]), 4)
  }

  /**
   * The state after `push32(v)`: ESP lowered by 4 and `v` stored at the new
   * ESP; no other register, selector, eflags, eip or memory byte changes.
   */
  function Pushed(s: State, v: u32): (r: State)
    requires CanPush(s)
    ensures CanPop(r) && Top(r) == v
    ensures r.registers == s.registers[ESP_INDEX := PushedSp(s.registers[ESP_INDEX])]
    ensures r.eflags == s.eflags && r.segmentRegisters == s.segmentRegisters && r.eip == s.eip
    ensures |r.memory| == |s.memory|
    ensures forall i :: 0 <= i < |s.memory| && !(r.registers[ESP_INDEX] <= i < r.registers[ESP_INDEX] as int + 4)
              ==> r.memory[i] == s.memory[i]
  {
    var sp := PushedSp(s.registers[ESP_INDEX]);
    Load32Store32(s.memory, sp, v);
    s.(registers := s.registers[ESP_INDEX := sp], memory := Store32(s.memory, sp, v))
  }

  /**
   * `push32(v)` then `pop32()`: the pop returns `v`, and the state is the
   * one before the push except for the four bytes the push wrote below the
   * stack pointer.
   */
  lemma {:induction false} PushPopRoundTrip(s: State, v: u32)
    requires CanPush(s)
    ensures Top(Pushed(s, v)) == v
    ensures Popped(Pushed(s, v)) == s.(memory := Pushed(s, v).memory)
  {
    var sp := s.registers[ESP_INDEX];
    PoppedSpUndoesPush(sp);
    assert Popped(Pushed(s, v)).registers == s.registers;
  }

  /**
   * A push does not disturb the word below it: after `push32(v)` and one
   * pop, the word on top is the one that was on top before the push.
   */
  lemma {:induction false} PushKeepsOlderWords(s: State, v: u32)
    requires CanPush(s) && CanPop(s)
    ensures CanPop(Popped(Pushed(s, v))) && Top(Popped(Pushed(s, v))) == Top(s)
  {
    var sp := s.registers[ESP_INDEX];
    var a := PushedSp(sp);
    assert a as int + 4 <= sp as int || sp as int + 4 <= a as int;
    Load32StoreElsewhere(s.memory, a, sp, v);
    PushPopRoundTrip(s, v);
  }

  // ---------------------------------------------------------------------
  // Code fetch: reads at eip + index, never moves eip

  /** The address `index` bytes past eip (uint32_t arithmetic). */
  function CodeAddress(eip: u32, index: nat): u32
  {
    Wrap32(eip as int + index)
  }

  /** `get_code8(emu, index)`: the byte at eip + index, zero-extended. */
  method GetCode8(emu: Emulator, index: nat) returns (r: u32)
    requires emu.Valid() && Within(emu.memory.Length, CodeAddress(emu.eip, index), 1)
    ensures r == emu.memory[CodeAddress(emu.eip, index)]
    ensures r < 0x100
  {
    r := emu.memory[CodeAddress(emu.eip, index)];
  }

  /** `get_sign_code8(emu, index)`: the byte at eip + index read as signed. */
  method GetSignCode8(emu: Emulator, index: nat) returns (r: int)
    requires emu.Valid() && Within(emu.memory.Length, CodeAddress(emu.eip, index), 1)
    ensures r == Signed8(emu.memory[CodeAddress(emu.eip, index)])
  {
    r := Signed8(emu.memory[CodeAddress(emu.eip, index)]);
  }

  /** `get_code16(emu, index)`: the little-endian 16-bit value at eip + index. */
  method GetCode16(emu: Emulator, index: nat) returns (r: u32)
    requires emu.Valid() && Within(emu.memory.Length, CodeAddress(emu.eip, index), 2)
    ensures r == Load16(emu.memory[..], CodeAddress(emu.eip, index))
    ensures r < 0x1_0000
  {
    var a := CodeAddress(emu.eip, index);
    r := emu.memory[a] as int + 0x100 * emu.memory[a + 1] as int;
  }

  /** `get_code32(emu, index)`: the little-endian 32-bit value at eip + index. */
  method GetCode32(emu: Emulator, index: nat) returns (r: u32)
    requires emu.Valid() && Within(emu.memory.Length, CodeAddress(emu.eip, index), 4)
    ensures r == Load32(emu.memory[..], CodeAddress(emu.eip, index))
  {
    var a := CodeAddress(emu.eip, index);
    r := Load32(emu.memory[..], a);
  }

  /** `get_sign_code32(emu, index)`: the 32-bit value at eip + index read as signed. */
  method GetSignCode32(emu: Emulator, index: nat) returns (r: int)
    requires emu.Valid() && Within(emu.memory.Length, CodeAddress(emu.eip, index), 4)
    ensures r == Signed32(Load32(emu.memory[..], CodeAddress(emu.eip, index)))
  {
    var w := GetCode32(emu, index);
    r := Signed32(w);
  }

  // ---------------------------------------------------------------------
  // Memory

  /** `set_memory8(emu, address, value)`: stores the low byte of `value`. */
  method SetMemory8(emu: Emulator, address: u32, value: u32)
    requires emu.Valid() && Within(emu.memory.Length, address, 1)
    modifies emu.memory
    ensures emu.memory[..] == old(emu.memory[..])[address := value % 0x100]
  {
    emu.memory[address] := value % 0x100;
  }

  /** `set_memory32(emu, address, value)`: four byte stores, least significant first. */
  method SetMemory32(emu: Emulator, address: u32, value: u32)
    requires emu.Valid() && Within(emu.memory.Length, address, 4)
    modifies emu.memory
    ensures emu.memory[..] == Store32(old(emu.memory[..]), address, value)
  {
    emu.memory[address] := ByteOf(value, 0);
    emu.memory[address + 1] := ByteOf(value, 1);
    emu.memory[address + 2] := ByteOf(value, 2);
    emu.memory[address + 3] := ByteOf(value, 3);
  }

  /** `get_memory8(emu, address)`: the byte at `address`, zero-extended. */
  method GetMemory8(emu: Emulator, address: u32) returns (r: u32)
    requires emu.Valid() && Within(emu.memory.Length, address, 1)
    ensures r == emu.memory[address]
    ensures r < 0x100
  {
    r := emu.memory[address];
  }

  /**
   * `get_memory16(emu, seg, address)`. Memory is flat: the segment names
   * the selector the access goes through but does not change the address.
   */
  method GetMemory16(emu: Emulator, seg: SegmentRegister, address: u32) returns (r: u16)
    requires emu.Valid() && Within(emu.memory.Length, address, 2)
    ensures r == Load16(emu.memory[..], address)
  {
    r := emu.memory[address] as int + 0x100 * emu.memory[address + 1] as int;
  }

  /** `get_memory32(emu, seg, address)`, flat as `GetMemory16`. */
  method GetMemory32(emu: Emulator, seg: SegmentRegister, address: u32) returns (r: u32)
    requires emu.Valid() && Within(emu.memory.Length, address, 4)
    ensures r == Load32(emu.memory[..], address)
  {
    r := emu.memory[address] as int + 0x100 * emu.memory[address + 1] as int
      + 0x1_0000 * emu.memory[address + 2] as int + 0x100_0000 * emu.memory[address + 3] as int;
  }

  // ---------------------------------------------------------------------
  // Registers

  /** `set_register8(emu, index, value)`: replaces one byte of EAX..EBX. */
  method SetRegister8(emu: Emulator, index: nat, value: u8)
    requires emu.Valid() && index < REGISTERS_COUNT
    modifies emu`registers
    ensures emu.Valid()
    ensures emu.registers == SetReg8(old(emu.registers), index, value)
  {
    if index < 4 {
      var r := emu.registers[index];
      emu.registers := emu.registers[index := WithLowByte(r, value)];
    } else {
      var r := emu.registers[index - 4];
      emu.registers := emu.registers[index - 4 := WithSecondByte(r, value)];
    }
  }

  /** `get_register8(emu, index)`. */
  method GetRegister8(emu: Emulator, index: nat) returns (r: u8)
    requires emu.Valid() && index < REGISTERS_COUNT
    ensures r == Reg8(emu.registers, index)
  {
    if index < 4 {
      r := emu.registers[index] % 0x100;
    } else {
      r := (emu.registers[index - 4] / 0x100) % 0x100;
    }
  }

  /** `set_register32(emu, index, value)`. */
  method SetRegister32(emu: Emulator, index: nat, value: u32)
    requires emu.Valid() && index < REGISTERS_COUNT
    modifies emu`registers
    ensures emu.Valid()
    ensures emu.registers == old(emu.registers)[index := value]
  {
    emu.registers := emu.registers[index := value];
  }

  /** `get_register32(emu, index)`. */
  method GetRegister32(emu: Emulator, index: nat) returns (r: u32)
    requires emu.Valid() && index < REGISTERS_COUNT
    ensures r == emu.registers[index]
  {
    r := emu.registers[index];
  }

  // ---------------------------------------------------------------------
  // Segment registers (used by the handlers, declared outside this header)

  /** `get_seg_register16(emu, index)`. */
  method GetSegRegister16(emu: Emulator, index: nat) returns (r: u16)
    requires emu.Valid() && index < SEGMENT_REGISTERS_COUNT
    ensures r == emu.segmentRegisters[index]
  {
    r := emu.segmentRegisters[index];
  }

  /** `set_seg_register16(emu, index, value)`. */
  method SetSegRegister16(emu: Emulator, index: nat, value: u16)
    requires emu.Valid() && index < SEGMENT_REGISTERS_COUNT
    modifies emu`segmentRegisters
    ensures emu.Valid()
    ensures emu.segmentRegisters == old(emu.segmentRegisters)[index := value]
  {
    emu.segmentRegisters := emu.segmentRegisters[index := value];
  }

  // ---------------------------------------------------------------------
  // Stack

  /** `push32(emu, value)`: ESP -= 4, then the value is stored at the new ESP. */
  method Push32(emu: Emulator, value: u32)
    requires emu.Valid() && CanPush(emu.View())
    modifies emu`registers, emu.memory
    ensures emu.Valid()
    ensures emu.View() == Pushed(old(emu.View()), value)
  {
    var sp := PushedSp(emu.registers[ESP_INDEX]);
    SetRegister32(emu, ESP_INDEX, sp);
    SetMemory32(emu, sp, value);
  }

  /** `pop32(emu)`: the value at ESP is read, then ESP += 4. */
  method Pop32(emu: Emulator) returns (r: u32)
    requires emu.Valid() && CanPop(emu.View())
    modifies emu`registers
    ensures emu.Valid()
    ensures r == Top(old(emu.View()))
    ensures emu.View() == Popped(old(emu.View()))
  {
    var sp := emu.registers[ESP_INDEX];
    r := GetMemory32(emu, SS, sp);
    SetRegister32(emu, ESP_INDEX, PoppedSp(sp));
  }

  /** The low 16 bits of a word: what a uint16_t keeps of it. */
  function Low16(v: u32): (r: u16)
    ensures r % 0x1_0000 == v % 0x1_0000
    ensures v < 0x1_0000 ==> r == v
  {
    v % 0x1_0000
  }

  /** The state after `pop_segment_register(emu, index)`: a pop whose low 16 bits become the selector. */
  function PoppedSegment(s: State, index: nat): (r: State)
    requires CanPop(s) && index < SEGMENT_REGISTERS_COUNT
    ensures WellFormed(r)
  {
    var p := Popped(s);
    p.(segmentRegisters := p.segmentRegisters[index := Low16(Top(s))])
  }

  /** `pop_segment_register(emu, index)`. */
  method PopSegmentRegister(emu: Emulator, index: nat)
    requires emu.Valid() && CanPop(emu.View()) && index < SEGMENT_REGISTERS_COUNT
    modifies emu`registers, emu`segmentRegisters
    ensures emu.Valid()
    ensures emu.View() == PoppedSegment(old(emu.View()), index)
  {
    var v := Pop32(emu);
    SetSegRegister16(emu, index, Low16(v));
  }

  // ---------------------------------------------------------------------
  // Flag setters and readers

  /** `set_carry_flag`, `set_zero_flag`, `set_sign_flag`, `set_int_flag`, `set_direction_flag`, `set_overflow_flag`. */
  method SetFlag(emu: Emulator, mask: bv32, on: bool)
    requires IsFlagMask(mask)
    modifies emu`eflags
    ensures emu.eflags == WithFlag(old(emu.eflags), mask, on)
  {
    if on {
      emu.eflags := emu.eflags | mask;
    } else {
      emu.eflags := emu.eflags & !mask;
    }
  }

  /** `is_carry`, `is_zero`, `is_sign`, `is_int_enabled`, `is_direction_down`, `is_overflow`. */
  method IsFlag(emu: Emulator, mask: bv32) returns (on: bool)
    requires IsFlagMask(mask)
    ensures on == FlagSet(emu.eflags, mask)
  {
    on := emu.eflags & mask != 0;
  }

  /** `update_eflags_add(emu, value1, value2, result)`. */
  method UpdateEflagsAdd(emu: Emulator, value1: u32, value2: u32, result: u64)
    modifies emu`eflags
    ensures emu.eflags == AddFlags(old(emu.eflags), value1, value2, result)
  {
    var low := Wrap32(result);
    var sign1, sign2, signr := Negative(value1), Negative(value2), Negative(low);
    SetFlag(emu, CARRY_FLAG, result / 0x1_0000_0000 != 0);
    SetFlag(emu, ZERO_FLAG, low == 0);
    SetFlag(emu, SIGN_FLAG, signr);
    SetFlag(emu, OVERFLOW_FLAG, sign1 == sign2 && sign1 != signr);
  }

  /** `update_eflags_sub(emu, value1, value2, result)`. */
  method UpdateEflagsSub(emu: Emulator, value1: u32, value2: u32, result: u64)
    modifies emu`eflags
    ensures emu.eflags == SubFlags(old(emu.eflags), value1, value2, result)
  {
    var low := Wrap32(result);
    var sign1, sign2, signr := Negative(value1), Negative(value2), Negative(low);
    SetFlag(emu, CARRY_FLAG, result / 0x1_0000_0000 != 0);
    SetFlag(emu, ZERO_FLAG, low == 0);
    SetFlag(emu, SIGN_FLAG, signr);
    SetFlag(emu, OVERFLOW_FLAG, sign1 != sign2 && sign1 != signr);
  }
}
