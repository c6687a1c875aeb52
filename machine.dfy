/**
 * The CPU state of the emulator (emulator.h): the numbering of the general,
 * segment and control registers, and the single state record that every
 * instruction handler works on.
 */
module Machine {

  /** Unsigned machine integers of the widths the emulator uses (uint8_t … uint64_t). */
  type u8 = x: int | 0 <= x < 0x100
  type u16 = x: int | 0 <= x < 0x1_0000
  type u32 = x: int | 0 <= x < 0x1_0000_0000
  type u64 = x: int | 0 <= x < 0x1_0000_0000_0000_0000

  /** Reduction modulo 2^32: what storing an arithmetic result in a uint32_t does. */
  function Wrap32(x: int): (r: u32)
    ensures r % 0x1_0000_0000 == x % 0x1_0000_0000
    ensures 0 <= x < 0x1_0000_0000 ==> r == x
  {
    x % 0x1_0000_0000
  }

  /** Adding in two steps, wrapping after each, is adding once and wrapping. */
  lemma {:induction false} Wrap32Add(x: int, k: int)
    ensures Wrap32(Wrap32(x) + k) == Wrap32(x + k)
  {
    var q := x / 0x1_0000_0000;
    assert Wrap32(x) == x - q * 0x1_0000_0000;
  }

  /** General registers, numbered in the order of the REG field of ModR/M (000 = EAX … 111 = EDI). */
  datatype Register = EAX | ECX | EDX | EBX | ESP | EBP | ESI | EDI

  const REGISTERS_COUNT: nat := 8

  function RegisterIndex(r: Register): (i: nat)
    ensures i < REGISTERS_COUNT
    ensures i < 4 <==> r in {EAX, ECX, EDX, EBX}
  {
    match r
    case EAX => 0
    case ECX => 1
    case EDX => 2
    case EBX => 3
    case ESP => 4
    case EBP => 5
    case ESI => 6
    case EDI => 7
  }

  /** The register a 3-bit REG or RM field names. */
  function RegisterAt(i: nat): (r: Register)
    requires i < REGISTERS_COUNT
    ensures RegisterIndex(r) == i
  {
    [EAX, ECX, EDX, EBX, ESP, EBP, ESI, EDI][i]
  }

  /** The numbering is a bijection between the eight registers and 0..7. */
  lemma RegisterNumbering(r: Register, s: Register)
    ensures RegisterAt(RegisterIndex(r)) == r
    ensures RegisterIndex(r) == RegisterIndex(s) ==> r == s
  {
  }

  /**
   * 8-bit registers: AL..BL alias the low byte of EAX..EBX, AH..BH the
   * second byte of the same four registers.
   */
  datatype Register8 = AL | CL | DL | BL | AH | CH | DH | BH

  /** The 32-bit register an 8-bit name is a byte of. */
  function Owner(r: Register8): Register
  {
    match r
    case AL => EAX
    case CL => ECX
    case DL => EDX
    case BL => EBX
    case AH => EAX
    case CH => ECX
    case DH => EDX
    case BH => EBX
  }

  /** True for the names of the second byte (AH, CH, DH, BH). */
  predicate IsHighByte(r: Register8)
  {
    r in {AH, CH, DH, BH}
  }

  /** AL = EAX, CL = ECX, DL = EDX, BL = EBX, and each xH = xL + 4. */
  function Register8Index(r: Register8): (i: nat)
    ensures i < REGISTERS_COUNT
    ensures i == RegisterIndex(Owner(r)) + (if IsHighByte(r) then 4 else 0)
  {
    match r
    case AL => 0
    case CL => 1
    case DL => 2
    case BL => 3
    case AH => 4
    case CH => 5
    case DH => 6
    case BH => 7
  }

  /** Only EAX, ECX, EDX and EBX have 8-bit names; ESP, EBP, ESI and EDI have none. */
  lemma {:induction false} ByteAliasesOnlyForFirstFour(r: Register)
    ensures (exists b :: Owner(b) == r) <==> RegisterIndex(r) < 4
  {
    match r
    case EAX => assert Owner(AL) == r;
    case ECX => assert Owner(CL) == r;
    case EDX => assert Owner(DL) == r;
    case EBX => assert Owner(BL) == r;
    case _ =>
  }

  datatype SegmentRegister = CS | DS | ES | SS | FS | GS

  const SEGMENT_REGISTERS_COUNT: nat := 6

  function SegmentIndex(s: SegmentRegister): (i: nat)
    ensures i < SEGMENT_REGISTERS_COUNT
  {
    match s
    case CS => 0
    case DS => 1
    case ES => 2
    case SS => 3
    case FS => 4
    case GS => 5
  }

  /** The six selectors are numbered 0..5 without collisions. */
  lemma SegmentNumbering(s: SegmentRegister, t: SegmentRegister)
    ensures SegmentIndex(s) == SegmentIndex(t) ==> s == t
  {
  }

  datatype ControlRegister = CR0 | CR1 | CR2 | CR3 | CR4

  const CONTROL_REGISTER_COUNT: nat := 5

  function ControlIndex(c: ControlRegister): (i: nat)
    ensures i < CONTROL_REGISTER_COUNT
  {
    match c
    case CR0 => 0
    case CR1 => 1
    case CR2 => 2
    case CR3 => 3
    case CR4 => 4
  }

  /** Addresses are 32 bits wide, so the memory buffer holds at most 2^32 bytes. */
  const MEMORY_LIMIT: nat := 0x1_0000_0000

  /**
   * The part of the state record the C0..CF handlers read or write, as a
   * value: eflags, the general registers, the selectors, the memory bytes
   * and eip. (The control registers are never touched by these handlers.)
   */
  datatype State = State(
    eflags: bv32,
    registers: seq<u32>,
    segmentRegisters: seq<u16>,
    memory: seq<u8>,
    eip: u32)

  /** One word per general register and selector; memory within the 32-bit address space. */
  predicate WellFormed(s: State)
  {
    && |s.registers| == REGISTERS_COUNT
    && |s.segmentRegisters| == SEGMENT_REGISTERS_COUNT
    && |s.memory| <= MEMORY_LIMIT
  }

  /**
   * The emulator state record. The memory buffer is allocated once, by
   * the loader, and only its bytes change afterwards.
   */
  class Emulator {
    var eflags: bv32
    var registers: seq<u32>
    var segmentRegisters: seq<u16>
    var controlRegisters: seq<u32>
    const memory: array<u8>
    var eip: u32

    ghost predicate Valid()
      reads this
    {
      && |registers| == REGISTERS_COUNT
      && |segmentRegisters| == SEGMENT_REGISTERS_COUNT
      && |controlRegisters| == CONTROL_REGISTER_COUNT
      && memory.Length <= MEMORY_LIMIT
    }

    /** The current state as a value. */
    function View(): (s: State)
      reads this, memory
      ensures Valid() ==> WellFormed(s)
    {
      State(eflags, registers, segmentRegisters, memory[..], eip)
    }

    /**
     * A state over a loaded memory image, about to run at `entry`. The
     * header only declares the fields; starting them at zero is this
     * model's choice.
     */
    constructor (image: array<u8>, entry: u32)
      requires image.Length <= MEMORY_LIMIT
      ensures Valid() && memory == image && eip == entry
      ensures eflags == 0
      ensures forall i :: 0 <= i < REGISTERS_COUNT ==> registers[i] == 0
      ensures forall i :: 0 <= i < SEGMENT_REGISTERS_COUNT ==> segmentRegisters[i] == 0
      ensures forall i :: 0 <= i < CONTROL_REGISTER_COUNT ==> controlRegisters[i] == 0
    {
      eflags := 0;
      registers := [0, 0, 0, 0, 0, 0, 0, 0];
      segmentRegisters := [0, 0, 0, 0, 0, 0];
      controlRegisters := [0, 0, 0, 0, 0];
      memory := image;
      eip := entry;
    }
  }
}
