/** The instruction decoder (src/opcodes.rs): a 16-bit word becomes an
    `Opcode` value by masks and shifts on its bits. The trap-code names
    come from the crate root (src/main.rs). As written, the decoder never
    sign-extends: every offset and immediate is the masked field, a
    non-negative `i16`. */
module Opcodes {
  import opened Wrappers
  import Util

  datatype TrapCode = Getc | Out | Puts | In | Putsp | Halt

  /** Second operand of ADD/AND: a register index or an `i16` immediate
      (kept as its 16-bit pattern). */
  datatype Argument = Reg(index: nat) | Immediate(value: bv16)

  /** One decoded instruction. Register fields are `usize` indices into
      the register file; offsets are `i16` patterns. */
  datatype Opcode =
    | ADD(dr: nat, sr1: nat, sr2: Argument)
    | AND(dr: nat, sr1: nat, sr2: Argument)
    | BR(n: bool, z: bool, p: bool, offset: bv16)
    | JMP(baseR: nat)
    | RET
    | JSR(offset: bv16)
    | JSRR(baseR: nat)
    | LD(dr: nat, offset: bv16)
    | LDI(dr: nat, offset: bv16)
    | LDR(dr: nat, baseR: nat, offset: bv16)
    | LEA(dr: nat, offset: bv16)
    | NOT(dr: nat, sr: nat)
    | RTI
    | ST(sr: nat, offset: bv16)
    | STI(sr: nat, offset: bv16)
    | STR(sr: nat, baseR: nat, offset: bv16)
    | TRAP(trapCode: TrapCode)
    | RESERVED

  /** `UnknownInstruction` is the `Err(())` the decoder returns for an
      opcode it does not list; `UnknownTrapCode` stands for its panic on a
      trap byte outside 0x20..0x25. */
  datatype DecodeError = UnknownInstruction(op: bv16) | UnknownTrapCode(code: bv16)

  /** Every register index the instruction names is below `bound`. */
  predicate RegistersBelow(op: Opcode, bound: nat) {
    match op
    case ADD(dr, sr1, sr2) => dr < bound && sr1 < bound && (sr2.Reg? ==> sr2.index < bound)
    case AND(dr, sr1, sr2) => dr < bound && sr1 < bound && (sr2.Reg? ==> sr2.index < bound)
    case JMP(baseR) => baseR < bound
    case JSRR(baseR) => baseR < bound
    case LD(dr, _) => dr < bound
    case LDI(dr, _) => dr < bound
    case LDR(dr, baseR, _) => dr < bound && baseR < bound
    case LEA(dr, _) => dr < bound
    case NOT(dr, sr) => dr < bound && sr < bound
    case ST(sr, _) => sr < bound
    case STI(sr, _) => sr < bound
    case STR(sr, baseR, _) => sr < bound && baseR < bound
    case _ => true
  }

  /** The values the decoder can produce: 3-bit register fields,
      zero-extended offsets (BR 9 bits, LD/LDI/LEA/ST/STI/JSR 8 bits,
      LDR/STR 6 bits), a 5-bit immediate, JMP never on register 7 (that
      is RET), and NOT with its source equal to its destination. */
  predicate InDecoderRange(op: Opcode) {
    RegistersBelow(op, 8) &&
    match op
    case ADD(_, _, sr2) => sr2.Immediate? ==> sr2.value <= 0x1F
    case AND(_, _, sr2) => sr2.Immediate? ==> sr2.value <= 0x1F
    case BR(_, _, _, offset) => offset <= 0x1FF
    case JMP(baseR) => baseR < 7
    case JSR(offset) => offset <= 0xFF
    case LD(_, offset) => offset <= 0xFF
    case LDI(_, offset) => offset <= 0xFF
    case LDR(_, _, offset) => offset <= 0x3F
    case LEA(_, offset) => offset <= 0xFF
    case NOT(dr, sr) => sr == dr
    case ST(_, offset) => offset <= 0xFF
    case STI(_, offset) => offset <= 0xFF
    case STR(_, _, offset) => offset <= 0x3F
    case _ => true
  }

  /** The top nibble that selects each variant. */
  function OpcodeNumber(op: Opcode): bv16 {
    match op
    case BR(_, _, _, _) => 0x0
    case ADD(_, _, _) => 0x1
    case LD(_, _) => 0x2
    case ST(_, _) => 0x3
    case JSR(_) => 0x4
    case JSRR(_) => 0x4
    case AND(_, _, _) => 0x5
    case LDR(_, _, _) => 0x6
    case STR(_, _, _) => 0x7
    case RTI => 0x8
    case NOT(_, _) => 0x9
    case LDI(_, _) => 0xA
    case STI(_, _) => 0xB
    case JMP(_) => 0xC
    case RET => 0xC
    case RESERVED => 0xD
    case LEA(_, _) => 0xE
    case TRAP(_) => 0xF
  }

  /** `.into()` / `as usize` of a masked register field. */
  function AsIndex(field: bv16): (r: nat)
    ensures r == field as int
    ensures field < 8 ==> r < 8
  {
    field as nat
  }

  /** `Opcode::try_from`. */
  function Decode(instruction: bv16): (r: Result<Opcode, DecodeError>)
  {
    var op := instruction >> 12;
    match op
    case 0x1 =>
      var dr := (instruction & 0x0E00) >> 9;
      var sr1 := (instruction & 0x01C0) >> 6;
      if instruction & (1 << 5) == 0 then
        Ok(ADD(AsIndex(dr), AsIndex(sr1), Reg(AsIndex(instruction & 0x0007))))
      else
        Ok(ADD(AsIndex(dr), AsIndex(sr1), Immediate(instruction & 0x001F)))
    case 0x5 =>
      var dr := (instruction & 0x0E00) >> 9;
      var sr1 := (instruction & 0x01C0) >> 6;
      if instruction & (1 << 5) == 0 then
        Ok(AND(AsIndex(dr), AsIndex(sr1), Reg(AsIndex(instruction & 0x0007))))
      else
        Ok(AND(AsIndex(dr), AsIndex(sr1), Immediate(instruction & 0x001F)))
    case 0x0 =>
      Ok(BR(instruction & (1 << 11) != 0, instruction & (1 << 10) != 0,
            instruction & (1 << 9) != 0, instruction & 0x1FF))
    case 0xC =>
      var baseR := (instruction & 0x01C0) >> 6;
      if baseR == 7 then Ok(RET) else Ok(JMP(AsIndex(baseR)))
    case 0x4 =>
      if instruction & (1 << 11) != 0 then Ok(JSR(instruction & 0xFF))
      else Ok(JSRR(AsIndex((instruction & 0x1C0) >> 6)))
    case 0x2 => Ok(LD(AsIndex((instruction & 0xE00) >> 9), instruction & 0xFF))
    case 0xA => Ok(LDI(AsIndex((instruction & 0xE00) >> 9), instruction & 0xFF))
    case 0x6 =>
      Ok(LDR(AsIndex((instruction & 0xE00) >> 9), AsIndex((instruction & 0x1C0) >> 6), instruction & 0x3F))
    case 0xE => Ok(LEA(AsIndex((instruction & 0x700) >> 8), instruction & 0xFF))
    case 0x9 => Ok(NOT(AsIndex((instruction & 0xE00) >> 9), AsIndex((instruction & 0xE00) >> 9)))
    case 0x8 => Ok(RTI)
    case 0x3 => Ok(ST(AsIndex((instruction & 0x700) >> 8), instruction & 0xFF))
    case 0xB => Ok(STI(AsIndex((instruction & 0x700) >> 8), instruction & 0xFF))
    case 0x7 =>
      Ok(STR(AsIndex((instruction & 0xE00) >> 9), AsIndex((instruction & 0x1C0) >> 6), instruction & 0x3F))
    case 0xF =>
      var trapCode := instruction & 0xFF;
      if trapCode == 0x20 then Ok(TRAP(Getc))
      else if trapCode == 0x21 then Ok(TRAP(Out))
      else if trapCode == 0x22 then Ok(TRAP(Puts))
      else if trapCode == 0x23 then Ok(TRAP(In))
      else if trapCode == 0x24 then Ok(TRAP(Putsp))
      else if trapCode == 0x25 then Ok(TRAP(Halt))
      else Err(UnknownTrapCode(trapCode))
    case 0xD => Ok(RESERVED)
    case _ => Err(UnknownInstruction(op))
  }

  /** The decoder fails only on a TRAP word whose low byte is not one of
      the six known trap codes: the `Err(())` arm is unreachable, because
      every 4-bit opcode number has an arm. */
  lemma DecodeFailsOnlyOnUnknownTrap(instruction: bv16)
    ensures Decode(instruction).Err? <==> instruction >> 12 == 0xF && !(0x20 <= instruction & 0xFF <= 0x25)
    ensures Decode(instruction).Err? ==> Decode(instruction).error == UnknownTrapCode(instruction & 0xFF)
    ensures !Decode(instruction).Err? || !Decode(instruction).error.UnknownInstruction?
  {
  }

  /** The 3-bit register field of `w` whose lowest bit is bit `lo`. */
  function RegisterAt(w: bv16, lo: bv16): (r: nat)
    requires lo <= 13
    ensures r < 8
  {
    ((w >> lo) & 7) as nat
  }

  /** ADD: destination in bits 11..9, first source in bits 8..6; bit 5
      clear selects the register in bits 2..0, bit 5 set the 5-bit
      immediate, zero-extended (so 0..31, never negative). */
  lemma DecodeAdd(instruction: bv16)
    requires instruction >> 12 == 0x1
    ensures Decode(instruction) == Ok(ADD(RegisterAt(instruction, 9), RegisterAt(instruction, 6),
      if instruction & 0x20 == 0 then Reg(RegisterAt(instruction, 0)) else Immediate(instruction & 0x1F)))
  {
  }

  /** AND decodes exactly like ADD. */
  lemma DecodeAnd(instruction: bv16)
    requires instruction >> 12 == 0x5
    ensures Decode(instruction) == Ok(AND(RegisterAt(instruction, 9), RegisterAt(instruction, 6),
      if instruction & 0x20 == 0 then Reg(RegisterAt(instruction, 0)) else Immediate(instruction & 0x1F)))
  {
  }

  /** BR: bits 11, 10, 9 are n, z, p; the offset is bits 8..0,
      zero-extended (0..511). */
  lemma DecodeBranch(instruction: bv16)
    requires instruction >> 12 == 0x0
    ensures Decode(instruction) == Ok(BR((instruction >> 11) & 1 == 1, (instruction >> 10) & 1 == 1,
      (instruction >> 9) & 1 == 1, instruction & 0x1FF))
  {
  }

  /** JMP on base register 7 is RET; any other base gives JMP on it. */
  lemma DecodeJump(instruction: bv16)
    requires instruction >> 12 == 0xC
    ensures Decode(instruction) == Ok(if RegisterAt(instruction, 6) == 7 then RET else JMP(RegisterAt(instruction, 6)))
  {
  }

  /** Bit 11 set gives JSR with the zero-extended offset in bits 7..0
      (bits 10..8 are ignored); clear gives JSRR on the base in bits 8..6. */
  lemma DecodeSubroutine(instruction: bv16)
    requires instruction >> 12 == 0x4
    ensures Decode(instruction) ==
      Ok(if (instruction >> 11) & 1 == 1 then JSR(instruction & 0xFF) else JSRR(RegisterAt(instruction, 6)))
  {
  }

  /** LD: destination in bits 11..9, offset in bits 7..0 (bit 8 is
      ignored), zero-extended. */
  lemma DecodeLoad(instruction: bv16)
    requires instruction >> 12 == 0x2
    ensures Decode(instruction) == Ok(LD(RegisterAt(instruction, 9), instruction & 0xFF))
  {
  }

  /** LDI decodes like LD. */
  lemma DecodeLoadIndirect(instruction: bv16)
    requires instruction >> 12 == 0xA
    ensures Decode(instruction) == Ok(LDI(RegisterAt(instruction, 9), instruction & 0xFF))
  {
  }

  /** LDR: destination in bits 11..9, base in bits 8..6, offset in bits
      5..0, zero-extended. */
  lemma DecodeLoadRegister(instruction: bv16)
    requires instruction >> 12 == 0x6
    ensures Decode(instruction) == Ok(LDR(RegisterAt(instruction, 9), RegisterAt(instruction, 6), instruction & 0x3F))
  {
  }

  /** LEA: destination in bits 10..8 (bit 11 is ignored), offset in bits
      7..0, zero-extended. */
  lemma DecodeLoadEffective(instruction: bv16)
    requires instruction >> 12 == 0xE
    ensures Decode(instruction) == Ok(LEA(RegisterAt(instruction, 8), instruction & 0xFF))
  {
  }

  /** NOT reads its source from the destination field, bits 11..9. */
  lemma DecodeNot(instruction: bv16)
    requires instruction >> 12 == 0x9
    ensures Decode(instruction) == Ok(NOT(RegisterAt(instruction, 9), RegisterAt(instruction, 9)))
  {
  }

  /** ST: source in bits 10..8, offset in bits 7..0, zero-extended. */
  lemma DecodeStore(instruction: bv16)
    requires instruction >> 12 == 0x3
    ensures Decode(instruction) == Ok(ST(RegisterAt(instruction, 8), instruction & 0xFF))
  {
  }

  /** STI decodes like ST. */
  lemma DecodeStoreIndirect(instruction: bv16)
    requires instruction >> 12 == 0xB
    ensures Decode(instruction) == Ok(STI(RegisterAt(instruction, 8), instruction & 0xFF))
  {
  }

  /** STR decodes like LDR. */
  lemma DecodeStoreRegister(instruction: bv16)
    requires instruction >> 12 == 0x7
    ensures Decode(instruction) == Ok(STR(RegisterAt(instruction, 9), RegisterAt(instruction, 6), instruction & 0x3F))
  {
  }

  /** Opcode 0b1000 is RTI and 0b1101 is RESERVED, whatever the other
      bits. */
  lemma DecodeFixed(instruction: bv16)
    ensures instruction >> 12 == 0x8 ==> Decode(instruction) == Ok(RTI)
    ensures instruction >> 12 == 0xD ==> Decode(instruction) == Ok(RESERVED)
  {
  }

  /** Opcode 0b1111 with low byte 0x20..0x25 is the trap GETC, OUT, PUTS,
      IN, PUTSP, HALT in that order; bits 11..8 are ignored. */
  lemma DecodeTrap(instruction: bv16)
    requires instruction >> 12 == 0xF && 0x20 <= instruction & 0xFF <= 0x25
    ensures Decode(instruction) == Ok(TRAP([Getc, Out, Puts, In, Putsp, Halt][instruction & 0xFF - 0x20]))
  {
  }

  /** Immediates and offsets come out zero-extended: read as `i16` they
      are never negative (0..31 for imm5, 0..511 for BR). */
  lemma AddImmediateRange(instruction: bv16)
    requires instruction >> 12 == 0x1
    ensures Decode(instruction).Ok? && Decode(instruction).value.ADD?
    ensures Decode(instruction).value.sr2.Immediate? ==> 0 <= Util.Signed(Decode(instruction).value.sr2.value) < 32
  {
    DecodeAdd(instruction);
    Util.HighHalf(instruction & 0x1F);
  }

  lemma AndImmediateRange(instruction: bv16)
    requires instruction >> 12 == 0x5
    ensures Decode(instruction).Ok? && Decode(instruction).value.AND?
    ensures Decode(instruction).value.sr2.Immediate? ==> 0 <= Util.Signed(Decode(instruction).value.sr2.value) < 32
  {
    DecodeAnd(instruction);
    Util.HighHalf(instruction & 0x1F);
  }

  lemma BranchOffsetRange(instruction: bv16)
    requires instruction >> 12 == 0x0
    ensures Decode(instruction).Ok? && Decode(instruction).value.BR?
    ensures 0 <= Util.Signed(Decode(instruction).value.offset) < 512
  {
    DecodeBranch(instruction);
    Util.HighHalf(instruction & 0x1FF);
  }

  /** A 3-bit register field. */
  function Field3(index: nat): (f: bv16)
    requires index < 8
    ensures f < 8 && f as int == index
  {
    index as bv16
  }

  /** Bits 5..0 of an ADD or AND word: the register in bits 2..0, or
      bit 5 set and the immediate in bits 4..0. */
  function OperandBits(sr2: Argument): (b: bv16)
    requires sr2.Reg? ==> sr2.index < 8
    requires sr2.Immediate? ==> sr2.value <= 0x1F
    ensures b < 0x40
    ensures sr2.Reg? ==> b & 0x20 == 0 && b & 7 == Field3(sr2.index)
    ensures sr2.Immediate? ==> b & 0x20 != 0 && b & 0x1F == sr2.value
  {
    if sr2.Reg? then Field3(sr2.index) else 0x20 | sr2.value
  }

  /** A BR word: the n, z and p bits in 11, 10 and 9 over the offset. */
  function BranchBits(n: bool, z: bool, p: bool, offset: bv16): bv16 {
    (if n then 0x800 else 0) | (if z then 0x400 else 0) | (if p then 0x200 else 0) | offset
  }

  /** The canonical word for an instruction in the decoder's range: the
      opcode number in bits 15..12 and every field in the position the
      decoder reads it from, with the bits the decoder ignores clear. */
  function Encode(op: Opcode): (w: bv16)
    requires InDecoderRange(op)
    ensures w >> 12 == OpcodeNumber(op)
  {
    match op
    case ADD(dr, sr1, sr2) =>
      0x1000 | (Field3(dr) << 9) | (Field3(sr1) << 6) | OperandBits(sr2)
    case AND(dr, sr1, sr2) =>
      0x5000 | (Field3(dr) << 9) | (Field3(sr1) << 6) | OperandBits(sr2)
    case BR(n, z, p, offset) => BranchBits(n, z, p, offset)
    case JMP(baseR) => 0xC000 | (Field3(baseR) << 6)
    case RET => 0xC1C0
    case JSR(offset) => 0x4800 | offset
    case JSRR(baseR) => 0x4000 | (Field3(baseR) << 6)
    case LD(dr, offset) => 0x2000 | (Field3(dr) << 9) | offset
    case LDI(dr, offset) => 0xA000 | (Field3(dr) << 9) | offset
    case LDR(dr, baseR, offset) => 0x6000 | (Field3(dr) << 9) | (Field3(baseR) << 6) | offset
    case LEA(dr, offset) => 0xE000 | (Field3(dr) << 8) | offset
    case NOT(dr, _) => 0x9000 | (Field3(dr) << 9)
    case RTI => 0x8000
    case ST(sr, offset) => 0x3000 | (Field3(sr) << 8) | offset
    case STI(sr, offset) => 0xB000 | (Field3(sr) << 8) | offset
    case STR(sr, baseR, offset) => 0x7000 | (Field3(sr) << 9) | (Field3(baseR) << 6) | offset
    case TRAP(code) =>
      0xF000 | (match code
                case Getc => 0x20 case Out => 0x21 case Puts => 0x22
                case In => 0x23 case Putsp => 0x24 case Halt => 0x25)
    case RESERVED => 0xD000
  }

  /** The bits of a word the decoder reads for the instruction it yields. */
  function UsedBits(op: Opcode): bv16 {
    match op
    case ADD(_, _, sr2) => if sr2.Reg? then 0xFFE7 else 0xFFFF
    case AND(_, _, sr2) => if sr2.Reg? then 0xFFE7 else 0xFFFF
    case JMP(_) => 0xF1C0
    case RET => 0xF1C0
    case JSR(_) => 0xF8FF
    case JSRR(_) => 0xF9C0
    case LD(_, _) => 0xFEFF
    case LDI(_, _) => 0xFEFF
    case LEA(_, _) => 0xF7FF
    case ST(_, _) => 0xF7FF
    case STI(_, _) => 0xF7FF
    case NOT(_, _) => 0xFE00
    case RTI => 0xF000
    case RESERVED => 0xF000
    case TRAP(_) => 0xF0FF
    case _ => 0xFFFF
  }

  lemma RegisterAtField(w: bv16, lo: bv16, index: nat)
    requires lo <= 13 && index < 8 && (w >> lo) & 7 == Field3(index)
    ensures RegisterAt(w, lo) == index
  {
  }

  lemma FieldAtRegister(w: bv16, lo: bv16)
    requires lo <= 13
    ensures Field3(RegisterAt(w, lo)) == (w >> lo) & 7
  {
  }

  // Re-encoding the value each decode lemma gives.

  lemma ReencodeArith(instruction: bv16, base: bv16)
    requires instruction >> 12 == base >> 12 && (base == 0x1000 || base == 0x5000)
    ensures var sr2 := if instruction & 0x20 == 0 then Reg(RegisterAt(instruction, 0)) else Immediate(instruction & 0x1F);
      base | (Field3(RegisterAt(instruction, 9)) << 9) | (Field3(RegisterAt(instruction, 6)) << 6) |
        (if sr2.Reg? then Field3(sr2.index) else (0x20 | sr2.value))
      == instruction & (if instruction & 0x20 == 0 then 0xFFE7 else 0xFFFF)
  {
    FieldAtRegister(instruction, 9);
    FieldAtRegister(instruction, 6);
    FieldAtRegister(instruction, 0);
  }

  lemma ReencodeRegisterAt9(instruction: bv16, base: bv16, low: bv16)
    requires instruction >> 12 == base >> 12 && base & 0x0FFF == 0 && low <= 0x1FF
    ensures base | (Field3(RegisterAt(instruction, 9)) << 9) | (instruction & low) == instruction & (0xF000 | 0x0E00 | low)
  {
    FieldAtRegister(instruction, 9);
  }

  lemma ReencodeRegisterAt8(instruction: bv16, base: bv16)
    requires instruction >> 12 == base >> 12 && base & 0x0FFF == 0
    ensures base | (Field3(RegisterAt(instruction, 8)) << 8) | (instruction & 0xFF) == instruction & 0xF7FF
  {
    FieldAtRegister(instruction, 8);
  }

  lemma ReencodeBaseOffset(instruction: bv16, base: bv16)
    requires instruction >> 12 == base >> 12 && base & 0x0FFF == 0
    ensures base | (Field3(RegisterAt(instruction, 9)) << 9) | (Field3(RegisterAt(instruction, 6)) << 6) | (instruction & 0x3F)
      == instruction
  {
    FieldAtRegister(instruction, 9);
    FieldAtRegister(instruction, 6);
  }

  lemma ReencodeBase(instruction: bv16, base: bv16)
    requires instruction >> 12 == base >> 12 && base & 0x0FFF == 0
    ensures base | (Field3(RegisterAt(instruction, 6)) << 6) == instruction & (0xF000 | 0x01C0)
  {
    FieldAtRegister(instruction, 6);
  }

  // The fields of each canonical word, as pure bit-vector facts.

  lemma ArithWord(base: bv16, d: bv16, s1: bv16, low: bv16)
    requires base & 0x0FFF == 0 && d < 8 && s1 < 8 && low < 0x40
    ensures var w := base | (d << 9) | (s1 << 6) | low;
      w >> 12 == base >> 12 && (w >> 9) & 7 == d && (w >> 6) & 7 == s1 &&
      w & 0x20 == low & 0x20 && w & 0x1F == low & 0x1F && (w >> 0) & 7 == low & 7
  {
  }

  lemma Word9(base: bv16, d: bv16, offset: bv16)
    requires base & 0x0FFF == 0 && d < 8 && offset <= 0xFF
    ensures var w := base | (d << 9) | offset;
      w >> 12 == base >> 12 && (w >> 9) & 7 == d && w & 0xFF == offset
  {
  }

  lemma Word8(base: bv16, d: bv16, offset: bv16)
    requires base & 0x0FFF == 0 && d < 8 && offset <= 0xFF
    ensures var w := base | (d << 8) | offset;
      w >> 12 == base >> 12 && (w >> 8) & 7 == d && w & 0xFF == offset
  {
  }

  lemma Word96(base: bv16, d: bv16, b: bv16, offset: bv16)
    requires base & 0x0FFF == 0 && d < 8 && b < 8 && offset <= 0x3F
    ensures var w := base | (d << 9) | (b << 6) | offset;
      w >> 12 == base >> 12 && (w >> 9) & 7 == d && (w >> 6) & 7 == b && w & 0x3F == offset
  {
  }

  lemma Word6(base: bv16, b: bv16)
    requires base & 0x0FFF == 0 && b < 8
    ensures var w := base | (b << 6);
      w >> 12 == base >> 12 && (w >> 6) & 7 == b && (w >> 11) & 1 == 0
  {
  }

  lemma BranchWord(n: bool, z: bool, p: bool, offset: bv16)
    requires offset <= 0x1FF
    ensures BranchBits(n, z, p, offset) >> 12 == 0 && BranchBits(n, z, p, offset) & 0x1FF == offset
    ensures ((BranchBits(n, z, p, offset) >> 11) & 1 == 1) == n
    ensures ((BranchBits(n, z, p, offset) >> 10) & 1 == 1) == z
    ensures ((BranchBits(n, z, p, offset) >> 9) & 1 == 1) == p
  {
  }

  // Decoding the canonical word of each variant: first the fields of the
  // word, then the decoder on it.

  lemma AddFields(dr: nat, sr1: nat, sr2: Argument)
    requires InDecoderRange(ADD(dr, sr1, sr2))
    ensures var w := Encode(ADD(dr, sr1, sr2));
      w >> 12 == 0x1 &&
      RegisterAt(w, 9) == dr && RegisterAt(w, 6) == sr1 &&
      sr2 == if w & 0x20 == 0 then Reg(RegisterAt(w, 0)) else Immediate(w & 0x1F)
  {
    var w := Encode(ADD(dr, sr1, sr2));
    ArithWord(0x1000, Field3(dr), Field3(sr1), OperandBits(sr2));
    RedecodeOperands(w, dr, sr1, sr2);
  }

  lemma RedecodeAdd(dr: nat, sr1: nat, sr2: Argument)
    requires InDecoderRange(ADD(dr, sr1, sr2))
    ensures Decode(Encode(ADD(dr, sr1, sr2))) == Ok(ADD(dr, sr1, sr2))
  {
    AddFields(dr, sr1, sr2);
    DecodeAdd(Encode(ADD(dr, sr1, sr2)));
  }

  lemma AndFields(dr: nat, sr1: nat, sr2: Argument)
    requires InDecoderRange(AND(dr, sr1, sr2))
    ensures var w := Encode(AND(dr, sr1, sr2));
      w >> 12 == 0x5 &&
      RegisterAt(w, 9) == dr && RegisterAt(w, 6) == sr1 &&
      sr2 == if w & 0x20 == 0 then Reg(RegisterAt(w, 0)) else Immediate(w & 0x1F)
  {
    var w := Encode(AND(dr, sr1, sr2));
    ArithWord(0x5000, Field3(dr), Field3(sr1), OperandBits(sr2));
    RedecodeOperands(w, dr, sr1, sr2);
  }

  lemma RedecodeAnd(dr: nat, sr1: nat, sr2: Argument)
    requires InDecoderRange(AND(dr, sr1, sr2))
    ensures Decode(Encode(AND(dr, sr1, sr2))) == Ok(AND(dr, sr1, sr2))
  {
    AndFields(dr, sr1, sr2);
    DecodeAnd(Encode(AND(dr, sr1, sr2)));
  }

  /** The three operands of ADD and AND read back from their fields. */
  lemma RedecodeOperands(w: bv16, dr: nat, sr1: nat, sr2: Argument)
    requires dr < 8 && sr1 < 8 && (sr2.Reg? ==> sr2.index < 8) && (sr2.Immediate? ==> sr2.value <= 0x1F)
    requires (w >> 9) & 7 == Field3(dr) && (w >> 6) & 7 == Field3(sr1)
    requires w & 0x20 == OperandBits(sr2) & 0x20 && w & 0x1F == OperandBits(sr2) & 0x1F
    requires (w >> 0) & 7 == OperandBits(sr2) & 7
    ensures RegisterAt(w, 9) == dr && RegisterAt(w, 6) == sr1
    ensures sr2 == if w & 0x20 == 0 then Reg(RegisterAt(w, 0)) else Immediate(w & 0x1F)
  {
    RegisterAtField(w, 9, dr);
    RegisterAtField(w, 6, sr1);
    if sr2.Reg? {
      RegisterAtField(w, 0, sr2.index);
    }
  }

  lemma LoadFields(dr: nat, offset: bv16)
    requires InDecoderRange(LD(dr, offset))
    ensures var w := Encode(LD(dr, offset)); w >> 12 == 0x2 && RegisterAt(w, 9) == dr && w & 0xFF == offset
  {
    var w := Encode(LD(dr, offset));
    Word9(0x2000, Field3(dr), offset);
    RegisterAtField(w, 9, dr);
  }

  lemma RedecodeLoad(dr: nat, offset: bv16)
    requires InDecoderRange(LD(dr, offset))
    ensures Decode(Encode(LD(dr, offset))) == Ok(LD(dr, offset))
  {
    LoadFields(dr, offset);
    DecodeLoad(Encode(LD(dr, offset)));
  }

  lemma LoadIndirectFields(dr: nat, offset: bv16)
    requires InDecoderRange(LDI(dr, offset))
    ensures var w := Encode(LDI(dr, offset)); w >> 12 == 0xA && RegisterAt(w, 9) == dr && w & 0xFF == offset
  {
    var w := Encode(LDI(dr, offset));
    Word9(0xA000, Field3(dr), offset);
    RegisterAtField(w, 9, dr);
  }

  lemma RedecodeLoadIndirect(dr: nat, offset: bv16)
    requires InDecoderRange(LDI(dr, offset))
    ensures Decode(Encode(LDI(dr, offset))) == Ok(LDI(dr, offset))
  {
    LoadIndirectFields(dr, offset);
    DecodeLoadIndirect(Encode(LDI(dr, offset)));
  }

  lemma NotFields(dr: nat)
    requires InDecoderRange(NOT(dr, dr))
    ensures var w := Encode(NOT(dr, dr)); w >> 12 == 0x9 && RegisterAt(w, 9) == dr
  {
    var w := Encode(NOT(dr, dr));
    Word9(0x9000, Field3(dr), 0);
    assert w == 0x9000 | (Field3(dr) << 9) | 0;
    RegisterAtField(w, 9, dr);
  }

  lemma RedecodeNot(dr: nat)
    requires InDecoderRange(NOT(dr, dr))
    ensures Decode(Encode(NOT(dr, dr))) == Ok(NOT(dr, dr))
  {
    NotFields(dr);
    DecodeNot(Encode(NOT(dr, dr)));
  }

  lemma LoadEffectiveFields(dr: nat, offset: bv16)
    requires InDecoderRange(LEA(dr, offset))
    ensures var w := Encode(LEA(dr, offset)); w >> 12 == 0xE && RegisterAt(w, 8) == dr && w & 0xFF == offset
  {
    var w := Encode(LEA(dr, offset));
    Word8(0xE000, Field3(dr), offset);
    RegisterAtField(w, 8, dr);
  }

  lemma RedecodeLoadEffective(dr: nat, offset: bv16)
    requires InDecoderRange(LEA(dr, offset))
    ensures Decode(Encode(LEA(dr, offset))) == Ok(LEA(dr, offset))
  {
    LoadEffectiveFields(dr, offset);
    DecodeLoadEffective(Encode(LEA(dr, offset)));
  }

  lemma StoreFields(sr: nat, offset: bv16)
    requires InDecoderRange(ST(sr, offset))
    ensures var w := Encode(ST(sr, offset)); w >> 12 == 0x3 && RegisterAt(w, 8) == sr && w & 0xFF == offset
  {
    var w := Encode(ST(sr, offset));
    Word8(0x3000, Field3(sr), offset);
    RegisterAtField(w, 8, sr);
  }

  lemma RedecodeStore(sr: nat, offset: bv16)
    requires InDecoderRange(ST(sr, offset))
    ensures Decode(Encode(ST(sr, offset))) == Ok(ST(sr, offset))
  {
    StoreFields(sr, offset);
    DecodeStore(Encode(ST(sr, offset)));
  }

  lemma StoreIndirectFields(sr: nat, offset: bv16)
    requires InDecoderRange(STI(sr, offset))
    ensures var w := Encode(STI(sr, offset)); w >> 12 == 0xB && RegisterAt(w, 8) == sr && w & 0xFF == offset
  {
    var w := Encode(STI(sr, offset));
    Word8(0xB000, Field3(sr), offset);
    RegisterAtField(w, 8, sr);
  }

  lemma RedecodeStoreIndirect(sr: nat, offset: bv16)
    requires InDecoderRange(STI(sr, offset))
    ensures Decode(Encode(STI(sr, offset))) == Ok(STI(sr, offset))
  {
    StoreIndirectFields(sr, offset);
    DecodeStoreIndirect(Encode(STI(sr, offset)));
  }

  lemma LoadRegisterFields(dr: nat, baseR: nat, offset: bv16)
    requires InDecoderRange(LDR(dr, baseR, offset))
    ensures var w := Encode(LDR(dr, baseR, offset)); w >> 12 == 0x6 && RegisterAt(w, 9) == dr && RegisterAt(w, 6) == baseR && w & 0x3F == offset
  {
    var w := Encode(LDR(dr, baseR, offset));
    Word96(0x6000, Field3(dr), Field3(baseR), offset);
    RegisterAtField(w, 9, dr);
    RegisterAtField(w, 6, baseR);
  }

  lemma RedecodeLoadRegister(dr: nat, baseR: nat, offset: bv16)
    requires InDecoderRange(LDR(dr, baseR, offset))
    ensures Decode(Encode(LDR(dr, baseR, offset))) == Ok(LDR(dr, baseR, offset))
  {
    LoadRegisterFields(dr, baseR, offset);
    DecodeLoadRegister(Encode(LDR(dr, baseR, offset)));
  }

  lemma StoreRegisterFields(sr: nat, baseR: nat, offset: bv16)
    requires InDecoderRange(STR(sr, baseR, offset))
    ensures var w := Encode(STR(sr, baseR, offset)); w >> 12 == 0x7 && RegisterAt(w, 9) == sr && RegisterAt(w, 6) == baseR && w & 0x3F == offset
  {
    var w := Encode(STR(sr, baseR, offset));
    Word96(0x7000, Field3(sr), Field3(baseR), offset);
    RegisterAtField(w, 9, sr);
    RegisterAtField(w, 6, baseR);
  }

  lemma RedecodeStoreRegister(sr: nat, baseR: nat, offset: bv16)
    requires InDecoderRange(STR(sr, baseR, offset))
    ensures Decode(Encode(STR(sr, baseR, offset))) == Ok(STR(sr, baseR, offset))
  {
    StoreRegisterFields(sr, baseR, offset);
    DecodeStoreRegister(Encode(STR(sr, baseR, offset)));
  }

  lemma JumpFields(baseR: nat)
    requires InDecoderRange(JMP(baseR))
    ensures var w := Encode(JMP(baseR)); w >> 12 == 0xC && RegisterAt(w, 6) == baseR
  {
    var w := Encode(JMP(baseR));
    Word6(0xC000, Field3(baseR));
    RegisterAtField(w, 6, baseR);
  }

  lemma RedecodeJump(baseR: nat)
    requires InDecoderRange(JMP(baseR))
    ensures Decode(Encode(JMP(baseR))) == Ok(JMP(baseR))
  {
    JumpFields(baseR);
    DecodeJump(Encode(JMP(baseR)));
  }

  lemma SubroutineRegisterFields(baseR: nat)
    requires InDecoderRange(JSRR(baseR))
    ensures var w := Encode(JSRR(baseR)); w >> 12 == 0x4 && (w >> 11) & 1 == 0 && RegisterAt(w, 6) == baseR
  {
    var w := Encode(JSRR(baseR));
    Word6(0x4000, Field3(baseR));
    RegisterAtField(w, 6, baseR);
  }

  lemma RedecodeSubroutineRegister(baseR: nat)
    requires InDecoderRange(JSRR(baseR))
    ensures Decode(Encode(JSRR(baseR))) == Ok(JSRR(baseR))
  {
    SubroutineRegisterFields(baseR);
    DecodeSubroutine(Encode(JSRR(baseR)));
  }

  lemma RedecodeBranch(n: bool, z: bool, p: bool, offset: bv16)
    requires InDecoderRange(BR(n, z, p, offset))
    ensures Decode(Encode(BR(n, z, p, offset))) == Ok(BR(n, z, p, offset))
  {
    BranchWord(n, z, p, offset);
    DecodeBranch(BranchBits(n, z, p, offset));
  }

  lemma RedecodeFixed(op: Opcode)
    requires (op.RET? || op.JSR? || op.TRAP? || op.RTI? || op.RESERVED?) && InDecoderRange(op)
    ensures Decode(Encode(op)) == Ok(op)
  {
    var w := Encode(op);
    if op.RET? { DecodeJump(w); }
    else if op.JSR? { DecodeSubroutine(w); }
    else if op.TRAP? { DecodeTrap(w); }
    else { DecodeFixed(w); }
  }

  /** Decoding the canonical word gives the instruction back. */
  lemma DecodeEncode(op: Opcode)
    requires InDecoderRange(op)
    ensures Decode(Encode(op)) == Ok(op)
  {
    match op
    case ADD(dr, sr1, sr2) => RedecodeAdd(dr, sr1, sr2);
    case AND(dr, sr1, sr2) => RedecodeAnd(dr, sr1, sr2);
    case BR(n, z, p, offset) => RedecodeBranch(n, z, p, offset);
    case JMP(baseR) => RedecodeJump(baseR);
    case JSRR(baseR) => RedecodeSubroutineRegister(baseR);
    case RET => RedecodeFixed(op);
    case JSR(_) => RedecodeFixed(op);
    case LD(dr, offset) => RedecodeLoad(dr, offset);
    case LDI(dr, offset) => RedecodeLoadIndirect(dr, offset);
    case NOT(dr, _) => RedecodeNot(dr);
    case LEA(dr, offset) => RedecodeLoadEffective(dr, offset);
    case ST(sr, offset) => RedecodeStore(sr, offset);
    case STI(sr, offset) => RedecodeStoreIndirect(sr, offset);
    case LDR(dr, baseR, offset) => RedecodeLoadRegister(dr, baseR, offset);
    case STR(sr, baseR, offset) => RedecodeStoreRegister(sr, baseR, offset);
    case TRAP(_) => RedecodeFixed(op);
    case RTI => RedecodeFixed(op);
    case RESERVED => RedecodeFixed(op);
  }


  lemma ReencodeAdd(instruction: bv16)
    requires instruction >> 12 == 0x1 && Decode(instruction).Ok?
    ensures InDecoderRange(Decode(instruction).value)
    ensures OpcodeNumber(Decode(instruction).value) == instruction >> 12
    ensures Encode(Decode(instruction).value) == instruction & UsedBits(Decode(instruction).value)
  {
    DecodeAdd(instruction); ReencodeArith(instruction, 0x1000);
  }

  lemma ReencodeAnd(instruction: bv16)
    requires instruction >> 12 == 0x5 && Decode(instruction).Ok?
    ensures InDecoderRange(Decode(instruction).value)
    ensures OpcodeNumber(Decode(instruction).value) == instruction >> 12
    ensures Encode(Decode(instruction).value) == instruction & UsedBits(Decode(instruction).value)
  {
    DecodeAnd(instruction); ReencodeArith(instruction, 0x5000);
  }

  /** The BR word rebuilt from the fields of any word with opcode 0. */
  lemma BranchReencoded(instruction: bv16)
    requires instruction >> 12 == 0x0
    ensures var op := BR((instruction >> 11) & 1 == 1, (instruction >> 10) & 1 == 1,
      (instruction >> 9) & 1 == 1, instruction & 0x1FF);
      InDecoderRange(op) && Encode(op) == instruction
  {
  }

  lemma ReencodeBranch(instruction: bv16)
    requires instruction >> 12 == 0x0 && Decode(instruction).Ok?
    ensures InDecoderRange(Decode(instruction).value)
    ensures OpcodeNumber(Decode(instruction).value) == instruction >> 12
    ensures Encode(Decode(instruction).value) == instruction & UsedBits(Decode(instruction).value)
  {
    DecodeBranch(instruction);
    BranchReencoded(instruction);
  }

  lemma ReencodeJump(instruction: bv16)
    requires instruction >> 12 == 0xC && Decode(instruction).Ok?
    ensures InDecoderRange(Decode(instruction).value)
    ensures OpcodeNumber(Decode(instruction).value) == instruction >> 12
    ensures Encode(Decode(instruction).value) == instruction & UsedBits(Decode(instruction).value)
  {
    DecodeJump(instruction); ReencodeBase(instruction, 0xC000);
  }

  /** The JSR word rebuilt from a word with opcode 4 and bit 11 set. */
  lemma JsrReencoded(instruction: bv16)
    requires instruction >> 12 == 0x4 && (instruction >> 11) & 1 == 1
    ensures InDecoderRange(JSR(instruction & 0xFF)) && OpcodeNumber(JSR(instruction & 0xFF)) == instruction >> 12
    ensures Encode(JSR(instruction & 0xFF)) == instruction & UsedBits(JSR(instruction & 0xFF))
  {
  }

  /** The JSRR word rebuilt from a word with opcode 4 and bit 11 clear. */
  lemma JsrrReencoded(instruction: bv16)
    requires instruction >> 12 == 0x4 && (instruction >> 11) & 1 == 0
    ensures InDecoderRange(JSRR(RegisterAt(instruction, 6))) && OpcodeNumber(JSRR(RegisterAt(instruction, 6))) == instruction >> 12
    ensures Encode(JSRR(RegisterAt(instruction, 6))) == instruction & UsedBits(JSRR(RegisterAt(instruction, 6)))
  {
    ReencodeBase(instruction, 0x4000);
    assert instruction & 0xF9C0 == instruction & (0xF000 | 0x01C0);
  }

  lemma ReencodeJsr(instruction: bv16)
    requires instruction >> 12 == 0x4 && (instruction >> 11) & 1 == 1
    ensures InDecoderRange(Decode(instruction).value)
    ensures OpcodeNumber(Decode(instruction).value) == instruction >> 12
    ensures Encode(Decode(instruction).value) == instruction & UsedBits(Decode(instruction).value)
  {
    DecodeSubroutine(instruction);
    JsrReencoded(instruction);
  }

  lemma ReencodeJsrr(instruction: bv16)
    requires instruction >> 12 == 0x4 && (instruction >> 11) & 1 == 0
    ensures InDecoderRange(Decode(instruction).value)
    ensures OpcodeNumber(Decode(instruction).value) == instruction >> 12
    ensures Encode(Decode(instruction).value) == instruction & UsedBits(Decode(instruction).value)
  {
    DecodeSubroutine(instruction);
    JsrrReencoded(instruction);
  }

  lemma ReencodeSubroutine(instruction: bv16)
    requires instruction >> 12 == 0x4 && Decode(instruction).Ok?
    ensures InDecoderRange(Decode(instruction).value)
    ensures OpcodeNumber(Decode(instruction).value) == instruction >> 12
    ensures Encode(Decode(instruction).value) == instruction & UsedBits(Decode(instruction).value)
  {
    if (instruction >> 11) & 1 == 1 {
      ReencodeJsr(instruction);
    } else {
      ReencodeJsrr(instruction);
    }
  }

  lemma ReencodeLoad(instruction: bv16)
    requires instruction >> 12 == 0x2 && Decode(instruction).Ok?
    ensures InDecoderRange(Decode(instruction).value)
    ensures OpcodeNumber(Decode(instruction).value) == instruction >> 12
    ensures Encode(Decode(instruction).value) == instruction & UsedBits(Decode(instruction).value)
  {
    DecodeLoad(instruction); ReencodeRegisterAt9(instruction, 0x2000, 0xFF);
  }

  lemma ReencodeLoadIndirect(instruction: bv16)
    requires instruction >> 12 == 0xA && Decode(instruction).Ok?
    ensures InDecoderRange(Decode(instruction).value)
    ensures OpcodeNumber(Decode(instruction).value) == instruction >> 12
    ensures Encode(Decode(instruction).value) == instruction & UsedBits(Decode(instruction).value)
  {
    DecodeLoadIndirect(instruction); ReencodeRegisterAt9(instruction, 0xA000, 0xFF);
  }

  lemma ReencodeLoadRegister(instruction: bv16)
    requires instruction >> 12 == 0x6 && Decode(instruction).Ok?
    ensures InDecoderRange(Decode(instruction).value)
    ensures OpcodeNumber(Decode(instruction).value) == instruction >> 12
    ensures Encode(Decode(instruction).value) == instruction & UsedBits(Decode(instruction).value)
  {
    DecodeLoadRegister(instruction); ReencodeBaseOffset(instruction, 0x6000);
  }

  lemma ReencodeLoadEffective(instruction: bv16)
    requires instruction >> 12 == 0xE && Decode(instruction).Ok?
    ensures InDecoderRange(Decode(instruction).value)
    ensures OpcodeNumber(Decode(instruction).value) == instruction >> 12
    ensures Encode(Decode(instruction).value) == instruction & UsedBits(Decode(instruction).value)
  {
    DecodeLoadEffective(instruction); ReencodeRegisterAt8(instruction, 0xE000);
  }

  lemma ReencodeNot(instruction: bv16)
    requires instruction >> 12 == 0x9 && Decode(instruction).Ok?
    ensures InDecoderRange(Decode(instruction).value)
    ensures OpcodeNumber(Decode(instruction).value) == instruction >> 12
    ensures Encode(Decode(instruction).value) == instruction & UsedBits(Decode(instruction).value)
  {
    DecodeNot(instruction); ReencodeRegisterAt9(instruction, 0x9000, 0);
  }

  lemma ReencodeStore(instruction: bv16)
    requires instruction >> 12 == 0x3 && Decode(instruction).Ok?
    ensures InDecoderRange(Decode(instruction).value)
    ensures OpcodeNumber(Decode(instruction).value) == instruction >> 12
    ensures Encode(Decode(instruction).value) == instruction & UsedBits(Decode(instruction).value)
  {
    DecodeStore(instruction); ReencodeRegisterAt8(instruction, 0x3000);
  }

  lemma ReencodeStoreIndirect(instruction: bv16)
    requires instruction >> 12 == 0xB && Decode(instruction).Ok?
    ensures InDecoderRange(Decode(instruction).value)
    ensures OpcodeNumber(Decode(instruction).value) == instruction >> 12
    ensures Encode(Decode(instruction).value) == instruction & UsedBits(Decode(instruction).value)
  {
    DecodeStoreIndirect(instruction); ReencodeRegisterAt8(instruction, 0xB000);
  }

  lemma ReencodeStoreRegister(instruction: bv16)
    requires instruction >> 12 == 0x7 && Decode(instruction).Ok?
    ensures InDecoderRange(Decode(instruction).value)
    ensures OpcodeNumber(Decode(instruction).value) == instruction >> 12
    ensures Encode(Decode(instruction).value) == instruction & UsedBits(Decode(instruction).value)
  {
    DecodeStoreRegister(instruction); ReencodeBaseOffset(instruction, 0x7000);
  }

  lemma ReencodeTrap(instruction: bv16)
    requires instruction >> 12 == 0xF && Decode(instruction).Ok?
    ensures InDecoderRange(Decode(instruction).value)
    ensures OpcodeNumber(Decode(instruction).value) == instruction >> 12
    ensures Encode(Decode(instruction).value) == instruction & UsedBits(Decode(instruction).value)
  {
    DecodeTrap(instruction);
  }

  /** Encoding a decoded instruction rebuilds the word up to the bits the
      decoder ignores; every decoded instruction lies in the decoder's
      range and keeps the opcode number it was selected by. */
  lemma EncodeDecode(instruction: bv16)
    requires Decode(instruction).Ok?
    ensures InDecoderRange(Decode(instruction).value)
    ensures OpcodeNumber(Decode(instruction).value) == instruction >> 12
    ensures Encode(Decode(instruction).value) == instruction & UsedBits(Decode(instruction).value)
  {
    var op := instruction >> 12;
    if op == 0x1 { ReencodeAdd(instruction); }
    else if op == 0x5 { ReencodeAnd(instruction); }
    else if op == 0x0 { ReencodeBranch(instruction); }
    else if op == 0xC { ReencodeJump(instruction); }
    else if op == 0x4 { ReencodeSubroutine(instruction); }
    else if op == 0x2 { ReencodeLoad(instruction); }
    else if op == 0xA { ReencodeLoadIndirect(instruction); }
    else if op == 0x6 { ReencodeLoadRegister(instruction); }
    else if op == 0xE { ReencodeLoadEffective(instruction); }
    else if op == 0x9 { ReencodeNot(instruction); }
    else if op == 0x3 { ReencodeStore(instruction); }
    else if op == 0xB { ReencodeStoreIndirect(instruction); }
    else if op == 0x7 { ReencodeStoreRegister(instruction); }
    else if op == 0xF { ReencodeTrap(instruction); }
    else { DecodeFixed(instruction); }
  }

}
