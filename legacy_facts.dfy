/** Where the older engine of src/main.rs (module Legacy) and the engine of
    src/vm.rs (module Machine) agree and where they part, instruction by
    instruction. */
module LegacyFacts {
  import opened Wrappers
  import opened Opcodes
  import M = Machine
  import MachineFacts
  import Util
  import opened Legacy

  // ---------------------------------------------------------------------
  // ADD

  /** ADD of two registers faults exactly when the true sum passes
      0xFFFF (AddRegisterOverflow); otherwise the outcome is the newer
      engine's (AddRegisterSum). */
  lemma AddRegisterOverflow(s: M.State, dr: nat, sr1: nat, sr2: nat)
    requires s.Valid() && dr < 8 && sr1 < 8 && sr2 < 8
    ensures var sum := s.regs[sr1] as bv32 + s.regs[sr2] as bv32;
      Exec(s, ADD(dr, sr1, Reg(sr2))).Err? <==> sum > 0xFFFF
    ensures Exec(s, ADD(dr, sr1, Reg(sr2))).Err? ==> Exec(s, ADD(dr, sr1, Reg(sr2))).error == M.AddOverflow
  {
  }

  lemma AddRegisterSum(s: M.State, dr: nat, sr1: nat, sr2: nat)
    requires s.Valid() && dr < 8 && sr1 < 8 && sr2 < 8
    requires s.regs[sr1] as bv32 + s.regs[sr2] as bv32 <= 0xFFFF
    ensures Exec(s, ADD(dr, sr1, Reg(sr2))) == M.Exec(s, ADD(dr, sr1, Reg(sr2)))
  {
  }

  /** ADD of an immediate wraps, exactly as in the newer engine. */
  lemma AddImmediateWraps(s: M.State, dr: nat, sr1: nat, value: bv16)
    requires s.Valid() && dr < 8 && sr1 < 8
    ensures Exec(s, ADD(dr, sr1, Immediate(value))) == M.Exec(s, ADD(dr, sr1, Immediate(value)))
  {
  }

  /** 0xFFFF + 2: the older engine panics on the register form, where the
      newer one wraps to 1; the immediate form wraps in both. */
  lemma AddOverflowExample(s: M.State)
    requires s.Valid() && s.regs[1] == 0xFFFF && s.regs[2] == 2
    ensures Exec(s, ADD(0, 1, Reg(2))) == Err(M.AddOverflow)
    ensures M.Exec(s, ADD(0, 1, Reg(2))).Ok? && M.Exec(s, ADD(0, 1, Reg(2))).value.regs[0] == 1
    ensures Exec(s, ADD(0, 1, Immediate(2))).Ok? && Exec(s, ADD(0, 1, Immediate(2))).value.regs[0] == 1
  {
    AddRegisterOverflow(s, 0, 1, 2);
    MachineFacts.AddExamples(s);
    assert M.WrappingAdd(0xFFFF, 2) == 1;
  }

  /** AND, NOT and LEA compute what the newer engine computes: LEA's
      `as u16` keeps the low 16 bits of the `usize` address. */
  lemma OperateAgrees(s: M.State, op: Opcode)
    requires s.Valid() && RegistersBelow(op, M.RegCount) && (op.AND? || op.NOT? || op.LEA?)
    ensures Exec(s, op) == M.Exec(s, op)
  {
  }

  // ---------------------------------------------------------------------
  // Control flow

  /** BR lands where the newer engine lands: `set_pc`'s `as u16` undoes
      the sign extension of `pc_with_offset`. */
  lemma BranchAgrees(s: M.State, n: bool, z: bool, p: bool, offset: bv16)
    requires s.Valid()
    ensures Exec(s, BR(n, z, p, offset)) == M.Exec(s, BR(n, z, p, offset))
  {
  }

  /** JMP and RET widen a register to `usize` and truncate it back. */
  lemma JumpAgrees(s: M.State, baseR: nat)
    requires s.Valid() && baseR < 8
    ensures Exec(s, JMP(baseR)) == M.Exec(s, JMP(baseR))
  {
    Util.TruncateWord(s.regs[baseR]);
  }

  lemma ReturnAgrees(s: M.State)
    requires s.Valid()
    ensures Exec(s, RET) == M.Exec(s, RET)
  {
    Util.TruncateWord(s.regs[M.RegRet]);
  }

  /** JSR moves PC to the same target as in the newer engine but leaves
      R7 alone, so a later RET does not come back. */
  lemma JsrDoesNotLink(s: M.State, offset: bv16)
    requires s.Valid()
    ensures Exec(s, JSR(offset)) == Ok(M.SetPc(s, M.PcWithOffset(s, offset)))
    ensures Exec(s, JSR(offset)).value.regs[M.RegRet] == s.regs[M.RegRet]
    ensures M.Exec(s, JSR(offset)).value.regs[M.RegRet] == M.Pc(s)
  {
  }

  /** JSRR likewise only moves PC to the base register. */
  lemma JsrrDoesNotLink(s: M.State, baseR: nat)
    requires s.Valid() && baseR < 8
    ensures Exec(s, JSRR(baseR)) == Ok(M.SetPc(s, s.regs[baseR]))
  {
    Util.TruncateWord(s.regs[baseR]);
  }

  // ---------------------------------------------------------------------
  // Loads and stores

  /** LD reads at PC plus the offset computed in `i16`: a negative sum is
      an out-of-bounds read at an address of at least 2^63. Otherwise it
      reads the cell the newer engine reads, without any keyboard poll. */
  lemma LoadPcRelative(s: M.State, dr: nat, offset: bv16)
    requires s.Valid() && dr < 8
    ensures Exec(s, LD(dr, offset)).Err? <==> M.PcWithOffset(s, offset) >= 0x8000
    ensures Exec(s, LD(dr, offset)).Err? ==>
      Exec(s, LD(dr, offset)).error == M.OutOfBoundsRead(PcWithOffset(s, offset)) &&
      PcWithOffset(s, offset) >= Util.Two64 / 2
    ensures Exec(s, LD(dr, offset)).Ok? ==>
      Exec(s, LD(dr, offset)).value == M.WriteResult(s, dr, s.mem[M.PcWithOffset(s, offset)])
    ensures Exec(s, LD(dr, offset)).Ok? && M.PcWithOffset(s, offset) as nat != M.Kbsr ==>
      Exec(s, LD(dr, offset)) == M.Exec(s, LD(dr, offset))
  {
    var address := PcWithOffset(s, offset);
    if M.PcWithOffset(s, offset) < 0x8000 && M.PcWithOffset(s, offset) as nat != M.Kbsr {
      MachineFacts.LoadReadsOneCell(s, dr, offset);
    }
  }

  /** LDI faults when its first, PC-relative, address is negative as an
      `i16`; the indirect address it then follows is always in bounds. */
  lemma LoadIndirectPcRelative(s: M.State, dr: nat, offset: bv16)
    requires s.Valid() && dr < 8
    ensures Exec(s, LDI(dr, offset)).Err? <==> M.PcWithOffset(s, offset) >= 0x8000
    ensures Exec(s, LDI(dr, offset)).Err? ==> Exec(s, LDI(dr, offset)).error == M.OutOfBoundsRead(PcWithOffset(s, offset))
    ensures Exec(s, LDI(dr, offset)).Ok? ==>
      Exec(s, LDI(dr, offset)).value == M.WriteResult(s, dr, s.mem[s.mem[M.PcWithOffset(s, offset)]])
  {
  }

  /** Away from KBSR, a successful LDI of the older engine reads what the
      newer engine reads: both of its addresses are plain cells there. */
  lemma LoadIndirectAgrees(s: M.State, dr: nat, offset: bv16)
    requires s.Valid() && dr < 8 && M.PcWithOffset(s, offset) < 0x8000
    requires M.PcWithOffset(s, offset) as nat != M.Kbsr && s.mem[M.PcWithOffset(s, offset)] as nat != M.Kbsr
    ensures Exec(s, LDI(dr, offset)) == M.Exec(s, LDI(dr, offset))
  {
    var address := M.PcWithOffset(s, offset) as nat;
    MachineFacts.ReadCell(s, address);
    MachineFacts.ReadCell(s, s.mem[address] as nat);
    assert M.Exec(s, LDI(dr, offset)) == Ok(M.WriteResult(s, dr, s.mem[s.mem[address]]));
  }

  /** ST faults when PC plus the offset is negative as an `i16`, and
      otherwise writes the cell the newer engine writes. */
  lemma StorePcRelative(s: M.State, sr: nat, offset: bv16)
    requires s.Valid() && sr < 8
    ensures Exec(s, ST(sr, offset)).Err? <==> M.PcWithOffset(s, offset) >= 0x8000
    ensures Exec(s, ST(sr, offset)).Err? ==> Exec(s, ST(sr, offset)).error == M.OutOfBoundsWrite(PcWithOffset(s, offset))
    ensures Exec(s, ST(sr, offset)).Ok? ==> Exec(s, ST(sr, offset)) == M.Exec(s, ST(sr, offset))
  {
  }

  /** STI faults when its PC-relative address is negative as an
      `i16`; otherwise it writes at the address stored there, as the newer engine does
      when that cell is not KBSR. */
  lemma StoreIndirectPcRelative(s: M.State, sr: nat, offset: bv16)
    requires s.Valid() && sr < 8
    ensures Exec(s, STI(sr, offset)).Err? <==> M.PcWithOffset(s, offset) >= 0x8000
    ensures Exec(s, STI(sr, offset)).Err? ==> Exec(s, STI(sr, offset)).error == M.OutOfBoundsRead(PcWithOffset(s, offset))
    ensures Exec(s, STI(sr, offset)).Ok? ==>
      Exec(s, STI(sr, offset)).value == s.(mem := s.mem[s.mem[M.PcWithOffset(s, offset)] as nat := s.regs[sr]])
    ensures Exec(s, STI(sr, offset)).Ok? && M.PcWithOffset(s, offset) as nat != M.Kbsr ==>
      Exec(s, STI(sr, offset)) == M.Exec(s, STI(sr, offset))
  {
    var address := M.PcWithOffset(s, offset) as nat;
    if address < 0x8000 && address != M.Kbsr {
      MachineFacts.ReadCell(s, address);
    }
  }

  /** LDR adds the offset to the base register's INDEX, not its contents:
      for every instruction the decoder produces (index below 8, 6-bit
      offset) it reads cell `baseR + offset`, whatever the register
      holds. */
  lemma LoadRegisterIndex(s: M.State, dr: nat, baseR: nat, offset: bv16)
    requires s.Valid() && dr < 8 && baseR < 8 && offset <= 0x3F
    ensures Exec(s, LDR(dr, baseR, offset)).Ok?
    ensures Exec(s, LDR(dr, baseR, offset)).value == M.WriteResult(s, dr, s.mem[baseR + offset as int])
  {
  }

  /** STR likewise writes cell `baseR + offset`. */
  lemma StoreRegisterIndex(s: M.State, sr: nat, baseR: nat, offset: bv16)
    requires s.Valid() && sr < 8 && baseR < 8 && offset <= 0x3F
    ensures Exec(s, STR(sr, baseR, offset)).Ok?
    ensures Exec(s, STR(sr, baseR, offset)).value == s.(mem := s.mem[baseR + offset as int := s.regs[sr]])
  {
  }

  /** `read` has no keyboard: KBSR reads as the stored cell and consumes
      nothing, where the newer engine consumes an input byte. */
  lemma ReadHasNoKeyboard(s: M.State)
    requires s.Valid()
    ensures Read(s, M.Kbsr) == Ok(s.mem[M.Kbsr])
    ensures s.input != [] ==> M.Read(s, M.Kbsr).Ok? && M.Read(s, M.Kbsr).value.1.input == s.input[1..]
  {
  }

  /** Memory as the older engine sees it: a cell written by a store reads
      back the value stored, KBSR included, and every other cell is
      unchanged. */
  lemma ReadAfterWrite(s: M.State, addr: nat, value: bv16, other: nat)
    requires s.Valid() && addr < M.MemorySize
    ensures M.Write(s, addr, value).Ok?
    ensures Read(M.Write(s, addr, value).value, addr) == Ok(value)
    ensures other != addr ==> Read(M.Write(s, addr, value).value, other) == Read(s, other)
  {
  }

  // ---------------------------------------------------------------------
  // Traps, flags and the step

  /** TRAP saves PC in R7 in both engines; GETC and IN then do nothing
      in the older one, and every other trap does what the newer one
      does. */
  lemma TrapsCompared(s: M.State, code: TrapCode)
    requires s.Valid()
    ensures code.Getc? || code.In? ==> Exec(s, TRAP(code)) == Ok(M.Link(s))
    ensures !(code.Getc? || code.In?) ==> Exec(s, TRAP(code)) == M.Exec(s, TRAP(code))
  {
  }

  /** After `set_flags` some flag is always set. */
  lemma FlagsAlwaysSet(s: M.State, res: bv16)
    requires s.Valid()
    ensures CondFlagAnySet(SetFlags(s, res))
    ensures !CondFlagAnySet(s) <==> M.CondFlag(s) == M.ConditionFlag.None
  {
    MachineFacts.SetFlagsBySign(s, res);
  }

  /** The older step faults on PC 0xFFFF before decoding; below that, a
      decodable word is executed with PC past it, as in the newer engine. */
  lemma StepCompared(s: M.State)
    requires s.Valid()
    ensures M.Pc(s) == 0xFFFF ==> Step(s) == Err(M.PcOverflow)
    ensures M.Pc(s) < 0xFFFF && Decode(s.mem[M.Pc(s)]).Ok? ==>
      RegistersBelow(Decode(s.mem[M.Pc(s)]).value, M.RegCount) &&
      Step(s) == Exec(M.AdvancePc(s), Decode(s.mem[M.Pc(s)]).value)
  {
    var instruction := s.mem[M.Pc(s)];
    if M.Pc(s) < 0xFFFF && Decode(instruction).Ok? {
      EncodeDecode(instruction);
      assert AdvancePc(s) == Ok(M.AdvancePc(s));
    }
  }
}
