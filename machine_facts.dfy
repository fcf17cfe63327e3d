/** What the instructions of src/vm.rs promise, proved about the state
    machine of machine.dfy: the condition flags, the arithmetic, branches
    and subroutine links, which memory cells the loads and stores touch,
    and the keyboard. */
module MachineFacts {
  import opened Wrappers
  import opened Opcodes
  import opened Machine
  import Util
  import Memory

  // ---------------------------------------------------------------------
  // Condition flags

  /** `set_flags` compares the result, read as an `i16`, with zero: exactly
      one of the three flags is set afterwards. */
  lemma SetFlagsBySign(s: State, res: bv16)
    requires s.Valid()
    ensures CondFlag(SetFlags(s, res)) == (if Util.Signed(res) < 0 then Neg else if Util.Signed(res) == 0 then Zero else Pos)
    ensures CondFlag(SetFlags(s, res)) != ConditionFlag.None
    ensures var bits := SetFlags(s, res).regs[RegCond]; bits == 1 || bits == 2 || bits == 4
  {
    var c := FlagFor(res);
    assert SetFlags(s, res).regs[RegCond] == BitsOfFlag(c);
  }

  /** `cond_flag` inverts `set_cond_flag` on the three patterns it
      stores, and every other pattern reads as `None`. */
  lemma CondFlagBits(bits: bv16)
    ensures FlagOfBits(bits) != ConditionFlag.None <==> bits == 1 || bits == 2 || bits == 4
    ensures FlagOfBits(bits) != ConditionFlag.None ==> BitsOfFlag(FlagOfBits(bits)) == bits
  {
  }

  // ---------------------------------------------------------------------
  // ADD, AND, NOT, LEA

  /** The registers an instruction that writes DR leaves alone. */
  predicate OthersKept(s: State, r: State, dr: nat)
    requires s.Valid() && r.Valid()
  {
    OnlyRegisters(s, r) && forall i :: 0 <= i < RegCount && i != dr && i != RegCond ==> r.regs[i] == s.regs[i]
  }

  /** ADD: DR receives the sum modulo 2^16 (computed here on 32 bits,
      where it cannot wrap), the flags follow it, and nothing else
      changes. */
  lemma AddAdds(s: State, dr: nat, sr1: nat, sr2: Argument)
    requires s.Valid() && RegistersBelow(ADD(dr, sr1, sr2), 8)
    ensures Exec(s, ADD(dr, sr1, sr2)).Ok?
    ensures var r := Exec(s, ADD(dr, sr1, sr2)).value;
      r.regs[dr] as bv32 == (s.regs[sr1] as bv32 + Operand(s, sr2) as bv32) % 0x10000 &&
      CondFlag(r) == FlagFor(r.regs[dr]) && OthersKept(s, r, dr)
  {
    var sum := WrappingAdd(s.regs[sr1], Operand(s, sr2));
    WrappingAddWide(s.regs[sr1], Operand(s, sr2));
    assert Exec(s, ADD(dr, sr1, sr2)) == Ok(WriteResult(s, dr, sum));
  }

  /** 16-bit wrapping addition is the 32-bit sum, which never wraps,
      reduced modulo 2^16. */
  lemma WrappingAddWide(a: bv16, b: bv16)
    ensures WrappingAdd(a, b) as bv32 == (a as bv32 + b as bv32) % 0x10000
    ensures (a as bv32 + b as bv32) as int == a as int + b as int
  {
  }

  /** The outcome of an instruction that writes `res` into DR. */
  lemma ResultWritten(s: State, op: Opcode, dr: nat, res: bv16)
    requires s.Valid() && RegistersBelow(op, 8) && (op.AND? || op.NOT?) && op.dr == dr
    requires op.AND? ==> res == BitAnd(s.regs[op.sr1], Operand(s, op.sr2))
    requires op.NOT? ==> res == BitNot(s.regs[op.sr])
    ensures Exec(s, op) == Ok(WriteResult(s, dr, res))
  {
  }

  /** The ADD tests of src/vm.rs: 0 + immediate -5 (0xFFFB) is 0xFFFB, a
      negative result; 0xFFFF + R2 = 2 and 0xFFFF + immediate 2 both wrap
      to 1, a positive one; the source registers are left alone. */
  lemma AddExamples(s: State)
    requires s.Valid()
    ensures var t := s.(regs := s.regs[0 := 0][1 := 0][2 := 0]);
      Exec(t, ADD(0, 1, Immediate(0xFFFB))).Ok? && Exec(t, ADD(0, 1, Immediate(0xFFFB))).value.regs[0] == 0xFFFB &&
      CondFlag(Exec(t, ADD(0, 1, Immediate(0xFFFB))).value) == Neg &&
      Exec(t, ADD(0, 1, Immediate(0xFFFB))).value.regs[1] == 0 && Exec(t, ADD(0, 1, Immediate(0xFFFB))).value.regs[2] == 0
    ensures var t := s.(regs := s.regs[0 := 3][1 := 0xFFFF][2 := 2]);
      Exec(t, ADD(0, 1, Reg(2))).Ok? && Exec(t, ADD(0, 1, Reg(2))).value.regs[0] == 1 &&
      CondFlag(Exec(t, ADD(0, 1, Reg(2))).value) == Pos &&
      Exec(t, ADD(0, 1, Reg(2))).value.regs[1] == 0xFFFF && Exec(t, ADD(0, 1, Reg(2))).value.regs[2] == 2
    ensures var t := s.(regs := s.regs[0 := 3][1 := 0xFFFF][2 := 1]);
      Exec(t, ADD(0, 1, Immediate(2))).Ok? && Exec(t, ADD(0, 1, Immediate(2))).value.regs[0] == 1 &&
      CondFlag(Exec(t, ADD(0, 1, Immediate(2))).value) == Pos &&
      Exec(t, ADD(0, 1, Immediate(2))).value.regs[1] == 0xFFFF && Exec(t, ADD(0, 1, Immediate(2))).value.regs[2] == 1
  {
    var t1 := s.(regs := s.regs[0 := 0][1 := 0][2 := 0]);
    assert Exec(t1, ADD(0, 1, Immediate(0xFFFB))) == Ok(WriteResult(t1, 0, WrappingAdd(0, 0xFFFB)));
    var t2 := s.(regs := s.regs[0 := 3][1 := 0xFFFF][2 := 2]);
    assert Exec(t2, ADD(0, 1, Reg(2))) == Ok(WriteResult(t2, 0, WrappingAdd(0xFFFF, 2)));
    var t3 := s.(regs := s.regs[0 := 3][1 := 0xFFFF][2 := 1]);
    assert Exec(t3, ADD(0, 1, Immediate(2))) == Ok(WriteResult(t3, 0, WrappingAdd(0xFFFF, 2)));
  }

  /** The source's simple register ADD: 3 + 5 gives 8 with flag Pos, and
      the source registers are left alone. */
  lemma AddSimpleExample(s: State)
    requires s.Valid()
    ensures var t := s.(regs := s.regs[0 := 10][1 := 3][2 := 5]);
      Exec(t, ADD(0, 1, Reg(2))).Ok? && Exec(t, ADD(0, 1, Reg(2))).value.regs[0] == 8 &&
      CondFlag(Exec(t, ADD(0, 1, Reg(2))).value) == Pos &&
      Exec(t, ADD(0, 1, Reg(2))).value.regs[1] == 3 && Exec(t, ADD(0, 1, Reg(2))).value.regs[2] == 5
  {
    var t := s.(regs := s.regs[0 := 10][1 := 3][2 := 5]);
    assert Exec(t, ADD(0, 1, Reg(2))) == Ok(WriteResult(t, 0, WrappingAdd(3, 5)));
  }

  /** The source's AND cases with R1 = 4 and R2 = 7: R1 AND R1 gives 4,
      R1 AND immediate 9 gives 0, R1 AND immediate 0 gives 0 with flag
      Zero; R1 and R2 are left alone. */
  lemma AndExamples(s: State)
    requires s.Valid()
    ensures var t := s.(regs := s.regs[0 := 3][1 := 4][2 := 7]);
      Exec(t, AND(0, 1, Reg(1))).Ok? && Exec(t, AND(0, 1, Reg(1))).value.regs[0] == 4 &&
      Exec(t, AND(0, 1, Reg(1))).value.regs[1] == 4 && Exec(t, AND(0, 1, Reg(1))).value.regs[2] == 7
    ensures var t := s.(regs := s.regs[0 := 3][1 := 4][2 := 7]);
      Exec(t, AND(0, 1, Immediate(9))).Ok? && Exec(t, AND(0, 1, Immediate(9))).value.regs[0] == 0 &&
      Exec(t, AND(0, 1, Immediate(9))).value.regs[1] == 4 && Exec(t, AND(0, 1, Immediate(9))).value.regs[2] == 7
    ensures var t := s.(regs := s.regs[0 := 3][1 := 4][2 := 7]);
      Exec(t, AND(0, 1, Immediate(0))).Ok? && Exec(t, AND(0, 1, Immediate(0))).value.regs[0] == 0 &&
      CondFlag(Exec(t, AND(0, 1, Immediate(0))).value) == Zero &&
      Exec(t, AND(0, 1, Immediate(0))).value.regs[1] == 4 && Exec(t, AND(0, 1, Immediate(0))).value.regs[2] == 7
  {
    var t := s.(regs := s.regs[0 := 3][1 := 4][2 := 7]);
    assert Exec(t, AND(0, 1, Reg(1))) == Ok(WriteResult(t, 0, BitAnd(4, 4)));
    assert Exec(t, AND(0, 1, Immediate(9))) == Ok(WriteResult(t, 0, BitAnd(4, 9)));
    assert Exec(t, AND(0, 1, Immediate(0))) == Ok(WriteResult(t, 0, BitAnd(4, 0)));
  }

  /** AND: DR receives exactly the bits set in both operands; nothing
      else changes. */
  lemma AndMasks(s: State, dr: nat, sr1: nat, sr2: Argument)
    requires s.Valid() && RegistersBelow(AND(dr, sr1, sr2), 8)
    ensures Exec(s, AND(dr, sr1, sr2)).Ok?
    ensures var r := Exec(s, AND(dr, sr1, sr2)).value;
      CommonBits(s.regs[sr1], Operand(s, sr2), r.regs[dr]) &&
      CondFlag(r) == FlagFor(r.regs[dr]) && OthersKept(s, r, dr)
  {
    ConjunctionCommon(s.regs[sr1], Operand(s, sr2));
    ResultWritten(s, AND(dr, sr1, sr2), dr, BitAnd(s.regs[sr1], Operand(s, sr2)));
  }

  /** `c` has a bit set exactly where both `a` and `b` have it: no bit
      outside `a`, none outside `b`, and every bit they share. */
  predicate CommonBits(a: bv16, b: bv16, c: bv16) {
    c & !a == 0 && c & !b == 0 && a & b & !c == 0
  }

  lemma ConjunctionCommon(a: bv16, b: bv16)
    ensures CommonBits(a, b, BitAnd(a, b))
  {
  }

  /** NOT: DR receives the complement, 0xFFFF minus the value, so NOT
      applied twice to the same register gives back its value. */
  lemma NotComplements(s: State, dr: nat)
    requires s.Valid() && dr < 8
    ensures Exec(s, NOT(dr, dr)).Ok?
    ensures var r := Exec(s, NOT(dr, dr)).value;
      r.regs[dr] as bv32 == 0xFFFF - s.regs[dr] as bv32 && CondFlag(r) == FlagFor(r.regs[dr]) && OthersKept(s, r, dr)
    ensures Exec(Exec(s, NOT(dr, dr)).value, NOT(dr, dr)).Ok? &&
      Exec(Exec(s, NOT(dr, dr)).value, NOT(dr, dr)).value.regs[dr] == s.regs[dr]
  {
    Complement(s.regs[dr]);
    ResultWritten(s, NOT(dr, dr), dr, BitNot(s.regs[dr]));
    var r := Exec(s, NOT(dr, dr)).value;
    ResultWritten(r, NOT(dr, dr), dr, BitNot(r.regs[dr]));
  }

  lemma Complement(w: bv16)
    ensures BitNot(w) as bv32 == 0xFFFF - w as bv32 && BitNot(BitNot(w)) == w
  {
  }

  /** LEA: DR receives PC plus the offset modulo 2^16; memory is not
      read. */
  lemma LeaAddress(s: State, dr: nat, offset: bv16)
    requires s.Valid() && dr < 8
    ensures Exec(s, LEA(dr, offset)).Ok?
    ensures var r := Exec(s, LEA(dr, offset)).value;
      r.regs[dr] as bv32 == (Pc(s) as bv32 + offset as bv32) % 0x10000 && CondFlag(r) == FlagFor(r.regs[dr]) &&
      OthersKept(s, r, dr)
  {
    WrappingAddWide(Pc(s), offset);
    assert Exec(s, LEA(dr, offset)) == Ok(WriteResult(s, dr, PcWithOffset(s, offset)));
  }

  // ---------------------------------------------------------------------
  // BR, JMP, RET, JSR, JSRR

  /** The registers a jump leaves alone: all but PC (and R7 when it links). */
  predicate OnlyPcMoved(s: State, r: State, linked: bool)
    requires s.Valid() && r.Valid()
  {
    OnlyRegisters(s, r) && r.regs[RegCond] == s.regs[RegCond] &&
    forall i :: 0 <= i < RegCount && i != RegPc && (linked ==> i != RegRet) ==> r.regs[i] == s.regs[i]
  }

  /** BR is taken exactly when one of its n, z, p bits names the current
      flag; then PC moves by the offset modulo 2^16, otherwise nothing
      changes. */
  lemma BranchTakenIff(s: State, n: bool, z: bool, p: bool, offset: bv16)
    requires s.Valid()
    ensures Exec(s, BR(n, z, p, offset)).Ok?
    ensures var r := Exec(s, BR(n, z, p, offset)).value;
      var taken := (n && CondFlag(s) == Neg) || (z && CondFlag(s) == Zero) || (p && CondFlag(s) == Pos);
      (taken ==> Pc(r) as bv32 == (Pc(s) as bv32 + offset as bv32) % 0x10000 && OnlyPcMoved(s, r, false)) &&
      (!taken ==> r == s)
  {
    WrappingAddWide(Pc(s), offset);
  }

  /** BRnzp is taken whenever a flag is set, but not while COND holds no
      flag (as after `VM::new`); BR with no condition bit is never taken. */
  lemma BranchExamples(s: State, offset: bv16)
    requires s.Valid()
    ensures CondFlag(s) != ConditionFlag.None ==> Pc(Exec(s, BR(true, true, true, offset)).value) == PcWithOffset(s, offset)
    ensures CondFlag(s) == ConditionFlag.None ==> Exec(s, BR(true, true, true, offset)) == Ok(s)
    ensures Exec(s, BR(false, false, false, offset)) == Ok(s)
  {
  }

  /** JMP and RET set PC to the base register (R7 for RET). */
  lemma JumpTargets(s: State, baseR: nat)
    requires s.Valid() && baseR < 8
    ensures Exec(s, JMP(baseR)).Ok? && Pc(Exec(s, JMP(baseR)).value) == s.regs[baseR]
    ensures OnlyPcMoved(s, Exec(s, JMP(baseR)).value, false)
    ensures Exec(s, RET).Ok? && Pc(Exec(s, RET).value) == s.regs[RegRet]
    ensures OnlyPcMoved(s, Exec(s, RET).value, false)
  {
  }

  /** JSR saves the PC of the next instruction in R7 and moves PC by the
      offset; a RET afterwards comes back to the saved PC. */
  lemma SubroutineLinks(s: State, offset: bv16)
    requires s.Valid()
    ensures Exec(s, JSR(offset)).Ok?
    ensures var r := Exec(s, JSR(offset)).value;
      r.regs[RegRet] == Pc(s) && Pc(r) as bv32 == (Pc(s) as bv32 + offset as bv32) % 0x10000 &&
      OnlyPcMoved(s, r, true)
    ensures Exec(Exec(s, JSR(offset)).value, RET).Ok? && Pc(Exec(Exec(s, JSR(offset)).value, RET).value) == Pc(s)
  {
    WrappingAddWide(Pc(s), offset);
    var r := Exec(s, JSR(offset)).value;
    assert Exec(r, RET) == Ok(SetPc(r, r.regs[RegRet]));
  }

  /** JSRR saves PC in R7 before reading the base register, so JSRR R7
      leaves PC where it was; through any other register it jumps to that
      register's value. */
  lemma SubroutineRegisterLinks(s: State, baseR: nat)
    requires s.Valid() && baseR < 8
    ensures Exec(s, JSRR(baseR)).Ok?
    ensures var r := Exec(s, JSRR(baseR)).value;
      r.regs[RegRet] == Pc(s) && Pc(r) == (if baseR == RegRet then Pc(s) else s.regs[baseR]) &&
      OnlyPcMoved(s, r, true)
  {
  }

  /** TRAP saves PC in R7 before the service routine runs. */
  lemma TrapLinks(s: State, code: TrapCode)
    requires s.Valid()
    ensures Exec(s, TRAP(code)) == Trap(Link(s), code)
    ensures Link(s).regs[RegRet] == Pc(s) && OnlyPcMoved(s, Link(s), true) && Pc(Link(s)) == Pc(s)
  {
  }

  // ---------------------------------------------------------------------
  // Memory reads, the keyboard, loads and stores

  /** `read` of a cell other than KBSR is the cell itself and changes
      nothing; past the end it is the out-of-bounds panic. */
  lemma ReadCell(s: State, position: nat)
    requires s.Valid() && position != Kbsr
    ensures position < MemorySize ==> Read(s, position) == Ok((s.mem[position], s))
    ensures position >= MemorySize ==> Read(s, position) == Err(OutOfBoundsRead(position))
  {
  }

  /** Reading KBSR consumes one input byte: a nonzero byte reads back as
      0x8000 (ready) and is left in KBDR, a zero byte reads back as 0;
      no byte left is a fault. Only KBSR and KBDR can change. */
  lemma KeyboardPoll(s: State)
    requires s.Valid()
    ensures s.input == [] <==> Read(s, Kbsr) == Err(InputExhausted)
    ensures s.input != [] ==> Read(s, Kbsr).Ok?
    ensures s.input != [] ==>
      var v, t := Read(s, Kbsr).value.0, Read(s, Kbsr).value.1;
      t.input == s.input[1..] && t.regs == s.regs && t.output == s.output && t.running == s.running &&
      (s.input[0] != 0 ==> v == 0x8000 && t.mem[Kbdr] == s.input[0] as bv16) &&
      (s.input[0] == 0 ==> v == 0 && t.mem[Kbdr] == s.mem[Kbdr]) &&
      forall a :: 0 <= a < MemorySize && a != Kbsr && a != Kbdr ==> t.mem[a] == s.mem[a]
  {
  }

  /** LDR adds the offset to the base register as an `i16`; the sum
      widened to `usize` is out of bounds exactly when it is negative (and
      then at least 2^63), so LDR never reaches the keyboard registers. */
  lemma LoadRegisterAddress(s: State, dr: nat, baseR: nat, offset: bv16)
    requires s.Valid() && dr < 8 && baseR < 8
    ensures var sum := WrappingAdd(s.regs[baseR], offset);
      Exec(s, LDR(dr, baseR, offset)).Err? <==> sum >= 0x8000
    ensures var sum := WrappingAdd(s.regs[baseR], offset);
      sum >= 0x8000 ==>
        Exec(s, LDR(dr, baseR, offset)).error == OutOfBoundsRead(Util.UsizeOfI16(sum)) && Util.UsizeOfI16(sum) >= Util.Two64 / 2
    ensures var sum := WrappingAdd(s.regs[baseR], offset);
      sum < 0x8000 ==>
        var r := Exec(s, LDR(dr, baseR, offset)).value;
        r.regs[dr] == s.mem[sum as int] && CondFlag(r) == FlagFor(r.regs[dr]) && OthersKept(s, r, dr)
  {
    var sum := WrappingAdd(s.regs[baseR], offset);
    var dir := Util.UsizeOfI16(sum);
    if sum < 0x8000 {
      ReadCell(s, dir);
      assert Exec(s, LDR(dr, baseR, offset)) == Ok(WriteResult(s, dr, s.mem[dir]));
    } else {
      ReadCell(s, dir);
    }
  }

  /** STR: the same address rule as LDR; in bounds, exactly that cell
      takes the source register. */
  lemma StoreRegisterAddress(s: State, sr: nat, baseR: nat, offset: bv16)
    requires s.Valid() && sr < 8 && baseR < 8
    ensures var sum := WrappingAdd(s.regs[baseR], offset);
      Exec(s, STR(sr, baseR, offset)).Err? <==> sum >= 0x8000
    ensures var sum := WrappingAdd(s.regs[baseR], offset);
      sum >= 0x8000 ==>
        Exec(s, STR(sr, baseR, offset)).error == OutOfBoundsWrite(Util.UsizeOfI16(sum)) && Util.UsizeOfI16(sum) >= Util.Two64 / 2
    ensures var sum := WrappingAdd(s.regs[baseR], offset);
      sum < 0x8000 ==>
        Exec(s, STR(sr, baseR, offset)).Ok? &&
        OneCellWritten(s, Exec(s, STR(sr, baseR, offset)).value, sum as nat, s.regs[sr])
  {
    var sum := WrappingAdd(s.regs[baseR], offset);
    assert Exec(s, STR(sr, baseR, offset)) == Write(s, Util.UsizeOfI16(sum), s.regs[sr]);
  }

  /** `r` is `s` with only the memory cell at `addr` replaced by `value`. */
  predicate OneCellWritten(s: State, r: State, addr: nat, value: bv16)
  {
    r.regs == s.regs && r.running == s.running && r.input == s.input && r.output == s.output &&
    |r.mem| == |s.mem| && addr < |s.mem| && r.mem[addr] == value &&
    forall a :: 0 <= a < |s.mem| && a != addr ==> r.mem[a] == s.mem[a]
  }

  /** ST writes the source register at PC plus the offset (modulo 2^16)
      and changes nothing else; it never faults. */
  lemma StoreWritesOneCell(s: State, sr: nat, offset: bv16)
    requires s.Valid() && sr < 8
    ensures Exec(s, ST(sr, offset)).Ok?
    ensures OneCellWritten(s, Exec(s, ST(sr, offset)).value, PcWithOffset(s, offset) as nat, s.regs[sr])
  {
  }

  /** LD reads the cell at PC plus the offset into DR. Away from KBSR
      nothing else changes; at KBSR the read first polls the keyboard
      (KeyboardPoll), so DR receives the status the poll leaves there and
      the input byte is consumed. */
  lemma LoadReadsOneCell(s: State, dr: nat, offset: bv16)
    requires s.Valid() && dr < 8
    ensures PcWithOffset(s, offset) as nat != Kbsr ==>
      Exec(s, LD(dr, offset)).Ok? &&
      var r := Exec(s, LD(dr, offset)).value;
      r.regs[dr] == s.mem[PcWithOffset(s, offset)] && CondFlag(r) == FlagFor(r.regs[dr]) && OthersKept(s, r, dr)
    ensures PcWithOffset(s, offset) as nat == Kbsr ==>
      (Exec(s, LD(dr, offset)).Err? <==> s.input == []) &&
      (s.input != [] ==> Exec(s, LD(dr, offset)) == PolledInto(s, dr, Kbsr))
  {
    var address := PcWithOffset(s, offset) as nat;
    if address != Kbsr {
      ReadCell(s, address);
      assert ReadWithOffset(s, offset) == Ok((s.mem[address], s));
      assert Exec(s, LD(dr, offset)) == Ok(WriteResult(s, dr, s.mem[address]));
    } else if s.input != [] {
      var t := HandleKeyboard(s).value;
      assert ReadWithOffset(s, offset) == Ok((t.mem[Kbsr], t));
    }
  }

  /** The outcome of loading cell `addr` into DR right after a keyboard
      poll: the poll's memory, the input byte consumed, DR and COND set. */
  function PolledInto(s: State, dr: nat, addr: nat): (r: Result<State, Fault>)
    requires s.Valid() && dr < 8 && s.input != [] && addr < MemorySize
    ensures r.Ok? && r.value.Valid() && r.value.input == s.input[1..] && r.value.output == s.output && r.value.running == s.running
    ensures r.value.regs[dr] == HandleKeyboard(s).value.mem[addr] && CondFlag(r.value) == FlagFor(r.value.regs[dr])
    ensures forall i :: 0 <= i < RegCount && i != dr && i != RegCond ==> r.value.regs[i] == s.regs[i]
    ensures r.value.mem == HandleKeyboard(s).value.mem
  {
    var t := HandleKeyboard(s).value;
    Ok(WriteResult(t, dr, t.mem[addr]))
  }

  /** LD, LDI, ST, STI and LEA address memory with a 16-bit PC-relative
      sum, which is always in bounds: their only possible fault is running
      out of input while polling the keyboard (ST and LEA never fault, see
      StoreWritesOneCell and LeaAddress). */
  lemma LoadInBounds(s: State, dr: nat, offset: bv16)
    requires s.Valid() && dr < 8
    ensures Exec(s, LD(dr, offset)).Err? ==> Exec(s, LD(dr, offset)).error == InputExhausted && s.input == []
  {
    PcRelativeRead(s, PcWithOffset(s, offset));
  }

  lemma LoadIndirectInBounds(s: State, dr: nat, offset: bv16)
    requires s.Valid() && dr < 8
    ensures Exec(s, LDI(dr, offset)).Err? ==> Exec(s, LDI(dr, offset)).error == InputExhausted
  {
    PcRelativeRead(s, PcWithOffset(s, offset));
    var indirect := Read(s, PcWithOffset(s, offset) as nat);
    if indirect.Ok? {
      PcRelativeRead(indirect.value.1, indirect.value.0);
    }
  }

  /** LDI through two cells other than KBSR: DR receives the cell whose
      address is stored at PC plus the offset, and nothing else changes. */
  lemma LoadIndirectReads(s: State, dr: nat, offset: bv16)
    requires s.Valid() && dr < 8 && PcWithOffset(s, offset) as nat != Kbsr
    requires s.mem[PcWithOffset(s, offset)] as nat != Kbsr
    ensures Exec(s, LDI(dr, offset)).Ok?
    ensures var r := Exec(s, LDI(dr, offset)).value;
      r.regs[dr] == s.mem[s.mem[PcWithOffset(s, offset)]] && CondFlag(r) == FlagFor(r.regs[dr]) && OthersKept(s, r, dr)
  {
    var address := PcWithOffset(s, offset) as nat;
    ReadCell(s, address);
    assert ReadWithOffset(s, offset) == Ok((s.mem[address], s));
    ReadCell(s, s.mem[address] as nat);
    assert Exec(s, LDI(dr, offset)) == Ok(WriteResult(s, dr, s.mem[s.mem[address]]));
  }

  /** LDI whose stored address is KBSR: the keyboard is polled before the
      second read, so DR receives the new status. */
  lemma LoadIndirectPollsStored(s: State, dr: nat, offset: bv16)
    requires s.Valid() && dr < 8 && PcWithOffset(s, offset) as nat != Kbsr
    requires s.mem[PcWithOffset(s, offset)] as nat == Kbsr
    ensures Exec(s, LDI(dr, offset)).Err? <==> s.input == []
    ensures s.input != [] ==> Exec(s, LDI(dr, offset)) == PolledInto(s, dr, Kbsr)
  {
    var address := PcWithOffset(s, offset) as nat;
    ReadCell(s, address);
    assert ReadWithOffset(s, offset) == Ok((s.mem[address], s));
  }

  /** LDI whose PC-relative cell is KBSR: the poll leaves 0x8000 there when
      a nonzero byte arrives and 0 otherwise, and DR receives the cell at
      that address, which the poll does not touch. */
  lemma LoadIndirectThroughKeyboard(s: State, dr: nat, offset: bv16)
    requires s.Valid() && dr < 8 && PcWithOffset(s, offset) as nat == Kbsr
    ensures Exec(s, LDI(dr, offset)).Err? <==> s.input == []
    ensures s.input != [] ==>
      var status: bv16 := if s.input[0] != 0 then 0x8000 else 0;
      HandleKeyboard(s).value.mem[Kbsr] == status && HandleKeyboard(s).value.mem[status] == s.mem[status] &&
      Exec(s, LDI(dr, offset)) == PolledInto(s, dr, status as nat)
  {
    if s.input != [] {
      var t := HandleKeyboard(s).value;
      ReadCell(t, t.mem[Kbsr] as nat);
    }
  }

  /** STI through a cell other than KBSR writes the source register into
      exactly the cell whose address is stored there, and nothing else. */
  lemma StoreIndirectWritesOneCell(s: State, sr: nat, offset: bv16)
    requires s.Valid() && sr < 8 && PcWithOffset(s, offset) as nat != Kbsr
    ensures Exec(s, STI(sr, offset)).Ok?
    ensures OneCellWritten(s, Exec(s, STI(sr, offset)).value, s.mem[PcWithOffset(s, offset)] as nat, s.regs[sr])
  {
    var address := PcWithOffset(s, offset) as nat;
    ReadCell(s, address);
    assert ReadWithOffset(s, offset) == Ok((s.mem[address], s));
    assert Exec(s, STI(sr, offset)) == Write(s, s.mem[address] as nat, s.regs[sr]);
  }

  /** STI whose PC-relative cell is KBSR: the keyboard is polled, and the
      source register goes to the status address the poll leaves there
      (0x8000 or 0) in the polled memory. */
  lemma StoreIndirectThroughKeyboard(s: State, sr: nat, offset: bv16)
    requires s.Valid() && sr < 8 && PcWithOffset(s, offset) as nat == Kbsr
    ensures Exec(s, STI(sr, offset)).Err? <==> s.input == []
    ensures s.input != [] ==>
      var t := HandleKeyboard(s).value;
      var status: bv16 := if s.input[0] != 0 then 0x8000 else 0;
      t.mem[Kbsr] == status && Exec(s, STI(sr, offset)) == Ok(t.(mem := t.mem[status := s.regs[sr]]))
  {
  }

  lemma StoreIndirectInBounds(s: State, sr: nat, offset: bv16)
    requires s.Valid() && sr < 8
    ensures Exec(s, STI(sr, offset)).Err? ==> Exec(s, STI(sr, offset)).error == InputExhausted && s.input == []
  {
    PcRelativeRead(s, PcWithOffset(s, offset));
  }

  /** A read at a 16-bit address faults only when it polls an exhausted
      keyboard. */
  lemma PcRelativeRead(s: State, addr: bv16)
    requires s.Valid()
    ensures Read(s, addr as nat).Err? ==> Read(s, addr as nat).error == InputExhausted && s.input == [] && addr as nat == Kbsr
  {
  }

  /** A write followed by a read: the written cell reads back the value
      stored, and every other cell reads as it did before the write.
      KBSR is left out, since reading it polls the keyboard. */
  lemma ReadAfterWrite(s: State, addr: nat, value: bv16, other: nat)
    requires s.Valid() && addr < MemorySize && addr != Kbsr && other != Kbsr
    ensures Write(s, addr, value).Ok?
    ensures var w := Write(s, addr, value).value;
      Read(w, addr) == Ok((value, w)) &&
      (other != addr ==>
        Read(w, other).Ok? == Read(s, other).Ok? &&
        (Read(s, other).Ok? ==> Read(w, other).value.0 == Read(s, other).value.0))
  {
    var w := Write(s, addr, value).value;
    ReadCell(w, addr);
    ReadCell(w, other);
    ReadCell(s, other);
  }
}
