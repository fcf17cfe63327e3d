/** The older engine still compiled into src/main.rs, as a state machine
    over the same `Machine.State`. It differs from src/vm.rs in the points
    below; `join_u8` and `base_r_with_offset` there are the same code as
    in src/util.rs (`Util.JoinU8`, `Util.BaseROffset`), and loading an
    image is `Machine.Init` with no console input. Overflow of `+` and
    `+=` on `u16` is the panic of a debug build. */
module Legacy {
  import opened Wrappers
  import opened Opcodes
  import M = Machine
  import Util

  /** `pc_with_offset`: PC read as an `i16`, the offset added with `i16`
      wrap-around, the sum sign-extended to `usize`. A negative sum is an
      address far past the end of memory; the low 16 bits are always the
      16-bit sum the newer engine uses. */
  function PcWithOffset(s: M.State, offset: bv16): (r: nat)
    requires s.Valid()
    ensures r < Util.Two64 && Util.Truncate16(r) == M.PcWithOffset(s, offset)
    ensures r < M.MemorySize <==> M.PcWithOffset(s, offset) < 0x8000
    ensures r < M.MemorySize ==> r == M.PcWithOffset(s, offset) as nat
  {
    var sum := M.WrappingAdd(M.Pc(s), offset);
    Util.TruncateSignExtended(sum);
    Util.UsizeOfI16(sum)
  }

  /** `set_pc`: the `usize` is truncated with `as u16`. */
  function SetPc(s: M.State, newPc: nat): (r: M.State)
    requires s.Valid()
    ensures r.Valid() && r == M.SetPc(s, Util.Truncate16(newPc))
  {
    s.(regs := s.regs[M.RegPc := Util.Truncate16(newPc)])
  }

  /** `advance_pc`: `+= 1` on the `u16` PC overflows at 0xFFFF; below
      that it is the newer engine's step to the next word. */
  function AdvancePc(s: M.State): (r: Result<M.State, M.Fault>)
    requires s.Valid()
    ensures r.Err? <==> M.Pc(s) == 0xFFFF
    ensures r.Err? ==> r.error == M.PcOverflow
    ensures r.Ok? ==> r.value == M.AdvancePc(s)
  {
    if M.Pc(s) == 0xFFFF then Err(M.PcOverflow) else Ok(s.(regs := s.regs[M.RegPc := M.Pc(s) + 1]))
  }

  /** `read`: no keyboard registers; `get(..).expect` panics past the
      end. */
  function Read(s: M.State, position: nat): (r: Result<bv16, M.Fault>)
    requires s.Valid()
    ensures r.Ok? <==> position < M.MemorySize
    ensures r.Ok? ==> r.value == s.mem[position]
    ensures r.Err? ==> r.error == M.OutOfBoundsRead(position)
  {
    if position < M.MemorySize then Ok(s.mem[position]) else Err(M.OutOfBoundsRead(position))
  }

  /** `set_flags`: Zero for 0, Pos for a result above 0 as an `i16`, Neg
      otherwise; the same flag the newer engine chooses. */
  function SetFlags(s: M.State, res: bv16): (r: M.State)
    requires s.Valid()
    ensures r.Valid() && r == M.SetFlags(s, res)
  {
    var c := if Util.Signed(res) == 0 then M.Zero else if Util.Signed(res) > 0 then M.Pos else M.Neg;
    M.SetCondFlag(s, c)
  }

  /** `cond_flag_any_set`: COND holds one of the three flag patterns. */
  function CondFlagAnySet(s: M.State): (b: bool)
    requires s.Valid()
    ensures b <==> s.regs[M.RegCond] == 1 || s.regs[M.RegCond] == 2 || s.regs[M.RegCond] == 4
  {
    M.CondFlag(s) != M.ConditionFlag.None
  }

  function WriteResult(s: M.State, dr: nat, res: bv16): (r: M.State)
    requires s.Valid() && dr < M.RegCount
    ensures r.Valid() && r == M.WriteResult(s, dr, res)
  {
    SetFlags(s.(regs := s.regs[dr := res]), res)
  }

  /** ADD, AND, NOT and LEA. ADD of two registers uses the unchecked `+`
      and overflows past 0xFFFF; ADD of an immediate wraps through `i16`;
      LEA truncates the `usize` address with `as u16`. */
  function Operate(s: M.State, op: Opcode): (r: Result<M.State, M.Fault>)
    requires s.Valid() && RegistersBelow(op, M.RegCount) && (op.ADD? || op.AND? || op.NOT? || op.LEA?)
    ensures r.Ok? ==> r.value.Valid()
  {
    match op
    case ADD(dr, sr1, sr2) =>
      if sr2.Reg? && s.regs[sr1] as bv32 + s.regs[sr2.index] as bv32 > 0xFFFF then Err(M.AddOverflow)
      else Ok(WriteResult(s, dr, M.WrappingAdd(s.regs[sr1], M.Operand(s, sr2))))
    case AND(dr, sr1, sr2) => Ok(WriteResult(s, dr, M.BitAnd(s.regs[sr1], M.Operand(s, sr2))))
    case NOT(dr, sr) => Ok(WriteResult(s, dr, M.BitNot(s.regs[sr])))
    case LEA(dr, offset) => Ok(WriteResult(s, dr, Util.Truncate16(PcWithOffset(s, offset))))
  }

  /** BR, JMP, RET, JSR and JSRR: only PC changes; R7 is never written. */
  function Control(s: M.State, op: Opcode): (r: Result<M.State, M.Fault>)
    requires s.Valid() && RegistersBelow(op, M.RegCount) && (op.BR? || op.JMP? || op.RET? || op.JSR? || op.JSRR?)
    ensures r.Ok? ==> r.value.Valid()
  {
    match op
    case BR(n, z, p, offset) =>
      var flag := M.CondFlag(s);
      if (n && flag == M.Neg) || (z && flag == M.Zero) || (p && flag == M.Pos) then Ok(SetPc(s, PcWithOffset(s, offset)))
      else Ok(s)
    case JMP(baseR) => Ok(SetPc(s, s.regs[baseR] as nat))
    case RET => Ok(SetPc(s, s.regs[M.RegRet] as nat))
    case JSR(offset) => Ok(SetPc(s, PcWithOffset(s, offset)))
    case JSRR(baseR) => Ok(SetPc(s, s.regs[baseR] as nat))
  }

  /** LD, LDI and LDR. LD and LDI read at the `usize` PC-relative
      address (the indirect address LDI then follows is a `u16`, always in bounds);
      LDR reads at the base register's INDEX plus the offset. */
  function Load(s: M.State, op: Opcode): (r: Result<M.State, M.Fault>)
    requires s.Valid() && RegistersBelow(op, M.RegCount) && (op.LD? || op.LDI? || op.LDR?)
    ensures r.Ok? ==> r.value.Valid()
  {
    match op
    case LD(dr, offset) =>
      var res :- Read(s, PcWithOffset(s, offset));
      Ok(WriteResult(s, dr, res))
    case LDI(dr, offset) =>
      var dir :- Read(s, PcWithOffset(s, offset));
      Ok(WriteResult(s, dr, Read(s, dir as nat).value))
    case LDR(dr, baseR, offset) =>
      var res :- Read(s, Util.BaseROffset(baseR, offset));
      Ok(WriteResult(s, dr, res))
  }

  /** ST, STI and STR: `memory[dir] = val`, an index panic past the end. */
  function Store(s: M.State, op: Opcode): (r: Result<M.State, M.Fault>)
    requires s.Valid() && RegistersBelow(op, M.RegCount) && (op.ST? || op.STI? || op.STR?)
    ensures r.Ok? ==> r.value.Valid()
  {
    match op
    case ST(sr, offset) => M.Write(s, PcWithOffset(s, offset), s.regs[sr])
    case STI(sr, offset) =>
      var dir :- Read(s, PcWithOffset(s, offset));
      M.Write(s, dir as nat, s.regs[sr])
    case STR(sr, baseR, offset) => M.Write(s, Util.BaseROffset(baseR, offset), s.regs[sr])
  }

  /** `handle_trap_code`: GETC and IN are not implemented and change
      nothing; OUT, PUTS, PUTSP and HALT are the newer engine's. */
  function Trap(s: M.State, code: TrapCode): (r: Result<M.State, M.Fault>)
    requires s.Valid()
    ensures r.Ok? ==> r.value.Valid()
    ensures code.Getc? || code.In? ==> r == Ok(s)
    ensures !(code.Getc? || code.In?) ==> r == M.Trap(s, code)
  {
    match code
    case Getc => Ok(s)
    case In => Ok(s)
    case _ => M.Trap(s, code)
  }

  /** `execute`. */
  function Exec(s: M.State, op: Opcode): (r: Result<M.State, M.Fault>)
    requires s.Valid() && RegistersBelow(op, M.RegCount)
    ensures r.Ok? ==> r.value.Valid()
  {
    if op.ADD? || op.AND? || op.NOT? || op.LEA? then Operate(s, op)
    else if op.BR? || op.JMP? || op.RET? || op.JSR? || op.JSRR? then Control(s, op)
    else if op.LD? || op.LDI? || op.LDR? then Load(s, op)
    else if op.ST? || op.STI? || op.STR? then Store(s, op)
    else if op.TRAP? then Trap(M.Link(s), op.trapCode)
    else if op.RTI? then Ok(s)
    else Err(M.ReservedInstruction)
  }

  /** One turn of `run`'s loop: fetch, `advance_pc` (which can overflow),
      decode, execute. */
  function Step(s: M.State): (r: Result<M.State, M.Fault>)
    requires s.Valid()
    ensures r.Ok? ==> r.value.Valid()
  {
    var instruction := s.mem[M.Pc(s) as int];
    var advanced :- AdvancePc(s);
    match Decode(instruction)
    case Err(UnknownInstruction(_)) => Ok(advanced.(running := false))
    case Err(UnknownTrapCode(code)) => Err(M.BadTrapCode(code))
    case Ok(op) =>
      EncodeDecode(instruction);
      Exec(advanced, op)
  }
}
