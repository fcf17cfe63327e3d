/** The execution engine of src/vm.rs as a state machine over values: the
    ten registers (R0..R7, PC at index 8, COND at index 9), the 65536-word
    memory, the `running` flag, and the console as a sequence of input
    bytes still to be read and a sequence of output bytes written so far.
    Every transition returns the new state or the `Fault` that stands for
    the panic the source would raise; the state after a panic is not
    modelled. The class in vm.dfy is proved against these functions. */
module Machine {
  import opened Wrappers
  import opened Opcodes
  import Util
  import Memory

  const RegCount: nat := 10
  const RegRet: nat := 7
  const RegPc: nat := 8
  const RegCond: nat := 9
  const MemorySize: nat := 0x10000
  const PcStart: bv16 := 0x3000
  /** Keyboard status and data registers, mapped into memory. */
  const Kbsr: nat := 0xFE00
  const Kbdr: nat := 0xFE02

  /** The line the IN trap prints before reading: "Enter a character: "
      and a newline. */
  const InPrompt: seq<bv8> :=
    [0x45, 0x6E, 0x74, 0x65, 0x72, 0x20, 0x61, 0x20, 0x63, 0x68, 0x61, 0x72, 0x61, 0x63, 0x74, 0x65, 0x72,
     0x3A, 0x20, 0x0A]

  /** `wrapping_add` on `u16` (and on `i16`, and `wrapping_add_signed`
      of a `u16` and an `i16`: all three add the 16-bit patterns modulo
      2^16). */
  function WrappingAdd(a: bv16, b: bv16): bv16 {
    a + b
  }

  /** `&` on two `u16` (or `i16`) values. */
  function BitAnd(a: bv16, b: bv16): bv16 {
    a & b
  }

  /** `!` on a `u16`. */
  function BitNot(a: bv16): bv16 {
    !a
  }

  datatype ConditionFlag = Pos | Neg | Zero | None

  /** The panics of the engine. `AddOverflow` and `PcOverflow` arise only
      in the older engine of src/main.rs (module Legacy). */
  datatype Fault =
    | ReservedInstruction
    | OutOfBoundsRead(addr: nat)
    | OutOfBoundsWrite(addr: nat)
    | InputExhausted
    | BadTrapCode(code: bv16)
    | AddOverflow
    | PcOverflow

  datatype State = State(running: bool, regs: seq<bv16>, mem: seq<bv16>, input: seq<bv8>, output: seq<bv8>)
  {
    predicate Valid() {
      |regs| == RegCount && |mem| == MemorySize
    }
  }

  /** The same machine with only the registers replaced. */
  predicate OnlyRegisters(s: State, r: State) {
    r.running == s.running && r.mem == s.mem && r.input == s.input && r.output == s.output
  }

  /** `cond_flag`: the flag whose bit pattern COND holds, `None` for any
      other pattern. */
  function FlagOfBits(bits: bv16): ConditionFlag {
    if bits == 1 << 0 then Pos
    else if bits == 1 << 1 then Zero
    else if bits == 1 << 2 then Neg
    else ConditionFlag.None
  }

  /** The pattern `set_cond_flag` stores; reading it back gives the flag. */
  function BitsOfFlag(c: ConditionFlag): (bits: bv16)
    ensures FlagOfBits(bits) == c
    ensures c != ConditionFlag.None <==> bits == 1 || bits == 2 || bits == 4
  {
    match c
    case Pos => 1 << 0
    case Zero => 1 << 1
    case Neg => 1 << 2
    case None => 0
  }

  function CondFlag(s: State): ConditionFlag
    requires s.Valid()
  {
    FlagOfBits(s.regs[RegCond])
  }

  function SetCondFlag(s: State, c: ConditionFlag): (r: State)
    requires s.Valid()
    ensures r.Valid() && OnlyRegisters(s, r) && CondFlag(r) == c
    ensures forall i :: 0 <= i < RegCount && i != RegCond ==> r.regs[i] == s.regs[i]
  {
    s.(regs := s.regs[RegCond := BitsOfFlag(c)])
  }

  /** The flag `set_flags` chooses for a result read as an `i16`: the
      pattern is negative exactly when its top bit is set. */
  function FlagFor(res: bv16): (c: ConditionFlag)
    ensures c != ConditionFlag.None
    ensures c == Zero <==> res == 0
    ensures c == Neg <==> res >= 0x8000
  {
    if res >= 0x8000 then Neg else if res == 0 then Zero else Pos
  }

  function SetFlags(s: State, res: bv16): (r: State)
    requires s.Valid()
    ensures r.Valid() && OnlyRegisters(s, r) && CondFlag(r) == FlagFor(res)
    ensures forall i :: 0 <= i < RegCount && i != RegCond ==> r.regs[i] == s.regs[i]
  {
    SetCondFlag(s, FlagFor(res))
  }

  /** `registers[dr] = res; set_flags(res as i16)`, the tail of every
      instruction that produces a register value. */
  function WriteResult(s: State, dr: nat, res: bv16): (r: State)
    requires s.Valid() && dr < RegCount
    ensures r.Valid() && OnlyRegisters(s, r) && CondFlag(r) == FlagFor(res)
    ensures dr != RegCond ==> r.regs[dr] == res
    ensures forall i :: 0 <= i < RegCount && i != dr && i != RegCond ==> r.regs[i] == s.regs[i]
  {
    SetFlags(s.(regs := s.regs[dr := res]), res)
  }

  /** `pc`. */
  function Pc(s: State): bv16
    requires s.Valid()
  {
    s.regs[RegPc]
  }

  /** `set_pc`. Every caller passes a `u16` widened to `usize`, so the
      `try_from` check never fails; the model takes the `u16`. */
  function SetPc(s: State, newPc: bv16): (r: State)
    requires s.Valid()
    ensures r.Valid() && OnlyRegisters(s, r) && Pc(r) == newPc
    ensures forall i :: 0 <= i < RegCount && i != RegPc ==> r.regs[i] == s.regs[i]
  {
    s.(regs := s.regs[RegPc := newPc])
  }

  /** `pc_with_offset`: `wrapping_add_signed` on the 16-bit PC. */
  function PcWithOffset(s: State, offset: bv16): bv16
    requires s.Valid()
  {
    WrappingAdd(Pc(s), offset)
  }

  /** `advance_pc`. */
  function AdvancePc(s: State): State
    requires s.Valid()
  {
    SetPc(s, PcWithOffset(s, 1))
  }

  /** `handle_keyboard`: one byte is taken from the input; a nonzero byte
      sets the ready bit of KBSR and lands in KBDR, a zero byte clears
      KBSR. No byte left is the panic of `read_exact(..).unwrap()`. */
  function HandleKeyboard(s: State): (r: Result<State, Fault>)
    requires s.Valid()
    ensures r.Ok? ==> r.value.Valid() && r.value.regs == s.regs
  {
    if s.input == [] then Err(InputExhausted)
    else
      var b := s.input[0];
      var mem := if b != 0 then s.mem[Kbsr := 1 << 15][Kbdr := b as bv16] else s.mem[Kbsr := 0];
      Ok(s.(mem := mem, input := s.input[1..]))
  }

  /** `read`: reading KBSR first polls the keyboard; an address past the
      end is the "Out of bounds read" panic. */
  function Read(s: State, position: nat): (r: Result<(bv16, State), Fault>)
    requires s.Valid()
    ensures r.Ok? ==> r.value.1.Valid() && r.value.1.regs == s.regs
  {
    var polled :- if position == Kbsr then HandleKeyboard(s) else Ok(s);
    if position < MemorySize then Ok((polled.mem[position], polled)) else Err(OutOfBoundsRead(position))
  }

  /** `read_with_offset`. */
  function ReadWithOffset(s: State, offset: bv16): (r: Result<(bv16, State), Fault>)
    requires s.Valid()
    ensures r.Ok? ==> r.value.1.Valid() && r.value.1.regs == s.regs
  {
    Read(s, PcWithOffset(s, offset) as nat)
  }

  /** The second operand of ADD and AND: a register, or the immediate's
      16-bit pattern (`val as u16`, and `as i16 & val` for AND). */
  function Operand(s: State, arg: Argument): bv16
    requires s.Valid() && (arg.Reg? ==> arg.index < RegCount)
  {
    match arg
    case Reg(i) => s.regs[i]
    case Immediate(v) => v
  }

  /** R7 := PC, done by JSR, JSRR and TRAP before anything else. */
  function Link(s: State): (r: State)
    requires s.Valid()
    ensures r.Valid() && OnlyRegisters(s, r)
  {
    s.(regs := s.regs[RegRet := Pc(s)])
  }

  /** The characters PUTS prints from `mem[i]` on: the low byte of every
      cell up to the first zero cell. Running off the end of memory is an
      index panic. */
  function PutsChars(mem: seq<bv16>, i: nat): Result<seq<bv8>, Fault>
    requires |mem| == MemorySize
    decreases MemorySize - i
  {
    if i >= MemorySize then Err(OutOfBoundsRead(i))
    else if mem[i] == 0 then Ok([])
    else
      var rest :- PutsChars(mem, i + 1);
      Ok([Util.LowByte(mem[i])] + rest)
  }

  /** The characters PUTSP prints for one packed cell: the low byte, then
      the high byte unless it is zero. */
  function PackedChars(w: bv16): seq<bv8> {
    [Util.LowByte(w)] + (if Util.HighByte(w) != 0 then [Util.HighByte(w)] else [])
  }

  /** The characters PUTSP prints from `mem[i]` up to the first zero
      cell. */
  function PutspChars(mem: seq<bv16>, i: nat): Result<seq<bv8>, Fault>
    requires |mem| == MemorySize
    decreases MemorySize - i
  {
    if i >= MemorySize then Err(OutOfBoundsRead(i))
    else if mem[i] == 0 then Ok([])
    else
      var rest :- PutspChars(mem, i + 1);
      Ok(PackedChars(mem[i]) + rest)
  }

  /** Reads one input byte into R0 and sets the flags (GETC and IN). */
  function ReadChar(s: State): (r: Result<State, Fault>)
    requires s.Valid()
    ensures r.Ok? ==> r.value.Valid()
  {
    if s.input == [] then Err(InputExhausted)
    else Ok(WriteResult(s.(input := s.input[1..]), 0, s.input[0] as bv16))
  }

  /** `handle_trap_code`. */
  function Trap(s: State, code: TrapCode): (r: Result<State, Fault>)
    requires s.Valid()
    ensures r.Ok? ==> r.value.Valid()
  {
    match code
    case Getc => ReadChar(s)
    case Out => Ok(s.(output := s.output + [Util.LowByte(s.regs[0])]))
    case Puts =>
      var chars :- PutsChars(s.mem, s.regs[0] as nat);
      Ok(s.(output := s.output + chars))
    case In => ReadChar(s.(output := s.output + InPrompt))
    case Putsp =>
      var chars :- PutspChars(s.mem, s.regs[0] as nat);
      Ok(s.(output := s.output + chars))
    case Halt => Ok(s.(running := false))
  }

  /** ADD, AND, NOT and LEA: a result into DR, flags set. ADD and NOT
      wrap at 16 bits (`wrapping_add`, `!`), AND is bitwise. */
  function Operate(s: State, op: Opcode): (r: Result<State, Fault>)
    requires s.Valid() && RegistersBelow(op, RegCount) && (op.ADD? || op.AND? || op.NOT? || op.LEA?)
    ensures r.Ok? ==> r.value.Valid()
  {
    match op
    case ADD(dr, sr1, sr2) => Ok(WriteResult(s, dr, WrappingAdd(s.regs[sr1], Operand(s, sr2))))
    case AND(dr, sr1, sr2) => Ok(WriteResult(s, dr, BitAnd(s.regs[sr1], Operand(s, sr2))))
    case NOT(dr, sr) => Ok(WriteResult(s, dr, BitNot(s.regs[sr])))
    case LEA(dr, offset) => Ok(WriteResult(s, dr, PcWithOffset(s, offset)))
  }

  /** BR, JMP, RET, JSR and JSRR: PC moves, and a subroutine call first
      saves it in R7. */
  function Control(s: State, op: Opcode): (r: Result<State, Fault>)
    requires s.Valid() && RegistersBelow(op, RegCount) && (op.BR? || op.JMP? || op.RET? || op.JSR? || op.JSRR?)
    ensures r.Ok? ==> r.value.Valid()
  {
    match op
    case BR(n, z, p, offset) =>
      var flag := CondFlag(s);
      if (n && flag == Neg) || (z && flag == Zero) || (p && flag == Pos) then Ok(SetPc(s, PcWithOffset(s, offset)))
      else Ok(s)
    case JMP(baseR) => Ok(SetPc(s, s.regs[baseR]))
    case RET => Ok(SetPc(s, s.regs[RegRet]))
    case JSR(offset) =>
      var linked := Link(s);
      Ok(SetPc(linked, PcWithOffset(linked, offset)))
    case JSRR(baseR) =>
      var linked := Link(s);
      Ok(SetPc(linked, linked.regs[baseR]))
  }

  /** LD, LDI and LDR: a memory word into DR, flags set. LDR adds the
      offset to the base register's contents as an `i16` and widens the
      sum to `usize`, so a negative sum is out of bounds. */
  function Load(s: State, op: Opcode): (r: Result<State, Fault>)
    requires s.Valid() && RegistersBelow(op, RegCount) && (op.LD? || op.LDI? || op.LDR?)
    ensures r.Ok? ==> r.value.Valid()
  {
    match op
    case LD(dr, offset) =>
      var loaded :- ReadWithOffset(s, offset);
      Ok(WriteResult(loaded.1, dr, loaded.0))
    case LDI(dr, offset) =>
      var indirect :- ReadWithOffset(s, offset);
      var loaded :- Read(indirect.1, indirect.0 as nat);
      Ok(WriteResult(loaded.1, dr, loaded.0))
    case LDR(dr, baseR, offset) =>
      var loaded :- Read(s, Util.UsizeOfI16(WrappingAdd(s.regs[baseR], offset)));
      Ok(WriteResult(loaded.1, dr, loaded.0))
  }

  /** `self.memory[dir] = val` on the VM's own array, with the semantics
      of `Memory::write`: exactly the cell at `addr` changes, and an
      address past the end is Rust's index-out-of-bounds panic. */
  function Write(s: State, addr: nat, value: bv16): (r: Result<State, Fault>)
    requires s.Valid()
    ensures r.Ok? <==> addr < MemorySize
    ensures r.Ok? ==> r.value.Valid() && r.value == s.(mem := s.mem[addr := value])
    ensures r.Err? ==> r.error == OutOfBoundsWrite(addr)
  {
    if addr < MemorySize then Ok(s.(mem := s.mem[addr := value])) else Err(OutOfBoundsWrite(addr))
  }

  /** ST, STI and STR: a register into one memory cell. */
  function Store(s: State, op: Opcode): (r: Result<State, Fault>)
    requires s.Valid() && RegistersBelow(op, RegCount) && (op.ST? || op.STI? || op.STR?)
    ensures r.Ok? ==> r.value.Valid()
  {
    match op
    case ST(sr, offset) => Write(s, PcWithOffset(s, offset) as nat, s.regs[sr])
    case STI(sr, offset) =>
      var indirect :- ReadWithOffset(s, offset);
      Write(indirect.1, indirect.0 as nat, indirect.1.regs[sr])
    case STR(sr, baseR, offset) =>
      Write(s, Util.UsizeOfI16(WrappingAdd(s.regs[baseR], offset)), s.regs[sr])
  }

  /** `execute`. The register indices must be in range, as the decoder
      guarantees (Opcodes.EncodeDecode); the source would panic on any
      other. TRAP saves PC in R7 first; RTI does nothing; RESERVED is the
      "Reserved instruction" panic. */
  function Exec(s: State, op: Opcode): (r: Result<State, Fault>)
    requires s.Valid() && RegistersBelow(op, RegCount)
    ensures r.Ok? ==> r.value.Valid()
  {
    if op.ADD? || op.AND? || op.NOT? || op.LEA? then Operate(s, op)
    else if op.BR? || op.JMP? || op.RET? || op.JSR? || op.JSRR? then Control(s, op)
    else if op.LD? || op.LDI? || op.LDR? then Load(s, op)
    else if op.ST? || op.STI? || op.STR? then Store(s, op)
    else if op.TRAP? then Trap(Link(s), op.trapCode)
    else if op.RTI? then Ok(s)
    else Err(ReservedInstruction)
  }

  /** One turn of `run`'s loop: fetch the word at PC, advance PC, decode
      and execute. The decoder's `Err(())` stops the machine; its panic on
      an unknown trap byte is a fault. */
  function Step(s: State): (r: Result<State, Fault>)
    requires s.Valid()
    ensures r.Ok? ==> r.value.Valid()
  {
    var instruction := s.mem[Pc(s) as int];
    var advanced := AdvancePc(s);
    match Decode(instruction)
    case Err(UnknownInstruction(_)) => Ok(advanced.(running := false))
    case Err(UnknownTrapCode(code)) => Err(BadTrapCode(code))
    case Ok(op) =>
      EncodeDecode(instruction);
      Exec(advanced, op)
  }

  /** `run`'s loop for at most `fuel` turns. */
  function RunLoop(s: State, fuel: nat): (r: Result<State, Fault>)
    requires s.Valid()
    ensures r.Ok? ==> r.value.Valid()
    decreases fuel
  {
    if !s.running || fuel == 0 then Ok(s)
    else
      var next :- Step(s);
      RunLoop(next, fuel - 1)
  }

  /** `run`: set `running`, then loop. */
  function Run(s: State, fuel: nat): (r: Result<State, Fault>)
    requires s.Valid()
    ensures r.Ok? ==> r.value.Valid()
  {
    RunLoop(s.(running := true), fuel)
  }

  /** `VM::new`: the image loaded into zeroed memory, PC at 0x3000, COND
      cleared, not running; nothing read or written on the console yet. */
  function Init(data: seq<bv8>, input: seq<bv8>): (s: State)
    requires Memory.LoadableImage(data)
    ensures s.Valid()
  {
    var zeros := seq(MemorySize, _ => 0 as bv16);
    State(false, seq(RegCount, _ => 0 as bv16)[RegPc := PcStart][RegCond := BitsOfFlag(ConditionFlag.None)],
          Memory.LoadedImage(zeros, data), input, [])
  }
}
