/** The execution engine of src/vm.rs as a class: the register file and
    the memory are arrays updated in place, the console is a sequence of
    bytes still to be read and a sequence of bytes written. Every method
    is proved to do what the function of the same name in module Machine
    says, through `State()`; a method that would panic in the source
    returns the `Fault` instead, and the state it leaves is unspecified. */
module Vm {
  import opened Wrappers
  import opened Opcodes
  import Util
  import Memory
  import M = Machine

  /** The method's outcome is the one the specification gives. */
  ghost predicate Agrees(expected: Result<M.State, M.Fault>, fault: Option<M.Fault>, actual: M.State) {
    match expected
    case Ok(s) => fault == None && actual == s
    case Err(f) => fault == Some(f)
  }

  /** The same for a method that also produces a value. */
  ghost predicate ReadAgrees(expected: Result<(bv16, M.State), M.Fault>, value: bv16, fault: Option<M.Fault>,
                             actual: M.State) {
    match expected
    case Ok(r) => fault == None && value == r.0 && actual == r.1
    case Err(f) => fault == Some(f)
  }

  /** `printed` followed by whatever the rest of a PUTS or PUTSP loop
      prints. */
  ghost function Prefixed(printed: seq<bv8>, rest: Result<seq<bv8>, M.Fault>): Result<seq<bv8>, M.Fault> {
    match rest
    case Ok(chars) => Ok(printed + chars)
    case Err(f) => Err(f)
  }

  lemma PrefixedNothing(rest: Result<seq<bv8>, M.Fault>)
    ensures Prefixed([], rest) == rest
  {
    if rest.Ok? {
      assert [] + rest.value == rest.value;
    }
  }

  lemma PrefixedMore(printed: seq<bv8>, more: seq<bv8>, rest: Result<seq<bv8>, M.Fault>)
    ensures Prefixed(printed, Prefixed(more, rest)) == Prefixed(printed + more, rest)
  {
    if rest.Ok? {
      assert printed + (more + rest.value) == (printed + more) + rest.value;
    }
  }

  /** One printed cell of PUTS, and where its loop stops. */
  lemma PutsStep(mem: seq<bv16>, i: nat)
    requires |mem| == M.MemorySize && i < M.MemorySize && mem[i] != 0
    ensures M.PutsChars(mem, i) == Prefixed([Util.LowByte(mem[i])], M.PutsChars(mem, i + 1))
  {
  }

  lemma PutsEnd(mem: seq<bv16>, i: nat)
    requires |mem| == M.MemorySize && i <= M.MemorySize && (i < M.MemorySize ==> mem[i] == 0)
    ensures M.PutsChars(mem, i) == if i < M.MemorySize then Ok([]) else Err(M.OutOfBoundsRead(i))
  {
  }

  /** One printed cell of PUTSP, and where its loop stops. */
  lemma PutspStep(mem: seq<bv16>, i: nat)
    requires |mem| == M.MemorySize && i < M.MemorySize && mem[i] != 0
    ensures M.PutspChars(mem, i) == Prefixed(M.PackedChars(mem[i]), M.PutspChars(mem, i + 1))
  {
  }

  lemma PutspEnd(mem: seq<bv16>, i: nat)
    requires |mem| == M.MemorySize && i <= M.MemorySize && (i < M.MemorySize ==> mem[i] == 0)
    ensures M.PutspChars(mem, i) == if i < M.MemorySize then Ok([]) else Err(M.OutOfBoundsRead(i))
  {
  }

  class VM {
    var running: bool
    const registers: array<bv16>
    const memory: array<bv16>
    var input: seq<bv8>
    var output: seq<bv8>

    ghost predicate Valid()
      reads this
    {
      registers.Length == M.RegCount && memory.Length == M.MemorySize && registers != memory
    }

    /** The machine state the arrays and fields represent. */
    ghost function State(): (s: M.State)
      requires Valid()
      reads this, registers, memory
      ensures s.Valid()
    {
      M.State(running, registers[..], memory[..], input, output)
    }

    /** `VM::new`, with `stdin` the bytes the console will supply. */
    constructor (data: seq<bv8>, stdin: seq<bv8>)
      requires Memory.LoadableImage(data)
      ensures Valid() && fresh(registers) && fresh(memory)
      ensures State() == M.Init(data, stdin)
    {
      running := false;
      registers := new bv16[M.RegCount](_ => 0);
      memory := new bv16[M.MemorySize](_ => 0);
      input := stdin;
      output := [];
      new;
      assert memory[..] == seq(M.MemorySize, _ => 0 as bv16);
      ReadDataIntoMemory(data);
      SetPc(M.PcStart);
      SetCondFlag(M.ConditionFlag.None);
      assert registers[..] == seq(M.RegCount, _ => 0 as bv16)[M.RegPc := M.PcStart][M.RegCond := 0];
    }

    /** `read_data_into_memory`: the same loop as `Memory::load_bulk`. */
    method ReadDataIntoMemory(data: seq<bv8>)
      requires Valid() && Memory.LoadableImage(data)
      modifies memory
      ensures memory[..] == Memory.LoadedImage(old(memory[..]), data)
    {
      var origin := Memory.Origin(data);
      var memI := origin;
      var dataI := 2;
      while memI < M.MemorySize - 1 && dataI < |data|
        invariant origin <= memI <= origin + Memory.WordCount(data)
        invariant dataI == 2 + 2 * (memI - origin)
        invariant forall a :: 0 <= a < M.MemorySize ==>
          memory[a] == if origin <= a < memI then Memory.ImageWord(data, a - origin) else old(memory[a])
        decreases M.MemorySize - memI
      {
        var word := Util.JoinU8(data[dataI], data[dataI + 1]);
        memory[memI] := word;
        memI := memI + 1;
        dataI := dataI + 2;
      }
    }

    /** `pc`. */
    function Pc(): (p: bv16)
      requires Valid()
      reads this, registers, memory
      ensures p == M.Pc(State())
    {
      registers[M.RegPc]
    }

    /** `fetch`: the word at PC, always in range. */
    function Fetch(): (w: bv16)
      requires Valid()
      reads this, registers, memory
      ensures w == State().mem[M.Pc(State()) as int]
    {
      memory[Pc() as int]
    }

    function CondFlag(): (c: M.ConditionFlag)
      requires Valid()
      reads this, registers
      ensures c == M.FlagOfBits(registers[M.RegCond])
    {
      var r := registers[M.RegCond];
      if r == 1 << 0 then M.Pos
      else if r == 1 << 1 then M.Zero
      else if r == 1 << 2 then M.Neg
      else M.ConditionFlag.None
    }

    method SetCondFlag(cond: M.ConditionFlag)
      requires Valid()
      modifies registers
      ensures Valid() && State() == M.SetCondFlag(old(State()), cond)
    {
      registers[M.RegCond] := match cond
        case Pos => 1 << 0
        case Zero => 1 << 1
        case Neg => 1 << 2
        case None => 0;
    }

    method SetFlags(res: bv16)
      requires Valid()
      modifies registers
      ensures Valid() && State() == M.SetFlags(old(State()), res)
    {
      var cond := if res >= 0x8000 then M.Neg else if res == 0 then M.Zero else M.Pos;
      SetCondFlag(cond);
    }

    method SetPc(newPc: bv16)
      requires Valid()
      modifies registers
      ensures Valid() && State() == M.SetPc(old(State()), newPc)
    {
      registers[M.RegPc] := newPc;
    }

    /** `pc_with_offset`. */
    function PcWithOffset(offset: bv16): (r: bv16)
      requires Valid()
      reads this, registers, memory
      ensures r == M.PcWithOffset(State(), offset)
    {
      M.WrappingAdd(Pc(), offset)
    }

    method AdvancePc()
      requires Valid()
      modifies registers
      ensures Valid() && State() == M.AdvancePc(old(State()))
    {
      SetPc(PcWithOffset(1));
    }

    method HandleKeyboard() returns (fault: Option<M.Fault>)
      requires Valid()
      modifies this, memory
      ensures Valid() && Agrees(M.HandleKeyboard(old(State())), fault, State())
    {
      if input == [] {
        return Some(M.InputExhausted);
      }
      var b := input[0];
      input := input[1..];
      if b != 0 {
        memory[M.Kbsr] := 1 << 15;
        memory[M.Kbdr] := b as bv16;
      } else {
        memory[M.Kbsr] := 0;
      }
      fault := None;
    }

    method Read(position: nat) returns (value: bv16, fault: Option<M.Fault>)
      requires Valid()
      modifies this, memory
      ensures Valid() && ReadAgrees(M.Read(old(State()), position), value, fault, State())
    {
      if position == M.Kbsr {
        fault := HandleKeyboard();
        if fault.Some? {
          return 0, fault;
        }
      }
      if position < memory.Length {
        value, fault := memory[position], None;
      } else {
        value, fault := 0, Some(M.OutOfBoundsRead(position));
      }
    }

    method ReadWithOffset(offset: bv16) returns (value: bv16, fault: Option<M.Fault>)
      requires Valid()
      modifies this, memory
      ensures Valid() && ReadAgrees(M.ReadWithOffset(old(State()), offset), value, fault, State())
    {
      value, fault := Read(PcWithOffset(offset) as nat);
    }

    /** `registers[dr] = res; set_flags(res as i16)`. */
    method WriteResult(dr: nat, res: bv16)
      requires Valid() && dr < M.RegCount
      modifies registers
      ensures Valid() && State() == M.WriteResult(old(State()), dr, res)
    {
      registers[dr] := res;
      SetFlags(res);
    }

    /** R7 := PC. */
    method Link()
      requires Valid()
      modifies registers
      ensures Valid() && State() == M.Link(old(State()))
    {
      registers[M.RegRet] := Pc();
    }

    /** The PUTS loop: prints the low byte of each cell from R0 up to the
        first zero cell. */
    method PutsLoop() returns (fault: Option<M.Fault>)
      requires Valid()
      modifies this
      ensures Valid() && Agrees(M.Trap(old(State()), Puts), fault, State())
    {
      var i: nat := registers[0] as nat;
      ghost var printed: seq<bv8> := [];
      ghost var start := State();
      PrefixedNothing(M.PutsChars(start.mem, i));
      while i < memory.Length && memory[i] != 0
        invariant registers[0] as nat <= i <= M.MemorySize
        invariant output == start.output + printed && running == start.running && input == start.input
        invariant M.PutsChars(start.mem, registers[0] as nat) == Prefixed(printed, M.PutsChars(start.mem, i))
        decreases M.MemorySize - i
      {
        var ch := Util.LowByte(memory[i]);
        PutsStep(start.mem, i);
        PrefixedMore(printed, [ch], M.PutsChars(start.mem, i + 1));
        output := output + [ch];
        printed := printed + [ch];
        i := i + 1;
      }
      PutsEnd(start.mem, i);
      assert State() == start.(output := start.output + printed);
      if i < memory.Length {
        fault := None;
      } else {
        fault := Some(M.OutOfBoundsRead(i));
      }
    }

    /** The PUTSP loop: prints the low byte of each cell, then its high
        byte unless that is zero, up to the first zero cell. */
    method PutspLoop() returns (fault: Option<M.Fault>)
      requires Valid()
      modifies this
      ensures Valid() && Agrees(M.Trap(old(State()), Putsp), fault, State())
    {
      var i: nat := registers[0] as nat;
      ghost var printed: seq<bv8> := [];
      ghost var start := State();
      PrefixedNothing(M.PutspChars(start.mem, i));
      while i < memory.Length && memory[i] != 0
        invariant registers[0] as nat <= i <= M.MemorySize
        invariant output == start.output + printed && running == start.running && input == start.input
        invariant M.PutspChars(start.mem, registers[0] as nat) == Prefixed(printed, M.PutspChars(start.mem, i))
        decreases M.MemorySize - i
      {
        var ch := memory[i];
        var ch1, ch2 := Util.LowByte(ch), Util.HighByte(ch);
        PutspStep(start.mem, i);
        PrefixedMore(printed, M.PackedChars(ch), M.PutspChars(start.mem, i + 1));
        output := output + [ch1];
        if ch2 != 0 {
          output := output + [ch2];
        }
        printed := printed + M.PackedChars(ch);
        i := i + 1;
      }
      PutspEnd(start.mem, i);
      assert State() == start.(output := start.output + printed);
      if i < memory.Length {
        fault := None;
      } else {
        fault := Some(M.OutOfBoundsRead(i));
      }
    }

    /** GETC, and IN after its prompt: one input byte into R0, flags set. */
    method ReadChar() returns (fault: Option<M.Fault>)
      requires Valid()
      modifies this, registers
      ensures Valid() && Agrees(M.ReadChar(old(State())), fault, State())
    {
      if input == [] {
        return Some(M.InputExhausted);
      }
      var b := input[0];
      input := input[1..];
      WriteResult(0, b as bv16);
      fault := None;
    }

    /** `handle_trap_code`. */
    method HandleTrapCode(code: TrapCode) returns (fault: Option<M.Fault>)
      requires Valid()
      modifies this, registers
      ensures Valid() && Agrees(M.Trap(old(State()), code), fault, State())
    {
      match code
      case Getc =>
        fault := ReadChar();
      case Out =>
        output := output + [Util.LowByte(registers[0])];
        fault := None;
      case Puts =>
        fault := PutsLoop();
      case In =>
        output := output + M.InPrompt;
        fault := ReadChar();
      case Putsp =>
        fault := PutspLoop();
      case Halt =>
        running := false;
        fault := None;
    }

    /** ADD, AND, NOT and LEA: a result into DR, flags set. */
    method ExecuteOperate(op: Opcode) returns (fault: Option<M.Fault>)
      requires Valid() && RegistersBelow(op, M.RegCount) && (op.ADD? || op.AND? || op.NOT? || op.LEA?)
      modifies registers
      ensures Valid() && Agrees(M.Operate(old(State()), op), fault, State())
    {
      fault := None;
      match op
      case ADD(dr, sr1, sr2) =>
        var operand := if sr2.Reg? then registers[sr2.index] else sr2.value;
        WriteResult(dr, M.WrappingAdd(registers[sr1], operand));
      case AND(dr, sr1, sr2) =>
        var operand := if sr2.Reg? then registers[sr2.index] else sr2.value;
        WriteResult(dr, M.BitAnd(registers[sr1], operand));
      case NOT(dr, sr) =>
        WriteResult(dr, M.BitNot(registers[sr]));
      case LEA(dr, offset) =>
        WriteResult(dr, PcWithOffset(offset));
    }

    /** BR, JMP, RET, JSR and JSRR: only PC, and R7 for a subroutine call,
        change. */
    method ExecuteControl(op: Opcode) returns (fault: Option<M.Fault>)
      requires Valid() && RegistersBelow(op, M.RegCount) && (op.BR? || op.JMP? || op.RET? || op.JSR? || op.JSRR?)
      modifies registers
      ensures Valid() && Agrees(M.Control(old(State()), op), fault, State())
    {
      fault := None;
      match op
      case BR(n, z, p, offset) =>
        var flag := CondFlag();
        if (n && flag == M.Neg) || (z && flag == M.Zero) || (p && flag == M.Pos) {
          SetPc(PcWithOffset(offset));
        }
      case JMP(baseR) =>
        SetPc(registers[baseR]);
      case RET =>
        SetPc(registers[M.RegRet]);
      case JSR(offset) =>
        Link();
        SetPc(PcWithOffset(offset));
      case JSRR(baseR) =>
        Link();
        SetPc(registers[baseR]);
    }

    /** LD, LDI and LDR: a memory word into DR, flags set. */
    method ExecuteLoad(op: Opcode) returns (fault: Option<M.Fault>)
      requires Valid() && RegistersBelow(op, M.RegCount) && (op.LD? || op.LDI? || op.LDR?)
      modifies this, registers, memory
      ensures Valid() && Agrees(M.Load(old(State()), op), fault, State())
    {
      match op
      case LD(dr, offset) =>
        var res;
        res, fault := ReadWithOffset(offset);
        if fault.None? {
          WriteResult(dr, res);
        }
      case LDI(dr, offset) =>
        var dir, res;
        dir, fault := ReadWithOffset(offset);
        if fault.None? {
          res, fault := Read(dir as nat);
          if fault.None? {
            WriteResult(dr, res);
          }
        }
      case LDR(dr, baseR, offset) =>
        var dir := Util.UsizeOfI16(M.WrappingAdd(registers[baseR], offset));
        var res;
        res, fault := Read(dir);
        if fault.None? {
          WriteResult(dr, res);
        }
    }

    /** `self.memory[dir] = val`. */
    method Write(addr: nat, value: bv16) returns (fault: Option<M.Fault>)
      requires Valid()
      modifies memory
      ensures Valid() && Agrees(M.Write(old(State()), addr, value), fault, State())
    {
      if addr < memory.Length {
        memory[addr] := value;
        fault := None;
      } else {
        fault := Some(M.OutOfBoundsWrite(addr));
      }
    }

    /** ST, STI and STR: a register into one memory cell. */
    method ExecuteStore(op: Opcode) returns (fault: Option<M.Fault>)
      requires Valid() && RegistersBelow(op, M.RegCount) && (op.ST? || op.STI? || op.STR?)
      modifies this, memory
      ensures Valid() && Agrees(M.Store(old(State()), op), fault, State())
    {
      match op
      case ST(sr, offset) =>
        fault := Write(PcWithOffset(offset) as nat, registers[sr]);
      case STI(sr, offset) =>
        var dir;
        dir, fault := ReadWithOffset(offset);
        if fault.None? {
          fault := Write(dir as nat, registers[sr]);
        }
      case STR(sr, baseR, offset) =>
        var dir := Util.UsizeOfI16(M.WrappingAdd(registers[baseR], offset));
        fault := Write(dir, registers[sr]);
    }

    /** `execute`. */
    method Execute(op: Opcode) returns (fault: Option<M.Fault>)
      requires Valid() && RegistersBelow(op, M.RegCount)
      modifies this, registers, memory
      ensures Valid() && Agrees(M.Exec(old(State()), op), fault, State())
    {
      if op.ADD? || op.AND? || op.NOT? || op.LEA? {
        fault := ExecuteOperate(op);
      } else if op.BR? || op.JMP? || op.RET? || op.JSR? || op.JSRR? {
        fault := ExecuteControl(op);
      } else if op.LD? || op.LDI? || op.LDR? {
        fault := ExecuteLoad(op);
      } else if op.ST? || op.STI? || op.STR? {
        fault := ExecuteStore(op);
      } else if op.TRAP? {
        Link();
        fault := HandleTrapCode(op.trapCode);
      } else if op.RTI? {
        fault := None;
      } else {
        fault := Some(M.ReservedInstruction);
      }
    }

    /** `run`, for at most `fuel` turns of its loop. */
    method Run(fuel: nat) returns (fault: Option<M.Fault>)
      requires Valid()
      modifies this, registers, memory
      ensures Valid() && Agrees(M.Run(old(State()), fuel), fault, State())
    {
      running := true;
      var remaining := fuel;
      while running && remaining > 0
        invariant Valid()
        invariant M.RunLoop(State(), remaining) == M.Run(old(State()), fuel)
        decreases remaining
      {
        ghost var before := State();
        var instruction := Fetch();
        AdvancePc();
        var decoded := Decode(instruction);
        match decoded
        case Err(UnknownInstruction(_)) =>
          running := false;
          return None;
        case Err(UnknownTrapCode(code)) =>
          return Some(M.BadTrapCode(code));
        case Ok(opcode) =>
          EncodeDecode(instruction);
          fault := Execute(opcode);
          if fault.Some? {
            return fault;
          }
        remaining := remaining - 1;
      }
      fault := None;
    }
  }
}
