/** `VM::new`, the fetch-execute step and `run` of src/vm.rs, proved about
    the state machine of machine.dfy. */
module RunFacts {
  import opened Wrappers
  import opened Opcodes
  import opened Machine
  import MachineFacts
  import Util
  import Memory

  // ---------------------------------------------------------------------
  // VM::new

  /** A new machine: PC at 0x3000, COND holding no flag, every other
      register zero, not running, the image loaded into zeroed memory
      (so every cell outside the image is zero), the console untouched. */
  lemma InitState(data: seq<bv8>, input: seq<bv8>)
    requires Memory.LoadableImage(data)
    ensures var s := Init(data, input);
      Pc(s) == 0x3000 && CondFlag(s) == ConditionFlag.None && !s.running &&
      s.input == input && s.output == [] &&
      (forall i :: 0 <= i < 8 ==> s.regs[i] == 0) &&
      (forall a :: 0 <= a < MemorySize && !(Memory.Origin(data) <= a < Memory.Origin(data) + Memory.WordCount(data)) ==>
        s.mem[a] == 0) &&
      forall k :: 0 <= k < Memory.WordCount(data) ==> s.mem[Memory.Origin(data) + k] == Memory.ImageWord(data, k)
  {
    var zeros := seq(MemorySize, _ => 0 as bv16);
    var s := Init(data, input);
    forall a | 0 <= a < MemorySize
      ensures !(Memory.Origin(data) <= a < Memory.Origin(data) + Memory.WordCount(data)) ==> s.mem[a] == 0
    {
      Memory.LoadedCell(zeros, data, a);
    }
    forall k | 0 <= k < Memory.WordCount(data)
      ensures s.mem[Memory.Origin(data) + k] == Memory.ImageWord(data, k)
    {
      Memory.LoadedCell(zeros, data, Memory.Origin(data) + k);
    }
  }

  /** The image [0x30, 0x00, 0xca, 0xfe, 0xba, 0xbe] gives 0xcafe at
      0x3000, 0xbabe at 0x3001 and zero everywhere below. */
  lemma InitExample(input: seq<bv8>)
    ensures var data: seq<bv8> := [0x30, 0x00, 0xca, 0xfe, 0xba, 0xbe];
      Memory.LoadableImage(data) &&
      var s := Init(data, input);
      s.mem[0x3000] == 0xcafe && s.mem[0x3001] == 0xbabe && forall a :: 0 <= a < 0x3000 ==> s.mem[a] == 0
  {
    var data: seq<bv8> := [0x30, 0x00, 0xca, 0xfe, 0xba, 0xbe];
    Memory.LoadExample(seq(MemorySize, _ => 0 as bv16));
    InitState(data, input);
  }

  // ---------------------------------------------------------------------
  // The step

  /** `advance_pc` adds one modulo 2^16, so 0xFFFF is followed by 0, and
      touches no other register. */
  lemma AdvancePcWraps(s: State)
    requires s.Valid()
    ensures Pc(AdvancePc(s)) as bv32 == (Pc(s) as bv32 + 1) % 0x10000
    ensures Pc(s) == 0xFFFF ==> Pc(AdvancePc(s)) == 0
    ensures OnlyRegisters(s, AdvancePc(s))
    ensures forall i :: 0 <= i < RegCount && i != RegPc ==> AdvancePc(s).regs[i] == s.regs[i]
  {
    MachineFacts.WrappingAddWide(Pc(s), 1);
  }

  /** A step fetches the word at PC and executes what it decodes to with
      PC already pointing past it: PC-relative offsets count from the
      next word. */
  lemma StepExecutes(s: State)
    requires s.Valid() && Decode(s.mem[Pc(s)]).Ok?
    ensures RegistersBelow(Decode(s.mem[Pc(s)]).value, RegCount)
    ensures Step(s) == Exec(AdvancePc(s), Decode(s.mem[Pc(s)]).value)
  {
    EncodeDecode(s.mem[Pc(s)]);
  }

  /** The opcode 0b1101 (RESERVED) is fatal. */
  lemma StepReserved(s: State)
    requires s.Valid() && s.mem[Pc(s)] >> 12 == 0xD
    ensures Step(s) == Err(ReservedInstruction)
  {
    DecodeFixed(s.mem[Pc(s)]);
  }

  /** RTI does nothing but move PC on. */
  lemma StepReturnFromInterrupt(s: State)
    requires s.Valid() && s.mem[Pc(s)] >> 12 == 0x8
    ensures Step(s) == Ok(AdvancePc(s))
  {
    DecodeFixed(s.mem[Pc(s)]);
  }

  /** A TRAP word whose low byte is not a known trap code is the
      decoder's panic; since the decoder fails on nothing else, no word
      makes the step stop the machine quietly. */
  lemma StepUnknownTrap(s: State)
    requires s.Valid()
    ensures Decode(s.mem[Pc(s)]).Err? <==>
      s.mem[Pc(s)] >> 12 == 0xF && !(0x20 <= s.mem[Pc(s)] & 0xFF <= 0x25)
    ensures Decode(s.mem[Pc(s)]).Err? ==> Step(s) == Err(BadTrapCode(s.mem[Pc(s)] & 0xFF))
  {
    DecodeFailsOnlyOnUnknownTrap(s.mem[Pc(s)]);
  }

  /** The TRAP HALT word 0xF025 stops the machine after linking R7. */
  lemma StepHalt(s: State)
    requires s.Valid() && s.mem[Pc(s)] == 0xF025
    ensures Step(s).Ok?
    ensures var r := Step(s).value;
      !r.running && Pc(r) == Pc(AdvancePc(s)) && r.regs[RegRet] == Pc(AdvancePc(s)) &&
      r.mem == s.mem && r.input == s.input && r.output == s.output
  {
    DecodeTrap(0xF025);
  }

  // ---------------------------------------------------------------------
  // run

  /** A stopped machine stays as it is. */
  lemma RunLoopStopped(s: State, fuel: nat)
    requires s.Valid() && !s.running
    ensures RunLoop(s, fuel) == Ok(s)
  {
  }

  /** The program made of one TRAP HALT at 0x3000 stops after one step,
      with PC and R7 at 0x3001, whatever fuel is left. */
  lemma HaltProgram(input: seq<bv8>, fuel: nat)
    requires fuel >= 1
    ensures var data: seq<bv8> := [0x30, 0x00, 0xF0, 0x25];
      Memory.LoadableImage(data) &&
      var r := Run(Init(data, input), fuel);
      r.Ok? && !r.value.running && Pc(r.value) == 0x3001 && r.value.regs[RegRet] == 0x3001 &&
      r.value.input == input && r.value.output == []
  {
    var data: seq<bv8> := [0x30, 0x00, 0xF0, 0x25];
    var s := Init(data, input);
    Memory.LoadedCell(seq(MemorySize, _ => 0 as bv16), data, 0x3000);
    assert Memory.ImageWord(data, 0) == Util.JoinU8(0xF0, 0x25);
    var started := s.(running := true);
    StepHalt(started);
    var r := Step(started).value;
    assert RunLoop(started, fuel) == RunLoop(r, fuel - 1);
  }
}
