/** The console traps of src/vm.rs (`handle_trap_code`), proved about the
    state machine of machine.dfy: which byte GETC and IN take, what OUT,
    PUTS and PUTSP print, and that HALT stops the machine. */
module ConsoleFacts {
  import opened Wrappers
  import opened Opcodes
  import opened Machine
  import Util

  /** `r` differs from `s` only in what the console has printed. */
  predicate OnlyPrinted(s: State, r: State, printed: seq<bv8>) {
    r.running == s.running && r.regs == s.regs && r.mem == s.mem && r.input == s.input &&
    r.output == s.output + printed
  }

  /** GETC takes the next input byte into R0, zero-extended, and sets the
      flags: a byte is never negative as an `i16`. Without a byte left it
      is the panic of `read_exact(..).unwrap()`. */
  lemma GetcReads(s: State)
    requires s.Valid()
    ensures Trap(s, Getc).Err? <==> s.input == []
    ensures Trap(s, Getc).Err? ==> Trap(s, Getc).error == InputExhausted
    ensures s.input != [] ==>
      var r := Trap(s, Getc).value;
      r.regs[0] as int == s.input[0] as int && CondFlag(r) == (if s.input[0] == 0 then Zero else Pos) &&
      r.input == s.input[1..] && r.output == s.output && r.mem == s.mem && r.running == s.running &&
      forall i :: 1 <= i < RegCount && i != RegCond ==> r.regs[i] == s.regs[i]
  {
    if s.input != [] {
      ByteIsNonNegative(s.input[0]);
    }
  }

  /** IN prints its prompt line first and then reads like GETC. */
  lemma InPromptsThenReads(s: State)
    requires s.Valid()
    ensures Trap(s, In).Err? <==> s.input == []
    ensures Trap(s, In).Err? ==> Trap(s, In).error == InputExhausted
    ensures s.input != [] ==>
      var r := Trap(s, In).value;
      r.regs[0] as int == s.input[0] as int && CondFlag(r) == (if s.input[0] == 0 then Zero else Pos) &&
      r.input == s.input[1..] && r.output == s.output + InPrompt && r.mem == s.mem && r.running == s.running &&
      forall i :: 1 <= i < RegCount && i != RegCond ==> r.regs[i] == s.regs[i]
  {
    GetcReads(s.(output := s.output + InPrompt));
  }

  /** A byte widened to 16 bits has its top bit clear. */
  lemma ByteIsNonNegative(b: bv8)
    ensures (b as bv16) < 0x8000 && (b as bv16) as int == b as int
  {
  }

  /** OUT prints the low byte of R0 and changes nothing else. */
  lemma OutPrints(s: State)
    requires s.Valid()
    ensures Trap(s, Out).Ok?
    ensures OnlyPrinted(s, Trap(s, Out).value, [Util.LowByte(s.regs[0])])
    ensures Util.LowByte(s.regs[0]) as bv16 == s.regs[0] & 0xFF
  {
  }

  /** HALT clears `running` and nothing else; `run`'s loop then stops at
      once, whatever fuel is left. */
  lemma HaltStops(s: State, fuel: nat)
    requires s.Valid()
    ensures Trap(s, Halt).Ok?
    ensures var r := Trap(s, Halt).value;
      !r.running && r.regs == s.regs && r.mem == s.mem && r.input == s.input && r.output == s.output &&
      RunLoop(r, fuel) == Ok(r)
  {
  }

  // ---------------------------------------------------------------------
  // PUTS and PUTSP

  /** `mem[i..j]` holds no zero cell and `mem[j]` is zero: the string that
      starts at `i` ends at `j`. */
  predicate Terminated(mem: seq<bv16>, i: nat, j: nat) {
    i <= j < |mem| && mem[j] == 0 && forall k :: i <= k < j ==> mem[k] != 0
  }

  /** The low byte of every cell, in order. */
  function LowBytes(cells: seq<bv16>): (r: seq<bv8>)
    ensures |r| == |cells|
    ensures forall k :: 0 <= k < |cells| ==> r[k] == Util.LowByte(cells[k])
  {
    if cells == [] then [] else [Util.LowByte(cells[0])] + LowBytes(cells[1..])
  }

  /** The packed characters of every cell, in order. */
  function Unpacked(cells: seq<bv16>): seq<bv8> {
    if cells == [] then [] else PackedChars(cells[0]) + Unpacked(cells[1..])
  }

  /** PUTS prints exactly the low bytes of the cells before the
      terminating zero. */
  lemma {:induction false} PutsUpToZero(mem: seq<bv16>, i: nat, j: nat)
    requires |mem| == MemorySize && Terminated(mem, i, j)
    ensures PutsChars(mem, i) == Ok(LowBytes(mem[i..j]))
    decreases j - i
  {
    if i < j {
      PutsUpToZero(mem, i + 1, j);
      assert mem[i..j][1..] == mem[i + 1..j];
    }
  }

  /** PUTS on a string that reaches the end of memory without a zero is
      the index panic at address 0x10000. */
  lemma {:induction false} PutsRunsOff(mem: seq<bv16>, i: nat)
    requires |mem| == MemorySize && i <= MemorySize
    requires forall k :: i <= k < MemorySize ==> mem[k] != 0
    ensures PutsChars(mem, i) == Err(OutOfBoundsRead(MemorySize))
    decreases MemorySize - i
  {
    if i < MemorySize {
      PutsRunsOff(mem, i + 1);
    }
  }

  /** PUTSP prints the packed characters of the cells before the
      terminating zero. */
  lemma {:induction false} PutspUpToZero(mem: seq<bv16>, i: nat, j: nat)
    requires |mem| == MemorySize && Terminated(mem, i, j)
    ensures PutspChars(mem, i) == Ok(Unpacked(mem[i..j]))
    decreases j - i
  {
    if i < j {
      PutspUpToZero(mem, i + 1, j);
      assert mem[i..j][1..] == mem[i + 1..j];
    }
  }

  /** PUTSP running off the end of memory is the same panic as PUTS. */
  lemma {:induction false} PutspRunsOff(mem: seq<bv16>, i: nat)
    requires |mem| == MemorySize && i <= MemorySize
    requires forall k :: i <= k < MemorySize ==> mem[k] != 0
    ensures PutspChars(mem, i) == Err(OutOfBoundsRead(MemorySize))
    decreases MemorySize - i
  {
    if i < MemorySize {
      PutspRunsOff(mem, i + 1);
    }
  }

  /** Each packed cell prints one or two characters, and exactly one when
      its high byte is zero; so PUTSP prints at least one and at most two
      characters per cell, and on cells that each hold one character it
      prints what PUTS prints. */
  lemma {:induction false} UnpackedLength(cells: seq<bv16>)
    ensures |cells| <= |Unpacked(cells)| <= 2 * |cells|
    ensures (forall k :: 0 <= k < |cells| ==> Util.HighByte(cells[k]) == 0) ==> Unpacked(cells) == LowBytes(cells)
  {
    if cells != [] {
      UnpackedLength(cells[1..]);
      if forall k :: 0 <= k < |cells| ==> Util.HighByte(cells[k]) == 0 {
        assert Util.HighByte(cells[0]) == 0;
        assert forall k :: 0 <= k < |cells[1..]| ==> Util.HighByte(cells[1..][k]) == 0 by {
          forall k | 0 <= k < |cells[1..]| ensures Util.HighByte(cells[1..][k]) == 0 {
            assert cells[1..][k] == cells[k + 1];
          }
        }
      }
    }
  }

  /** PUTS on the terminated string R0 points to appends its low bytes to
      the output and changes nothing else. */
  lemma PutsPrints(s: State, i: nat, j: nat)
    requires s.Valid() && s.regs[0] as nat == i && Terminated(s.mem, i, j)
    ensures Trap(s, Puts) == Ok(s.(output := s.output + LowBytes(s.mem[i..j])))
  {
    PutsUpToZero(s.mem, i, j);
  }

  /** PUTSP on a terminated string appends its packed characters. */
  lemma PutspPrints(s: State, i: nat, j: nat)
    requires s.Valid() && s.regs[0] as nat == i && Terminated(s.mem, i, j)
    ensures Trap(s, Putsp) == Ok(s.(output := s.output + Unpacked(s.mem[i..j])))
  {
    PutspUpToZero(s.mem, i, j);
  }
}
