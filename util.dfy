/** Bit helpers of the emulator (src/util.rs): big-endian byte joining,
    sign extension of the 5/6/9/11-bit instruction fields, and the
    register-index-plus-offset helper.

    A Rust `u16` is a `bv16`; a Rust `i16` is also kept as a `bv16`,
    its two's-complement pattern, and `Signed` gives its value. A Rust
    `usize` is a `nat`. */
module Util {

  const Two64: nat := 0x1_0000_0000_0000_0000

  /** The value of a 16-bit pattern read as an `i16` (`w as i16`). */
  function Signed(w: bv16): (r: int)
    ensures -0x8000 <= r < 0x8000
    ensures r < 0 <==> w >= 0x8000
    ensures r == 0 <==> w == 0
  {
    if w < 0x8000 then w as int else w as int - 0x10000
  }

  /** `x as u8` for a `u16`: keeps the low byte. */
  function LowByte(w: bv16): bv8 {
    (w & 0xFF) as bv8
  }

  /** `x >> 8` narrowed to a byte. */
  function HighByte(w: bv16): bv8 {
    (w >> 8) as bv8
  }

  /** `join_u8`: the big-endian word with high byte `hi` and low byte `lo`. */
  function JoinU8(hi: bv8, lo: bv8): (w: bv16)
    ensures w as int == hi as int * 256 + lo as int
    ensures HighByte(w) == hi && LowByte(w) == lo
  {
    var w := ((hi as bv16) << 8) | (lo as bv16);
    JoinBytes(hi, lo, w);
    w
  }

  lemma JoinBytes(hi: bv8, lo: bv8, w: bv16)
    requires w == ((hi as bv16) << 8) | (lo as bv16)
    ensures w as int == hi as int * 256 + lo as int
    ensures HighByte(w) == hi && LowByte(w) == lo
  {
    SplitAt8(w);
    assert w >> 8 == hi as bv16 && w & 0xFF == lo as bv16;
    WidenByte(hi);
    WidenByte(lo);
  }

  lemma WidenByte(b: bv8)
    ensures (b as bv16) as int == b as int
  {
  }

  /** Splitting a word into its two bytes and joining them gives the word back. */
  lemma JoinSplit(w: bv16)
    ensures JoinU8(HighByte(w), LowByte(w)) == w
  {
  }

  /** The shared shape of the four `sign_ext_imm*` functions: mask the
      field; if its sign bit is set, set every bit above the field,
      otherwise keep the field. */
  function SignExtend(instruction: bv16, mask: bv16, signBit: bv16): bv16 {
    var field := instruction & mask;
    if field & signBit != 0 then field | !mask else field & mask
  }

  // A word's value split at bit k: the part above and the field below.
  lemma SplitAt5(w: bv16) ensures w as int == (w >> 5) as int * 32 + (w & 0x1F) as int {}
  lemma SplitAt6(w: bv16) ensures w as int == (w >> 6) as int * 64 + (w & 0x3F) as int {}
  lemma SplitAt8(w: bv16) ensures w as int == (w >> 8) as int * 256 + (w & 0xFF) as int {}
  lemma SplitAt9(w: bv16) ensures w as int == (w >> 9) as int * 512 + (w & 0x1FF) as int {}
  lemma SplitAt11(w: bv16) ensures w as int == (w >> 11) as int * 2048 + (w & 0x7FF) as int {}

  // The value of a masked field, and its sign bit, width by width.
  lemma FieldBound5(instruction: bv16)
    ensures (instruction & 0x1F) as int < 0x20
    ensures instruction & 0x10 == 0 <==> (instruction & 0x1F) as int < 0x10
  {
    assert instruction & 0x10 == 0 <==> instruction & 0x1F < 0x10;
  }
  lemma FieldBound6(instruction: bv16)
    ensures (instruction & 0x3F) as int < 0x40
    ensures instruction & 0x20 == 0 <==> (instruction & 0x3F) as int < 0x20
  {
    assert instruction & 0x20 == 0 <==> instruction & 0x3F < 0x20;
  }
  lemma FieldBound9(instruction: bv16)
    ensures (instruction & 0x1FF) as int < 0x200
    ensures instruction & 0x100 == 0 <==> (instruction & 0x1FF) as int < 0x100
  {
    assert instruction & 0x100 == 0 <==> instruction & 0x1FF < 0x100;
  }
  lemma FieldBound11(instruction: bv16)
    ensures (instruction & 0x7FF) as int < 0x800
    ensures instruction & 0x400 == 0 <==> (instruction & 0x7FF) as int < 0x400
  {
    assert instruction & 0x400 == 0 <==> instruction & 0x7FF < 0x400;
  }
  lemma HighHalf(x: bv16) ensures x >= 0x8000 <==> x as int >= 0x8000 {}

  /** `sign_ext_imm5`: the low 5 bits read as a two's-complement number. */
  function SignExtImm5(instruction: bv16): (r: bv16)
    ensures -16 <= Signed(r) < 16
    ensures Signed(r) == if instruction & 0x10 == 0 then (instruction & 0x1F) as int
                         else (instruction & 0x1F) as int - 32
    ensures r & 0x1F == instruction & 0x1F
  {
    var r := SignExtend(instruction, 0x1F, 0x10);
    SignExt5Value(instruction, r);
    r
  }

  lemma SignExt5Value(instruction: bv16, r: bv16)
    requires r == SignExtend(instruction, 0x1F, 0x10)
    ensures -16 <= Signed(r) < 16
    ensures Signed(r) == if instruction & 0x10 == 0 then (instruction & 0x1F) as int
                         else (instruction & 0x1F) as int - 32
    ensures r & 0x1F == instruction & 0x1F
  {
    SignExt5Bits(instruction, r);
    FieldBound5(instruction);
    if instruction & 0x10 == 0 {
      NonNegativeField5(r);
      assert Signed(r) == (instruction & 0x1F) as int;
    } else {
      NegativeField5(r);
      assert Signed(r) == (instruction & 0x1F) as int - 32;
    }
  }

  lemma SignExt5Bits(instruction: bv16, r: bv16)
    requires r == SignExtend(instruction, 0x1F, 0x10)
    ensures r & 0x1F == instruction & 0x1F
    ensures instruction & 0x10 == 0 ==> r == instruction & 0x1F && r < 0x10
    ensures instruction & 0x10 != 0 ==> r >> 5 == 0x7FF
  {
  }

  lemma NonNegativeField5(r: bv16)
    requires r < 0x10
    ensures Signed(r) == r as int
  {
    HighHalf(r);
  }

  lemma NegativeField5(r: bv16)
    requires r >> 5 == 0x7FF
    ensures Signed(r) == (r & 0x1F) as int - 32
  {
    SplitAt5(r);
    HighHalf(r);
    assert (r >> 5) as int == 0x7FF;
  }

  /** `sign_ext_imm6`: the low 6 bits read as a two's-complement number. */
  function SignExtImm6(instruction: bv16): (r: bv16)
    ensures -32 <= Signed(r) < 32
    ensures Signed(r) == if instruction & 0x20 == 0 then (instruction & 0x3F) as int
                         else (instruction & 0x3F) as int - 64
    ensures r & 0x3F == instruction & 0x3F
  {
    var r := SignExtend(instruction, 0x3F, 0x20);
    SignExt6Value(instruction, r);
    r
  }

  lemma SignExt6Value(instruction: bv16, r: bv16)
    requires r == SignExtend(instruction, 0x3F, 0x20)
    ensures -32 <= Signed(r) < 32
    ensures Signed(r) == if instruction & 0x20 == 0 then (instruction & 0x3F) as int
                         else (instruction & 0x3F) as int - 64
    ensures r & 0x3F == instruction & 0x3F
  {
    SignExt6Bits(instruction, r);
    FieldBound6(instruction);
    if instruction & 0x20 == 0 {
      NonNegativeField6(r);
      assert Signed(r) == (instruction & 0x3F) as int;
    } else {
      NegativeField6(r);
      assert Signed(r) == (instruction & 0x3F) as int - 64;
    }
  }

  lemma SignExt6Bits(instruction: bv16, r: bv16)
    requires r == SignExtend(instruction, 0x3F, 0x20)
    ensures r & 0x3F == instruction & 0x3F
    ensures instruction & 0x20 == 0 ==> r == instruction & 0x3F && r < 0x20
    ensures instruction & 0x20 != 0 ==> r >> 6 == 0x3FF
  {
  }

  lemma NonNegativeField6(r: bv16)
    requires r < 0x20
    ensures Signed(r) == r as int
  {
    HighHalf(r);
  }

  lemma NegativeField6(r: bv16)
    requires r >> 6 == 0x3FF
    ensures Signed(r) == (r & 0x3F) as int - 64
  {
    SplitAt6(r);
    HighHalf(r);
    assert (r >> 6) as int == 0x3FF;
  }

  /** `sign_ext_imm9`: the low 9 bits read as a two's-complement number. */
  function SignExtImm9(instruction: bv16): (r: bv16)
    ensures -256 <= Signed(r) < 256
    ensures Signed(r) == if instruction & 0x100 == 0 then (instruction & 0x1FF) as int
                         else (instruction & 0x1FF) as int - 512
    ensures r & 0x1FF == instruction & 0x1FF
  {
    var r := SignExtend(instruction, 0x1FF, 0x100);
    SignExt9Value(instruction, r);
    r
  }

  lemma SignExt9Value(instruction: bv16, r: bv16)
    requires r == SignExtend(instruction, 0x1FF, 0x100)
    ensures -256 <= Signed(r) < 256
    ensures Signed(r) == if instruction & 0x100 == 0 then (instruction & 0x1FF) as int
                         else (instruction & 0x1FF) as int - 512
    ensures r & 0x1FF == instruction & 0x1FF
  {
    SignExt9Bits(instruction, r);
    FieldBound9(instruction);
    if instruction & 0x100 == 0 {
      NonNegativeField9(r);
      assert Signed(r) == (instruction & 0x1FF) as int;
    } else {
      NegativeField9(r);
      assert Signed(r) == (instruction & 0x1FF) as int - 512;
    }
  }

  lemma SignExt9Bits(instruction: bv16, r: bv16)
    requires r == SignExtend(instruction, 0x1FF, 0x100)
    ensures r & 0x1FF == instruction & 0x1FF
    ensures instruction & 0x100 == 0 ==> r == instruction & 0x1FF && r < 0x100
    ensures instruction & 0x100 != 0 ==> r >> 9 == 0x7F
  {
  }

  lemma NonNegativeField9(r: bv16)
    requires r < 0x100
    ensures Signed(r) == r as int
  {
    HighHalf(r);
  }

  lemma NegativeField9(r: bv16)
    requires r >> 9 == 0x7F
    ensures Signed(r) == (r & 0x1FF) as int - 512
  {
    SplitAt9(r);
    HighHalf(r);
    assert (r >> 9) as int == 0x7F;
  }

  /** `sign_ext_imm11`: the low 11 bits read as a two's-complement number. */
  function SignExtImm11(instruction: bv16): (r: bv16)
    ensures -1024 <= Signed(r) < 1024
    ensures Signed(r) == if instruction & 0x400 == 0 then (instruction & 0x7FF) as int
                         else (instruction & 0x7FF) as int - 2048
    ensures r & 0x7FF == instruction & 0x7FF
  {
    var r := SignExtend(instruction, 0x7FF, 0x400);
    SignExt11Value(instruction, r);
    r
  }

  lemma SignExt11Value(instruction: bv16, r: bv16)
    requires r == SignExtend(instruction, 0x7FF, 0x400)
    ensures -1024 <= Signed(r) < 1024
    ensures Signed(r) == if instruction & 0x400 == 0 then (instruction & 0x7FF) as int
                         else (instruction & 0x7FF) as int - 2048
    ensures r & 0x7FF == instruction & 0x7FF
  {
    SignExt11Bits(instruction, r);
    FieldBound11(instruction);
    if instruction & 0x400 == 0 {
      NonNegativeField11(r);
      assert Signed(r) == (instruction & 0x7FF) as int;
    } else {
      NegativeField11(r);
      assert Signed(r) == (instruction & 0x7FF) as int - 2048;
    }
  }

  lemma SignExt11Bits(instruction: bv16, r: bv16)
    requires r == SignExtend(instruction, 0x7FF, 0x400)
    ensures r & 0x7FF == instruction & 0x7FF
    ensures instruction & 0x400 == 0 ==> r == instruction & 0x7FF && r < 0x400
    ensures instruction & 0x400 != 0 ==> r >> 11 == 0x1F
  {
  }

  lemma NonNegativeField11(r: bv16)
    requires r < 0x400
    ensures Signed(r) == r as int
  {
    HighHalf(r);
  }

  lemma NegativeField11(r: bv16)
    requires r >> 11 == 0x1F
    ensures Signed(r) == (r & 0x7FF) as int - 2048
  {
    SplitAt11(r);
    HighHalf(r);
    assert (r >> 11) as int == 0x1F;
  }

  /** Each extender reads only its field: bits above it make no difference. */
  lemma SignExtReadsOnlyField(instruction: bv16)
    ensures SignExtImm5(instruction) == SignExtImm5(instruction & 0x1F)
    ensures SignExtImm6(instruction) == SignExtImm6(instruction & 0x3F)
    ensures SignExtImm9(instruction) == SignExtImm9(instruction & 0x1FF)
    ensures SignExtImm11(instruction) == SignExtImm11(instruction & 0x7FF)
  {
    assert SignExtend(instruction, 0x1F, 0x10) == SignExtend(instruction & 0x1F, 0x1F, 0x10);
    assert SignExtend(instruction, 0x3F, 0x20) == SignExtend(instruction & 0x3F, 0x3F, 0x20);
    assert SignExtend(instruction, 0x1FF, 0x100) == SignExtend(instruction & 0x1FF, 0x1FF, 0x100);
    assert SignExtend(instruction, 0x7FF, 0x400) == SignExtend(instruction & 0x7FF, 0x7FF, 0x400);
  }

  /** `x as usize` for an `i16` pattern: sign extension to 64 bits. */
  function UsizeOfI16(x: bv16): (r: nat)
    ensures r < Two64
    ensures x < 0x8000 ==> r == x as int
    ensures x >= 0x8000 ==> r >= Two64 / 2
  {
    HighHalf(x);
    if x < 0x8000 then x as int else Two64 - 0x10000 + x as int
  }

  /** `u as u16` (or `u as i16`) for a `usize`: keeps the low 16 bits. */
  function Truncate16(u: nat): bv16 {
    (u % 0x10000) as bv16
  }

  lemma BitsOfValue(w: bv16)
    ensures (w as int) as bv16 == w
  {
  }

  /** `as u16` of a `u16` widened to `usize` gives it back. */
  lemma TruncateWord(w: bv16)
    ensures Truncate16(w as nat) == w
  {
    BitsOfValue(w);
  }

  lemma ModOfSignExtended(v: int)
    requires 0 <= v < 0x10000
    ensures v % 0x10000 == v
    ensures (Two64 - 0x10000 + v) % 0x10000 == v
  {
  }

  /** Widening an `i16` to `usize` and truncating back to 16 bits gives the
      pattern back (`(x as usize) as u16 == x as u16`). */
  lemma TruncateSignExtended(x: bv16)
    ensures Truncate16(UsizeOfI16(x)) == x
  {
    SignExtendedMod(x);
    TruncateOfMod(UsizeOfI16(x), x);
  }

  lemma SignExtendedMod(x: bv16)
    ensures UsizeOfI16(x) % 0x10000 == x as int
  {
    ModOfSignExtended(x as int);
  }

  lemma TruncateOfMod(u: nat, x: bv16)
    requires u % 0x10000 == x as int
    ensures Truncate16(u) == x
  {
    BitsOfValue(x);
  }

  /** `base_r_with_offset`: the register INDEX (not its contents) as an
      `i16`, plus the offset with `i16` wrap-around, widened to `usize`. */
  function BaseROffset(baseR: nat, offset: bv16): (r: nat)
    ensures r < Two64
    ensures Truncate16(r) == Truncate16(baseR) + offset
    ensures r < 0x8000 <==> Truncate16(baseR) + offset < 0x8000
    ensures r >= 0x8000 ==> r >= Two64 / 2
    ensures baseR < 8 && offset < 0x40 ==> r == baseR + offset as int
  {
    var sum := Truncate16(baseR) + offset;
    TruncateSignExtended(sum);
    SmallIndexSum(baseR, offset);
    UsizeOfI16(sum)
  }

  /** For the decoder's ranges (index below 8, 6-bit offset) the `i16`
      sum is the plain sum. */
  lemma SmallIndexSum(baseR: nat, offset: bv16)
    ensures baseR < 8 && offset < 0x40 ==> (Truncate16(baseR) + offset) as int == baseR + offset as int
  {
    if baseR < 8 && offset < 0x40 {
      var t := Truncate16(baseR);
      assert t as int == baseR;
      assert t < 8;
    }
  }
}
