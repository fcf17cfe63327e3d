/** The 65536-word memory (src/memory.rs): a fixed array of `u16` cells
    written and read by address, and the loader that copies a big-endian
    program image into it at the origin the image names. */
module Memory {
  import opened Wrappers
  import Util

  const MemorySize: nat := 0x10000

  /** The panics of `write` and `read` on an address past the end. */
  datatype MemoryError = OutOfBoundsWrite(addr: nat) | OutOfBoundsRead(addr: nat)

  /** The load address an image starts with: its first two bytes,
      big-endian. */
  function Origin(buff: seq<bv8>): (origin: nat)
    requires |buff| >= 2
    ensures origin < MemorySize && origin == buff[0] as int * 256 + buff[1] as int
  {
    Util.JoinU8(buff[0], buff[1]) as nat
  }

  /** How many words the loader copies: one per byte pair after the origin,
      but never into the last cell, 0xFFFF. */
  function WordCount(buff: seq<bv8>): (n: nat)
    requires |buff| >= 2
    ensures n <= (|buff| - 2) / 2 && Origin(buff) + n <= MemorySize - 1
    ensures n == (|buff| - 2) / 2 || Origin(buff) + n == MemorySize - 1
  {
    var room := MemorySize - 1 - Origin(buff);
    if (|buff| - 2) / 2 <= room then (|buff| - 2) / 2 else room
  }

  /** The `k`-th word of the image after the origin. */
  function ImageWord(buff: seq<bv8>, k: nat): (w: bv16)
    requires 2 + 2 * k + 1 < |buff|
    ensures w as int == buff[2 + 2 * k] as int * 256 + buff[2 + 2 * k + 1] as int
  {
    Util.JoinU8(buff[2 + 2 * k], buff[2 + 2 * k + 1])
  }

  /** The images `load_bulk` accepts without panicking: the two origin
      bytes are present, and a trailing odd byte is only allowed when the
      copy stops at cell 0xFFFF before it would read past the end. */
  predicate LoadableImage(buff: seq<bv8>) {
    |buff| >= 2 && (|buff| % 2 == 1 ==> (|buff| - 2) / 2 >= MemorySize - 1 - Origin(buff))
  }

  /** The memory contents after loading `buff` over `mem`. */
  function LoadedImage(mem: seq<bv16>, buff: seq<bv8>): (r: seq<bv16>)
    requires |mem| == MemorySize && LoadableImage(buff)
    ensures |r| == MemorySize
  {
    seq(MemorySize, a requires 0 <= a < MemorySize =>
      if Origin(buff) <= a < Origin(buff) + WordCount(buff) then ImageWord(buff, a - Origin(buff)) else mem[a])
  }

  /** `Memory`: the `data` array of `MEMORY_SIZE` cells. */
  class Memory {
    const data: array<bv16>

    predicate Valid()
      reads this
    {
      data.Length == MemorySize
    }

    /** `Memory::new`: every cell is zero. */
    constructor ()
      ensures Valid() && fresh(data)
      ensures forall a :: 0 <= a < MemorySize ==> data[a] == 0
    {
      data := new bv16[MemorySize](_ => 0);
    }

    /** `Memory::write`: an address past the end is an error (the source
        panics); otherwise exactly that cell changes. */
    method Write(addr: nat, val: bv16) returns (err: Option<MemoryError>)
      requires Valid()
      modifies data
      ensures err.None? <==> addr < MemorySize
      ensures err.Some? ==> err.value == OutOfBoundsWrite(addr) && data[..] == old(data[..])
      ensures err.None? ==> data[..] == old(data[..])[addr := val]
    {
      if addr < data.Length {
        data[addr] := val;
        err := None;
      } else {
        err := Some(OutOfBoundsWrite(addr));
      }
    }

    /** `Memory::read`: the cell at `addr`, or an error past the end. */
    function Read(addr: nat): (r: Result<bv16, MemoryError>)
      requires Valid()
      reads this, data
      ensures r.Ok? <==> addr < MemorySize
      ensures r.Ok? ==> r.value == data[addr]
      ensures r.Err? ==> r.error == OutOfBoundsRead(addr)
    {
      if addr < data.Length then Ok(data[addr]) else Err(OutOfBoundsRead(addr))
    }

    /** `Memory::load_bulk`: copies the image word by word from its
        origin until the last cell or the end of the image. */
    method LoadBulk(buff: seq<bv8>)
      requires Valid() && LoadableImage(buff)
      modifies data
      ensures data[..] == LoadedImage(old(data[..]), buff)
    {
      var origin := Origin(buff);
      var memI := origin;
      var buffI := 2;
      while memI < MemorySize - 1 && buffI < |buff|
        invariant origin <= memI <= origin + WordCount(buff)
        invariant buffI == 2 + 2 * (memI - origin)
        invariant forall a :: 0 <= a < MemorySize ==>
          data[a] == if origin <= a < memI then ImageWord(buff, a - origin) else old(data[a])
        decreases MemorySize - memI
      {
        var word := Util.JoinU8(buff[buffI], buff[buffI + 1]);
        data[memI] := word;
        memI := memI + 1;
        buffI := buffI + 2;
      }
    }
  }

  /** `write` then `read` on the same memory: the written address reads
      back the value stored, an address past the end fails both times, and
      every other address reads as it did before. */
  method ReadAfterWrite(m: Memory, addr: nat, val: bv16, other: nat)
    returns (err: Option<MemoryError>, back: Result<bv16, MemoryError>)
    requires m.Valid()
    modifies m.data
    ensures err.None? <==> addr < MemorySize
    ensures err.None? ==> back == Ok(val)
    ensures err.Some? ==> err.value == OutOfBoundsWrite(addr) && back == Err(OutOfBoundsRead(addr))
    ensures other != addr ==> m.Read(other) == old(m.Read(other))
  {
    err := m.Write(addr, val);
    back := m.Read(addr);
  }

  /** One cell of the loaded image. */
  lemma LoadedCell(mem: seq<bv16>, buff: seq<bv8>, a: nat)
    requires |mem| == MemorySize && LoadableImage(buff) && a < MemorySize
    ensures Origin(buff) <= a < Origin(buff) + WordCount(buff) ==>
      LoadedImage(mem, buff)[a] == ImageWord(buff, a - Origin(buff))
    ensures !(Origin(buff) <= a < Origin(buff) + WordCount(buff)) ==> LoadedImage(mem, buff)[a] == mem[a]
  {
  }

  /** The loader never writes cell 0xFFFF, writes exactly `WordCount`
      cells from the origin, and leaves every cell outside them as it
      was. */
  lemma LoadedImageBounds(mem: seq<bv16>, buff: seq<bv8>)
    requires |mem| == MemorySize && LoadableImage(buff)
    ensures LoadedImage(mem, buff)[MemorySize - 1] == mem[MemorySize - 1]
    ensures forall a :: 0 <= a < MemorySize && !(Origin(buff) <= a < Origin(buff) + WordCount(buff)) ==>
      LoadedImage(mem, buff)[a] == mem[a]
    ensures forall k :: 0 <= k < WordCount(buff) ==>
      LoadedImage(mem, buff)[Origin(buff) + k] as int == buff[2 + 2 * k] as int * 256 + buff[3 + 2 * k] as int
  {
    LoadedCell(mem, buff, MemorySize - 1);
    forall k | 0 <= k < WordCount(buff)
      ensures LoadedImage(mem, buff)[Origin(buff) + k] as int == buff[2 + 2 * k] as int * 256 + buff[3 + 2 * k] as int
    {
      LoadedCell(mem, buff, Origin(buff) + k);
    }
  }

  /** The image [0x30, 0x00, 0xca, 0xfe, 0xba, 0xbe] puts 0xcafe at 0x3000
      and 0xbabe at 0x3001. */
  lemma LoadExample(mem: seq<bv16>)
    requires |mem| == MemorySize
    ensures var buff: seq<bv8> := [0x30, 0x00, 0xca, 0xfe, 0xba, 0xbe];
      LoadableImage(buff) && Origin(buff) == 0x3000 && WordCount(buff) == 2 &&
      LoadedImage(mem, buff)[0x3000] == 0xcafe && LoadedImage(mem, buff)[0x3001] == 0xbabe &&
      LoadedImage(mem, buff)[0x2FFF] == mem[0x2FFF] && LoadedImage(mem, buff)[0x3002] == mem[0x3002]
  {
    var buff: seq<bv8> := [0x30, 0x00, 0xca, 0xfe, 0xba, 0xbe];
    LoadedCell(mem, buff, 0x3000);
    LoadedCell(mem, buff, 0x3001);
    assert ImageWord(buff, 1) == Util.JoinU8(0xba, 0xbe);
  }
}
