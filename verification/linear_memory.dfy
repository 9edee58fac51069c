/** WebAssembly linear memory through a little-endian DataView. */
module LinearMemory {
  import opened MachineWords

  type byte = b: int | 0 <= b < 256

  function GetU32(mem: seq<byte>, addr: nat): uint32
    requires addr + 4 <= |mem|
  {
    var b0: int, b1: int, b2: int, b3: int := mem[addr], mem[addr + 1], mem[addr + 2], mem[addr + 3];
    b0 + 0x100 * b1 + 0x1_0000 * b2 + 0x100_0000 * b3
  }

  function U32Bytes(v: uint32): (bytes: seq<byte>)
    ensures |bytes| == 4
  {
    [v % 0x100, v / 0x100 % 0x100, v / 0x1_0000 % 0x100, v / 0x100_0000]
  }

  /** The memory with `bytes` written at addr. */
  function Put(mem: seq<byte>, addr: nat, bytes: seq<byte>): (mem': seq<byte>)
    requires addr + |bytes| <= |mem|
    ensures |mem'| == |mem|
  {
    mem[..addr] + bytes + mem[addr + |bytes|..]
  }

  lemma DigitsAddUp(v: int)
    requires 0 <= v < WORD
    ensures v % 0x100 + 0x100 * (v / 0x100 % 0x100) + 0x1_0000 * (v / 0x1_0000 % 0x100)
            + 0x100_0000 * (v / 0x100_0000) == v
  {
    var q1 := v / 0x100;
    var q2 := q1 / 0x100;
    assert v / 0x1_0000 == q2;
    assert v / 0x100_0000 == q2 / 0x100;
  }

  lemma U32RoundTrip(mem: seq<byte>, addr: nat, v: uint32)
    requires addr + 4 <= |mem| && mem[addr..addr + 4] == U32Bytes(v)
    ensures GetU32(mem, addr) == v
  {
    DigitsAddUp(v);
    var bytes := mem[addr..addr + 4];
    assert mem[addr] == bytes[0] && mem[addr + 1] == bytes[1];
    assert mem[addr + 2] == bytes[2] && mem[addr + 3] == bytes[3];
  }

  lemma PutReads(mem: seq<byte>, addr: nat, bytes: seq<byte>)
    requires addr + |bytes| <= |mem|
    ensures Put(mem, addr, bytes)[addr..addr + |bytes|] == bytes
  {
  }

  /** Writing elsewhere does not disturb what is read. */
  lemma PutElsewhere(mem: seq<byte>, addr: nat, bytes: seq<byte>, from: nat, to: nat)
    requires addr + |bytes| <= |mem| && from <= to <= |mem|
    requires to <= addr || addr + |bytes| <= from
    ensures Put(mem, addr, bytes)[from..to] == mem[from..to]
  {
  }

  /** The byte order: the lowest eight bits come first. */
  lemma LittleEndian(mem: seq<byte>, addr: nat)
    requires addr + 4 <= |mem|
    ensures var v := GetU32(mem, addr);
            && v % 0x100 == mem[addr] && v / 0x100 % 0x100 == mem[addr + 1]
            && v / 0x1_0000 % 0x100 == mem[addr + 2] && v / 0x100_0000 == mem[addr + 3]
  {
    var v: int := GetU32(mem, addr);
    var b0: int, b1: int, b2: int, b3: int := mem[addr], mem[addr + 1], mem[addr + 2], mem[addr + 3];
    assert v / 0x100 == b1 + 0x100 * b2 + 0x1_0000 * b3;
    assert v / 0x1_0000 == b2 + 0x100 * b3;
    assert v / 0x100_0000 == b3;
  }
}
