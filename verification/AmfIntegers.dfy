/** The big-endian integer writers of librtmp/amf.c, writing into a buffer at a moving position. A NULL
    result becomes None and leaves the buffer alone. */
module AmfIntegers {
  import opened Bytes

  method EncodeInt16(mem: array<Byte>, output: nat, outend: nat, v: U16) returns (next: Option<nat>)
    requires outend <= mem.Length
    modifies mem
    ensures next == if output + 2 > outend then None else Some(output + 2)
    ensures mem[..] == if next.None? then old(mem[..]) else Splice(old(mem[..]), output, Be16(v))
  {
    if output + 2 > outend {
      return None;
    }
    ghost var was := mem[..];
    mem[output + 1] := v % 0x100;
    mem[output] := v / 0x100;
    SpliceAt(was, output, Be16(v), mem[..]);
    return Some(output + 2);
  }

  method EncodeInt24(mem: array<Byte>, output: nat, outend: nat, v: U24) returns (next: Option<nat>)
    requires outend <= mem.Length
    modifies mem
    ensures next == if output + 3 > outend then None else Some(output + 3)
    ensures mem[..] == if next.None? then old(mem[..]) else Splice(old(mem[..]), output, Be24(v))
  {
    if output + 3 > outend {
      return None;
    }
    ghost var was := mem[..];
    mem[output + 2] := v % 0x100;
    mem[output + 1] := v / 0x100 % 0x100;
    mem[output] := v / 0x1_0000;
    ByteDigits(v);
    SpliceAt(was, output, Be24(v), mem[..]);
    return Some(output + 3);
  }

  method EncodeInt32(mem: array<Byte>, output: nat, outend: nat, v: U32) returns (next: Option<nat>)
    requires outend <= mem.Length
    modifies mem
    ensures next == if output + 4 > outend then None else Some(output + 4)
    ensures mem[..] == if next.None? then old(mem[..]) else Splice(old(mem[..]), output, Be32(v))
  {
    if output + 4 > outend {
      return None;
    }
    ghost var was := mem[..];
    mem[output + 3] := v % 0x100;
    mem[output + 2] := v / 0x100 % 0x100;
    mem[output + 1] := v / 0x1_0000 % 0x100;
    mem[output] := v / 0x100_0000;
    ByteDigits(v);
    SpliceAt(was, output, Be32(v), mem[..]);
    return Some(output + 4);
  }
}
