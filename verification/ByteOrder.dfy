/**
 Host byte order and the big-endian conversions of libubox/utils.h, together with the
 integer put/get pairs of libubox/blob.h.

 A C object of type uint16_t, uint32_t or uint64_t is a word; its memory image depends on
 the host. `Store*` and `Load*` are that image, the `Swap*` functions are the
 mask-and-shift macros, and `CpuToBe*`/`BeToCpu*` select between a swap and the identity
 exactly as the preprocessor does.
 */
module ByteOrder {

  datatype Host = LittleEndian | BigEndian

  // The byte-swap macros

  function Swap16(x: bv16): bv16 {
    ((x & 0x00ff) << 8) | ((x & 0xff00) >> 8)
  }

  function Swap32(x: bv32): bv32 {
    ((x & 0x000000ff) << 24) | ((x & 0x0000ff00) << 8)
    | ((x & 0x00ff0000) >> 8) | ((x & 0xff000000) >> 24)
  }

  function Swap64(x: bv64): bv64 {
    ((x & 0x00000000000000ff) << 56) | ((x & 0x000000000000ff00) << 40)
    | ((x & 0x0000000000ff0000) << 24) | ((x & 0x00000000ff000000) << 8)
    | ((x & 0x000000ff00000000) >> 8) | ((x & 0x0000ff0000000000) >> 24)
    | ((x & 0x00ff000000000000) >> 40) | ((x & 0xff00000000000000) >> 56)
  }

  function CpuToBe16(h: Host, x: bv16): bv16 { if h.LittleEndian? then Swap16(x) else x }
  function CpuToBe32(h: Host, x: bv32): bv32 { if h.LittleEndian? then Swap32(x) else x }
  function CpuToBe64(h: Host, x: bv64): bv64 { if h.LittleEndian? then Swap64(x) else x }
  function Be16ToCpu(h: Host, x: bv16): bv16 { if h.LittleEndian? then Swap16(x) else x }
  function Be32ToCpu(h: Host, x: bv32): bv32 { if h.LittleEndian? then Swap32(x) else x }

  // Memory images of words

  function Byte16(x: bv16, shift: bv16): bv8
    requires shift <= 8
  {
    ((x >> shift) & 0xff) as bv8
  }

  function Byte32(x: bv32, shift: bv32): bv8
    requires shift <= 24
  {
    ((x >> shift) & 0xff) as bv8
  }

  function Byte64(x: bv64, shift: bv64): bv8
    requires shift <= 56
  {
    ((x >> shift) & 0xff) as bv8
  }

  function Store16(h: Host, x: bv16): (b: seq<bv8>)
    ensures |b| == 2
  {
    if h.LittleEndian? then [Byte16(x, 0), Byte16(x, 8)] else [Byte16(x, 8), Byte16(x, 0)]
  }

  function Store32(h: Host, x: bv32): (b: seq<bv8>)
    ensures |b| == 4
  {
    if h.LittleEndian? then
      [Byte32(x, 0), Byte32(x, 8), Byte32(x, 16), Byte32(x, 24)]
    else
      [Byte32(x, 24), Byte32(x, 16), Byte32(x, 8), Byte32(x, 0)]
  }

  function Store64(h: Host, x: bv64): (b: seq<bv8>)
    ensures |b| == 8
  {
    if h.LittleEndian? then
      [Byte64(x, 0), Byte64(x, 8), Byte64(x, 16), Byte64(x, 24),
       Byte64(x, 32), Byte64(x, 40), Byte64(x, 48), Byte64(x, 56)]
    else
      [Byte64(x, 56), Byte64(x, 48), Byte64(x, 40), Byte64(x, 32),
       Byte64(x, 24), Byte64(x, 16), Byte64(x, 8), Byte64(x, 0)]
  }

  function Load16(h: Host, b: seq<bv8>): bv16
    requires |b| == 2
  {
    if h.LittleEndian? then
      (b[0] as bv16) | ((b[1] as bv16) << 8)
    else
      (b[1] as bv16) | ((b[0] as bv16) << 8)
  }

  function Load32(h: Host, b: seq<bv8>): bv32
    requires |b| == 4
  {
    if h.LittleEndian? then
      (b[0] as bv32) | ((b[1] as bv32) << 8) | ((b[2] as bv32) << 16) | ((b[3] as bv32) << 24)
    else
      (b[3] as bv32) | ((b[2] as bv32) << 8) | ((b[1] as bv32) << 16) | ((b[0] as bv32) << 24)
  }

  // The payload bytes written by blob_put_u16/u32/u64 and read by blob_get_u16/u32/u64

  function PutU16(h: Host, v: bv16): (b: seq<bv8>)
    ensures |b| == 2
  {
    Store16(h, CpuToBe16(h, v))
  }

  function PutU32(h: Host, v: bv32): (b: seq<bv8>)
    ensures |b| == 4
  {
    Store32(h, CpuToBe32(h, v))
  }

  function PutU64(h: Host, v: bv64): (b: seq<bv8>)
    ensures |b| == 8
  {
    Store64(h, CpuToBe64(h, v))
  }

  function GetU16(h: Host, b: seq<bv8>): bv16
    requires |b| == 2
  {
    Be16ToCpu(h, Load16(h, b))
  }

  function GetU32(h: Host, b: seq<bv8>): bv32
    requires |b| == 4
  {
    Be32ToCpu(h, Load32(h, b))
  }

  /** The 64-bit getter reads two 32-bit words and combines them. */
  function GetU64(h: Host, b: seq<bv8>): bv64
    requires |b| == 8
  {
    ((GetU32(h, b[0..4]) as bv64) << 32) | (GetU32(h, b[4..8]) as bv64)
  }

  // Both hosts write, and both hosts expect, most significant byte first.

  lemma SwapReversesBytes16(v: bv16)
    ensures Byte16(Swap16(v), 0) == Byte16(v, 8) && Byte16(Swap16(v), 8) == Byte16(v, 0)
  {
  }

  lemma SwapReversesBytes32(v: bv32)
    ensures Byte32(Swap32(v), 0) == Byte32(v, 24) && Byte32(Swap32(v), 8) == Byte32(v, 16)
    ensures Byte32(Swap32(v), 16) == Byte32(v, 8) && Byte32(Swap32(v), 24) == Byte32(v, 0)
  {
  }

  lemma SwapReversesBytes64(v: bv64)
    ensures Byte64(Swap64(v), 0) == Byte64(v, 56) && Byte64(Swap64(v), 8) == Byte64(v, 48)
    ensures Byte64(Swap64(v), 16) == Byte64(v, 40) && Byte64(Swap64(v), 24) == Byte64(v, 32)
    ensures Byte64(Swap64(v), 32) == Byte64(v, 24) && Byte64(Swap64(v), 40) == Byte64(v, 16)
    ensures Byte64(Swap64(v), 48) == Byte64(v, 8) && Byte64(Swap64(v), 56) == Byte64(v, 0)
  {
  }

  lemma PutIsBigEndian16(h: Host, v: bv16)
    ensures PutU16(h, v) == [Byte16(v, 8), Byte16(v, 0)]
  {
    SwapReversesBytes16(v);
  }

  lemma PutIsBigEndian32(h: Host, v: bv32)
    ensures PutU32(h, v) == [Byte32(v, 24), Byte32(v, 16), Byte32(v, 8), Byte32(v, 0)]
  {
    SwapReversesBytes32(v);
  }

  lemma PutIsBigEndian64(h: Host, v: bv64)
    ensures PutU64(h, v) == [Byte64(v, 56), Byte64(v, 48), Byte64(v, 40), Byte64(v, 32),
                             Byte64(v, 24), Byte64(v, 16), Byte64(v, 8), Byte64(v, 0)]
  {
    SwapReversesBytes64(v);
  }

  lemma GetIsBigEndian16(h: Host, b: seq<bv8>)
    requires |b| == 2
    ensures GetU16(h, b) == ((b[0] as bv16) << 8) | (b[1] as bv16)
  {
  }

  lemma GetIsBigEndian32(h: Host, b: seq<bv8>)
    requires |b| == 4
    ensures GetU32(h, b) == ((b[0] as bv32) << 24) | ((b[1] as bv32) << 16)
                            | ((b[2] as bv32) << 8) | (b[3] as bv32)
  {
  }

  // Values survive a store on one host and a load on the other; the bytes in between are
  // the same whichever host wrote them.

  lemma Recombine16(v: bv16)
    ensures ((Byte16(v, 8) as bv16) << 8) | (Byte16(v, 0) as bv16) == v
  {
  }

  lemma Recombine32(v: bv32)
    ensures ((Byte32(v, 24) as bv32) << 24) | ((Byte32(v, 16) as bv32) << 16)
            | ((Byte32(v, 8) as bv32) << 8) | (Byte32(v, 0) as bv32) == v
  {
  }

  lemma RoundTrip16(writer: Host, reader: Host, v: bv16)
    ensures GetU16(reader, PutU16(writer, v)) == v
    ensures PutU16(writer, v) == PutU16(reader, v)
  {
    PutIsBigEndian16(writer, v);
    PutIsBigEndian16(reader, v);
    GetIsBigEndian16(reader, PutU16(writer, v));
    Recombine16(v);
  }

  lemma RoundTrip32(writer: Host, reader: Host, v: bv32)
    ensures GetU32(reader, PutU32(writer, v)) == v
    ensures PutU32(writer, v) == PutU32(reader, v)
  {
    PutIsBigEndian32(writer, v);
    PutIsBigEndian32(reader, v);
    GetIsBigEndian32(reader, PutU32(writer, v));
    Recombine32(v);
  }

  lemma HighHalf(v: bv64)
    ensures (((Byte64(v, 56) as bv32) << 24) | ((Byte64(v, 48) as bv32) << 16)
             | ((Byte64(v, 40) as bv32) << 8) | (Byte64(v, 32) as bv32)) as bv64 == v >> 32
  {
  }

  lemma LowHalf(v: bv64)
    ensures (((Byte64(v, 24) as bv32) << 24) | ((Byte64(v, 16) as bv32) << 16)
             | ((Byte64(v, 8) as bv32) << 8) | (Byte64(v, 0) as bv32)) as bv64 == v & 0xffffffff
  {
  }

  /** One swapped 64-bit word on the way in, two 32-bit words on the way out. */
  lemma RoundTrip64(writer: Host, reader: Host, v: bv64)
    ensures GetU64(reader, PutU64(writer, v)) == v
    ensures PutU64(writer, v) == PutU64(reader, v)
  {
    PutIsBigEndian64(writer, v);
    PutIsBigEndian64(reader, v);
    var b := PutU64(writer, v);
    GetIsBigEndian32(reader, b[0..4]);
    GetIsBigEndian32(reader, b[4..8]);
    HighHalf(v);
    LowHalf(v);
    assert ((v >> 32) << 32) | (v & 0xffffffff) == v;
  }
}
