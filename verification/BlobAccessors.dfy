/**
 The header accessors as blob.h writes them: load the word, convert it, mask it. Each is the
 arithmetic accessor of `Blob`, on either host.
 */
module BlobAccessors {
  import opened ByteOrder
  import opened Blob

  function Octets(raw: seq<bv8>): (b: Bytes)
    ensures |b| == |raw|
    ensures forall i :: 0 <= i < |raw| ==> b[i] == raw[i] as int
  {
    seq(|raw|, i requires 0 <= i < |raw| => raw[i] as int)
  }

  // The length field

  lemma JoinedBytes(b0: bv8, b1: bv8, b2: bv8, b3: bv8)
    ensures (((b0 as bv32) << 24) | ((b1 as bv32) << 16) | ((b2 as bv32) << 8) | (b3 as bv32)) as int
            == 0x1000000 * (b0 as int) + 0x10000 * (b1 as int) + 0x100 * (b2 as int) + b3 as int
  {
  }

  lemma ValueOf(w: bv32, b0: bv8, b1: bv8, b2: bv8, b3: bv8)
    requires w == ((b0 as bv32) << 24) | ((b1 as bv32) << 16) | ((b2 as bv32) << 8) | (b3 as bv32)
    ensures w as int
            == 0x1000000 * (b0 as int) + 0x10000 * (b1 as int) + 0x100 * (b2 as int) + b3 as int
  {
    JoinedBytes(b0, b1, b2, b3);
  }

  lemma LengthWord(h: Host, b0: bv8, b1: bv8, b2: bv8, b3: bv8)
    ensures GetU32(h, [b0, b1, b2, b3]) & 0x00ffffff
            == ((b1 as bv32) << 16) | ((b2 as bv32) << 8) | (b3 as bv32)
  {
    GetIsBigEndian32(h, [b0, b1, b2, b3]);
  }

  /** `w` is the masked word that blob_len starts from. */
  lemma LengthAccessorIsMask(w: bv32, h: Host, b0: bv8, b1: bv8, b2: bv8, b3: bv8)
    requires w == GetU32(h, [b0, b1, b2, b3]) & 0x00ffffff
    ensures w as int == LenField(Octets([b0, b1, b2, b3]), 0)
  {
    LengthWord(h, b0, b1, b2, b3);
    LengthValue(w, b0, b1, b2, b3);
  }

  lemma LengthValue(w: bv32, b0: bv8, b1: bv8, b2: bv8, b3: bv8)
    requires w == ((b1 as bv32) << 16) | ((b2 as bv32) << 8) | (b3 as bv32)
    ensures w as int == LenField(Octets([b0, b1, b2, b3]), 0)
  {
    ValueOf(w, 0, b1, b2, b3);
    FieldsOfOctets(b0, b1, b2, b3);
  }

  /** The arithmetic accessors, in terms of the four bytes. */
  lemma FieldsOfOctets(b0: bv8, b1: bv8, b2: bv8, b3: bv8)
    ensures
      var b := Octets([b0, b1, b2, b3]);
      && LenField(b, 0) == 0x10000 * (b1 as int) + 0x100 * (b2 as int) + b3 as int
      && Id(b, 0) == (b0 as int) % 128 && (Extended(b, 0) <==> b0 as int >= 128)
      && PadLen(b, 0) == Pad4(LenField(b, 0))
  {
  }

  // The id and the extended flag

  lemma IdWord(h: Host, b0: bv8, b1: bv8, b2: bv8, b3: bv8)
    ensures (GetU32(h, [b0, b1, b2, b3]) & 0x7f000000) >> 24 == (b0 & 0x7f) as bv32
  {
    GetIsBigEndian32(h, [b0, b1, b2, b3]);
  }

  lemma LowSevenBits(w: bv32, b0: bv8)
    requires w == (b0 & 0x7f) as bv32
    ensures w as int == (b0 as int) % 128
  {
    assert (b0 & 0x7f) as int == (b0 as int) % 128;
  }

  /** `w` is the masked and shifted word that blob_id returns. */
  lemma IdAccessorIsMask(w: bv32, h: Host, b0: bv8, b1: bv8, b2: bv8, b3: bv8)
    requires w == (GetU32(h, [b0, b1, b2, b3]) & 0x7f000000) >> 24
    ensures w as int == Id(Octets([b0, b1, b2, b3]), 0)
  {
    IdWord(h, b0, b1, b2, b3);
    LowSevenBits(w, b0);
    FieldsOfOctets(b0, b1, b2, b3);
  }

  lemma ExtendedMask(h: Host, b0: bv8, b1: bv8, b2: bv8, b3: bv8)
    ensures Load32(h, [b0, b1, b2, b3]) & CpuToBe32(h, 0x80000000) != 0 <==> b0 as int >= 128
  {
    assert b0 & 0x80 != 0 <==> b0 as int >= 128;
    assert (b0 as bv32) & 0x80 != 0 <==> b0 & 0x80 != 0;
    assert Swap32(0x80000000) == 0x80;
  }

  /** The flag test converts the mask instead of the word, and means the same on either host. */
  lemma ExtendedAccessorIsMask(h: Host, b0: bv8, b1: bv8, b2: bv8, b3: bv8)
    ensures Load32(h, [b0, b1, b2, b3]) & CpuToBe32(h, 0x80000000) != 0
            <==> Extended(Octets([b0, b1, b2, b3]), 0)
  {
    ExtendedMask(h, b0, b1, b2, b3);
    FieldsOfOctets(b0, b1, b2, b3);
  }

  // The padded length: the low byte is rounded up, with a carry through the other two

  lemma NoCarry(w: bv32, b1: bv8, b2: bv8, b3: bv8, low: bv8)
    requires w == ((((b1 as bv32) << 16) | ((b2 as bv32) << 8) | (b3 as bv32)) + 3) & 0xfffffffc
    requires b3 <= 0xfc && low == (b3 + 3) & 0xfc
    ensures w == (((0 as bv8) as bv32) << 24) | ((b1 as bv32) << 16) | ((b2 as bv32) << 8) | (low as bv32)
  {
  }

  lemma CarryOnce(w: bv32, b1: bv8, b2: bv8, b3: bv8, up: bv8)
    requires w == ((((b1 as bv32) << 16) | ((b2 as bv32) << 8) | (b3 as bv32)) + 3) & 0xfffffffc
    requires b3 > 0xfc && b2 < 0xff && up == b2 + 1
    ensures w == (((0 as bv8) as bv32) << 24) | ((b1 as bv32) << 16) | ((up as bv32) << 8) | ((0 as bv8) as bv32)
  {
  }

  lemma CarryTwice(w: bv32, b1: bv8, b2: bv8, b3: bv8, up: bv8)
    requires w == ((((b1 as bv32) << 16) | ((b2 as bv32) << 8) | (b3 as bv32)) + 3) & 0xfffffffc
    requires b3 > 0xfc && b2 == 0xff && b1 < 0xff && up == b1 + 1
    ensures w == (((0 as bv8) as bv32) << 24) | ((up as bv32) << 16)
                 | (((0 as bv8) as bv32) << 8) | ((0 as bv8) as bv32)
  {
  }

  lemma CarryOut(w: bv32, b1: bv8, b2: bv8, b3: bv8)
    requires w == ((((b1 as bv32) << 16) | ((b2 as bv32) << 8) | (b3 as bv32)) + 3) & 0xfffffffc
    requires b3 > 0xfc && b2 == 0xff && b1 == 0xff
    ensures w == 0x1000000
  {
  }

  lemma LowBytePads(b: bv8)
    requires b <= 0xfc
    ensures ((b + 3) & 0xfc) as int == Pad4(b as int)
  {
  }

  lemma ByteFacts(b: bv8)
    ensures (b <= 0xfc <==> b as int <= 0xfc) && (b < 0xff <==> b as int < 0xff) && b as int < 256
    ensures b < 0xff ==> (b + 1) as int == b as int + 1
  {
  }

  lemma PadBytes(x: nat, y: nat, z: nat)
    requires z < 256
    ensures Pad4(0x10000 * x + 0x100 * y + z) == 0x10000 * x + 0x100 * y + Pad4(z)
    ensures z > 0xfc ==> Pad4(z) == 0x100
  {
  }

  lemma PadWithoutCarry(w: bv32, b1: bv8, b2: bv8, b3: bv8, low: bv8)
    requires w == ((((b1 as bv32) << 16) | ((b2 as bv32) << 8) | (b3 as bv32)) + 3) & 0xfffffffc
    requires b3 <= 0xfc && low == (b3 + 3) & 0xfc
    ensures w as int == 0x10000 * (b1 as int) + 0x100 * (b2 as int) + low as int
  {
    NoCarry(w, b1, b2, b3, low);
    ValueOf(w, 0, b1, b2, low);
  }

  lemma PadWithCarry(w: bv32, b1: bv8, b2: bv8, b3: bv8, up: bv8)
    requires w == ((((b1 as bv32) << 16) | ((b2 as bv32) << 8) | (b3 as bv32)) + 3) & 0xfffffffc
    requires b3 > 0xfc && b2 < 0xff && up == b2 + 1
    ensures w as int == 0x10000 * (b1 as int) + 0x100 * (up as int)
  {
    CarryOnce(w, b1, b2, b3, up);
    ValueOf(w, 0, b1, up, 0);
  }

  lemma PadWithCarries(w: bv32, b1: bv8, b2: bv8, b3: bv8, up: bv8)
    requires w == ((((b1 as bv32) << 16) | ((b2 as bv32) << 8) | (b3 as bv32)) + 3) & 0xfffffffc
    requires b3 > 0xfc && b2 == 0xff && b1 < 0xff && up == b1 + 1
    ensures w as int == 0x10000 * (up as int)
  {
    CarryTwice(w, b1, b2, b3, up);
    ValueOf(w, 0, up, 0, 0);
  }

  lemma PadMask(w: bv32, b1: bv8, b2: bv8, b3: bv8)
    requires w == ((((b1 as bv32) << 16) | ((b2 as bv32) << 8) | (b3 as bv32)) + 3) & 0xfffffffc
    ensures w as int == Pad4(0x10000 * (b1 as int) + 0x100 * (b2 as int) + b3 as int)
  {
    ByteFacts(b1);
    ByteFacts(b2);
    ByteFacts(b3);
    PadBytes(b1 as int, b2 as int, b3 as int);
    if b3 <= 0xfc {
      LowBytePads(b3);
      PadWithoutCarry(w, b1, b2, b3, (b3 + 3) & 0xfc);
    } else if b2 < 0xff {
      PadWithCarry(w, b1, b2, b3, b2 + 1);
    } else if b1 < 0xff {
      PadWithCarries(w, b1, b2, b3, b1 + 1);
    } else {
      CarryOut(w, b1, b2, b3);
    }
  }

  lemma AlignmentMask(w: bv32)
    ensures ((w - 4 + 4) + 4 - 1) & !(4 - 1) == (w + 3) & 0xfffffffc
  {
  }

  lemma PaddedWord(w: bv32, h: Host, b0: bv8, b1: bv8, b2: bv8, b3: bv8)
    requires w == (((GetU32(h, [b0, b1, b2, b3]) & 0x00ffffff) - 4 + 4) + 4 - 1) & !(4 - 1)
    ensures w == ((((b1 as bv32) << 16) | ((b2 as bv32) << 8) | (b3 as bv32)) + 3) & 0xfffffffc
  {
    LengthWord(h, b0, b1, b2, b3);
    AlignmentMask(GetU32(h, [b0, b1, b2, b3]) & 0x00ffffff);
  }

  /**
   The word `w` that blob_pad_len computes, on either host: the length field less and plus the
   header, plus the alignment less one, with the low bits masked. It is the padded length.
   */
  lemma PadAccessorIsMask(w: bv32, h: Host, b0: bv8, b1: bv8, b2: bv8, b3: bv8)
    requires w == (((GetU32(h, [b0, b1, b2, b3]) & 0x00ffffff) - 4 + 4) + 4 - 1) & !(4 - 1)
    ensures w as int == PadLen(Octets([b0, b1, b2, b3]), 0)
  {
    PaddedWord(w, h, b0, b1, b2, b3);
    PadMask(w, b1, b2, b3);
    FieldsOfOctets(b0, b1, b2, b3);
  }
}
