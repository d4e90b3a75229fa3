/** The checksum of `src/utils.c` on the wire, and the limits of what it detects. */
module CrcFrame {
  import opened Register
  import opened CrcEngine
  import opened CrcDetection
  import opened CrcRemainder
  import opened CrcOrder
  import opened Gf2
  import Packing

  /** The two checksum functions are packed to one and the same pair of bytes: low byte first. */
  lemma ChecksumBytes(r: bv16)
    ensures Packing.Bytes(Packing.Little, Packing.W16(r)) == [LowByte(r), HighByte(r)]
    ensures Packing.Bytes(Packing.Big, Packing.W16(Packing.SwapBytes(r))) == [LowByte(r), HighByte(r)]
  {
    LowFirst(r);
    var swapped := Packing.ByteSwap(Packing.W16(r));
    assert swapped == Packing.W16(Packing.SwapBytes(r));
    Packing.SwapReverses(Packing.W16(r));
    Packing.ReversedTwice(Packing.LittleBytes(Packing.W16(r)));
    hide *;
    BigBytes(Packing.SwapBytes(r));
  }

  lemma LowFirst(r: bv16)
    ensures Packing.Bytes(Packing.Little, Packing.W16(r)) == Packing.LittleBytes(Packing.W16(r)) == [LowByte(r), HighByte(r)]
  {
    assert (r >> 8) & 0xff == (r & 0xff00) >> 8;
  }

  lemma BigBytes(r: bv16)
    ensures Packing.Bytes(Packing.Big, Packing.W16(r)) == Packing.Reversed(Packing.LittleBytes(Packing.W16(r)))
  {
  }

  /** A frame of at least two bytes has CRC zero exactly when it ends in its packed checksum. */
  lemma FrameAccepted(frame: seq<bv8>)
    requires |frame| >= 2
    ensures var n := |frame| - 2;
      Crc(frame) == 0 <==> frame[n..] == Packing.Bytes(Packing.Little, Packing.W16(Crc(frame[..n])))
  {
    var n := |frame| - 2;
    var data, lo, hi := frame[..n], frame[n], frame[n + 1];
    assert frame == data + [lo, hi] && frame[n..] == [lo, hi];
    hide *;
    FrameResidue(data, lo, hi);
    ChecksumBytes(Crc(data));
  }

  // ---------- the burst bound is exact ----------

  /** The generator, as the bits of three bytes. */
  lemma GeneratorBits()
    ensures var e := Difference([0x00, 0x00, 0x00], [0x03, 0x40, 0x01]);
      |e| == 24 && forall i | 0 <= i < 24 :: e[i] <==> i == 0 || i == 1 || i == 14 || i == 16
  {
    SpecialBytes();
    MoreBytes();
    hide ByteBits;
    var a, b := [0x00 as bv8, 0x00, 0x00], [0x03 as bv8, 0x40, 0x01];
    forall i | 0 <= i < 24
      ensures Difference(a, b)[i] <==> i == 0 || i == 1 || i == 14 || i == 16
    {
      BitsAt(a, i);
      BitsAt(b, i);
    }
  }

  lemma MoreBytes()
    ensures ByteBits(0x03) == [true, true, false, false, false, false, false, false]
    ensures ByteBits(0x40) == [false, false, false, false, false, false, true, false]
  {
    assert LowBits(0x03, 8) == [true, true, false, false] + LowBits(0x00, 4);
    assert LowBits(0x40, 8) == [false, false, false, false] + LowBits(0x04, 4);
  }

  lemma GeneratorInvisible()
    ensures Syndrome(Difference([0x00, 0x00, 0x00], [0x03, 0x40, 0x01])) == 0
  {
    GeneratorBits();
    var e := Difference([0x00, 0x00, 0x00], [0x03, 0x40, 0x01]);
    hide Difference, Syndrome;
    assert BitsPoly(e) == Scale(GENERATOR, 7);
    GeneratorMonomial(7);
    ZeroSyndrome(e);
  }

  /** A difference of 17 bits can hide: this one is the generator, and it hides in every context. */
  lemma BurstBoundIsTight(prefix: seq<bv8>, tail: seq<bv8>)
    ensures var a, b := prefix + [0x00, 0x00, 0x00] + tail, prefix + [0x03, 0x40, 0x01] + tail;
      a != b && Crc(a) == Crc(b)
  {
    var x, y := [0x00 as bv8, 0x00, 0x00], [0x03 as bv8, 0x40, 0x01];
    assert (prefix + x + tail)[|prefix|] == 0x00 && (prefix + y + tail)[|prefix|] == 0x03;
    hide *;
    GeneratorInvisible();
    SameEffect(Crc(prefix), x, y);
    CrcConcat(prefix, x);
    CrcConcat(prefix, y);
    CrcConcat(prefix + x, tail);
    CrcConcat(prefix + y, tail);
  }

  lemma SameEffect(r: bv16, x: seq<bv8>, y: seq<bv8>)
    requires |x| == |y| && Syndrome(Difference(x, y)) == 0
    ensures Serial(r, Bits(x)) == Serial(r, Bits(y))
  {
    hide Xor, Serial, Bits;
    SerialXor(r, r, Bits(x), Bits(y));
    XorZero(r);
    XorCancels(Serial(r, Bits(x)), Serial(r, Bits(y)));
  }
}
