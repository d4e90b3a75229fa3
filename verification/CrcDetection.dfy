/**
 What the CRC of `src/utils.c` says about two messages of one length: it is an affine map, its
 parity is the parity of the message, and a frame that carries its own checksum has CRC zero.
 */
module CrcDetection {
  import opened Register
  import Packing
  import opened CrcEngine

  function XorBits(a: seq<bool>, b: seq<bool>): (c: seq<bool>)
    requires |a| == |b|
    ensures |c| == |a|
    ensures forall i | 0 <= i < |a| :: c[i] == (a[i] != b[i])
  {
    seq(|a|, i requires 0 <= i < |a| => a[i] != b[i])
  }

  function XorBytes(a: seq<bv8>, b: seq<bv8>): (c: seq<bv8>)
    requires |a| == |b|
    ensures |c| == |a|
    ensures forall i | 0 <= i < |a| :: c[i] == a[i] ^ b[i]
  {
    seq(|a|, i requires 0 <= i < |a| => a[i] ^ b[i])
  }

  /** The positions, in serial order, at which two messages differ. */
  function Difference(a: seq<bv8>, b: seq<bv8>): (e: seq<bool>)
    requires |a| == |b|
    ensures |e| == 8 * |a|
  {
    XorBits(Bits(a), Bits(b))
  }

  /** What a difference pattern does to the CRC: the register it leaves when started from zero. */
  function Syndrome(e: seq<bool>): bv16 {
    Serial(0, e)
  }

  // ---------- linearity ----------

  lemma BitValueXor(a: bool, b: bool)
    ensures BitValue(a != b) == Xor(BitValue(a), BitValue(b))
  {
  }

  lemma ClockXor(r: bv16, s: bv16, a: bool, b: bool)
    ensures Clock(Xor(r, s), a != b) == Xor(Clock(r, a), Clock(s, b))
  {
    hide Xor, Shift, BitValue;
    BitValueXor(a, b);
    XorInterchange(r, s, BitValue(a), BitValue(b));
    ShiftXor(Xor(r, BitValue(a)), Xor(s, BitValue(b)));
  }

  lemma {:induction false} SerialXor(r: bv16, s: bv16, a: seq<bool>, b: seq<bool>)
    requires |a| == |b|
    ensures Serial(Xor(r, s), XorBits(a, b)) == Xor(Serial(r, a), Serial(s, b))
    decreases |a|
  {
    hide Xor, Clock;
    if a != [] {
      ClockXor(r, s, a[0], b[0]);
      SerialXor(Clock(r, a[0]), Clock(s, b[0]), a[1..], b[1..]);
      assert XorBits(a, b)[1..] == XorBits(a[1..], b[1..]);
    }
  }

  /** Two messages of one length collide exactly when their difference has syndrome zero. */
  lemma CollisionIsZeroSyndrome(a: seq<bv8>, b: seq<bv8>)
    requires |a| == |b|
    ensures Xor(Crc(a), Crc(b)) == Syndrome(Difference(a, b))
    ensures Crc(a) == Crc(b) <==> Syndrome(Difference(a, b)) == 0
  {
    hide Xor, Serial, Bits;
    XorCancels(Crc(a), Crc(b));
    XorZero(INITIAL);
    SerialXor(INITIAL, INITIAL, Bits(a), Bits(b));
  }

  lemma LowBitXor(v: bv16, w: bv16)
    ensures LowBit(Xor(v, w)) == (LowBit(v) != LowBit(w))
  {
    LowBitValue(v);
    LowBitValue(w);
    LowBitValue(Xor(v, w));
    MaskXor(v, w);
    BitValueXor(LowBit(v), LowBit(w));
    hide LowBit, Xor;
  }

  lemma MaskXor(v: bv16, w: bv16)
    ensures Xor(v, w) & 1 == Xor(v & 1, w & 1)
  {
    assert (v ^ w) & 1 == (v & 1) ^ (w & 1);
  }

  lemma HalveXor(v: bv16, w: bv16)
    ensures Halve(Xor(v, w)) == Xor(Halve(v), Halve(w))
  {
    assert (v ^ w) >> 1 == (v >> 1) ^ (w >> 1);
  }

  lemma {:induction false} LowBitsXor(v: bv16, w: bv16, n: nat)
    ensures LowBits(Xor(v, w), n) == XorBits(LowBits(v, n), LowBits(w, n))
    decreases n
  {
    hide Xor, LowBit, Halve;
    if n > 0 {
      LowBitXor(v, w);
      HalveXor(v, w);
      LowBitsXor(Halve(v), Halve(w), n - 1);
    }
  }

  lemma ByteBitsXor(c: bv8, d: bv8)
    ensures ByteBits(c ^ d) == XorBits(ByteBits(c), ByteBits(d))
  {
    assert (c ^ d) as bv16 == (c as bv16) ^ (d as bv16);
    assert Xor(c as bv16, d as bv16) == (c ^ d) as bv16;
    LowBitsXor(c as bv16, d as bv16, 8);
    hide Xor, LowBits;
  }

  lemma XorBitsConcat(a: seq<bool>, a': seq<bool>, b: seq<bool>, b': seq<bool>)
    requires |a| == |b| && |a'| == |b'|
    ensures XorBits(a + a', b + b') == XorBits(a, b) + XorBits(a', b')
  {
  }

  lemma {:induction false} BitsXor(a: seq<bv8>, b: seq<bv8>)
    requires |a| == |b|
    ensures Bits(XorBytes(a, b)) == Difference(a, b)
  {
    hide ByteBits, XorBits;
    if a != [] {
      ByteBitsXor(a[0], b[0]);
      BitsXor(a[1..], b[1..]);
      XorBitsConcat(ByteBits(a[0]), Bits(a[1..]), ByteBits(b[0]), Bits(b[1..]));
      assert XorBytes(a, b)[1..] == XorBytes(a[1..], b[1..]);
    }
  }

  /** The CRC of an xor of three messages is the xor of their CRCs. */
  lemma CrcIsAffine(a: seq<bv8>, b: seq<bv8>, c: seq<bv8>)
    requires |a| == |b| == |c|
    ensures Crc(XorBytes(XorBytes(a, b), c)) == Xor(Xor(Crc(a), Crc(b)), Crc(c))
  {
    var ab := XorBytes(a, b);
    BitsXor(a, b);
    BitsXor(ab, c);
    assert Bits(XorBytes(ab, c)) == XorBits(XorBits(Bits(a), Bits(b)), Bits(c));
    hide Xor, Serial, Bits;
    XorZero(INITIAL);
    SerialXor(INITIAL, INITIAL, Bits(a), Bits(b));
    SerialXor(0, INITIAL, XorBits(Bits(a), Bits(b)), Bits(c));
  }

  lemma SwapBytesXor(a: bv16, b: bv16)
    ensures Packing.SwapBytes(Xor(a, b)) == Xor(Packing.SwapBytes(a), Packing.SwapBytes(b))
  {
    assert (((a ^ b) & 0x00ff) << 8) | (((a ^ b) & 0xff00) >> 8)
        == (((a & 0x00ff) << 8) | ((a & 0xff00) >> 8)) ^ (((b & 0x00ff) << 8) | ((b & 0xff00) >> 8));
  }

  /** The byte-swapped checksum is affine too. */
  lemma SwappedCrcIsAffine(a: seq<bv8>, b: seq<bv8>, c: seq<bv8>)
    requires |a| == |b| == |c|
    ensures Packing.SwapBytes(Crc(XorBytes(XorBytes(a, b), c)))
         == Xor(Xor(Packing.SwapBytes(Crc(a)), Packing.SwapBytes(Crc(b))), Packing.SwapBytes(Crc(c)))
  {
    hide *;
    CrcIsAffine(a, b, c);
    SwapBytesXor(Xor(Crc(a), Crc(b)), Crc(c));
    SwapBytesXor(Crc(a), Crc(b));
  }

  // ---------- parity ----------

  /** How many bits of the string are set. */
  function Weight(bits: seq<bool>): nat {
    if bits == [] then 0 else (if bits[0] then 1 else 0) + Weight(bits[1..])
  }

  /** The weight is the number of ones. */
  lemma {:induction false} WeightAppend(bits: seq<bool>, b: bool)
    ensures Weight([]) == 0
    ensures Weight(bits + [b]) == Weight(bits) + if b then 1 else 0
  {
    if bits == [] {
      assert bits + [b] == [b] && [b][1..] == [];
    } else {
      assert (bits + [b])[0] == bits[0] && (bits + [b])[1..] == bits[1..] + [b];
      WeightAppend(bits[1..], b);
    }
  }

  predicate Odd(bits: seq<bool>) {
    Weight(bits) % 2 == 1
  }

  predicate OddWord(r: bv16) {
    Odd(LowBits(r, 16))
  }

  lemma {:induction false} OddXor(a: seq<bool>, b: seq<bool>)
    requires |a| == |b|
    ensures Odd(XorBits(a, b)) == (Odd(a) != Odd(b))
  {
    if a != [] {
      OddXor(a[1..], b[1..]);
      assert XorBits(a, b)[1..] == XorBits(a[1..], b[1..]);
    }
  }

  lemma {:induction false} OddLast(v: bv16, n: nat)
    ensures Odd(LowBits(v, n + 1)) == (Odd(LowBits(v, n)) != LowBit(Halves(v, n)))
    decreases n
  {
    hide LowBit, Halve;
    OddStep(v, n + 1);
    if n > 0 {
      OddLast(Halve(v), n - 1);
      OddStep(v, n);
      assert Halves(v, n) == Halves(Halve(v), n - 1);
      hide Odd, LowBits, Halves;
    }
  }

  /** Dropping the low bit takes exactly that bit out of the parity. */
  lemma OddHalve(r: bv16)
    ensures OddWord(Halve(r)) == (OddWord(r) != LowBit(r))
  {
    assert OddWord(r) == Odd(LowBits(r, 16)) && OddWord(Halve(r)) == Odd(LowBits(Halve(r), 16));
    hide *;
    OddLast(r, 16);
    OddStep(r, 17);
    WordHalvesAway(r);
    ZeroHasNoLowBit();
  }

  lemma ZeroHasNoLowBit()
    ensures !LowBit(0)
  {
  }

  lemma ShiftByCases(r: bv16)
    ensures Shift(r) == Xor(Halve(r), if LowBit(r) then POLYNOMIAL else 0)
  {
    XorZero(Halve(r));
  }

  lemma OddStep(v: bv16, n: nat)
    requires n > 0
    ensures Odd(LowBits(v, n)) == (LowBit(v) != Odd(LowBits(Halve(v), n - 1)))
  {
    assert LowBits(v, n)[1..] == LowBits(Halve(v), n - 1);
  }

  lemma OddPolynomial()
    ensures OddWord(POLYNOMIAL)
  {
    OddPolynomialHigh();
    hide LowBits, Odd;
    OddStep(0xa001, 16);
    OddStep(0x5000, 15);
    OddStep(0x2800, 14);
    OddStep(0x1400, 13);
    OddStep(0x0a00, 12);
    OddStep(0x0500, 11);
    OddStep(0x0280, 10);
    OddStep(0x0140, 9);
  }

  lemma OddPolynomialHigh()
    ensures !Odd(LowBits(0x00a0, 8))
  {
    ZeroBits(0);
    hide LowBits, Odd;
    OddStep(0x00a0, 8);
    OddStep(0x0050, 7);
    OddStep(0x0028, 6);
    OddStep(0x0014, 5);
    OddStep(0x000a, 4);
    OddStep(0x0005, 3);
    OddStep(0x0002, 2);
    OddStep(0x0001, 1);
  }

  lemma EvenInitial()
    ensures !OddWord(INITIAL)
  {
    EvenInitialHigh();
    hide LowBits, Odd;
    OddStep(0xffff, 16);
    OddStep(0x7fff, 15);
    OddStep(0x3fff, 14);
    OddStep(0x1fff, 13);
    OddStep(0x0fff, 12);
    OddStep(0x07ff, 11);
    OddStep(0x03ff, 10);
    OddStep(0x01ff, 9);
  }

  lemma EvenInitialHigh()
    ensures !Odd(LowBits(0x00ff, 8))
  {
    ZeroBits(0);
    hide LowBits, Odd;
    OddStep(0x00ff, 8);
    OddStep(0x007f, 7);
    OddStep(0x003f, 6);
    OddStep(0x001f, 5);
    OddStep(0x000f, 4);
    OddStep(0x0007, 3);
    OddStep(0x0003, 2);
    OddStep(0x0001, 1);
  }

  lemma {:induction false} ZeroBits(n: nat)
    ensures Weight(LowBits(0, n)) == 0
  {
    if n > 0 {
      ZeroBits(n - 1);
      assert Halve(0) == 0;
      assert LowBits(0, n)[1..] == LowBits(0, n - 1);
    }
  }

  /** Because the polynomial has an odd number of low terms, the step keeps the register's parity. */
  lemma ShiftKeepsParity(r: bv16)
    ensures OddWord(Shift(r)) == OddWord(r)
  {
    hide *;
    ShiftByCases(r);
    OddHalve(r);
    OddPolynomial();
    EvenZero();
    OddWordXor(Halve(r), if LowBit(r) then POLYNOMIAL else 0);
  }

  lemma OddWordXor(v: bv16, w: bv16)
    ensures OddWord(Xor(v, w)) == (OddWord(v) != OddWord(w))
  {
    hide Xor, LowBits, Odd;
    LowBitsXor(v, w, 16);
    OddXor(LowBits(v, 16), LowBits(w, 16));
  }

  lemma EvenZero()
    ensures !OddWord(0)
  {
    ZeroBits(16);
  }

  lemma OddBitValue(b: bool)
    ensures OddWord(BitValue(b)) == b
  {
    EvenZero();
    OddHalve(1);
    assert Halve(1) == 0 && LowBit(1);
    hide OddWord;
  }

  /** The register's parity accumulates the parity of the bits clocked in. */
  lemma {:induction false} SerialParity(r: bv16, bits: seq<bool>)
    ensures OddWord(Serial(r, bits)) == (OddWord(r) != Odd(bits))
    decreases |bits|
  {
    hide OddWord, Xor, Shift, BitValue;
    if bits != [] {
      var b := bits[0];
      SerialParity(Clock(r, b), bits[1..]);
      ShiftKeepsParity(Xor(r, BitValue(b)));
      OddWordXor(r, BitValue(b));
      OddBitValue(b);
    }
  }

  /** The parity of the CRC is the parity of the whole message. */
  lemma CrcParity(data: seq<bv8>)
    ensures OddWord(Crc(data)) == Odd(Bits(data))
  {
    hide *;
    EvenInitial();
    SerialParity(INITIAL, Bits(data));
    CrcIsSerial(data);
  }

  lemma CrcIsSerial(data: seq<bv8>)
    ensures Crc(data) == Serial(INITIAL, Bits(data))
  {
  }

  /** Any odd number of flipped bits changes the CRC, wherever they fall. */
  lemma OddErrorsDetected(a: seq<bv8>, b: seq<bv8>)
    requires |a| == |b| && Weight(Difference(a, b)) % 2 == 1
    ensures Crc(a) != Crc(b)
  {
    CrcParity(a);
    CrcParity(b);
    OddXor(Bits(a), Bits(b));
    hide OddWord, Crc, Bits, Weight;
  }

  // ---------- a frame that carries its checksum ----------

  function LowByte(r: bv16): bv8 {
    (r & 0x00ff) as bv8
  }

  function HighByte(r: bv16): bv8 {
    ((r & 0xff00) >> 8) as bv8
  }

  function JoinBytes(lo: bv8, hi: bv8): bv16 {
    ((hi as bv16) << 8) | (lo as bv16)
  }

  lemma SplitJoins(r: bv16)
    ensures JoinBytes(LowByte(r), HighByte(r)) == r
  {
    assert ((((r & 0xff00) >> 8) << 8) | (r & 0x00ff)) == r;
  }

  lemma JoinSplits(lo: bv8, hi: bv8)
    ensures LowByte(JoinBytes(lo, hi)) == lo
    ensures HighByte(JoinBytes(lo, hi)) == hi
  {
  }

  lemma WordIsXor(lo: bv8, hi: bv8)
    ensures JoinBytes(lo, hi) == Xor(lo as bv16, (hi as bv16) << 8)
  {
  }

  lemma EightShifts(hi: bv8)
    ensures Shifts((hi as bv16) << 8, 8) == hi as bv16
  {
    var v := (hi as bv16) << 8;
    WordIsSerial(0, v, 8);
    EightHalves(v);
    XorZero(v);
  }

  lemma TwoBytes(c: bv16, lo: bv8, hi: bv8)
    ensures Serial(c, Bits([lo, hi])) == Shifts(Xor(c, JoinBytes(lo, hi)), 16)
  {
    var h := (hi as bv16) << 8;
    assert Bits([lo, hi]) == ByteBits(lo) + ByteBits(hi) by {
      assert [lo, hi][1..] == [hi] && [hi][1..] == [];
      hide ByteBits;
    }
    hide *;
    var mid := Serial(c, ByteBits(lo));
    SerialConcat(c, ByteBits(lo), ByteBits(hi));
    ByteIsSerial(c, lo);
    ByteIsSerial(mid, hi);
    EightShifts(hi);
    ShiftsXor(Xor(c, lo as bv16), h, 8);
    ShiftsAdd(Xor(Xor(c, lo as bv16), h), 8, 8);
    XorAssociates(c, lo as bv16, h);
    WordIsXor(lo, hi);
  }

  /**
   A frame has CRC zero exactly when its last two bytes are the CRC of the bytes before them,
   low byte first.
   */
  lemma FrameResidue(data: seq<bv8>, lo: bv8, hi: bv8)
    ensures Crc(data + [lo, hi]) == 0 <==> lo == LowByte(Crc(data)) && hi == HighByte(Crc(data))
  {
    hide *;
    var c := Crc(data);
    CrcConcat(data, [lo, hi]);
    TwoBytes(c, lo, hi);
    ShiftsZero(16);
    ShiftsInjective(Xor(c, JoinBytes(lo, hi)), 0, 16);
    XorCancels(c, JoinBytes(lo, hi));
    SplitJoins(c);
    JoinSplits(lo, hi);
  }
}
