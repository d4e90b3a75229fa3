/**
 The CRC-16 functions of `src/utils.c`.

 The C code xors a whole byte into the register and then shifts eight times.  The reference here
 is bit-serial: one message bit at a time, low bit of each byte first.  The two methods are proved
 to compute the reference, so every theorem about it (CrcRemainder, CrcDetection, CrcOrder) is a
 theorem about the C code.
 */
module CrcEngine {
  import opened Register
  import Packing

  const INITIAL: bv16 := 0xffff

  /** One turn of the bit-serial register: the message bit is added at the low end before the shift. */
  function Clock(r: bv16, b: bool): bv16 {
    Shift(Xor(r, BitValue(b)))
  }

  function Serial(r: bv16, bits: seq<bool>): bv16
    decreases |bits|
  {
    if bits == [] then r else Serial(Clock(r, bits[0]), bits[1..])
  }

  /** The `n` lowest bits of a word, lowest first. */
  function LowBits(v: bv16, n: nat): (bits: seq<bool>)
    ensures |bits| == n
    decreases n
  {
    if n == 0 then [] else [LowBit(v)] + LowBits(Halve(v), n - 1)
  }

  /** The bits of a byte in the order the engine consumes them. */
  function ByteBits(d: bv8): (bits: seq<bool>)
    ensures |bits| == 8
  {
    LowBits(d as bv16, 8)
  }

  /** A message as the bit string the engine consumes. */
  function Bits(data: seq<bv8>): (bits: seq<bool>)
    ensures |bits| == 8 * |data|
  {
    if data == [] then [] else ByteBits(data[0]) + Bits(data[1..])
  }

  function Crc(data: seq<bv8>): bv16 {
    Serial(INITIAL, Bits(data))
  }

  // ---------- the serial register ----------

  lemma {:induction false} SerialConcat(r: bv16, a: seq<bool>, b: seq<bool>)
    ensures Serial(r, a + b) == Serial(Serial(r, a), b)
    decreases |a|
  {
    hide Clock;
    if a == [] {
      assert a + b == b;
    } else {
      assert (a + b)[1..] == a[1..] + b;
      SerialConcat(Clock(r, a[0]), a[1..], b);
    }
  }

  lemma {:induction false} BitsConcat(a: seq<bv8>, b: seq<bv8>)
    ensures Bits(a + b) == Bits(a) + Bits(b)
  {
    hide ByteBits;
    if a == [] {
      assert a + b == b;
    } else {
      assert (a + b)[1..] == a[1..] + b;
      BitsConcat(a[1..], b);
    }
  }

  lemma CrcConcat(a: seq<bv8>, b: seq<bv8>)
    ensures Crc(a + b) == Serial(Crc(a), Bits(b))
  {
    hide Serial, Bits;
    BitsConcat(a, b);
    SerialConcat(INITIAL, Bits(a), Bits(b));
  }

  // ---------- a word xored in at once ----------

  function Halves(v: bv16, n: nat): bv16
    decreases n
  {
    if n == 0 then v else Halves(Halve(v), n - 1)
  }

  /**
   Xoring a word in at once and shifting `n` times clocks its `n` low bits in one by one, and
   leaves the bits above them, moved down, still to be added.
   */
  lemma {:induction false} WordIsSerial(r: bv16, v: bv16, n: nat)
    ensures Shifts(Xor(r, v), n) == Xor(Serial(r, LowBits(v, n)), Halves(v, n))
    decreases n
  {
    hide Shift, Xor, LowBit, Halve, BitValue;
    if n > 0 {
      ShiftSplits(r, v);
      WordIsSerial(Clock(r, LowBit(v)), Halve(v), n - 1);
      assert LowBits(v, n)[1..] == LowBits(Halve(v), n - 1);
    }
  }

  lemma EightHalves(v: bv16)
    ensures Halves(v, 8) == v >> 8
  {
    assert Halves(v, 8) == Halves(v >> 1 >> 1, 6) == Halves(v >> 1 >> 1 >> 1 >> 1, 4);
    assert v >> 1 >> 1 >> 1 >> 1 >> 1 >> 1 >> 1 >> 1 == v >> 8;
  }

  lemma ByteHalvesAway(d: bv8)
    ensures Halves(d as bv16, 8) == 0
  {
    EightHalves(d as bv16);
  }

  lemma {:induction false} HalvesAdd(v: bv16, m: nat, n: nat)
    ensures Halves(v, m + n) == Halves(Halves(v, m), n)
    decreases m
  {
    hide Halve;
    if m > 0 {
      HalvesAdd(Halve(v), m - 1, n);
    }
  }

  lemma WordHalvesAway(v: bv16)
    ensures Halves(v, 16) == 0
  {
    hide Halves;
    HalvesAdd(v, 8, 8);
    EightHalves(v);
    EightHalves(v >> 8);
  }

  /** The byte form of the C code is the bit-serial form. */
  lemma ByteIsSerial(r: bv16, d: bv8)
    ensures Shifts(Xor(r, d as bv16), 8) == Serial(r, ByteBits(d))
  {
    hide Shifts, Xor, Serial, LowBits, Halves;
    WordIsSerial(r, d as bv16, 8);
    ByteHalvesAway(d);
    XorZero(Serial(r, LowBits(d as bv16, 8)));

  }

  // ---------- the C functions ----------

  lemma SpanDone(data: seq<bv8>, len: int, i: nat)
    requires len <= |data| && (i == len || (len < 0 && i == 0))
    ensures (if len < 0 then [] else data[..len]) == data[..i]
  {
  }

  lemma CrcOfNothing()
    ensures Crc([]) == INITIAL
  {
  }

  lemma CrcNextByte(data: seq<bv8>, d: bv8)
    ensures Crc(data + [d]) == Shifts(d as bv16 ^ Crc(data), 8)
  {
    ByteIsSerial(Crc(data), d);
    CrcConcat(data, [d]);
    assert Bits([d]) == ByteBits(d);
    XorCommutes(Crc(data), d as bv16);
    hide Crc, Serial, Shifts, ByteBits;
  }

  lemma NoShifts(r: bv16)
    ensures Shifts(r, 0) == r
  {
  }

  lemma NextShift(r: bv16, s: bv16, j: nat) returns (next: bv16)
    requires s == Shifts(r, j)
    ensures next == Shifts(r, j + 1)
    ensures s & 0x0001 != 0 ==> next == (s >> 1) ^ 0xa001
    ensures s & 0x0001 == 0 ==> next == s >> 1
  {
    ShiftsAdd(r, j, 1);
    assert Shifts(Shifts(r, j), 1) == Shift(Shifts(r, j));
    next := Shifts(r, j + 1);
  }

  /** Eight shifts of the register with a byte added have taken that byte in. */
  lemma ByteDone(data: seq<bv8>, i: nat, r: bv16)
    requires i < |data| && r == Shifts(data[i] as bv16 ^ Crc(data[..i]), 8)
    ensures r == Crc(data[..i + 1])
  {
    CrcNextByte(data[..i], data[i]);
    assert data[..i + 1] == data[..i] + [data[i]];
  }

  method CrcBe16(data: array<bv8>, len: int) returns (crc: bv16)
    requires len <= data.Length
    ensures crc == Crc(if len < 0 then [] else data[..len])
  {
    hide *;
    var crc16: bv16 := INITIAL;
    var i := 0;
    CrcOfNothing();
    while i < len
      invariant 0 <= i && (i <= len || i == 0)
      invariant crc16 == Crc(data[..][..i])
    {
      ghost var mixed := data[i] as bv16 ^ crc16;
      crc16 := data[i] as bv16 ^ crc16;
      var j := 0;
      NoShifts(mixed);
      while j < 8
        invariant 0 <= j <= 8
        invariant crc16 == Shifts(mixed, j)
      {
        ghost var next := NextShift(mixed, crc16, j);
        var tmp := crc16 & 0x0001;
        crc16 := crc16 >> 1;
        if tmp != 0 {
          crc16 := crc16 ^ 0xa001;
          assert crc16 == next;
        } else {
          assert crc16 == next;
        }
        j := j + 1;
      }
      ByteDone(data[..], i, crc16);
      i := i + 1;
    }
    SpanDone(data[..], len, i);
    crc := crc16;
  }

  lemma SwapBytesExpression(r: bv16)
    ensures Packing.SwapBytes(r) == ((r & 0x00ff) << 8) | ((r & 0xff00) >> 8)
  {
  }

  method CrcLe16(data: array<bv8>, len: int) returns (crc: bv16)
    requires len <= data.Length
    ensures crc == Packing.SwapBytes(Crc(if len < 0 then [] else data[..len]))
  {
    hide *;
    var crc16: bv16 := INITIAL;
    var i := 0;
    CrcOfNothing();
    while i < len
      invariant 0 <= i && (i <= len || i == 0)
      invariant crc16 == Crc(data[..][..i])
    {
      ghost var mixed := data[i] as bv16 ^ crc16;
      crc16 := data[i] as bv16 ^ crc16;
      var j := 0;
      NoShifts(mixed);
      while j < 8
        invariant 0 <= j <= 8
        invariant crc16 == Shifts(mixed, j)
      {
        ghost var next := NextShift(mixed, crc16, j);
        var tmp := crc16 & 0x0001;
        crc16 := crc16 >> 1;
        if tmp != 0 {
          crc16 := crc16 ^ 0xa001;
          assert crc16 == next;
        } else {
          assert crc16 == next;
        }
        j := j + 1;
      }
      ByteDone(data[..], i, crc16);
      i := i + 1;
    }
    SpanDone(data[..], len, i);
    SwapBytesExpression(crc16);
    crc := ((crc16 & 0x00ff) << 8) | ((crc16 & 0xff00) >> 8);
  }
}
