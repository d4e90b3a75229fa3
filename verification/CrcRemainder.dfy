/**
 The register of `src/utils.c` holds the bit-reversed remainder of a polynomial division, and two
 messages of one length collide exactly when the generator divides their difference.
 */
module CrcRemainder {
  import opened Register
  import opened CrcEngine
  import opened CrcDetection
  import opened Gf2

  /** A bit string read as a polynomial, first bit the highest power. */
  function BitsPoly(bits: seq<bool>): (p: Poly)
    ensures forall e: nat {:trigger e in p} :: e in p <==> e < |bits| && bits[|bits| - 1 - e]
  {
    set i: nat | i < |bits| && bits[i] :: |bits| - 1 - i
  }

  /** The register read from its low end, so the lowest bit is the coefficient of x^15. */
  function RegisterPoly(r: bv16): Poly {
    BitsPoly(LowBits(r, 16))
  }

  /** x^15 + ... + x + 1 */
  const INITIAL_TERMS: Poly := {0, 1, 2, 3, 4, 5, 6, 7, 8, 9, 10, 11, 12, 13, 14, 15}

  function Monomial(b: bool, k: nat): Poly {
    if b then {k} else {}
  }

  /** The dividend of the standard: M(x)x^16, plus the initial ones in front of the message. */
  function Dividend(bits: seq<bool>): Poly {
    Add(Scale(BitsPoly(bits), 16), Scale(INITIAL_TERMS, |bits|))
  }

  // ---------- bit strings and polynomials ----------

  lemma PolyXor(a: seq<bool>, b: seq<bool>)
    requires |a| == |b|
    ensures BitsPoly(XorBits(a, b)) == Add(BitsPoly(a), BitsPoly(b))
  {
  }

  lemma PolyAppendZero(bits: seq<bool>)
    ensures BitsPoly(bits + [false]) == Scale(BitsPoly(bits), 1)
  {
  }

  lemma PolySplit(bits: seq<bool>)
    requires bits != []
    ensures BitsPoly(bits) == Add(Monomial(bits[0], |bits| - 1), BitsPoly(bits[1..]))
  {
  }

  lemma ScaleMonomial(b: bool, j: nat, k: nat)
    ensures Scale(Monomial(b, j), k) == Monomial(b, j + k)
  {
  }

  lemma RegisterXor(r: bv16, s: bv16)
    ensures RegisterPoly(Xor(r, s)) == Add(RegisterPoly(r), RegisterPoly(s))
  {
    hide Xor, LowBits;
    LowBitsXor(r, s, 16);
    PolyXor(LowBits(r, 16), LowBits(s, 16));
  }

  lemma RegisterDegree(r: bv16)
    ensures DegreeBelow(RegisterPoly(r), 16)
  {
    hide LowBits;
  }

  lemma {:induction false} LowBitsInjective(v: bv16, w: bv16, n: nat)
    requires LowBits(v, n) == LowBits(w, n) && Halves(v, n) == Halves(w, n)
    ensures v == w
    decreases n
  {
    hide LowBit, Halve;
    if n > 0 {
      assert LowBits(v, n)[0] == LowBit(v) && LowBits(w, n)[0] == LowBit(w);
      assert LowBits(v, n)[1..] == LowBits(Halve(v), n - 1);
      assert LowBits(w, n)[1..] == LowBits(Halve(w), n - 1);
      LowBitsInjective(Halve(v), Halve(w), n - 1);
      LowBitOut(v);
      LowBitOut(w);
    }
  }

  lemma RegisterInjective(r: bv16, s: bv16)
    requires RegisterPoly(r) == RegisterPoly(s)
    ensures r == s
  {
    hide LowBits, Halves;
    WordHalvesAway(r);
    WordHalvesAway(s);
    var a, b := LowBits(r, 16), LowBits(s, 16);
    forall i | 0 <= i < 16 ensures a[i] == b[i] {
      assert 15 - i in BitsPoly(a) <==> a[i];
      assert 15 - i in BitsPoly(b) <==> b[i];
    }
    LowBitsInjective(r, s, 16);
  }

  // ---------- particular registers ----------

  lemma RegisterSplit(r: bv16)
    ensures RegisterPoly(r) == Add(Monomial(LowBit(r), 15), BitsPoly(LowBits(Halve(r), 15)))
  {
    PolySplit(LowBits(r, 16));
    assert LowBits(r, 16)[1..] == LowBits(Halve(r), 15);
    hide LowBits, Add, BitsPoly;
  }

  /** The same bits with one more step: peels one term from a short bit string. */
  lemma LowPoly(v: bv16, n: nat)
    requires n > 0
    ensures BitsPoly(LowBits(v, n)) == Add(Monomial(LowBit(v), n - 1), BitsPoly(LowBits(Halve(v), n - 1)))
  {
    PolySplit(LowBits(v, n));
    assert LowBits(v, n)[1..] == LowBits(Halve(v), n - 1);
    hide LowBits, Add, BitsPoly;
  }

  lemma {:induction false} ZeroPoly(n: nat)
    ensures BitsPoly(LowBits(0, n)) == {}
  {
    if n > 0 {
      ZeroPoly(n - 1);
      LowPoly(0, n);
      assert Halve(0) == 0 && !LowBit(0);
      hide LowBits, BitsPoly;
    }
  }

  lemma OnePoly()
    ensures RegisterPoly(1) == {15}
  {
    RegisterSplit(1);
    ZeroPoly(15);
    assert Halve(1) == 0 && LowBit(1);
    hide LowBits, BitsPoly;
  }

  lemma BitValuePoly(b: bool)
    ensures RegisterPoly(BitValue(b)) == Monomial(b, 15)
  {
    OnePoly();
    ZeroPoly(16);
    hide RegisterPoly;
  }

  lemma PolynomialPoly()
    ensures RegisterPoly(POLYNOMIAL) == {0, 2, 15}
  {
    PolynomialPolyHigh();
    hide LowBits, BitsPoly;
    LowPoly(0xa001, 16);
    LowPoly(0x5000, 15);
    LowPoly(0x2800, 14);
    LowPoly(0x1400, 13);
    LowPoly(0x0a00, 12);
    LowPoly(0x0500, 11);
    LowPoly(0x0280, 10);
    LowPoly(0x0140, 9);
  }

  lemma PolynomialPolyHigh()
    ensures BitsPoly(LowBits(0x00a0, 8)) == {0, 2}
  {
    ZeroPoly(0);
    hide LowBits, BitsPoly;
    LowPoly(0x00a0, 8);
    LowPoly(0x0050, 7);
    LowPoly(0x0028, 6);
    LowPoly(0x0014, 5);
    LowPoly(0x000a, 4);
    LowPoly(0x0005, 3);
    LowPoly(0x0002, 2);
    LowPoly(0x0001, 1);
  }

  lemma InitialPoly()
    ensures RegisterPoly(INITIAL) == INITIAL_TERMS
  {
    InitialPolyHigh();
    hide LowBits, BitsPoly;
    LowPoly(0xffff, 16);
    LowPoly(0x7fff, 15);
    LowPoly(0x3fff, 14);
    LowPoly(0x1fff, 13);
    LowPoly(0x0fff, 12);
    LowPoly(0x07ff, 11);
    LowPoly(0x03ff, 10);
    LowPoly(0x01ff, 9);
  }

  lemma InitialPolyHigh()
    ensures BitsPoly(LowBits(0x00ff, 8)) == {0, 1, 2, 3, 4, 5, 6, 7}
  {
    InitialPolyTop();
    hide LowBits, BitsPoly;
    LowPoly(0x00ff, 8);
    LowPoly(0x007f, 7);
    LowPoly(0x003f, 6);
    LowPoly(0x001f, 5);
  }

  lemma InitialPolyTop()
    ensures BitsPoly(LowBits(0x000f, 4)) == {0, 1, 2, 3}
  {
    ZeroPoly(0);
    hide LowBits, BitsPoly;
    LowPoly(0x000f, 4);
    LowPoly(0x0007, 3);
    LowPoly(0x0003, 2);
    LowPoly(0x0001, 1);
  }

  // ---------- the step is multiplication by x ----------

  /** One register step multiplies by x modulo the generator. */
  lemma ShiftPoly(r: bv16)
    ensures Congruent(RegisterPoly(Shift(r)), Scale(RegisterPoly(r), 1))
  {
    var t, low := LowBit(r), BitsPoly(LowBits(Halve(r), 15));
    assert RegisterPoly(Halve(r)) == Scale(low, 1) by {
      HalveBits(r);
      PolyAppendZero(LowBits(Halve(r), 15));
    }
    RegisterSplit(r);
    ShiftByCases(r);
    ZeroPoly(16);
    PolynomialPoly();
    RegisterXor(Halve(r), if t then POLYNOMIAL else 0);
    hide RegisterPoly, Xor, Shift, LowBit, Halve;
    StepDifference(low, t);
  }

  lemma HalveBits(r: bv16)
    ensures LowBits(Halve(r), 16) == LowBits(Halve(r), 15) + [false]
  {
    LowBitsLast(Halve(r), 15);
    HalvesAdd(r, 1, 15);
    assert Halves(r, 1) == Halve(r);
    WordHalvesAway(r);
    ZeroHasNoLowBit();
    hide LowBits, Halves, Halve, LowBit;
  }

  lemma {:induction false} LowBitsLast(v: bv16, n: nat)
    ensures LowBits(v, n + 1) == LowBits(v, n) + [LowBit(Halves(v, n))]
    decreases n
  {
    hide LowBit, Halve;
    if n == 0 {
      assert LowBits(Halve(v), 0) == [];
    } else {
      LowBitsLast(Halve(v), n - 1);
    }
  }

  lemma StepDifference(low: Poly, t: bool)
    ensures Congruent(Add(Scale(low, 1), if t then {0, 2, 15} else {}), Scale(Add(Monomial(t, 15), low), 1))
  {
    var p, q := Add(Scale(low, 1), if t then {0, 2, 15} else {}), Scale(Add(Monomial(t, 15), low), 1);
    ScaleAdd(Monomial(t, 15), low, 1);
    ScaleMonomial(t, 15, 1);
    if t {
      assert Add(p, q) == GENERATOR;
      GeneratorMonomial(0);
      assert Scale(GENERATOR, 0) == GENERATOR;
    } else {
      assert Add(p, q) == {};
      ZeroDivides();
    }
  }

  lemma ClockPoly(r: bv16, b: bool)
    ensures Congruent(RegisterPoly(Clock(r, b)), Add(Scale(RegisterPoly(r), 1), Monomial(b, 16)))
  {
    hide RegisterPoly, Xor, Shift, BitValue, Add, Scale, Monomial, Congruent;
    ShiftPoly(Xor(r, BitValue(b)));
    RegisterXor(r, BitValue(b));
    BitValuePoly(b);
    ScaleAdd(RegisterPoly(r), Monomial(b, 15), 1);
    ScaleMonomial(b, 15, 1);
  }

  /** Clocking in a bit string computes S(x)x^16 + R(x)x^n modulo the generator. */
  lemma {:induction false} SerialPoly(r: bv16, bits: seq<bool>)
    ensures Congruent(RegisterPoly(Serial(r, bits)),
                      Add(Scale(BitsPoly(bits), 16), Scale(RegisterPoly(r), |bits|)))
    decreases |bits|
  {
    hide RegisterPoly, Clock, Add, Scale, BitsPoly, Monomial, Congruent;
    var R := RegisterPoly(r);
    if bits == [] {
      EmptyPoly(R);
      CongruentReflexive(R);
    } else {
      var b, rest, n := bits[0], bits[1..], |bits| - 1;
      var s := Clock(r, b);
      var xR := Add(Scale(R, 1), Monomial(b, 16));
      var S := Scale(BitsPoly(rest), 16);
      SerialPoly(s, rest);
      ClockPoly(r, b);
      CongruentScale(RegisterPoly(s), xR, n);
      CongruentReflexive(S);
      CongruentAdd(S, S, Scale(RegisterPoly(s), n), Scale(xR, n));
      CongruentTransitive(RegisterPoly(Serial(s, rest)), Add(S, Scale(RegisterPoly(s), n)), Add(S, Scale(xR, n)));
      SerialStep(R, bits);
    }
  }

  lemma EmptyPoly(p: Poly)
    ensures Add(Scale(BitsPoly([]), 16), Scale(p, 0)) == p
  {
    assert BitsPoly([]) == {};
  }

  lemma SerialStep(p: Poly, bits: seq<bool>)
    requires bits != []
    ensures Add(Scale(BitsPoly(bits[1..]), 16), Scale(Add(Scale(p, 1), Monomial(bits[0], 16)), |bits| - 1))
         == Add(Scale(BitsPoly(bits), 16), Scale(p, |bits|))
  {
    hide *;
    var b, n := bits[0], |bits| - 1;
    var S, T, m := Scale(BitsPoly(bits[1..]), 16), Scale(p, n + 1), Monomial(b, n + 16);
    PolySplit(bits);
    ScaleAdd(Monomial(b, n), BitsPoly(bits[1..]), 16);
    ScaleMonomial(b, n, 16);
    ScaleAdd(Scale(p, 1), Monomial(b, 16), n);
    ScaleScale(p, 1, n);
    ScaleMonomial(b, 16, n);
    AddLaws(m, S, T);
    AddLaws(S, T, m);
    AddLaws(S, m, T);
    AddLaws(T, m, S);
  }

  // ---------- main results ----------

  /**
   The nested loop is polynomial division: the register ends as the bit-reversed remainder of
   M(x)x^16 + (x^15 + ... + 1)x^n by the generator, for an n-bit message M.
   */
  lemma CrcIsRemainder(data: seq<bv8>)
    ensures RegisterPoly(Crc(data)) == Remainder(Dividend(Bits(data)), 8 * |data| + 16)
  {
    hide *;
    var bits := Bits(data);
    CrcIsSerial(data);
    SerialPoly(INITIAL, bits);
    InitialPoly();
    DividendMeaning(bits);
    RegisterDegree(Crc(data));
    RemainderUnique(Dividend(bits), |bits| + 16, RegisterPoly(Crc(data)));
  }

  lemma DividendMeaning(bits: seq<bool>)
    ensures Dividend(bits) == Add(Scale(BitsPoly(bits), 16), Scale(INITIAL_TERMS, |bits|))
    ensures DegreeBelow(Dividend(bits), |bits| + 16)
  {
    forall e | e in Dividend(bits) ensures e < |bits| + 16 {
      assert e in Scale(BitsPoly(bits), 16) || e in Scale(INITIAL_TERMS, |bits|);
    }
  }

  /** A difference pattern is invisible to the CRC exactly when the generator divides it. */
  lemma ZeroSyndrome(e: seq<bool>)
    ensures Syndrome(e) == 0 <==> Divides(BitsPoly(e))
  {
    hide *;
    var p, s := BitsPoly(e), RegisterPoly(Syndrome(e));
    SyndromeIsSerial(e);
    SerialPoly(0, e);
    ZeroRegister();
    ScaleZero(|e|);
    AddLaws(Scale(p, 16), s, s);
    assert Congruent(s, Scale(p, 16));
    if Syndrome(e) == 0 {
      AddLaws({}, Scale(p, 16), s);
      AddLaws(Scale(p, 16), {}, s);
      CongruentMeaning({}, Scale(p, 16));
      ScaleCancels(p, 16);
    }
    if Divides(p) {
      DividesScale(p, 16);
      CongruentMeaning(s, Scale(p, 16));
      DividesAdd(Add(s, Scale(p, 16)), Scale(p, 16));
      AddLaws(s, Scale(p, 16), Scale(p, 16));
      AddLaws(s, s, s);
      RegisterDegree(Syndrome(e));
      SmallMultipleIsZero(s);
      RegisterInjective(Syndrome(e), 0);
    }
  }

  lemma SyndromeIsSerial(e: seq<bool>)
    ensures Syndrome(e) == Serial(0, e)
  {
  }

  lemma CongruentMeaning(p: Poly, q: Poly)
    ensures Congruent(p, q) <==> Divides(Add(p, q))
  {
  }

  lemma ZeroRegister()
    ensures RegisterPoly(0) == {}
  {
    ZeroPoly(16);
  }

  lemma ScaleZero(k: nat)
    ensures Scale({}, k) == {}
  {
  }

  /** Two messages of one length collide exactly when the generator divides their difference. */
  lemma CollisionIsDivisibility(a: seq<bv8>, b: seq<bv8>)
    requires |a| == |b|
    ensures Crc(a) == Crc(b) <==> Divides(BitsPoly(Difference(a, b)))
  {
    hide *;
    CollisionIsZeroSyndrome(a, b);
    ZeroSyndrome(Difference(a, b));
  }

  // ---------- bursts ----------

  lemma ByteBitsInjective(c: bv8, d: bv8)
    requires ByteBits(c) == ByteBits(d)
    ensures c == d
  {
    ByteHalvesAway(c);
    ByteHalvesAway(d);
    LowBitsInjective(c as bv16, d as bv16, 8);
    assert (c as bv16) as bv8 == c && (d as bv16) as bv8 == d;
    hide LowBits, Halves;
  }

  lemma {:induction false} BitsInjective(a: seq<bv8>, b: seq<bv8>)
    requires |a| == |b| && Bits(a) == Bits(b)
    ensures a == b
  {
    hide ByteBits;
    if a != [] {
      assert ByteBits(a[0]) == Bits(a)[..8] == Bits(b)[..8] == ByteBits(b[0]);
      assert Bits(a[1..]) == Bits(a)[8..] == Bits(b)[8..] == Bits(b[1..]);
      ByteBitsInjective(a[0], b[0]);
      BitsInjective(a[1..], b[1..]);
    }
  }

  /** Differing bits confined to 16 consecutive places, at any offset, always change the CRC. */
  lemma BurstDetected(a: seq<bv8>, b: seq<bv8>, start: nat)
    requires |a| == |b| && a != b
    requires forall i | 0 <= i < 8 * |a| && Bits(a)[i] != Bits(b)[i] :: start <= i < start + 16
    ensures Crc(a) != Crc(b)
  {
    hide Crc, Bits, Divides;
    var e := Difference(a, b);
    var p := BitsPoly(e);
    var n := |e|;
    var low := if n >= start + 16 then n - start - 16 else 0;
    if Crc(a) == Crc(b) {
      CollisionIsDivisibility(a, b);
      var w := Window(p, low);
      assert DegreeBelow(w, 16);
      ScaleCancels(w, low);
      SmallMultipleIsZero(w);
      ScaleZero(low);
      forall i | 0 <= i < n ensures Bits(a)[i] == Bits(b)[i] {
        assert n - 1 - i !in p;
      }
      BitsInjective(a, b);
    }
  }

  /** p / x^k, for a p with no term below x^k. */
  lemma Window(p: Poly, k: nat) returns (w: Poly)
    requires forall e | e in p :: k <= e
    ensures p == Scale(w, k)
    ensures forall e: nat {:trigger e in w} :: e in w ==> e + k in p
  {
    w := set e | e in p :: e - k;
    forall e: nat ensures e in p <==> e in Scale(w, k) {
      if e in p {
        assert e - k in w;
      }
      if k <= e && e - k in w {
        var f :| f in p && f - k == e - k;
      }
    }
  }
}
