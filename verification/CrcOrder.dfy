/**
 The period of the CRC-16 register, and with it the exact reach of two-bit error detection.

 The register is multiplication by x modulo x^16 + x^15 + x^2 + 1 = (x + 1)(x^15 + x + 1), and x
 has order 32767 = 7 * 31 * 151 there.  Powers of x are multiplied with `Product`, so the order
 is settled by a few multiplications instead of 32767 steps.
 */
module CrcOrder {
  import opened Register
  import opened CrcEngine
  import opened CrcDetection
  import opened CrcRemainder
  import opened Gf2

  /** The register that holds the polynomial 1. */
  const ONE: bv16 := 0x8000

  const PERIOD := 32767

  /** x^k modulo the generator. */
  function Power(k: nat): bv16 {
    Shifts(ONE, k)
  }

  // ---------- multiplication of registers ----------

  function Select(b: bool, a: bv16): bv16 {
    if b then a else 0
  }

  /** One turn of Horner's rule. */
  function Turn(acc: bv16, a: bv16, b: bool): bv16 {
    Xor(Shift(acc), Select(b, a))
  }

  /** Horner's rule over the `n` low bits of v, whose lowest bit is the highest power. */
  function Horner(acc: bv16, a: bv16, v: bv16, n: nat): bv16
    decreases n
  {
    if n == 0 then acc else Horner(Turn(acc, a, LowBit(v)), a, Halve(v), n - 1)
  }

  function Quarter(acc: bv16, a: bv16, v: bv16): bv16 {
    var v1 := Halve(v);
    var v2 := Halve(v1);
    Turn(Turn(Turn(Turn(acc, a, LowBit(v)), a, LowBit(v1)), a, LowBit(v2)), a, LowBit(Halve(v2)))
  }

  function NextQuarter(v: bv16): bv16 {
    Halve(Halve(Halve(Halve(v))))
  }

  /** Horner's rule over all sixteen bits, written out so that constants can be multiplied. */
  function Product(a: bv16, v: bv16): bv16 {
    var v1 := NextQuarter(v);
    var v2 := NextQuarter(v1);
    Quarter(Quarter(Quarter(Quarter(0, a, v), a, v1), a, v2), a, NextQuarter(v2))
  }

  lemma HornerQuarter(acc: bv16, a: bv16, v: bv16, n: nat)
    ensures Horner(acc, a, v, n + 4) == Horner(Quarter(acc, a, v), a, NextQuarter(v), n)
  {
    hide Turn, LowBit, Halve;
    var v1 := Halve(v);
    var v2 := Halve(v1);
    var acc1 := Turn(acc, a, LowBit(v));
    var acc2 := Turn(acc1, a, LowBit(v1));
    assert Horner(acc, a, v, n + 4) == Horner(acc1, a, v1, n + 3) == Horner(acc2, a, v2, n + 2);
    assert Horner(acc2, a, v2, n + 2) == Horner(Turn(acc2, a, LowBit(v2)), a, Halve(v2), n + 1);
  }

  lemma ProductIsHorner(a: bv16, v: bv16)
    ensures Product(a, v) == Horner(0, a, v, 16)
  {
    hide Quarter, Horner, NextQuarter;
    var v1 := NextQuarter(v);
    var v2 := NextQuarter(v1);
    var v3 := NextQuarter(v2);
    var q1 := Quarter(0, a, v);
    var q2 := Quarter(q1, a, v1);
    var q3 := Quarter(q2, a, v2);
    HornerQuarter(0, a, v, 12);
    HornerQuarter(q1, a, v1, 8);
    HornerQuarter(q2, a, v2, 4);
    HornerQuarter(q3, a, v3, 0);
    NoTurns(Quarter(q3, a, v3), a, NextQuarter(v3));
  }

  lemma NoTurns(acc: bv16, a: bv16, v: bv16)
    ensures Horner(acc, a, v, 0) == acc
  {
  }

  lemma TurnShift(acc: bv16, a: bv16, b: bool)
    ensures Turn(Shift(acc), Shift(a), b) == Shift(Turn(acc, a, b))
  {
    assert Shift(0) == 0;
    ShiftXor(Shift(acc), Select(b, a));
    hide Shift, Xor;
  }

  lemma {:induction false} HornerShift(acc: bv16, a: bv16, v: bv16, n: nat)
    ensures Horner(Shift(acc), Shift(a), v, n) == Shift(Horner(acc, a, v, n))
    decreases n
  {
    hide Shift, Turn, LowBit, Halve;
    if n > 0 {
      TurnShift(acc, a, LowBit(v));
      HornerShift(Turn(acc, a, LowBit(v)), a, Halve(v), n - 1);
    }
  }

  lemma {:induction false} HornerShifts(a: bv16, v: bv16, n: nat, k: nat)
    ensures Horner(0, Shifts(a, k), v, n) == Shifts(Horner(0, a, v, n), k)
    decreases k
  {
    hide Horner;
    if k > 0 {
      assert Shift(0) == 0;
      hide Shift;
      HornerShift(0, a, v, n);
      HornerShifts(Shift(a), v, n, k - 1);
    }
  }

  lemma SixteenShifts()
    ensures Shifts(ONE, 16) == Shift(1)
  {
    assert Shifts(0x8000, 16) == Shifts(0x4000, 15) == Shifts(0x2000, 14);
    assert Shifts(0x2000, 14) == Shifts(0x1000, 13) == Shifts(0x0800, 12);
    assert Shifts(0x0800, 12) == Shifts(0x0400, 11) == Shifts(0x0200, 10);
    assert Shifts(0x0200, 10) == Shifts(0x0100, 9) == Shifts(0x0080, 8);
    assert Shifts(0x0080, 8) == Shifts(0x0040, 7) == Shifts(0x0020, 6);
    assert Shifts(0x0020, 6) == Shifts(0x0010, 5) == Shifts(0x0008, 4);
    assert Shifts(0x0008, 4) == Shifts(0x0004, 3) == Shifts(0x0002, 2);
  }

  lemma TurnIsClock(acc: bv16, b: bool)
    ensures Turn(acc, Shift(1), b) == Clock(acc, b)
  {
    assert Shift(0) == 0;
    ShiftXor(acc, BitValue(b));
    hide Shift, Xor;
  }

  lemma {:induction false} HornerIsSerial(acc: bv16, v: bv16, n: nat)
    ensures Horner(acc, Shift(1), v, n) == Serial(acc, LowBits(v, n))
    decreases n
  {
    hide Shift, Turn, Clock, LowBit, Halve;
    if n > 0 {
      TurnIsClock(acc, LowBit(v));
      HornerIsSerial(Clock(acc, LowBit(v)), Halve(v), n - 1);
      assert LowBits(v, n)[1..] == LowBits(Halve(v), n - 1);
    }
  }

  lemma ProductOfOne(v: bv16)
    ensures Product(ONE, v) == v
  {
    hide *;
    ProductIsHorner(ONE, v);
    HornerShifts(ONE, v, 16, 16);
    SixteenShifts();
    HornerIsSerial(0, v, 16);
    WordIsSerial(0, v, 16);
    WordHalvesAway(v);
    XorZero(v);
    XorZero(Serial(0, LowBits(v, 16)));
    ShiftsInjective(Product(ONE, v), v, 16);
  }

  lemma PowersMultiply(j: nat, k: nat)
    ensures Power(j + k) == Product(Power(j), Power(k))
  {
    hide *;
    PowerMeaning(j);
    PowerMeaning(k);
    PowerMeaning(j + k);
    ShiftsAdd(ONE, k, j);
    ProductOfOne(Power(k));
    ProductIsHorner(ONE, Power(k));
    ProductIsHorner(Power(j), Power(k));
    HornerShifts(ONE, Power(k), 16, j);
  }

  lemma PowerMeaning(k: nat)
    ensures Power(k) == Shifts(ONE, k)
  {
  }

  // ---------- the powers that settle the order ----------

  lemma PowerProduct(j: nat, k: nat, a: bv16, b: bv16)
    requires Power(j) == a && Power(k) == b
    ensures Power(j + k) == Product(a, b)
  {
    PowersMultiply(j, k);
  }

  lemma LowPowers()
    ensures Power(8) == 0x0080
    ensures Power(16) == 0xa001
    ensures Power(32) == 0xe801
    ensures Power(64) == 0xc881
  {
    PowerOfOne();
    hide Power;
    PowerProduct(1, 1, 0x4000, 0x4000);
    PowerProduct(2, 2, 0x2000, 0x2000);
    PowerProduct(4, 4, 0x0800, 0x0800);
    PowerProduct(8, 8, 0x0080, 0x0080);
    PowerProduct(16, 16, 0xa001, 0xa001);
    PowerProduct(32, 32, 0xe801, 0xe801);
  }

  lemma MiddlePowers()
    ensures Power(128) == 0x6080
    ensures Power(512) == 0xe081
    ensures Power(1024) == 0x6800
    ensures Power(2048) == 0x2880
  {
    LowPowers();
    hide Power;
    PowerProduct(64, 64, 0xc881, 0xc881);
    PowerProduct(128, 128, 0x6080, 0x6080);
    PowerProduct(256, 256, 0x8801, 0x8801);
    PowerProduct(512, 512, 0xe081, 0xe081);
    PowerProduct(1024, 1024, 0x6800, 0x6800);
  }

  lemma HighPowers()
    ensures Power(4096) == 0xa881
    ensures Power(PERIOD) == ONE
  {
    MiddlePowers();
    hide Power;
    PowerProduct(2048, 2048, 0x2880, 0x2880);
    PowerProduct(4096, 4096, 0xa881, 0xa881);
    PowerProduct(8192, 8192, 0x4880, 0x4880);
    PowerProduct(16384, 16384, 0x8081, 0x8081);
    Unstep();
  }

  lemma PowerOfOne()
    ensures Power(0) == ONE && Power(1) == 0x4000
  {
    assert Shifts(ONE, 1) == Shift(ONE);
  }

  lemma Unstep()
    requires Power(32768) == 0x4000
    ensures Power(PERIOD) == ONE
  {
    assert Shift(ONE) == 0x4000;
    ShiftsAdd(ONE, PERIOD, 1);
    ShiftInjective(Power(PERIOD), ONE);
    assert Shifts(Power(PERIOD), 1) == Shift(Power(PERIOD));
    hide Shift;
  }

  // None of the three largest proper divisors of 32767 is a period.

  lemma Not217()
    ensures Power(217) != ONE
  {
    LowPowers();
    MiddlePowers();
    HighPowers();
    PowerOfOne();
    hide Power;
    PowerProduct(128, 64, 0x6080, 0xc881);
    PowerProduct(192, 16, 0x6668, 0xa001);
    PowerProduct(208, 8, 0xeaaf, 0x0080);
    PowerProduct(216, 1, 0x7caa, 0x4000);
  }

  lemma Not1057()
    ensures Power(1057) != ONE
  {
    LowPowers();
    MiddlePowers();
    HighPowers();
    PowerOfOne();
    hide Power;
    PowerProduct(1024, 32, 0x6800, 0xe801);
    PowerProduct(1056, 1, 0xdc81, 0x4000);
  }

  lemma Not4681()
    ensures Power(4681) != ONE
  {
    LowPowers();
    MiddlePowers();
    HighPowers();
    PowerOfOne();
    hide Power;
    PowerProduct(4096, 512, 0xa881, 0xe081);
    PowerProduct(4608, 64, 0x7a48, 0xc881);
    PowerProduct(4672, 8, 0x51de, 0x0080);
    PowerProduct(4680, 1, 0x58d1, 0x4000);
  }

  // ---------- the order ----------

  lemma {:induction false} MultiplePeriod(g: nat, k: nat)
    requires Power(g) == ONE
    ensures Power(g * k) == ONE
    decreases k
  {
    PowerOfOne();
    hide Power;
    if k > 0 {
      MultiplePeriod(g, k - 1);
      PeriodCancels(g * (k - 1), g);
      assert g * k == g * (k - 1) + g;
    }
  }

  lemma PeriodCancels(k: nat, g: nat)
    requires Power(g) == ONE
    ensures Power(k + g) == Power(k)
  {
    ShiftsAdd(ONE, g, k);
    hide Shifts;
  }

  /** Two periods have a common divisor that is a period (Euclid by subtraction). */
  lemma {:induction false} CommonPeriod(a: nat, b: nat) returns (g: nat, p: nat, q: nat)
    requires a > 0 && b > 0 && Power(a) == ONE && Power(b) == ONE
    ensures g > 0 && a == p * g && b == q * g && Power(g) == ONE
    decreases a + b
  {
    hide Power;
    if a == b {
      g, p, q := a, 1, 1;
    } else if a > b {
      PeriodCancels(a - b, b);
      g, p, q := CommonPeriod(a - b, b);
      assert (p + q) * g == p * g + q * g;
      p := p + q;
    } else {
      PeriodCancels(b - a, a);
      g, p, q := CommonPeriod(a, b - a);
      assert (p + q) * g == p * g + q * g;
      q := p + q;
    }
  }

  lemma ScaledDifference(p: int, k: int, r: int, g: int, m: int)
    requires r * g == p * m
    ensures (p - k * r) * g == p * (g - k * m)
  {
    calc {
      (p - k * r) * g;
      p * g - k * r * g;
      { assert k * r * g == k * (r * g) == k * (p * m) == p * (k * m); }
      p * g - p * (k * m);
      p * (g - k * m);
    }
  }

  lemma Reduced(p: nat, r: nat)
    requires p == 7 || p == 31
    requires 1 < r < p
    ensures 0 < p % r < r && p % r == p - p / r * r
  {
  }

  /** A prime that divides r * g but not r divides g. */
  lemma {:induction false} EuclidsLemma(p: nat, r: nat, g: nat, m: int)
    requires p == 7 || p == 31
    requires 0 < r < p && r * g == p * m
    ensures exists c: int :: g == p * c
    decreases r
  {
    if r == 1 {
      assert g == p * m;
    } else {
      Reduced(p, r);
      ScaledDifference(p, p / r, r, g, m);
      EuclidsLemma(p, p % r, g, g - p / r * m);
    }
  }

  lemma DropMultiple(p: int, k: int, r: int, g: int, m: int)
    requires (p * k + r) * g == p * m
    ensures r * g == p * (m - k * g)
  {
    assert (p * k + r) * g == p * (k * g) + r * g;
  }

  /** A prime factor of q * g divides one of the two. */
  lemma PrimeSplits(p: nat, q: nat, g: nat, m: nat)
    requires p == 7 || p == 31
    requires q * g == p * m
    ensures q % p == 0 || g % p == 0
  {
    var k, r := q / p, q % p;
    assert q == p * k + r;
    if r > 0 {
      DropMultiple(p, k, r, g, m);
      EuclidsLemma(p, r, g, m - k * g);
      var c :| g == p * c;
      MultipleRemainder(p, c);
    }
  }

  lemma MultipleRemainder(p: nat, c: int)
    requires p == 7 || p == 31
    ensures (p * c) % p == 0
  {
  }

  lemma Divisor151(q: nat, g: nat)
    requires q * g == 151 && q > 1
    ensures q == 151
  {
  }

  /** A proper divisor g of 7 * 31 * 151 misses one of the three primes. */
  lemma ProperDivisor(q: nat, g: nat)
    requires q * g == PERIOD && q > 1
    ensures exists k :: g * k == 217 || g * k == 1057 || g * k == 4681
  {
    PrimeSplits(7, q, g, 4681);
    if q % 7 == 0 {
      assert g * (q / 7) == 4681;
    } else {
      var g1 := g / 7;
      assert q * g1 == 4681;
      PrimeSplits(31, q, g1, 151);
      if q % 31 == 0 {
        assert g * (q / 31) == 1057;
      } else {
        var g2 := g1 / 31;
        assert q * g2 == 151;
        Divisor151(q, g2);
        assert g * 1 == 217;
      }
    }
  }

  /** x^d is 1 exactly for the multiples of 32767. */
  lemma OrderOfX(d: nat)
    ensures Power(d) == ONE <==> d % PERIOD == 0
  {
    HighPowers();
    var r, k := d % PERIOD, d / PERIOD;
    MultiplePeriod(PERIOD, k);
    PeriodCancels(r, PERIOD * k);
    PowerOfOne();
    if r > 0 && Power(r) == ONE {
      var g, p, q := CommonPeriod(r, PERIOD);
      ProperPeriod(g, p, q, r);
    }
    hide Power;
  }

  lemma ProperPeriod(g: nat, p: nat, q: nat, r: nat)
    requires 0 < r < PERIOD && r == p * g && PERIOD == q * g
    ensures Power(g) != ONE
  {
    QuotientExceedsOne(g, p, q);
    ProperDivisor(q, g);
    Not217();
    Not1057();
    Not4681();
    hide Power;
    var k :| g * k == 217 || g * k == 1057 || g * k == 4681;
    if Power(g) == ONE {
      assert k >= 0;
      MultiplePeriod(g, k);
    }
  }

  lemma QuotientExceedsOne(g: nat, p: nat, q: nat)
    requires 0 < p * g < q * g
    ensures q > 1
  {
    if q == 1 {
      assert false;
    }
  }

  // ---------- two-bit errors ----------

  lemma {:induction false} ShiftsPoly(r: bv16, n: nat)
    ensures Congruent(RegisterPoly(Shifts(r, n)), Scale(RegisterPoly(r), n))
    decreases n
  {
    hide Shift, RegisterPoly, Scale, Congruent;
    var R := RegisterPoly(r);
    if n == 0 {
      CongruentReflexive(R);
      UnitScale(R);
    } else {
      var s := Shift(r);
      ShiftsPoly(s, n - 1);
      ShiftPoly(r);
      CongruentScale(RegisterPoly(s), Scale(R, 1), n - 1);
      ScaleScale(R, 1, n - 1);
      CongruentTransitive(RegisterPoly(Shifts(s, n - 1)), Scale(RegisterPoly(s), n - 1), Scale(R, n));
    }
  }

  lemma UnitScale(p: Poly)
    ensures Scale(p, 0) == p
  {
  }

  lemma MonomialScale(j: nat, k: nat)
    ensures Scale({j}, k) == {j + k}
  {
    ScaleMonomial(true, j, k);
  }

  lemma OneIsOne()
    ensures RegisterPoly(ONE) == {0}
  {
    hide RegisterPoly, Shift, Shifts, Scale;
    var p, s := RegisterPoly(ONE), RegisterPoly(Shift(1));
    SixteenShifts();
    ShiftsPoly(ONE, 16);
    ShiftPoly(1);
    OnePoly();
    MonomialScale(15, 1);
    MonomialScale(0, 16);
    CongruentSymmetric(s, Scale(p, 16));
    CongruentTransitive(Scale(p, 16), s, Scale({0}, 16));
    ScaleAdd(p, {0}, 16);
    ScaleCancels(Add(p, {0}), 16);
    RegisterDegree(ONE);
    SmallCongruentIsEqual(p, {0});
  }

  /** x^d + 1 is a multiple of the generator exactly when 32767 divides d. */
  lemma BinomialDivisible(d: nat)
    ensures Divides(Add({0}, {d})) <==> d % PERIOD == 0
  {
    hide *;
    var p := RegisterPoly(Power(d));
    PowerMeaning(d);
    ShiftsPoly(ONE, d);
    OneIsOne();
    MonomialScale(0, d);
    OrderOfX(d);
    CongruentMeaning({0}, {d});
    if Congruent({0}, {d}) {
      CongruentSymmetric({0}, {d});
      CongruentTransitive(p, {d}, {0});
      RegisterDegree(Power(d));
      RegisterDegree(ONE);
      SmallCongruentIsEqual(p, {0});
      RegisterInjective(Power(d), ONE);
    }
  }

  lemma PairDivisible(x: nat, y: nat)
    requires x < y
    ensures Divides({x, y}) <==> (y - x) % PERIOD == 0
  {
    var p := Add({0}, {y - x});
    BinomialDivisible(y - x);
    assert Scale(p, x) == {x, y};
    hide Divides, Add, Scale;
    if Divides(p) {
      DividesScale(p, x);
    }
    if Divides({x, y}) {
      ScaleCancels(p, x);
    }
  }

  /** The bit strings differ at i and at j and nowhere else. */
  ghost predicate DifferExactlyAt(e: seq<bool>, i: nat, j: nat) {
    i < j < |e| && forall k | 0 <= k < |e| :: e[k] <==> k == i || k == j
  }

  /** Two flipped bits go unnoticed exactly when their distance is a multiple of 32767 bits. */
  lemma TwoBitErrors(a: seq<bv8>, b: seq<bv8>, i: nat, j: nat)
    requires |a| == |b| && DifferExactlyAt(Difference(a, b), i, j)
    ensures Crc(a) == Crc(b) <==> (j - i) % PERIOD == 0
  {
    hide Crc, Difference, Divides;
    var e := Difference(a, b);
    var x, y := |e| - 1 - j, |e| - 1 - i;
    CollisionIsDivisibility(a, b);
    assert BitsPoly(e) == {x, y};
    PairDivisible(x, y);
  }

  // ---------- the minimum distance ----------

  lemma {:induction false} WeightZero(e: seq<bool>)
    ensures Weight(e) == 0 <==> forall k | 0 <= k < |e| :: !e[k]
  {
    if e != [] {
      WeightZero(e[1..]);
      if Weight(e) == 0 {
        assert forall k | 0 < k < |e| :: e[k] == e[1..][k - 1];
      }
    }
  }

  lemma {:induction false} WeightOne(e: seq<bool>) returns (i: nat)
    requires Weight(e) == 1
    ensures i < |e| && forall k | 0 <= k < |e| :: e[k] <==> k == i
  {
    if e[0] {
      WeightZero(e[1..]);
      i := 0;
    } else {
      var i' := WeightOne(e[1..]);
      i := i' + 1;
    }
    assert forall k | 0 < k < |e| :: e[k] == e[1..][k - 1];
  }

  lemma {:induction false} WeightTwo(e: seq<bool>) returns (i: nat, j: nat)
    requires Weight(e) == 2
    ensures DifferExactlyAt(e, i, j)
  {
    if e[0] {
      var j' := WeightOne(e[1..]);
      i, j := 0, j' + 1;
    } else {
      var i', j' := WeightTwo(e[1..]);
      i, j := i' + 1, j' + 1;
    }
    assert forall k | 0 < k < |e| :: e[k] == e[1..][k - 1];
  }

  /** Up to 4095 bytes, any one, two or three flipped bits change the CRC. */
  lemma MinimumDistance(a: seq<bv8>, b: seq<bv8>)
    requires |a| == |b| && a != b && 8 * |a| <= PERIOD
    requires Weight(Difference(a, b)) <= 3
    ensures Crc(a) != Crc(b)
  {
    hide Crc, Bits;
    var e := Difference(a, b);
    if Weight(e) == 0 {
      WeightZero(e);
      assert Bits(a) == Bits(b);
      BitsInjective(a, b);
      assert false;
    } else if Weight(e) == 2 {
      var i, j := WeightTwo(e);
      TwoBitErrors(a, b, i, j);
    } else {
      OddErrorsDetected(a, b);
    }
  }

  lemma {:induction false} BitsAt(data: seq<bv8>, k: nat)
    requires k < 8 * |data|
    ensures Bits(data)[k] == ByteBits(data[k / 8])[k % 8]
  {
    hide ByteBits;
    if k >= 8 {
      BitsAt(data[1..], k - 8);
    }
  }

  lemma SpecialBytes()
    ensures ByteBits(0x00) == [false, false, false, false, false, false, false, false]
    ensures ByteBits(0x01) == [true, false, false, false, false, false, false, false]
    ensures ByteBits(0x80) == [false, false, false, false, false, false, false, true]
  {
    assert LowBits(0x80, 8) == [false, false, false, false] + LowBits(0x08, 4);
    assert LowBits(0x00, 8) == [false, false, false, false] + LowBits(0x00, 4);
    assert LowBits(0x01, 8) == [true, false, false, false] + LowBits(0x00, 4);
  }

  /** From 4096 bytes on the bound is exact: here are two messages that differ in two bits and collide. */
  lemma DistanceIsTight(n: nat) returns (a: seq<bv8>, b: seq<bv8>)
    requires n >= 4096
    ensures |a| == |b| == n && DifferExactlyAt(Difference(a, b), 0, PERIOD)
    ensures Crc(a) == Crc(b)
  {
    a := seq(n, _ => 0);
    b := a[0 := 0x01][4095 := 0x80];
    var e := Difference(a, b);
    hide ByteBits, Crc, Bits, LowBits;
    forall k | 0 <= k < |e| ensures e[k] <==> k == 0 || k == PERIOD {
      SpecialBytes();
      BitsAt(a, k);
      BitsAt(b, k);
    }
    TwoBitErrors(a, b, 0, PERIOD);
  }
}
