/**
 The 16-bit CRC register: its step, and the few facts about bit patterns that the rest of the
 CRC development needs.  Everything above this module treats `Xor` and `Shift` as operations
 known only by these lemmas.
 */
module Register {

  const POLYNOMIAL: bv16 := 0xa001

  function Xor(a: bv16, b: bv16): bv16 {
    a ^ b
  }

  /** One turn of the inner loop: shift right, and add the polynomial when a one falls out. */
  function Shift(r: bv16): bv16 {
    if r & 0x0001 != 0 then (r >> 1) ^ POLYNOMIAL else r >> 1
  }

  function Shifts(r: bv16, n: nat): bv16
    decreases n
  {
    if n == 0 then r else Shifts(Shift(r), n - 1)
  }

  function BitValue(b: bool): bv16 {
    if b then 1 else 0
  }

  // ---------- xor is a group operation in which every element is its own inverse ----------

  lemma XorCommutes(a: bv16, b: bv16)
    ensures Xor(a, b) == Xor(b, a)
  {
    assert a ^ b == b ^ a;
  }

  lemma XorAssociates(a: bv16, b: bv16, c: bv16)
    ensures Xor(Xor(a, b), c) == Xor(a, Xor(b, c))
  {
    assert (a ^ b) ^ c == a ^ (b ^ c);
  }

  lemma XorZero(a: bv16)
    ensures Xor(a, 0) == a == Xor(0, a)
    ensures Xor(a, a) == 0
  {
  }

  lemma XorCancels(a: bv16, b: bv16)
    ensures Xor(a, b) == 0 <==> a == b
  {
    hide *;
    XorZero(a);
    XorZero(b);
    XorAssociates(a, b, b);
  }

  lemma XorInterchange(a: bv16, b: bv16, c: bv16, d: bv16)
    ensures Xor(Xor(a, b), Xor(c, d)) == Xor(Xor(a, c), Xor(b, d))
  {
    hide *;
    XorAssociates(a, b, Xor(c, d));
    XorAssociates(b, c, d);
    XorCommutes(b, c);
    XorAssociates(c, b, d);
    XorAssociates(a, c, Xor(b, d));
  }

  // ---------- the step ----------

  /** The step without its branch: the bit that falls out is fed back at three places. */
  function Feedback(r: bv16): bv16 {
    (r >> 1) ^ ((r & 1) << 15) ^ ((r & 1) << 13) ^ (r & 1)
  }

  lemma ShiftIsFeedback(r: bv16)
    ensures Shift(r) == Feedback(r)
  {
    if r & 1 != 0 {
      assert r & 1 == 1;
    }
  }

  lemma FeedbackXor(a: bv16, b: bv16)
    ensures Feedback(Xor(a, b)) == Xor(Feedback(a), Feedback(b))
  {
  }

  lemma ShiftXor(a: bv16, b: bv16)
    ensures Shift(Xor(a, b)) == Xor(Shift(a), Shift(b))
  {
    hide *;
    ShiftIsFeedback(a);
    ShiftIsFeedback(b);
    ShiftIsFeedback(Xor(a, b));
    FeedbackXor(a, b);
  }

  /** The register step loses nothing: it is injective on the 16-bit registers. */
  lemma ShiftInjective(a: bv16, b: bv16)
    ensures Shift(a) == Shift(b) <==> a == b
  {
  }

  lemma {:induction false} ShiftsAdd(r: bv16, m: nat, n: nat)
    ensures Shifts(r, m + n) == Shifts(Shifts(r, m), n)
    decreases m
  {
    hide Shift;
    if m > 0 {
      ShiftsAdd(Shift(r), m - 1, n);
    }
  }

  lemma {:induction false} ShiftsXor(a: bv16, b: bv16, n: nat)
    ensures Shifts(Xor(a, b), n) == Xor(Shifts(a, n), Shifts(b, n))
    decreases n
  {
    hide Shift, Xor;
    if n > 0 {
      ShiftXor(a, b);
      ShiftsXor(Shift(a), Shift(b), n - 1);
    }
  }

  lemma {:induction false} ShiftsInjective(a: bv16, b: bv16, n: nat)
    ensures Shifts(a, n) == Shifts(b, n) <==> a == b
    decreases n
  {
    hide Shift;
    if n > 0 {
      ShiftInjective(a, b);
      ShiftsInjective(Shift(a), Shift(b), n - 1);
    }
  }

  lemma {:induction false} ShiftsZero(n: nat)
    ensures Shifts(0, n) == 0
    decreases n
  {
    if n > 0 {
      assert Shift(0) == 0;
      ShiftsZero(n - 1);
    }
  }

  // ---------- a word split into its low bit and the rest ----------

  function LowBit(v: bv16): bool {
    v & 1 != 0
  }

  function Halve(v: bv16): bv16 {
    v >> 1
  }

  /** A word's low bit meets the register now; the rest moves down one place untouched. */
  lemma ShiftSplits(r: bv16, v: bv16)
    ensures Shift(Xor(r, v)) == Xor(Shift(Xor(r, BitValue(LowBit(v)))), Halve(v))
  {
    hide *;
    var b, h := BitValue(LowBit(v)), Halve(v);
    LowBitOut(v);
    XorAssociates(r, b, Double(h));
    ShiftXor(Xor(r, b), Double(h));
    ShiftDouble(v);
  }

  function Double(v: bv16): bv16 {
    v << 1
  }

  lemma LowBitOut(v: bv16)
    ensures v == Xor(BitValue(LowBit(v)), Double(Halve(v)))
  {
    LowBitValue(v);
    assert v == (v & 1) ^ ((v >> 1) << 1);
    hide BitValue, LowBit;
  }

  lemma LowBitValue(v: bv16)
    ensures BitValue(LowBit(v)) == v & 1
  {
    assert v & 1 == 0 || v & 1 == 1;
  }

  lemma ShiftDouble(v: bv16)
    ensures Shift(Double(Halve(v))) == Halve(v)
  {
    assert ((v >> 1) << 1) & 1 == 0;
    assert ((v >> 1) << 1) >> 1 == v >> 1;
  }
}
