/**
 Polynomials over GF(2), each the set of its exponents, and division by the CRC-16 generator
 x^16 + x^15 + x^2 + 1.  Nothing here mentions the shift register.
 */
module Gf2 {

  type Poly = set<nat>

  function Add(p: Poly, q: Poly): (r: Poly)
    ensures forall e: nat {:trigger e in r} :: e in r <==> (e in p) != (e in q)
  {
    (p - q) + (q - p)
  }

  /** Multiplication by x^k. */
  function Scale(p: Poly, k: nat): (r: Poly)
    ensures forall e: nat {:trigger e in r} :: e in r <==> k <= e && e - k in p
  {
    set e | e in p :: e + k
  }

  const GENERATOR: Poly := {0, 2, 15, 16}

  /** Multiplication by the generator. */
  function TimesGenerator(q: Poly): Poly {
    Add(Add(Scale(q, 16), Scale(q, 15)), Add(Scale(q, 2), q))
  }

  ghost predicate DegreeBelow(p: Poly, n: nat) {
    forall e | e in p :: e < n
  }

  /** The generator divides p. */
  ghost predicate Divides(p: Poly) {
    exists q :: p == TimesGenerator(q)
  }

  ghost predicate Congruent(p: Poly, q: Poly) {
    Divides(Add(p, q))
  }

  /** Long division: cancel the top term with a multiple of the generator until degree 15 remains. */
  function Remainder(p: Poly, n: nat): Poly
    decreases n
  {
    if n <= 16 then p
    else if n - 1 in p then Remainder(Add(p, Scale(GENERATOR, n - 17)), n - 1)
    else Remainder(p, n - 1)
  }

  // ---------- arithmetic ----------

  lemma AddLaws(p: Poly, q: Poly, r: Poly)
    ensures Add(p, q) == Add(q, p)
    ensures Add(Add(p, q), r) == Add(p, Add(q, r))
    ensures Add(p, {}) == p
    ensures Add(p, p) == {}
  {
  }

  lemma AddCancels(p: Poly, q: Poly)
    ensures Add(p, q) == {} <==> p == q
  {
    if Add(p, q) == {} {
      forall e: nat ensures e in p <==> e in q {
        assert e !in Add(p, q);
      }
    }
  }

  lemma AddTelescopes(p: Poly, q: Poly, r: Poly)
    ensures Add(Add(p, q), Add(q, r)) == Add(p, r)
  {
  }

  lemma AddInterchange(p: Poly, q: Poly, r: Poly, s: Poly)
    ensures Add(Add(p, q), Add(r, s)) == Add(Add(p, r), Add(q, s))
  {
  }

  lemma ScaleAdd(p: Poly, q: Poly, k: nat)
    ensures Scale(Add(p, q), k) == Add(Scale(p, k), Scale(q, k))
  {
  }

  lemma ScaleScale(p: Poly, j: nat, k: nat)
    ensures Scale(Scale(p, j), k) == Scale(p, j + k)
  {
    forall e: nat ensures e in Scale(Scale(p, j), k) <==> e in Scale(p, j + k) {
      if k <= e {
        assert e - k in Scale(p, j) <==> j <= e - k && e - k - j in p;
      }
    }
  }

  lemma ScaleInjective(p: Poly, q: Poly, k: nat)
    requires Scale(p, k) == Scale(q, k)
    ensures p == q
  {
    forall e: nat ensures e in p <==> e in q {
      assert e + k in Scale(p, k) <==> e in p;
      assert e + k in Scale(q, k) <==> e in q;
    }
  }

  lemma GeneratorAdd(p: Poly, q: Poly)
    ensures TimesGenerator(Add(p, q)) == Add(TimesGenerator(p), TimesGenerator(q))
  {
    hide Add, Scale;
    ScaleAdd(p, q, 16);
    ScaleAdd(p, q, 15);
    ScaleAdd(p, q, 2);
    AddInterchange(Scale(p, 16), Scale(q, 16), Scale(p, 15), Scale(q, 15));
    AddInterchange(Scale(p, 2), Scale(q, 2), p, q);
    AddInterchange(Add(Scale(p, 16), Scale(p, 15)), Add(Scale(q, 16), Scale(q, 15)),
                   Add(Scale(p, 2), p), Add(Scale(q, 2), q));
  }

  lemma ScaleCommutes(p: Poly, j: nat, k: nat)
    ensures Scale(Scale(p, j), k) == Scale(Scale(p, k), j)
  {
    ScaleScale(p, j, k);
    ScaleScale(p, k, j);
  }

  lemma GeneratorScale(q: Poly, k: nat)
    ensures TimesGenerator(Scale(q, k)) == Scale(TimesGenerator(q), k)
  {
    hide Add, Scale;
    ScaleCommutes(q, k, 16);
    ScaleCommutes(q, k, 15);
    ScaleCommutes(q, k, 2);
    ScaleAdd(Scale(q, 16), Scale(q, 15), k);
    ScaleAdd(Scale(q, 2), q, k);
    ScaleAdd(Add(Scale(q, 16), Scale(q, 15)), Add(Scale(q, 2), q), k);
  }

  lemma GeneratorMonomial(k: nat)
    ensures TimesGenerator({k}) == Scale(GENERATOR, k)
  {
  }

  // ---------- divisibility and congruence ----------

  lemma DividesAdd(p: Poly, q: Poly)
    requires Divides(p) && Divides(q)
    ensures Divides(Add(p, q))
  {
    var i :| p == TimesGenerator(i);
    var j :| q == TimesGenerator(j);
    GeneratorAdd(i, j);
  }

  lemma DividesScale(p: Poly, k: nat)
    requires Divides(p)
    ensures Divides(Scale(p, k))
  {
    var q :| p == TimesGenerator(q);
    GeneratorScale(q, k);
  }

  lemma ZeroDivides()
    ensures Divides({})
  {
    assert TimesGenerator({}) == {};
  }

  /** p / x, for a p without constant term. */
  lemma Unscale(p: Poly) returns (p': Poly)
    requires 0 !in p
    ensures p == Scale(p', 1)
  {
    p' := set e | e in p :: e - 1;
    forall e: nat ensures e in p <==> e in Scale(p', 1) {
      if e in p {
        assert e - 1 in p';
      }
      if 1 <= e && e - 1 in p' {
        var f :| f in p && f - 1 == e - 1;
      }
    }
  }

  lemma ConstantTerm(q: Poly)
    ensures 0 in TimesGenerator(q) <==> 0 in q
  {
  }

  /** A factor x never helps: the generator has constant term 1. */
  lemma {:induction false} ScaleCancels(p: Poly, k: nat)
    requires Divides(Scale(p, k))
    ensures Divides(p)
    decreases k
  {
    hide Scale, TimesGenerator;
    if k == 0 {
      assert Scale(p, 0) == p;
    } else {
      var q :| Scale(p, k) == TimesGenerator(q);
      ConstantTerm(q);
      var q' := Unscale(q);
      GeneratorScale(q', 1);
      ScaleScale(p, k - 1, 1);
      ScaleInjective(TimesGenerator(q'), Scale(p, k - 1), 1);
      ScaleCancels(p, k - 1);
    }
  }

  lemma {:induction false} Largest(q: Poly) returns (m: nat)
    requires q != {}
    ensures m in q && forall e | e in q :: e <= m
    decreases |q|
  {
    m :| m in q;
    var rest := q - {m};
    if rest != {} {
      var m' := Largest(rest);
      assert forall e | e in q :: e == m || e in rest;
      if m < m' {
        m := m';
      }
    }
  }

  lemma LeadingTerm(q: Poly, m: nat)
    requires m in q && forall e | e in q :: e <= m
    ensures m + 16 in TimesGenerator(q)
  {
  }

  /** A nonzero multiple of the generator has degree at least 16. */
  lemma SmallMultipleIsZero(p: Poly)
    requires DegreeBelow(p, 16) && Divides(p)
    ensures p == {}
  {
    var q :| p == TimesGenerator(q);
    if q == {} {
      assert TimesGenerator({}) == {};
    } else {
      var m := Largest(q);
      LeadingTerm(q, m);
      assert false;
    }
  }

  lemma CongruentReflexive(p: Poly)
    ensures Congruent(p, p)
  {
    ZeroDivides();
    AddLaws(p, p, p);
  }

  lemma CongruentSymmetric(p: Poly, q: Poly)
    requires Congruent(p, q)
    ensures Congruent(q, p)
  {
    AddLaws(p, q, p);
  }

  lemma CongruentTransitive(p: Poly, q: Poly, r: Poly)
    requires Congruent(p, q) && Congruent(q, r)
    ensures Congruent(p, r)
  {
    DividesAdd(Add(p, q), Add(q, r));
    AddTelescopes(p, q, r);
  }

  lemma CongruentScale(p: Poly, q: Poly, k: nat)
    requires Congruent(p, q)
    ensures Congruent(Scale(p, k), Scale(q, k))
  {
    DividesScale(Add(p, q), k);
    ScaleAdd(p, q, k);
  }

  lemma CongruentAdd(p: Poly, q: Poly, p': Poly, q': Poly)
    requires Congruent(p, q) && Congruent(p', q')
    ensures Congruent(Add(p, p'), Add(q, q'))
  {
    DividesAdd(Add(p, q), Add(p', q'));
    AddInterchange(p, q, p', q');
  }

  lemma SmallCongruentIsEqual(p: Poly, q: Poly)
    requires DegreeBelow(p, 16) && DegreeBelow(q, 16) && Congruent(p, q)
    ensures p == q
  {
    SmallMultipleIsZero(Add(p, q));
    AddCancels(p, q);
  }

  // ---------- long division ----------

  /** One step of long division lowers the degree and stays in the same class. */
  lemma CancelTop(p: Poly, n: nat)
    requires DegreeBelow(p, n) && n > 16 && n - 1 in p
    ensures DegreeBelow(Add(p, Scale(GENERATOR, n - 17)), n - 1)
    ensures Congruent(p, Add(p, Scale(GENERATOR, n - 17)))
  {
    var g := Scale(GENERATOR, n - 17);
    forall e | e in Add(p, g) ensures e < n - 1 {
      assert e in p || e in g;
    }
    GeneratorMonomial(n - 17);
    assert Divides(g);
    assert Add(p, Add(p, g)) == g;
  }

  lemma {:induction false} RemainderSound(p: Poly, n: nat)
    requires DegreeBelow(p, n)
    ensures DegreeBelow(Remainder(p, n), 16)
    ensures Congruent(p, Remainder(p, n))
    decreases n
  {
    hide Add, Scale, Congruent;
    if n <= 16 {
      CongruentReflexive(p);
    } else if n - 1 in p {
      var p' := Add(p, Scale(GENERATOR, n - 17));
      CancelTop(p, n);
      RemainderSound(p', n - 1);
      CongruentTransitive(p, p', Remainder(p', n - 1));
    } else {
      RemainderSound(p, n - 1);
    }
  }

  /** The remainder is the only congruent polynomial of degree below 16. */
  lemma RemainderUnique(p: Poly, n: nat, r: Poly)
    requires DegreeBelow(p, n) && DegreeBelow(r, 16)
    ensures Congruent(r, p) <==> r == Remainder(p, n)
  {
    RemainderSound(p, n);
    var r' := Remainder(p, n);
    if Congruent(r, p) {
      CongruentTransitive(r, p, r');
      SmallCongruentIsEqual(r, r');
    }
    if r == r' {
      CongruentSymmetric(p, r');
    }
  }
}
