/** What a sequence reports about itself: the coefficients of its
    recurrence, its ordinary generating function, and equality of two
    sequences, which compares generating functions. */
module Generating {
  import opened Sums
  import opened Poly
  import opened Recurrence
  import opened Series
  import opened Normal
  import opened Canonical
  import opened Convolution

  /** `coefficients()`: the list c with a(k) = c_0*a(k-1) + ... + c_{d-1}*a(k-d),
      read off the normalised denominator as c_i = -den_{i+1}. */
  function Coefficients(s: CFiniteSequence): (c: seq<real>)
    requires Valid(s)
    ensures |c| == Degree(s.den)
    ensures forall i :: 0 <= i < |c| ==> c[i] == -Coef(s.den, i + 1)
  {
    s.coefficients
  }

  /** The summands c_i * a(k - 1 - i) of the recurrence at k. */
  function RecurrenceTerms(c: seq<real>, s: CFiniteSequence, k: int): int -> real
    requires Coef(s.den, 0) != 0.0
  {
    i => Coef(c, i) * Coefficient(s, k - 1 - i)
  }

  /** The terms follow the recurrence `coefficients()` describes from the
      point where both the recurrence order and the numerator are passed;
      in particular beyond the stored window. */
  lemma CoefficientsRecurrence(s: CFiniteSequence, k: int)
    requires Valid(s) && k - s.offset >= s.degree && k - s.offset > Degree(s.num)
    ensures Coefficient(s, k) == Sum(0, s.degree, RecurrenceTerms(Coefficients(s), s, k))
  {
    var c := Coefficients(s);
    var d := s.degree;
    var m := k - s.offset;
    var a := SeriesPrefix(s.num, s.den, m + 1);
    assert a[m] == Next(c, a, m) by {
      SeriesFollowsRecurrence(s.num, s.den, d, m + 1);
    }
    forall i | 0 <= i < d
      ensures DotTerms(c, State(a, m - d, d))(i) == RecurrenceTerms(c, s, k)(i)
    {
      RecurrenceSummand(s, k, i);
    }
    SumExt(0, d, DotTerms(c, State(a, m - d, d)), RecurrenceTerms(c, s, k));
    PrefixAt(s.num, s.den, m + 1, m);
  }

  /** One summand of the recurrence, read off a prefix of the expansion. */
  lemma RecurrenceSummand(s: CFiniteSequence, k: int, i: int)
    requires Valid(s) && 0 <= i < s.degree <= k - s.offset
    ensures var m := k - s.offset;
      var a := SeriesPrefix(s.num, s.den, m + 1);
      DotTerms(Coefficients(s), State(a, m - s.degree, s.degree))(i) == RecurrenceTerms(Coefficients(s), s, k)(i)
  {
    var m := k - s.offset;
    var a := SeriesPrefix(s.num, s.den, m + 1);
    var st := State(a, m - s.degree, s.degree);
    StateEntry(s, k, i);
    DotTermsAt(Coefficients(s), st, i);
    RecurrenceTermsAt(Coefficients(s), s, k, i);
  }

  lemma DotTermsAt(c: seq<real>, v: seq<real>, i: int)
    ensures DotTerms(c, v)(i) == Coef(c, i) * Coef(v, i)
  {
  }

  lemma RecurrenceTermsAt(c: seq<real>, s: CFiniteSequence, k: int, i: int)
    requires Coef(s.den, 0) != 0.0
    ensures RecurrenceTerms(c, s, k)(i) == Coef(c, i) * Coefficient(s, k - 1 - i)
  {
  }

  /** Entry i of the state before position k is the term at k - 1 - i. */
  lemma StateEntry(s: CFiniteSequence, k: int, i: int)
    requires Valid(s) && 0 <= i < s.degree <= k - s.offset
    ensures var m := k - s.offset;
      Coef(State(SeriesPrefix(s.num, s.den, m + 1), m - s.degree, s.degree), i) == Coefficient(s, k - 1 - i)
  {
    var m := k - s.offset;
    var a := SeriesPrefix(s.num, s.den, m + 1);
    var j: nat := m - 1 - i;
    assert Coef(State(a, m - s.degree, s.degree), i) == a[j];
    PrefixAt(s.num, s.den, m + 1, j);
    assert Coefficient(s, k - 1 - i) == SeriesCoef(s.num, s.den, j);
  }

  /** `ogf()`: the reported numerator over the reported denominator, or 0
      (written 0/1) when the numerator is zero. */
  function OgfOf(s: CFiniteSequence): (o: Ogf)
    requires Valid(s)
    ensures !IsZero(o.den)
    ensures IsZero(Numerator(FractionOf(s))) ==> o == Ogf([], [1.0])
    ensures !IsZero(Numerator(FractionOf(s))) ==> Equiv(o.num, Numerator(FractionOf(s)))
  {
    assert Coef(Denominator(FractionOf(s)), Max(-s.offset, 0)) == 1.0;
    if IsZero(Numerator(FractionOf(s))) then
      assert [1.0][0] == 1.0;
      Ogf([], [1.0])
    else Ogf(Numerator(FractionOf(s)), Denominator(FractionOf(s)))
  }

  /** The generating function `ogf()` returns is that of the terms: its
      denominator times the terms gives its numerator, coefficient by
      coefficient. */
  lemma OgfOfExpansion(s: CFiniteSequence, k: int)
    requires Valid(s)
    ensures var o := OgfOf(s);
      Sum(0, |o.den|, ProductTerms(o.den, s, k)) == Coef(o.num, k)
  {
    var o := OgfOf(s);
    var fr := FractionOf(s);
    if IsZero(Numerator(fr)) {
      ZeroTerms(s, k);
      var f := ProductTerms(o.den, s, k);
      assert f(0) == 1.0 * Coefficient(s, k);
      assert Sum(0, 1, f) == f(0) + Sum(1, 1, f);
    } else {
      ExpansionCore(s, k, |Denominator(fr)|);
    }
  }

  /** A sequence whose numerator is zero is zero everywhere. */
  lemma ZeroTerms(s: CFiniteSequence, k: int)
    requires Valid(s) && IsZero(Numerator(FractionOf(s)))
    ensures Coefficient(s, k) == 0.0
  {
    if k >= s.offset {
      var m := k - s.offset;
      assert IsZero(s.num) by {
        DegreeShiftUp(s.num, Max(s.offset, 0));
      }
      var zeros := seq(m + 1, _ => 0.0);
      forall j | 0 <= j < m + 1
        ensures Conv(s.den, zeros, j) == Coef(s.num, j)
      {
        forall i | 0 <= i < j + 1
          ensures ConvTerms(s.den, zeros, j)(i) == 0.0
        {
          assert Coef(zeros, j - i) == 0.0;
        }
        SumZero(0, j + 1, ConvTerms(s.den, zeros, j));
      }
      SeriesUnique(s.num, s.den, zeros);
    }
  }

  /** The terms of the sequence, indexed by all integers. */
  function TermsOf(s: CFiniteSequence): Terms
    requires Coef(s.den, 0) != 0.0
  {
    k => Coefficient(s, k)
  }

  /** The cross-multiplied comparison num1 * den2 == den1 * num2 of two
      fractions num1/den1 and num2/den2. */
  predicate CrossEqual(o1: Ogf, o2: Ogf)
  {
    Trim(Mul(o1.num, o2.den)) == Trim(Mul(o1.den, o2.num))
  }

  /** `__eq__`: the generating functions compared as fractions, by cross
      multiplication. The comparison is reflexive and symmetric. */
  predicate Equal(s: CFiniteSequence, t: CFiniteSequence): (r: bool)
    requires Valid(s) && Valid(t)
    ensures s == t ==> r
    ensures r == CrossEqual(OgfOf(t), OgfOf(s))
  {
    var o1 := OgfOf(s);
    var o2 := OgfOf(t);
    MulSymmetric(o1.num, o2.den);
    MulSymmetric(o1.den, o2.num);
    CrossEqual(o1, o2)
  }

  /** The expansion identity of `ogf()` in terms of the action of its
      denominator on the terms. */
  lemma OgfAction(s: CFiniteSequence, k: int)
    requires Valid(s)
    ensures Act(OgfOf(s).den, TermsOf(s), k) == Coef(OgfOf(s).num, k)
  {
    OgfOfExpansion(s, k);
    ActIsProduct(OgfOf(s).den, s, k);
  }

  /** p acting on the terms sums the summands p_i * a(k - i). */
  lemma ActIsProduct(p: Poly, s: CFiniteSequence, k: int)
    requires Coef(s.den, 0) != 0.0
    ensures Act(p, TermsOf(s), k) == Sum(0, |p|, ProductTerms(p, s, k))
  {
    forall i | 0 <= i < |p|
      ensures Weighted(p, Back(TermsOf(s), k))(i) == ProductTerms(p, s, k)(i)
    {
      assert Back(TermsOf(s), k)(i) == Reflected(s, k)(i);
    }
    SumExt(0, |p|, Weighted(p, Back(TermsOf(s), k)), ProductTerms(p, s, k));
  }

  /** The terms solve den * A = num for the generating function `ogf()`
      returns, and vanish below the offset. */
  lemma OgfSolves(s: CFiniteSequence)
    requires Valid(s)
    ensures Solves(OgfOf(s).num, OgfOf(s).den, TermsOf(s))
    ensures VanishesBelow(TermsOf(s), s.offset)
  {
    forall k
      ensures Act(OgfOf(s).den, TermsOf(s), k) == Coef(OgfOf(s).num, k)
    {
      OgfAction(s, k);
    }
  }

  /** Two sequences compare equal exactly when all their terms agree. */
  lemma EqualSameTerms(s: CFiniteSequence, t: CFiniteSequence)
    requires Valid(s) && Valid(t)
    ensures Equal(s, t) <==> forall k :: Coefficient(s, k) == Coefficient(t, k)
  {
    if forall k :: Coefficient(s, k) == Coefficient(t, k) {
      SameTermsEqual(s, t);
    }
    if Equal(s, t) {
      EqualTermsAgree(s, t);
    }
  }

  lemma SameTermsEqual(s: CFiniteSequence, t: CFiniteSequence)
    requires Valid(s) && Valid(t)
    requires forall k :: Coefficient(s, k) == Coefficient(t, k)
    ensures Equal(s, t)
  {
    var o1, o2 := OgfOf(s), OgfOf(t);
    OgfSolves(s);
    OgfSolves(t);
    assert forall k :: TermsOf(s)(k) == TermsOf(t)(k);
    CrossFromTerms(o1.num, o1.den, o2.num, o2.den, TermsOf(s), TermsOf(t));
    EquivTrim(Mul(o1.num, o2.den), Mul(o1.den, o2.num));
  }

  lemma EqualTermsAgree(s: CFiniteSequence, t: CFiniteSequence)
    requires Valid(s) && Valid(t) && Equal(s, t)
    ensures forall k :: Coefficient(s, k) == Coefficient(t, k)
  {
    var o1, o2 := OgfOf(s), OgfOf(t);
    var lo := if s.offset < t.offset then s.offset else t.offset;
    OgfSolves(s);
    OgfSolves(t);
    EquivTrim(Mul(o1.num, o2.den), Mul(o1.den, o2.num));
    TermsFromCross(o1.num, o1.den, o2.num, o2.den, TermsOf(s), TermsOf(t), lo);
    forall k
      ensures Coefficient(s, k) == Coefficient(t, k)
    {
      assert TermsOf(s)(k) == TermsOf(t)(k);
    }
  }
}
