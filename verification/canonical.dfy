/** Canonical form of a C-finite sequence given by its ordinary generating
    function (o.g.f.) num/den, and the precomputed data the sequence keeps.

    The sequence a(offset), a(offset+1), ... is the expansion of
    x^offset * num/den with den(0) = 1; the power of x that divides the
    numerator, or the denominator, is carried in `offset` instead. */
module Canonical {
  import opened Sums
  import opened Poly
  import opened Recurrence
  import opened Series
  import opened Errors
  import opened Normal

  /** A sequence in canonical form:
      - `offset`, `num`, `den`: its o.g.f. in normal form;
      - `degree`, `coefficients`: the order d and the coefficients c_i of
        the recurrence a(m) = c_0*a(m-1) + ... + c_{d-1}*a(m-d);
      - `start`: the stored window a(offset), a(offset+1), ...;
      - `remStart`: at most d values the term evaluator uses as the seed
        when the o.g.f. has a polynomial part (see the Terms module). */
  datatype CFiniteSequence = CFiniteSequence(
    offset: int,
    num: Poly,
    den: Poly,
    degree: nat,
    coefficients: seq<real>,
    start: seq<real>,
    remStart: seq<real>)

  function Max(a: int, b: int): int
  {
    if a < b then b else a
  }

  /** The first n entries of a list, or the whole list when it is shorter
      (a Python slice `t[:n]`). */
  function Cut(t: seq<real>, n: nat): (r: seq<real>)
    ensures |r| <= n && r <= t
    ensures n <= |t| ==> |r| == n
  {
    if |t| <= n then t else t[..n]
  }

  function FractionOf(s: CFiniteSequence): Fraction
  {
    Fraction(s.offset, s.num, s.den)
  }

  /** The invariant every canonical sequence keeps: a normalised
      denominator, the recurrence read off it, and a window that holds the
      expansion of num/den at least until both the recurrence order and the
      numerator are passed. */
  ghost predicate Valid(s: CFiniteSequence)
  {
    && Coef(s.den, 0) == 1.0
    && s.degree == Degree(s.den)
    && s.coefficients == RecurrenceOf(s.den, s.degree)
    && s.degree <= |s.start|
    && Degree(s.num) < |s.start|
    && s.start == SeriesPrefix(s.num, s.den, |s.start|)
    && |s.remStart| <= s.degree
  }

  /** The sequence of a polynomial o.g.f. x^offset * num: a finite sequence
      whose window is num's coefficient list ([0] for the zero polynomial). */
  function PolynomialSequence(fr: Fraction): (s: CFiniteSequence)
    requires fr.den == [1.0]
    ensures Valid(s) && FractionOf(s) == fr && s.degree == 0
    ensures |s.start| == if IsZero(fr.num) then 1 else Degree(fr.num) + 1
  {
    var start := if IsZero(fr.num) then [0.0] else Trim(fr.num);
    SeriesOfPolynomial(fr.num, fr.den, |start|);
    CFiniteSequence(fr.offset, fr.num, fr.den, 0, [], start, [])
  }

  /** The sequence of a fraction with a nonconstant denominator: the window
      is the first max(deg den, deg N + 1) terms of num/den, N the reported
      numerator, and remStart the terms of R/den from R's lowest term on,
      R the remainder of N by the reported denominator, as a list of the
      first max(deg den, deg N + 1) of them with trailing zeros dropped,
      cut to at most deg den entries. */
  function RationalSequence(fr: Fraction): (s: CFiniteSequence)
    requires Coef(fr.den, 0) == 1.0
    ensures Valid(s) && FractionOf(s) == fr
    ensures |s.start| == Max(s.degree, Degree(Numerator(fr)) + 1)
  {
    var n := fr.num;
    var d := fr.den;
    assert d[0] != 0.0;
    var deg := Degree(d);
    var alen := Max(deg, Degree(Numerator(fr)) + 1);
    DegreeShiftUp(n, Max(fr.offset, 0));
    assert !IsZero(Denominator(fr)) by {
      assert Coef(Denominator(fr), Max(-fr.offset, 0)) == 1.0;
    }
    var rem := QuoRem(Numerator(fr), Denominator(fr)).1;
    var remList := Trim(SeriesPrefix(ShiftDown(rem, Valuation(rem)), d, alen));
    CFiniteSequence(fr.offset, n, d, deg, RecurrenceOf(d, deg),
      SeriesPrefix(n, d, alen),
      Cut(remList, deg))
  }

  /** The sequence of an o.g.f.: its normal form, and the recurrence and
      window computed from it. */
  function Canonicalize(o: Ogf): (r: Result<CFiniteSequence>)
    requires !IsZero(o.den)
    ensures r.Ok? <==> Normalize(o).Ok?
    ensures r.Err? ==> r.error == ZeroDivision
    ensures r.Ok? ==> Valid(r.value) && FractionOf(r.value) == Normalize(o).value
  {
    match Normalize(o)
    case Err(e) => Err(e)
    case Ok(fr) =>
      if Degree(o.den) == 0 then Ok(PolynomialSequence(fr)) else Ok(RationalSequence(fr))
  }

  /** The term a(k) of a sequence: 0 before the offset, and from there on
      the power-series coefficients of num/den. */
  function Coefficient(s: CFiniteSequence, k: int): real
    requires Coef(s.den, 0) != 0.0
  {
    if k < s.offset then 0.0 else SeriesCoef(s.num, s.den, k - s.offset)
  }

  /** Every term up to a bound is read off one prefix of the expansion. */
  lemma CoefficientFromPrefix(s: CFiniteSequence, j: int, len: nat)
    requires Coef(s.den, 0) != 0.0 && j - s.offset < len
    ensures Coefficient(s, j) == Coef(SeriesPrefix(s.num, s.den, len), j - s.offset)
  {
    SeriesPrefixCoef(s.num, s.den, len);
  }

  /** The terms a(k - i), read backwards from k. */
  function Reflected(s: CFiniteSequence, k: int): int -> real
    requires Coef(s.den, 0) != 0.0
  {
    i => Coefficient(s, k - i)
  }

  /** The summands p_i * a(k - i) of the coefficient of x^k in p times the
      o.g.f. of s. */
  function ProductTerms(p: Poly, s: CFiniteSequence, k: int): int -> real
    requires Coef(s.den, 0) != 0.0
  {
    Weighted(p, Reflected(s, k))
  }

  lemma ProductTermAt(p: Poly, s: CFiniteSequence, k: int, i: int)
    requires Coef(s.den, 0) != 0.0
    ensures ProductTerms(p, s, k)(i) == Coef(p, i) * Coefficient(s, k - i)
  {
  }

  /** One summand of the product, read off a prefix of the expansion of
      num/den: D_i * a(k - i) = d_{i-v} * e_{k-u-(i-v)}, where the reported
      fraction is x^u * n / (x^v * d) and e is the expansion of n/d. */
  lemma ProductTermShift(s: CFiniteSequence, k: int, i: int, len: nat)
    requires Coef(s.den, 0) != 0.0
    requires k - Max(s.offset, 0) < len
    ensures ProductTerms(Denominator(FractionOf(s)), s, k)(i)
         == ConvTerms(s.den, SeriesPrefix(s.num, s.den, len), k - Max(s.offset, 0))(i - Max(-s.offset, 0))
  {
    var v := Max(-s.offset, 0);
    var m := k - Max(s.offset, 0);
    var a := SeriesPrefix(s.num, s.den, len);
    var D := Denominator(FractionOf(s));
    var x, y := Coef(D, i), Coefficient(s, k - i);
    var x', y' := Coef(s.den, i - v), Coef(a, m - (i - v));
    ProductTermAt(D, s, k, i);
    ConvTermAt(s.den, a, m, i - v);
    DenominatorAt(s, i);
    if i >= v {
      ShiftedTerm(s, k, i, len);
      assert y == y';
    } else {
      assert x' == 0.0;
    }
  }

  /** The reported denominator x^v * d at i is d at i - v. */
  lemma DenominatorAt(s: CFiniteSequence, i: int)
    ensures Coef(Denominator(FractionOf(s)), i) == Coef(s.den, i - Max(-s.offset, 0))
  {
  }

  lemma ShiftedTerm(s: CFiniteSequence, k: int, i: int, len: nat)
    requires Coef(s.den, 0) != 0.0
    requires k - Max(s.offset, 0) < len && i >= Max(-s.offset, 0)
    ensures Coefficient(s, k - i)
         == Coef(SeriesPrefix(s.num, s.den, len), k - Max(s.offset, 0) - (i - Max(-s.offset, 0)))
  {
    CoefficientFromPrefix(s, k - i, len);
    assert k - i - s.offset == k - Max(s.offset, 0) - (i - Max(-s.offset, 0));
  }

  /** The product's sum, reindexed to the convolution of d with the
      expansion of n/d. */
  lemma ProductShift(s: CFiniteSequence, k: int, bound: nat)
    requires Coef(s.den, 0) != 0.0
    ensures var len := Max(k - Max(s.offset, 0) + 1, 0);
      Sum(0, bound, ProductTerms(Denominator(FractionOf(s)), s, k))
      == Sum(-Max(-s.offset, 0), bound - Max(-s.offset, 0),
             ConvTerms(s.den, SeriesPrefix(s.num, s.den, len), k - Max(s.offset, 0)))
  {
    var u := Max(s.offset, 0);
    var v := Max(-s.offset, 0);
    var len := Max(k - u + 1, 0);
    var g := ConvTerms(s.den, SeriesPrefix(s.num, s.den, len), k - u);
    var terms := ProductTerms(Denominator(FractionOf(s)), s, k);
    forall i | 0 <= i < bound
      ensures terms(i) == g(i + -v)
    {
      ProductTermShift(s, k, i, len);
    }
    SumShift(0, bound, -v, g, terms);
  }

  /** The terms of a valid sequence are the expansion of its reported
      fraction N/D: for every k, sum_i D_i * a(k - i) = N_k. */
  lemma ExpansionCore(s: CFiniteSequence, k: int, bound: nat)
    requires Coef(s.den, 0) != 0.0
    requires bound > Degree(Denominator(FractionOf(s)))
    ensures Sum(0, bound, ProductTerms(Denominator(FractionOf(s)), s, k)) == Coef(Numerator(FractionOf(s)), k)
  {
    var u := Max(s.offset, 0);
    var v := Max(-s.offset, 0);
    var len := Max(k - u + 1, 0);
    ProductShift(s, k, bound);
    NumeratorAt(s, k);
    WindowSum(s, k - u, v, bound - v, len);
  }

  /** The reported numerator x^u * n at k is n at k - u. */
  lemma NumeratorAt(s: CFiniteSequence, k: int)
    ensures Coef(Numerator(FractionOf(s)), k) == Coef(s.num, k - Max(s.offset, 0))
  {
  }

  /** The convolution of d with the expansion of n/d over [-v, hi) is n. */
  lemma WindowSum(s: CFiniteSequence, m: int, v: nat, hi: int, len: nat)
    requires Coef(s.den, 0) != 0.0
    requires v == Max(-s.offset, 0) && hi + v > Degree(Denominator(FractionOf(s)))
    requires len == Max(m + 1, 0)
    ensures Sum(-(v as int), hi, ConvTerms(s.den, SeriesPrefix(s.num, s.den, len), m)) == Coef(s.num, m)
  {
    var d := s.den;
    assert hi > Degree(d) by {
      DegreeShiftUp(d, v);
      assert d[0] != 0.0;
    }
    ConvolutionWindow(d, SeriesPrefix(s.num, s.den, len), m, v, hi);
    if m >= 0 {
      SeriesSolves(s.num, d, len);
    }
  }

  /** The convolution sum at m over any index range [-v, hi) that covers
      d's terms: only 0 <= i <= m contributes. */
  lemma ConvolutionWindow(d: Poly, a: seq<real>, m: int, v: int, hi: int)
    requires v >= 0 && hi > Degree(d) && |a| == Max(m + 1, 0)
    ensures Sum(-v, hi, ConvTerms(d, a, m)) == if m < 0 then 0.0 else Conv(d, a, m)
  {
    var g := ConvTerms(d, a, m);
    if m < 0 {
      forall i | -v <= i < hi
        ensures g(i) == 0.0
      {
        assert Coef(a, m - i) == 0.0;
      }
      SumZero(-v, hi, g);
    } else {
      var top := if hi < m + 1 then hi else m + 1;
      forall i | top <= i < hi
        ensures g(i) == 0.0
      {
        assert Coef(a, m - i) == 0.0;
      }
      SumWindow(-v, 0, top, hi, g);
      forall i | top <= i < m + 1
        ensures g(i) == 0.0
      {
        CoefBeyondDegree(d, i);
      }
      SumWindow(0, 0, top, m + 1, g);
    }
  }

  /** The terms of the sequence built from an o.g.f. num/den are its
      expansion: for every k, sum_i den_i * a(k - i) = num_k, so that
      den * (sum_k a(k) x^k) = num. */
  lemma OgfExpansion(o: Ogf, s: CFiniteSequence, k: int)
    requires !IsZero(o.den) && Canonicalize(o) == Ok(s)
    ensures Coef(s.den, 0) != 0.0
    ensures Sum(0, |o.den|, ProductTerms(o.den, s, k)) == Coef(o.num, k)
  {
    var f := LowestCoef(o.den);
    assert FractionOf(s) == Normalize(o).value;
    assert (forall j :: Coef(Denominator(FractionOf(s)), j) == Coef(o.den, j) / f)
        && Coef(Numerator(FractionOf(s)), k) == Coef(o.num, k) / f by {
      NormalizeSameFraction(o);
    }
    ScaledExpansion(s, o.num, o.den, f, k);
  }

  /** The expansion identity carries over to any fraction num/den whose
      coefficients are f times the reported ones. */
  lemma ScaledExpansion(s: CFiniteSequence, num: Poly, den: Poly, f: real, k: int)
    requires Coef(s.den, 0) != 0.0 && f != 0.0
    requires forall j :: Coef(Denominator(FractionOf(s)), j) == Coef(den, j) / f
    requires Coef(Numerator(FractionOf(s)), k) == Coef(num, k) / f
    ensures Sum(0, |den|, ProductTerms(den, s, k)) == Coef(num, k)
  {
    QuotientExpansion(s, den, f, k);
    WeightedUnscale(0, |den|, Denominator(FractionOf(s)), den, f, Reflected(s, k), Coef(num, k));
  }

  lemma QuotientExpansion(s: CFiniteSequence, den: Poly, f: real, k: int)
    requires Coef(s.den, 0) != 0.0 && f != 0.0
    requires forall j :: Coef(Denominator(FractionOf(s)), j) == Coef(den, j) / f
    ensures Sum(0, |den|, ProductTerms(Denominator(FractionOf(s)), s, k)) == Coef(Numerator(FractionOf(s)), k)
  {
    DegreeOfQuotient(Denominator(FractionOf(s)), den, f);
    ExpansionCore(s, k, |den|);
  }

}
