/** The normal form of an ordinary generating function (o.g.f.) num/den.

    The sequence class takes the power of x that divides the numerator, or
    failing that the denominator, out of the fraction into an integer
    offset, and divides both polynomials by the denominator's constant
    term, so that the o.g.f. reads x^offset * num/den with den(0) = 1. */
module Normal {
  import opened Poly
  import opened Errors

  /** A rational o.g.f. num/den; den is never the zero polynomial. */
  datatype Ogf = Ogf(num: Poly, den: Poly)

  /** An o.g.f. in normal form x^offset * num/den. */
  datatype Fraction = Fraction(offset: int, num: Poly, den: Poly)

  /** The numerator the sequence reports: x^offset * num when offset >= 0. */
  function Numerator(f: Fraction): Poly
  {
    if f.offset >= 0 then ShiftUp(f.num, f.offset) else f.num
  }

  /** The denominator the sequence reports: x^(-offset) * den when offset < 0. */
  function Denominator(f: Fraction): Poly
  {
    if f.offset < 0 then ShiftUp(f.den, -f.offset) else f.den
  }

  /** The lowest nonzero coefficient of a nonzero polynomial. */
  function LowestCoef(p: Poly): (r: real)
    requires !IsZero(p)
    ensures r != 0.0
  {
    p[Valuation(p)]
  }

  /** x^off * n1/d1 with both polynomials divided by d1(0). */
  function Divided(off: int, n1: Poly, d1: Poly): (fr: Fraction)
    requires Coef(d1, 0) != 0.0
    ensures fr.offset == off && Coef(fr.den, 0) == 1.0
  {
    ScaleToUnitConstant(d1);
    var g := 1.0 / Coef(d1, 0);
    Fraction(off, Trim(Scale(n1, g)), Trim(Scale(d1, g)))
  }

  /** A polynomial o.g.f. num/c: the offset is num's valuation v, and the
      numerator num/(c * x^v). */
  function PolynomialPart(num: Poly, c: real): (fr: Fraction)
    requires c != 0.0
    ensures fr.offset == Valuation(num) && fr.den == [1.0]
  {
    var off := Valuation(num);
    Fraction(off, Trim(Scale(ShiftDown(num, off), 1.0 / c)), [1.0])
  }

  /** Normal form of an o.g.f.:
      - a constant denominator c gives the polynomial num/c, whose lowest
        power of x becomes the offset;
      - a numerator with a nonzero constant term over a denominator that
        x^v divides (v its valuation) gives the offset -v;
      - otherwise the power x^u dividing the numerator (u = 0 when none
        does) gives the offset u, and the constant term of the denominator
        must not be zero: when x divides both polynomials the division by
        that constant term fails. */
  function Normalize(o: Ogf): (r: Result<Fraction>)
    requires !IsZero(o.den)
    ensures r.Err? <==> Degree(o.den) > 0 && Coef(o.num, 0) == 0.0 && Coef(o.den, 0) == 0.0
    ensures r.Err? ==> r.error == ZeroDivision
    ensures r.Ok? ==> Coef(r.value.den, 0) == 1.0
    ensures r.Ok? && Degree(o.den) == 0 ==> r.value.den == [1.0] && r.value.offset >= 0
    ensures r.Ok? ==> r.value.offset == Valuation(o.num) - Valuation(o.den)
  {
    if Degree(o.den) == 0 then
      Ok(PolynomialPart(o.num, o.den[0]))
    else if Coef(o.num, 0) != 0.0 && Coef(o.den, 0) == 0.0 then
      var v := Valuation(o.den);
      Ok(Divided(-(v as int), o.num, ShiftDown(o.den, v)))
    else if Coef(o.den, 0) == 0.0 then
      Err(ZeroDivision)
    else
      var u := Valuation(o.num);
      Ok(Divided(u, ShiftDown(o.num, u), o.den))
  }

  /** The normal form is the same fraction: its numerator and denominator
      are the given ones divided by the lowest coefficient of the given
      denominator. */
  lemma NormalizeSameFraction(o: Ogf)
    requires !IsZero(o.den) && Normalize(o).Ok?
    ensures forall j :: Coef(Numerator(Normalize(o).value), j) == Coef(o.num, j) / LowestCoef(o.den)
    ensures forall j :: Coef(Denominator(Normalize(o).value), j) == Coef(o.den, j) / LowestCoef(o.den)
  {
    if Degree(o.den) == 0 {
      PolynomialFraction(o.num, o.den);
    } else if Coef(o.num, 0) != 0.0 && Coef(o.den, 0) == 0.0 {
      PoleFraction(o.num, o.den);
    } else {
      ZeroFreeFraction(o.num, o.den);
    }
  }

  lemma PolynomialFraction(num: Poly, den: Poly)
    requires Degree(den) == 0
    ensures var fr := PolynomialPart(num, den[0]);
      && (forall j :: Coef(Numerator(fr), j) == Coef(num, j) / LowestCoef(den))
      && (forall j :: Coef(Denominator(fr), j) == Coef(den, j) / LowestCoef(den))
  {
    assert LowestCoef(den) == den[0];
    assert forall j :: 0 <= j < Valuation(num) ==> Coef(num, j) == 0.0;
    DivideBetweenShifts(num, Valuation(num), den[0]);
    DivideConstant(den);
  }

  lemma ZeroFreeFraction(num: Poly, den: Poly)
    requires Coef(den, 0) != 0.0
    ensures var u := Valuation(num);
      var fr := Divided(u, ShiftDown(num, u), den);
      && (forall j :: Coef(Numerator(fr), j) == Coef(num, j) / LowestCoef(den))
      && (forall j :: Coef(Denominator(fr), j) == Coef(den, j) / LowestCoef(den))
  {
    var u := Valuation(num);
    var f := den[0];
    assert !IsZero(den) && Valuation(den) == 0;
    assert LowestCoef(den) == f;
    assert forall j :: 0 <= j < u ==> Coef(num, j) == 0.0;
    DivideBetweenShifts(num, u, f);
    DivideCoef(den, f);
  }

  lemma PoleFraction(num: Poly, den: Poly)
    requires !IsZero(den) && Coef(den, 0) == 0.0
    ensures var v := Valuation(den);
      Coef(ShiftDown(den, v), 0) != 0.0 &&
      var fr := Divided(-(v as int), num, ShiftDown(den, v));
      && (forall j :: Coef(Numerator(fr), j) == Coef(num, j) / LowestCoef(den))
      && (forall j :: Coef(Denominator(fr), j) == Coef(den, j) / LowestCoef(den))
  {
    var v := Valuation(den);
    var f := LowestCoef(den);
    assert Coef(ShiftDown(den, v), 0) == f;
    assert v > 0;
    assert forall j :: 0 <= j < v ==> Coef(den, j) == 0.0;
    DivideBetweenShifts(den, v, f);
    DivideCoef(num, f);
  }

  /** The normal form takes every power of x out of the fraction: its
      numerator does not vanish at 0 (unless it is zero), and its
      denominator loses exactly the x^v that divided the given one. */
  lemma NormalizeShape(o: Ogf)
    requires !IsZero(o.den) && Normalize(o).Ok?
    ensures !IsZero(o.num) ==> Coef(Normalize(o).value.num, 0) != 0.0
    ensures Degree(Normalize(o).value.den) == Degree(o.den) - Valuation(o.den)
  {
    if Degree(o.den) == 0 {
      NumeratorShape(o.num, Valuation(o.num), o.den[0]);
    } else if Coef(o.num, 0) != 0.0 && Coef(o.den, 0) == 0.0 {
      PoleShape(o.num, o.den);
    } else {
      ZeroFreeShape(o.num, o.den);
    }
  }

  lemma ZeroFreeShape(num: Poly, den: Poly)
    requires Coef(den, 0) != 0.0
    ensures var u := Valuation(num);
      var fr := Divided(u, ShiftDown(num, u), den);
      && (!IsZero(num) ==> Coef(fr.num, 0) != 0.0)
      && Degree(fr.den) == Degree(den) - Valuation(den)
  {
    var f := den[0];
    assert !IsZero(den) && Valuation(den) == 0;
    NumeratorShape(num, Valuation(num), f);
    DenominatorShape(den, 0, f, den);
  }

  lemma PoleShape(num: Poly, den: Poly)
    requires !IsZero(den) && Coef(den, 0) == 0.0 && Coef(num, 0) != 0.0
    ensures var v := Valuation(den);
      Coef(ShiftDown(den, v), 0) != 0.0 &&
      var fr := Divided(-(v as int), num, ShiftDown(den, v));
      && Coef(fr.num, 0) != 0.0
      && Degree(fr.den) == Degree(den) - v
  {
    var v := Valuation(den);
    var f := LowestCoef(den);
    assert Coef(ShiftDown(den, v), 0) == f;
    assert Valuation(num) == 0;
    NumeratorShape(num, 0, f);
    assert ShiftDown(num, 0) == num;
    DenominatorShape(den, v, f, ShiftDown(den, v));
  }
}
