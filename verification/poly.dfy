/** Univariate polynomials over the rationals, as coefficient lists.

    `p[i]` is the coefficient of x^i. A list may carry trailing zeros, so two
    lists denote the same polynomial when `Equiv` holds; `Coef` reads any
    power, returning 0 outside the list. Dafny's `real` stands for the
    rationals: every operation here is a field operation on finitely many
    coefficients. */
module Poly {
  import opened Sums

  type Poly = seq<real>

  /** The coefficient of x^i (0 for negative i and beyond the list). */
  function Coef(p: seq<real>, i: int): real
  {
    if 0 <= i < |p| then p[i] else 0.0
  }

  predicate IsZero(p: Poly)
  {
    forall i :: 0 <= i < |p| ==> p[i] == 0.0
  }

  /** Both lists denote the same polynomial. */
  ghost predicate Equiv(p: Poly, q: Poly)
  {
    forall i: int :: Coef(p, i) == Coef(q, i)
  }

  /** The degree, -1 for the zero polynomial. */
  function Degree(p: Poly): (r: int)
    ensures -1 <= r < |p|
    ensures r >= 0 ==> p[r] != 0.0
    ensures forall i :: r < i < |p| ==> p[i] == 0.0
    ensures r == -1 <==> IsZero(p)
  {
    HighestBelow(p, |p|)
  }

  /** The highest index below n holding a nonzero coefficient, or -1. */
  function HighestBelow(p: Poly, n: nat): (r: int)
    requires n <= |p|
    ensures -1 <= r < n
    ensures r >= 0 ==> p[r] != 0.0
    ensures forall i :: r < i < n ==> p[i] == 0.0
    decreases n
  {
    if n == 0 then -1
    else if p[n - 1] != 0.0 then n - 1
    else HighestBelow(p, n - 1)
  }

  lemma CoefBeyondDegree(p: Poly, i: int)
    requires i > Degree(p)
    ensures Coef(p, i) == 0.0
  {
  }

  /** The exponent of the lowest nonzero term; 0 for the zero polynomial. */
  function Valuation(p: Poly): (r: nat)
    ensures !IsZero(p) ==> r < |p| && p[r] != 0.0 && forall i :: 0 <= i < r ==> p[i] == 0.0
    ensures IsZero(p) ==> r == 0
  {
    LowestFrom(p, 0)
  }

  /** The lowest index from n on holding a nonzero coefficient, or 0 when
      there is none. */
  function LowestFrom(p: Poly, n: nat): (r: nat)
    requires n <= |p|
    ensures (exists i :: n <= i < |p| && p[i] != 0.0) ==>
      n <= r < |p| && p[r] != 0.0 && forall i :: n <= i < r ==> p[i] == 0.0
    ensures (forall i :: n <= i < |p| ==> p[i] == 0.0) ==> r == 0
    decreases |p| - n
  {
    if n == |p| then 0
    else if p[n] != 0.0 then n
    else LowestFrom(p, n + 1)
  }

  /** The coefficient list with trailing zeros removed (Sage's `list()`). */
  function Trim(p: Poly): (r: Poly)
    ensures |r| == Degree(p) + 1
    ensures forall i :: 0 <= i < |r| ==> r[i] == p[i]
    ensures Equiv(r, p)
  {
    p[..Degree(p) + 1]
  }

  /** Division by x^k of a polynomial that x^k divides: drops the k lowest coefficients. */
  function ShiftDown(p: Poly, k: nat): (r: Poly)
    ensures forall i: int :: i >= 0 ==> Coef(r, i) == Coef(p, i + k)
  {
    if k <= |p| then p[k..] else []
  }

  /** Multiplication by x^k. */
  function ShiftUp(p: Poly, k: nat): (r: Poly)
    ensures |r| == |p| + k
    ensures forall i: int :: Coef(r, i) == Coef(p, i - k)
  {
    seq(k, _ => 0.0) + p
  }

  function Scale(p: Poly, a: real): (r: Poly)
    ensures |r| == |p|
    ensures forall i: int :: Coef(r, i) == a * Coef(p, i)
  {
    seq(|p|, i requires 0 <= i < |p| => a * p[i])
  }

  function Add(p: Poly, q: Poly): (r: Poly)
    ensures |r| == if |p| < |q| then |q| else |p|
    ensures forall i: int :: Coef(r, i) == Coef(p, i) + Coef(q, i)
  {
    seq(if |p| < |q| then |q| else |p|, i => Coef(p, i) + Coef(q, i))
  }

  function Sub(p: Poly, q: Poly): (r: Poly)
    ensures |r| == if |p| < |q| then |q| else |p|
    ensures forall i: int :: Coef(r, i) == Coef(p, i) - Coef(q, i)
  {
    seq(if |p| < |q| then |q| else |p|, i => Coef(p, i) - Coef(q, i))
  }

  /** The monomial a*x^k. */
  function Monomial(a: real, k: nat): (r: Poly)
    ensures forall i: int :: Coef(r, i) == if i == k then a else 0.0
  {
    seq(k, _ => 0.0) + [a]
  }

  /** The polynomial with coefficients reversed (x^n p(1/x) for n = |p| - 1). */
  function Reverse(p: seq<real>): (r: seq<real>)
    ensures |r| == |p|
    ensures forall i :: 0 <= i < |p| ==> r[i] == p[|p| - 1 - i]
  {
    seq(|p|, i requires 0 <= i < |p| => p[|p| - 1 - i])
  }

  /** The terms of exponent below n (Sage's `add_bigoh(n).truncate()`). */
  function Truncate(p: Poly, n: nat): (r: Poly)
    ensures forall i: int :: Coef(r, i) == if i < n then Coef(p, i) else 0.0
  {
    if n <= |p| then p[..n] else p
  }

  /** The summands p_i*q_{k-i} of the coefficient of x^k in p*q. */
  function ConvTerms(p: Poly, q: seq<real>, k: int): int -> real
  {
    i => Coef(p, i) * Coef(q, k - i)
  }

  lemma ConvTermAt(p: Poly, q: seq<real>, k: int, i: int)
    ensures ConvTerms(p, q, k)(i) == Coef(p, i) * Coef(q, k - i)
  {
  }

  /** The coefficient of x^k in the product p*q; q may be any coefficient list. */
  function Conv(p: Poly, q: seq<real>, k: int): real
  {
    Sum(0, k + 1, ConvTerms(p, q, k))
  }

  /** The summands p_i * w(i). */
  function Weighted(p: Poly, w: int -> real): int -> real
  {
    i => Coef(p, i) * w(i)
  }

  lemma ScaledWeight(a: real, x: real, f: real)
    requires f != 0.0
    ensures a * x == f * ((a / f) * x)
  {
  }

  /** A weighted sum over q is f times the one over q/f. */
  lemma WeightedQuotient(lo: int, hi: int, p: Poly, q: Poly, f: real, w: int -> real)
    requires f != 0.0
    requires forall j :: Coef(p, j) == Coef(q, j) / f
    ensures Sum(lo, hi, Weighted(q, w)) == f * Sum(lo, hi, Weighted(p, w))
  {
    forall i | lo <= i < hi
      ensures Weighted(q, w)(i) == f * Weighted(p, w)(i)
    {
      ScaledWeight(Coef(q, i), w(i), f);
    }
    SumScale(lo, hi, f, Weighted(p, w), Weighted(q, w));
  }

  /** If the weighted sum over q/f is x/f, the one over q is x. */
  lemma WeightedUnscale(lo: int, hi: int, p: Poly, q: Poly, f: real, w: int -> real, x: real)
    requires f != 0.0
    requires forall j :: Coef(p, j) == Coef(q, j) / f
    requires Sum(lo, hi, Weighted(p, w)) == x / f
    ensures Sum(lo, hi, Weighted(q, w)) == x
  {
    WeightedQuotient(lo, hi, p, q, f, w);
  }

  /** The product p*q. */
  function Mul(p: Poly, q: Poly): (r: Poly)
    ensures forall k :: 0 <= k < |r| ==> r[k] == Conv(p, q, k)
  {
    seq(if |p| == 0 || |q| == 0 then 0 else |p| + |q| - 1, k => Conv(p, q, k))
  }

  lemma ConvBeyondLength(p: Poly, q: seq<real>, k: int)
    requires k >= |p| + |q| - 1 || |p| == 0 || |q| == 0
    ensures Conv(p, q, k) == 0.0
  {
    var f := ConvTerms(p, q, k);
    forall i | 0 <= i < k + 1
      ensures f(i) == 0.0
    {
      if i < |p| {
        assert Coef(q, k - i) == 0.0;
      }
    }
    SumZero(0, k + 1, f);
  }

  lemma MulCoef(p: Poly, q: Poly)
    ensures forall k: int :: k >= 0 ==> Coef(Mul(p, q), k) == Conv(p, q, k)
  {
    forall k: int | k >= 0
      ensures Coef(Mul(p, q), k) == Conv(p, q, k)
    {
      if k >= |Mul(p, q)| {
        ConvBeyondLength(p, q, k);
      }
    }
  }

  lemma DegreeShiftUp(p: Poly, k: nat)
    ensures Degree(ShiftUp(p, k)) == if IsZero(p) then -1 else Degree(p) + k
  {
    var r := ShiftUp(p, k);
    if !IsZero(p) {
      assert r[Degree(p) + k] == p[Degree(p)];
    } else {
      assert IsZero(r);
    }
  }

  lemma DegreeShiftDown(p: Poly, k: nat)
    ensures Degree(ShiftDown(p, k)) == if Degree(p) >= k then Degree(p) - k else -1
  {
    var r := ShiftDown(p, k);
    if Degree(p) >= k {
      assert r[Degree(p) - k] == p[Degree(p)];
    } else {
      assert IsZero(r);
    }
  }

  lemma DegreeScale(p: Poly, a: real)
    requires a != 0.0
    ensures Degree(Scale(p, a)) == Degree(p)
  {
    var r := Scale(p, a);
    if !IsZero(p) {
      assert r[Degree(p)] == a * p[Degree(p)];
    }
    if IsZero(r) {
      forall i | 0 <= i < |p|
        ensures p[i] == 0.0
      {
        assert r[i] == a * p[i];
      }
    }
  }

  /** A nonzero polynomial's lowest term: the coefficients below the
      valuation vanish and the one at it does not. */
  lemma ValuationShiftUp(p: Poly, k: nat)
    requires !IsZero(p)
    ensures !IsZero(ShiftUp(p, k))
    ensures Valuation(ShiftUp(p, k)) == Valuation(p) + k
  {
    var r := ShiftUp(p, k);
    assert r[Valuation(p) + k] == p[Valuation(p)];
  }

  /** The valuation is the one position with a nonzero coefficient and only
      zeros below it. */
  lemma ValuationUnique(p: Poly, v: nat)
    requires v < |p| && p[v] != 0.0
    requires forall i :: 0 <= i < v ==> p[i] == 0.0
    ensures Valuation(p) == v
  {
  }

  lemma ValuationScale(p: Poly, a: real)
    requires a != 0.0
    ensures IsZero(Scale(p, a)) <==> IsZero(p)
    ensures Valuation(Scale(p, a)) == Valuation(p)
  {
    DegreeScale(p, a);
    var r := Scale(p, a);
    if !IsZero(p) {
      var v := Valuation(p);
      assert r[v] == a * p[v];
      forall i | 0 <= i < v
        ensures r[i] == 0.0
      {
        assert r[i] == a * p[i];
      }
      ValuationUnique(r, v);
    }
  }

  /** Below the valuation every coefficient vanishes. */
  lemma CoefBelowValuation(p: Poly, i: int)
    requires i < Valuation(p)
    ensures Coef(p, i) == 0.0
  {
  }

  /** Taking x^k out of a polynomial that x^k divides, scaling, and
      putting x^k back scales the polynomial. */
  lemma ScaleBetweenShifts(p: Poly, k: nat, a: real)
    requires forall j :: 0 <= j < k ==> Coef(p, j) == 0.0
    ensures forall j :: Coef(ShiftUp(Trim(Scale(ShiftDown(p, k), a)), k), j) == a * Coef(p, j)
  {
    var r := ShiftUp(Trim(Scale(ShiftDown(p, k), a)), k);
    forall j
      ensures Coef(r, j) == a * Coef(p, j)
    {
      if j >= k {
        assert Coef(r, j) == Coef(Scale(ShiftDown(p, k), a), j - k);
      } else if j >= 0 {
        assert Coef(p, j) == 0.0;
      }
    }
  }

  lemma Reciprocal(x: real, c: real)
    requires c != 0.0
    ensures (1.0 / c) * x == x / c
  {
  }

  /** Polynomials with the same nonzero coefficients have the same degree. */
  lemma DegreeBySupport(p: Poly, q: Poly)
    requires forall j :: Coef(p, j) == 0.0 <==> Coef(q, j) == 0.0
    ensures Degree(p) == Degree(q)
  {
    var dp, dq := Degree(p), Degree(q);
    if dp > dq {
      CoefBeyondDegree(q, dp);
    } else if dq > dp {
      CoefBeyondDegree(p, dq);
    }
  }

  /** A polynomial whose coefficients are another's shifted down by v has
      degree v less, once v is below the other's lowest term. */
  lemma DegreeSupportShift(p: Poly, q: Poly, v: nat)
    requires forall j :: j >= 0 ==> Coef(p, j) == Coef(q, j + v)
    requires forall j :: 0 <= j < v ==> Coef(q, j) == 0.0
    requires !IsZero(q)
    ensures Degree(p) == Degree(q) - v
  {
    assert Coef(q, Degree(q)) != 0.0;
    DegreeBySupport(p, ShiftDown(q, v));
    DegreeShiftDown(q, v);
  }

  /** Coefficientwise division by a nonzero constant keeps the degree. */
  lemma DegreeOfQuotient(p: Poly, q: Poly, c: real)
    requires c != 0.0
    requires forall j :: Coef(p, j) == Coef(q, j) / c
    ensures Degree(p) == Degree(q)
  {
    DegreeBySupport(p, q);
  }

  /** Division of every coefficient by a nonzero constant. */
  lemma DivideCoef(p: Poly, c: real)
    requires c != 0.0
    ensures forall j :: Coef(Trim(Scale(p, 1.0 / c)), j) == Coef(p, j) / c
  {
    forall j
      ensures Coef(Trim(Scale(p, 1.0 / c)), j) == Coef(p, j) / c
    {
      DivideCoefAt(p, c, j);
    }
  }

  lemma DivideCoefAt(p: Poly, c: real, j: int)
    requires c != 0.0
    ensures Coef(Trim(Scale(p, 1.0 / c)), j) == Coef(p, j) / c
  {
    var q := Scale(p, 1.0 / c);
    var x := Coef(p, j);
    assert Coef(Trim(q), j) == Coef(q, j);
    assert Coef(q, j) == (1.0 / c) * x;
    Reciprocal(x, c);
  }

  /** A constant polynomial divided by itself is 1. */
  lemma DivideConstant(p: Poly)
    requires Degree(p) == 0
    ensures forall j :: Coef([1.0], j) == Coef(p, j) / p[0]
  {
    forall j
      ensures Coef([1.0], j) == Coef(p, j) / p[0]
    {
      if j > 0 {
        CoefBeyondDegree(p, j);
      }
    }
  }

  /** Division by a nonzero constant between taking x^k out and putting it
      back, for a polynomial that x^k divides. */
  lemma DivideBetweenShifts(p: Poly, k: nat, c: real)
    requires c != 0.0
    requires forall j :: 0 <= j < k ==> Coef(p, j) == 0.0
    ensures forall j :: Coef(ShiftUp(Trim(Scale(ShiftDown(p, k), 1.0 / c)), k), j) == Coef(p, j) / c
  {
    ScaleBetweenShifts(p, k, 1.0 / c);
    forall j
      ensures Coef(ShiftUp(Trim(Scale(ShiftDown(p, k), 1.0 / c)), k), j) == Coef(p, j) / c
    {
      Reciprocal(Coef(p, j), c);
    }
  }

  /** Dividing by the constant term makes the constant term 1. */
  lemma ScaleToUnitConstant(p: Poly)
    requires Coef(p, 0) != 0.0
    ensures Coef(Trim(Scale(p, 1.0 / Coef(p, 0))), 0) == 1.0
  {
    var g := 1.0 / Coef(p, 0);
    assert Coef(Scale(p, g), 0) == g * Coef(p, 0);
  }

  /** Dividing by x^v, v the valuation, and by a nonzero constant leaves a
      nonzero constant term. */
  lemma NumeratorShape(num: Poly, off: nat, f: real)
    requires f != 0.0 && off == Valuation(num)
    ensures !IsZero(num) ==> Coef(Trim(Scale(ShiftDown(num, off), 1.0 / f)), 0) != 0.0
  {
    if !IsZero(num) {
      NonzeroAfterDivide(ShiftDown(num, off), f);
    }
  }

  lemma NonzeroAfterDivide(p: Poly, f: real)
    requires f != 0.0 && Coef(p, 0) != 0.0
    ensures Coef(Trim(Scale(p, 1.0 / f)), 0) != 0.0
  {
    var g := 1.0 / f;
    var y := Scale(p, g);
    assert Coef(y, 0) == g * Coef(p, 0);
    NonzeroProduct(g, Coef(p, 0));
  }

  lemma NonzeroProduct(a: real, b: real)
    requires a != 0.0 && b != 0.0
    ensures a * b != 0.0
  {
  }

  /** Dividing by x^v, v the valuation, and by a nonzero constant lowers
      the degree by v. */
  lemma DenominatorShape(den: Poly, v: nat, f: real, d1: Poly)
    requires f != 0.0 && !IsZero(den) && v == Valuation(den)
    requires forall j :: j >= 0 ==> Coef(d1, j) == Coef(den, j + v)
    ensures Degree(Trim(Scale(d1, 1.0 / f))) == Degree(den) - v
  {
    ReciprocalNonzero(f);
    DegreeDivided(d1, 1.0 / f);
    DegreeSupportShift(d1, den, v);
  }

  lemma ReciprocalNonzero(f: real)
    requires f != 0.0
    ensures 1.0 / f != 0.0
  {
  }

  lemma DegreeDivided(p: Poly, g: real)
    requires g != 0.0
    ensures Degree(Trim(Scale(p, g))) == Degree(p)
  {
    DegreeScale(p, g);
    DegreeTrim(Scale(p, g));
  }

  lemma DegreeTrim(p: Poly)
    ensures Degree(Trim(p)) == Degree(p)
  {
  }

  lemma TrimIdempotent(p: Poly)
    ensures Trim(Trim(p)) == Trim(p)
  {
  }

  /** Polynomial long division (Sage's `quo_rem`): p = q*d + r with deg r < deg d. */
  function QuoRem(p: Poly, d: Poly): (qr: (Poly, Poly))
    requires !IsZero(d)
    ensures Degree(qr.1) < Degree(d)
    decreases |p|
  {
    var dp := Degree(p);
    var dd := Degree(d);
    if dp < dd then ([], p)
    else
      var f := p[dp] / d[dd];
      var t := ShiftUp(Scale(d, f), dp - dd);
      var rest := Sub(p, t)[..dp];
      var qr' := QuoRem(rest, d);
      (Add(qr'.0, Monomial(f, dp - dd)), qr'.1)
  }

  /** A coefficient that is nonzero with only zeros above it is the leading one. */
  lemma DegreeByTop(p: Poly, k: nat)
    requires Coef(p, k) != 0.0
    requires forall i :: i > k ==> Coef(p, i) == 0.0
    ensures Degree(p) == k
  {
    assert Degree(p) >= 0 ==> Coef(p, Degree(p)) != 0.0;
  }

  /** The quotient of long division has degree deg p - deg d, and is zero
      exactly when p has lower degree than d. */
  lemma {:induction false} QuotientDegree(p: Poly, d: Poly)
    requires !IsZero(d)
    ensures Degree(QuoRem(p, d).0) == if Degree(p) < Degree(d) then -1 else Degree(p) - Degree(d)
    decreases |p|
  {
    var dp := Degree(p);
    var dd := Degree(d);
    if dp >= dd {
      var f := p[dp] / d[dd];
      var t := ShiftUp(Scale(d, f), dp - dd);
      var rest := Sub(p, t)[..dp];
      QuotientDegree(rest, d);
      var q := QuoRem(rest, d).0;
      var k := dp - dd;
      assert Degree(q) < k;
      assert f != 0.0 by {
        NonzeroQuotient(p[dp], d[dd]);
      }
      QuoRemStep(p, d);
      LeadingMonomial(q, f, k);
    }
  }

  /** Adding a nonzero monomial above the degree of q makes it the leading term. */
  lemma LeadingMonomial(q: Poly, f: real, k: nat)
    requires f != 0.0 && Degree(q) < k
    ensures Degree(Add(q, Monomial(f, k))) == k
  {
    var sum := Add(q, Monomial(f, k));
    forall i | i >= k
      ensures Coef(sum, i) == if i == k then f else 0.0
    {
      CoefBeyondDegree(q, i);
    }
    DegreeByTop(sum, k);
  }

  /** One step of long division: the quotient is the leading monomial plus the
      quotient of what remains. */
  lemma QuoRemStep(p: Poly, d: Poly)
    requires !IsZero(d) && Degree(p) >= Degree(d)
    ensures var f := p[Degree(p)] / d[Degree(d)];
            var rest := Sub(p, ShiftUp(Scale(d, f), Degree(p) - Degree(d)))[..Degree(p)];
            && QuoRem(p, d).0 == Add(QuoRem(rest, d).0, Monomial(f, Degree(p) - Degree(d)))
            && QuoRem(p, d).1 == QuoRem(rest, d).1
  {
  }

  /** What remains after one step of long division: p minus f*x^s*d, which
      cancels p's leading coefficient. */
  lemma DivisionStepCoef(p: Poly, d: Poly, f: real, s: nat, k: int)
    requires !IsZero(d) && Degree(p) >= Degree(d)
    requires f == p[Degree(p)] / d[Degree(d)] && s == Degree(p) - Degree(d)
    ensures Coef(Sub(p, ShiftUp(Scale(d, f), s))[..Degree(p)], k) == Coef(p, k) - f * Coef(d, k - s)
  {
    var dp, dd := Degree(p), Degree(d);
    var t := ShiftUp(Scale(d, f), s);
    assert Coef(t, k) == f * Coef(d, k - s);
    if k == dp {
      assert f * d[dd] == p[dp];
    } else if k > dp {
      CoefBeyondDegree(p, k);
      CoefBeyondDegree(d, k - s);
    }
  }

  lemma NonzeroQuotient(a: real, b: real)
    requires a != 0.0 && b != 0.0
    ensures a / b != 0.0
  {
  }

  /** The product coefficient is additive in the first factor. */
  lemma ConvAdd(a: Poly, b: Poly, q: seq<real>, k: int)
    ensures Conv(Add(a, b), q, k) == Conv(a, q, k) + Conv(b, q, k)
  {
    var f, g, h := ConvTerms(a, q, k), ConvTerms(b, q, k), ConvTerms(Add(a, b), q, k);
    forall j | 0 <= j < k + 1
      ensures h(j) == f(j) + g(j)
    {
      assert h(j) == (Coef(a, j) + Coef(b, j)) * Coef(q, k - j);
    }
    SumAdd(0, k + 1, f, g, h);
  }

  /** Multiplying by the monomial f*x^s scales by f and shifts by s. */
  lemma ConvMonomial(f: real, s: nat, q: seq<real>, k: int)
    ensures Conv(Monomial(f, s), q, k) == f * Coef(q, k - s)
  {
    var g := ConvTerms(Monomial(f, s), q, k);
    if s <= k {
      forall j | 0 <= j < k + 1 && j != s
        ensures g(j) == 0.0
      {
      }
      SumSingle(0, k + 1, s, g);
    } else {
      SumZero(0, k + 1, g);
    }
  }

  /** Coefficient by coefficient, long division splits p into the quotient
      times d plus the remainder. */
  lemma {:induction false} QuoRemCoef(p: Poly, d: Poly, k: int)
    requires !IsZero(d)
    ensures Coef(p, k) == Conv(QuoRem(p, d).0, d, k) + Coef(QuoRem(p, d).1, k)
    decreases |p|
  {
    if Degree(p) < Degree(d) {
      assert QuoRem(p, d) == ([], p);
      ConvBeyondLength([], d, k);
    } else {
      var f := p[Degree(p)] / d[Degree(d)];
      var s := Degree(p) - Degree(d);
      var rest := Sub(p, ShiftUp(Scale(d, f), s))[..Degree(p)];
      var qr := QuoRem(rest, d);
      var m := f * Coef(d, k - s);
      QuoRemStep(p, d);
      assert QuoRem(p, d) == (Add(qr.0, Monomial(f, s)), qr.1);
      DivisionStepCoef(p, d, f, s, k);
      assert Coef(rest, k) == Coef(p, k) - m;
      QuoRemCoef(rest, d, k);
      ConvAdd(qr.0, Monomial(f, s), d, k);
      ConvMonomial(f, s, d, k);
      assert Conv(Add(qr.0, Monomial(f, s)), d, k) == Conv(qr.0, d, k) + m;
    }
  }

  /** Sage's `quo_rem` identity: p = q*d + r. */
  lemma QuoRemIdentity(p: Poly, d: Poly)
    requires !IsZero(d)
    ensures Equiv(p, Add(Mul(QuoRem(p, d).0, d), QuoRem(p, d).1))
  {
    var qr := QuoRem(p, d);
    MulCoef(qr.0, d);
    forall k: int
      ensures Coef(p, k) == Coef(Add(Mul(qr.0, d), qr.1), k)
    {
      QuoRemCoef(p, d, k);
      if k < 0 {
        assert Conv(qr.0, d, k) == 0.0;
      }
    }
  }

  /** Two coefficient lists denote the same polynomial exactly when they
      agree once trailing zeros are dropped. */
  lemma EquivTrim(p: Poly, q: Poly)
    ensures Equiv(p, q) <==> Trim(p) == Trim(q)
  {
    if Equiv(p, q) {
      EquivDegree(p, q);
      var n := Degree(p) + 1;
      forall i | 0 <= i < n
        ensures Trim(p)[i] == Trim(q)[i]
      {
        assert Coef(p, i) == Coef(q, i);
      }
    }
    if Trim(p) == Trim(q) {
      forall i: int
        ensures Coef(p, i) == Coef(q, i)
      {
        assert Coef(p, i) == Coef(Trim(p), i);
        assert Coef(q, i) == Coef(Trim(q), i);
      }
    }
  }

  /** Polynomials with the same coefficients have the same degree. */
  lemma EquivDegree(p: Poly, q: Poly)
    requires Equiv(p, q)
    ensures Degree(p) == Degree(q)
  {
    if Degree(p) >= 0 {
      assert Coef(q, Degree(p)) != 0.0 by {
        assert Coef(p, Degree(p)) == Coef(q, Degree(p));
      }
      forall i | i > Degree(p)
        ensures Coef(q, i) == 0.0
      {
        CoefBeyondDegree(p, i);
        assert Coef(p, i) == Coef(q, i);
      }
      DegreeByTop(q, Degree(p));
    } else {
      forall i | 0 <= i < |q|
        ensures q[i] == 0.0
      {
        assert Coef(p, i) == Coef(q, i);
      }
    }
  }
}
