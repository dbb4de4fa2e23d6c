/** A polynomial acting on a two-sided sequence of terms: the coefficient
    of x^k in p * F, where F = sum of f(j) x^j over all integers j. This is
    the arithmetic behind comparing two generating functions by cross
    multiplication. */
module Convolution {
  import opened Sums
  import opened Poly

  /** A sequence of terms indexed by all integers. */
  type Terms = int -> real

  /** The terms read backwards from k: i |-> f(k - i). */
  function Back(f: Terms, k: int): Terms
  {
    i => f(k - i)
  }

  /** The coefficient of x^k in p * F: p_0 f(k) + ... + p_{n-1} f(k-n+1). */
  function Act(p: Poly, f: Terms, k: int): real
  {
    Sum(0, |p|, Weighted(p, Back(f, k)))
  }

  /** All coefficients of p * F. */
  function ActOn(p: Poly, f: Terms): Terms
  {
    k => Act(p, f, k)
  }

  /** The coefficients of a polynomial, zero outside its list. */
  function CoefOf(p: Poly): Terms
  {
    k => Coef(p, k)
  }

  /** The termwise difference f - g. */
  function Diff(f: Terms, g: Terms): Terms
  {
    k => f(k) - g(k)
  }

  /** The terms vanish below lo. */
  ghost predicate VanishesBelow(f: Terms, lo: int)
  {
    forall k :: k < lo ==> f(k) == 0.0
  }

  /** The summand p_i * (q_j * f(k - i - j)) of p * (q * F). */
  function Table(p: Poly, q: Poly, f: Terms, k: int): (int, int) -> real
  {
    (i, j) => Coef(p, i) * (Coef(q, j) * f(k - i - j))
  }

  /** Multiplication by two polynomials commutes: p * (q * F) = q * (p * F). */
  lemma ActSwap(p: Poly, q: Poly, f: Terms, k: int)
    ensures Act(p, ActOn(q, f), k) == Act(q, ActOn(p, f), k)
  {
    ActAsRows(p, q, f, k);
    SumSwap(|p|, |q|, Table(p, q, f, k));
    ActAsColumns(p, q, f, k);
  }

  /** p * (q * F) at k, summed row by row over the table of summands. */
  lemma ActAsRows(p: Poly, q: Poly, f: Terms, k: int)
    ensures Act(p, ActOn(q, f), k) == Sum(0, |p|, RowSums(Table(p, q, f, k), |q|))
  {
    var h := Table(p, q, f, k);
    forall i | 0 <= i < |p|
      ensures Weighted(p, Back(ActOn(q, f), k))(i) == RowSums(h, |q|)(i)
    {
      RowAt(p, q, f, k, i);
    }
    SumExt(0, |p|, Weighted(p, Back(ActOn(q, f), k)), RowSums(h, |q|));
  }

  /** Row i of the table sums to p_i times the coefficient of x^(k-i) in q * F. */
  lemma RowAt(p: Poly, q: Poly, f: Terms, k: int, i: int)
    ensures Weighted(p, Back(ActOn(q, f), k))(i) == RowSums(Table(p, q, f, k), |q|)(i)
  {
    var h := Table(p, q, f, k);
    forall j | 0 <= j < |q|
      ensures Row(h, i)(j) == Coef(p, i) * Weighted(q, Back(f, k - i))(j)
    {
      TableEntry(p, q, f, k, i, j);
    }
    SumScale(0, |q|, Coef(p, i), Weighted(q, Back(f, k - i)), Row(h, i));
  }

  /** The summand at (i, j), read along its row and along its column. */
  lemma TableEntry(p: Poly, q: Poly, f: Terms, k: int, i: int, j: int)
    ensures Row(Table(p, q, f, k), i)(j) == Coef(p, i) * Weighted(q, Back(f, k - i))(j)
    ensures Column(Table(p, q, f, k), j)(i) == Coef(q, j) * Weighted(p, Back(f, k - j))(i)
  {
    var a, b, c := Coef(p, i), Coef(q, j), f(k - i - j);
    assert Back(f, k - i)(j) == c;
    assert Back(f, k - j)(i) == c;
    assert Table(p, q, f, k)(i, j) == a * (b * c);
    assert a * (b * c) == b * (a * c);
  }

  /** q * (p * F) at k, summed column by column over the same table. */
  lemma ActAsColumns(p: Poly, q: Poly, f: Terms, k: int)
    ensures Act(q, ActOn(p, f), k) == Sum(0, |q|, ColumnSums(Table(p, q, f, k), |p|))
  {
    var h := Table(p, q, f, k);
    forall j | 0 <= j < |q|
      ensures ColumnSums(h, |p|)(j) == Weighted(q, Back(ActOn(p, f), k))(j)
    {
      ColumnAt(p, q, f, k, j);
    }
    SumExt(0, |q|, ColumnSums(h, |p|), Weighted(q, Back(ActOn(p, f), k)));
  }

  /** Column j of the table sums to q_j times the coefficient of x^(k-j) in p * F. */
  lemma ColumnAt(p: Poly, q: Poly, f: Terms, k: int, j: int)
    ensures ColumnSums(Table(p, q, f, k), |p|)(j) == Weighted(q, Back(ActOn(p, f), k))(j)
  {
    var h := Table(p, q, f, k);
    ColumnScaled(p, q, f, k, j);
    assert ColumnSums(h, |p|)(j) == Sum(0, |p|, Column(h, j));
    assert Weighted(q, Back(ActOn(p, f), k))(j) == Coef(q, j) * Act(p, f, k - j);
  }

  /** The entries of column j are q_j times the summands of p * F at k - j. */
  lemma ColumnScaled(p: Poly, q: Poly, f: Terms, k: int, j: int)
    ensures Sum(0, |p|, Column(Table(p, q, f, k), j)) == Coef(q, j) * Sum(0, |p|, Weighted(p, Back(f, k - j)))
  {
    var h := Table(p, q, f, k);
    forall i | 0 <= i < |p|
      ensures Column(h, j)(i) == Coef(q, j) * Weighted(p, Back(f, k - j))(i)
    {
      TableEntry(p, q, f, k, i, j);
    }
    SumScale(0, |p|, Coef(q, j), Weighted(p, Back(f, k - j)), Column(h, j));
  }

  /** Multiplication by a polynomial is linear: p * (F - G) = p*F - p*G. */
  lemma ActDiff(p: Poly, f: Terms, g: Terms, k: int)
    ensures Act(p, Diff(f, g), k) == Act(p, f, k) - Act(p, g, k)
  {
    SumAdd(0, |p|, Weighted(p, Back(Diff(f, g), k)), Weighted(p, Back(g, k)), Weighted(p, Back(f, k)));
  }

  /** A product with terms that vanish below lo vanishes below lo too. */
  lemma ActVanishes(p: Poly, f: Terms, lo: int)
    requires VanishesBelow(f, lo)
    ensures VanishesBelow(ActOn(p, f), lo)
  {
    forall k | k < lo
      ensures ActOn(p, f)(k) == 0.0
    {
      SumZero(0, |p|, Weighted(p, Back(f, k)));
    }
  }

  /** A polynomial times a polynomial: the coefficients of p * q. */
  lemma ActPoly(p: Poly, q: Poly, k: int)
    ensures Act(p, CoefOf(q), k) == Coef(Mul(p, q), k)
  {
    var w := Weighted(p, Back(CoefOf(q), k));
    if k < 0 {
      SumZero(0, |p|, w);
    } else {
      MulCoef(p, q);
      var t := ConvTerms(p, q, k);
      var m := if |p| < k + 1 then |p| else k + 1;
      SumWindow(0, 0, m, |p|, w);
      SumWindow(0, 0, m, k + 1, t);
      SumExt(0, m, w, t);
    }
  }

  /** Polynomial multiplication is commutative. */
  lemma MulCommutes(p: Poly, q: Poly, k: int)
    ensures Coef(Mul(p, q), k) == Coef(Mul(q, p), k)
  {
    if k >= 0 {
      MulCoef(p, q);
      MulCoef(q, p);
      SumReverse(0, k + 1, ConvTerms(q, p, k), ConvTerms(p, q, k));
    }
  }

  /** Polynomial multiplication gives the same list in either order. */
  lemma MulSymmetric(p: Poly, q: Poly)
    ensures Mul(p, q) == Mul(q, p)
  {
    forall k | 0 <= k < |Mul(p, q)|
      ensures Mul(p, q)[k] == Mul(q, p)[k]
    {
      MulCommutes(p, q, k);
    }
  }

  /** Cancellation at one index: if p * F vanishes at k + v, v the
      valuation of p, and F vanishes below k, then F vanishes at k. */
  lemma CancelStep(p: Poly, f: Terms, k: int)
    requires !IsZero(p)
    requires forall j :: j < k ==> f(j) == 0.0
    requires Act(p, f, k + Valuation(p)) == 0.0
    ensures f(k) == 0.0
  {
    var v := Valuation(p);
    var w := Weighted(p, Back(f, k + v));
    forall i | 0 <= i < |p| && i != v
      ensures w(i) == 0.0
    {
      assert w(i) == Coef(p, i) * f(k + v - i);
      if i > v {
        assert f(k + v - i) == 0.0;
      } else {
        assert p[i] == 0.0;
      }
    }
    SumSingle(0, |p|, v, w);
    assert Back(f, k + v)(v) == f(k + v - v);
    assert w(v) == Coef(p, v) * f(k);
  }

  /** Cancellation up to an index: if F vanishes below lo and p * F
      vanishes below lo + n + v, then F vanishes below lo + n. */
  lemma {:induction false} CancelUpTo(p: Poly, f: Terms, lo: int, n: nat)
    requires !IsZero(p) && VanishesBelow(f, lo)
    requires forall k :: k < lo + n + Valuation(p) ==> Act(p, f, k) == 0.0
    ensures forall k :: k < lo + n ==> f(k) == 0.0
    decreases n
  {
    if n > 0 {
      CancelUpTo(p, f, lo, n - 1);
      CancelStep(p, f, lo + n - 1);
    }
  }

  /** A nonzero polynomial cancels: if p * F = 0 and F vanishes below some
      index, then F = 0. */
  lemma Cancel(p: Poly, f: Terms, lo: int)
    requires !IsZero(p) && VanishesBelow(f, lo)
    requires forall k :: Act(p, f, k) == 0.0
    ensures forall k :: f(k) == 0.0
  {
    forall k
      ensures f(k) == 0.0
    {
      if k >= lo {
        CancelUpTo(p, f, lo, k - lo + 1);
      }
    }
  }

  /** Two solutions of den * F = num below hi, den(0) != 0, that both
      vanish below lo agree below hi: the first hi terms are determined. */
  lemma AgreeBelow(den: Poly, f: Terms, g: Terms, lo: int, hi: int)
    requires Coef(den, 0) != 0.0 && VanishesBelow(f, lo) && VanishesBelow(g, lo)
    requires forall k :: k < hi ==> Act(den, f, k) == Act(den, g, k)
    ensures forall k :: k < hi ==> f(k) == g(k)
  {
    var c := Diff(f, g);
    assert Valuation(den) == 0;
    forall k | k < hi
      ensures Act(den, c, k) == 0.0
    {
      ActDiff(den, f, g, k);
    }
    assert VanishesBelow(c, lo);
    if hi > lo {
      CancelUpTo(den, c, lo, hi - lo);
    }
    forall k | k < hi
      ensures f(k) == g(k)
    {
      assert c(k) == 0.0;
    }
  }

  /** F and G solve den1 * F = num1 and den2 * G = num2. */
  ghost predicate Solves(num: Poly, den: Poly, f: Terms)
  {
    forall k :: Act(den, f, k) == Coef(num, k)
  }

  /** Equal terms give equal cross products num1 * den2 and den1 * num2. */
  lemma CrossFromTerms(n1: Poly, d1: Poly, n2: Poly, d2: Poly, f: Terms, g: Terms)
    requires Solves(n1, d1, f) && Solves(n2, d2, g)
    requires forall k :: f(k) == g(k)
    ensures Equiv(Mul(n1, d2), Mul(d1, n2))
  {
    forall k
      ensures Coef(Mul(n1, d2), k) == Coef(Mul(d1, n2), k)
    {
      CrossAt(n1, d1, n2, d2, f, g, k);
    }
  }

  /** Multiplication by p respects termwise equality. */
  lemma ActExt(p: Poly, f: Terms, g: Terms, k: int)
    requires forall j :: f(j) == g(j)
    ensures Act(p, f, k) == Act(p, g, k)
  {
    SumExt(0, |p|, Weighted(p, Back(f, k)), Weighted(p, Back(g, k)));
  }

  /** A solution of den * F = num, read as an equality of term sequences. */
  lemma SolvesTerms(num: Poly, den: Poly, f: Terms)
    requires Solves(num, den, f)
    ensures forall j :: CoefOf(num)(j) == ActOn(den, f)(j)
  {
  }

  /** d2 * num1 = d1 * (d2 * F), by the commutation of d1 and d2. */
  lemma CrossSide(n1: Poly, d1: Poly, d2: Poly, f: Terms, k: int)
    requires Solves(n1, d1, f)
    ensures Coef(Mul(n1, d2), k) == Act(d1, ActOn(d2, f), k)
  {
    calc {
      Coef(Mul(n1, d2), k);
      { MulCommutes(n1, d2, k); }
      Coef(Mul(d2, n1), k);
      { ActPoly(d2, n1, k); }
      Act(d2, CoefOf(n1), k);
      { SolvesTerms(n1, d1, f); ActExt(d2, CoefOf(n1), ActOn(d1, f), k); }
      Act(d2, ActOn(d1, f), k);
      { ActSwap(d2, d1, f, k); }
      Act(d1, ActOn(d2, f), k);
    }
  }

  /** d1 * num2 = d1 * (d2 * G). */
  lemma CrossOther(n2: Poly, d1: Poly, d2: Poly, g: Terms, k: int)
    requires Solves(n2, d2, g)
    ensures Coef(Mul(d1, n2), k) == Act(d1, ActOn(d2, g), k)
  {
    ActPoly(d1, n2, k);
    SolvesTerms(n2, d2, g);
    ActExt(d1, CoefOf(n2), ActOn(d2, g), k);
  }

  lemma CrossAt(n1: Poly, d1: Poly, n2: Poly, d2: Poly, f: Terms, g: Terms, k: int)
    requires Solves(n1, d1, f) && Solves(n2, d2, g)
    requires forall k :: f(k) == g(k)
    ensures Coef(Mul(n1, d2), k) == Coef(Mul(d1, n2), k)
  {
    CrossSide(n1, d1, d2, f, k);
    CrossOther(n2, d1, d2, g, k);
    forall j
      ensures ActOn(d2, f)(j) == ActOn(d2, g)(j)
    {
      ActExt(d2, f, g, j);
    }
    ActExt(d1, ActOn(d2, f), ActOn(d2, g), k);
  }

  /** Equal cross products give equal terms, when both denominators are
      nonzero and both term sequences vanish below some index. */
  lemma TermsFromCross(n1: Poly, d1: Poly, n2: Poly, d2: Poly, f: Terms, g: Terms, lo: int)
    requires Solves(n1, d1, f) && Solves(n2, d2, g)
    requires !IsZero(d1) && !IsZero(d2) && VanishesBelow(f, lo) && VanishesBelow(g, lo)
    requires Equiv(Mul(n1, d2), Mul(d1, n2))
    ensures forall k :: f(k) == g(k)
  {
    var c := Diff(f, g);
    var e := ActOn(d2, c);
    forall k
      ensures Act(d1, e, k) == 0.0
    {
      DifferenceCancels(n1, d1, n2, d2, f, g, k);
    }
    assert VanishesBelow(c, lo);
    ActVanishes(d2, c, lo);
    Cancel(d1, e, lo);
    forall k
      ensures Act(d2, c, k) == 0.0
    {
      assert e(k) == 0.0;
    }
    Cancel(d2, c, lo);
    forall k
      ensures f(k) == g(k)
    {
      assert c(k) == 0.0;
    }
  }

  /** d1 * (d2 * (F - G)) = d2 * num1 - d1 * num2 = 0. */
  lemma DifferenceCancels(n1: Poly, d1: Poly, n2: Poly, d2: Poly, f: Terms, g: Terms, k: int)
    requires Solves(n1, d1, f) && Solves(n2, d2, g)
    requires Equiv(Mul(n1, d2), Mul(d1, n2))
    ensures Act(d1, ActOn(d2, Diff(f, g)), k) == 0.0
  {
    var ef, eg := ActOn(d2, f), ActOn(d2, g);
    forall j
      ensures ActOn(d2, Diff(f, g))(j) == Diff(ef, eg)(j)
    {
      ActDiff(d2, f, g, j);
    }
    ActExt(d1, ActOn(d2, Diff(f, g)), Diff(ef, eg), k);
    ActDiff(d1, ef, eg, k);
    CrossSide(n1, d1, d2, f, k);
    CrossOther(n2, d1, d2, g, k);
  }
}
