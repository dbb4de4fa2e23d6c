/** `from_recurrence(coefficients, values)`: the sequence with
    a(n + d) = c_0 a(n) + c_1 a(n + 1) + ... + c_{d-1} a(n + d - 1),
    d = |coefficients|, whose first terms are the given values. The source
    writes down the o.g.f. num/den directly: den = -1 + sum of co_j x^(j+1)
    with co the coefficients reversed, and num the product den * values
    cut off after the values, spelled out coefficient by coefficient. */
module FromRecurrence {
  import opened Sums
  import opened Poly
  import opened Errors
  import opened Normal
  import opened Canonical
  import opened Convolution
  import opened Generating

  /** An argument: a list of numbers, or anything else. */
  datatype Arg = ListArg(items: seq<real>) | OtherArg

  /** `coefficients[::-1]`, extended with zeros up to the number of start
      values. */
  function Reversed(c: seq<real>, len: nat): (co: seq<real>)
    ensures |co| == if |c| < len then len else |c|
    ensures forall j :: 0 <= j < |co| ==> co[j] == if j < |c| then c[|c| - 1 - j] else 0.0
  {
    Reverse(c) + seq(if |c| < len then len - |c| else 0, _ => 0.0)
  }

  /** den = -1 + co_0 x + co_1 x^2 + ... + co_{deg-1} x^deg. */
  function RecurrenceDenominator(co: seq<real>, deg: nat): (den: Poly)
    requires deg <= |co|
  {
    [-1.0] + co[..deg]
  }

  /** The summands values_k * co_{n-1-k} of the numerator's coefficient n. */
  function NumeratorTerms(co: seq<real>, v: seq<real>, n: int): int -> real
  {
    k => Coef(v, k) * Coef(co, n - 1 - k)
  }

  /** num = sum over n < |values| of x^n (-values_n + sum over k < n of
      values_k * co_{n-1-k}). */
  function RecurrenceNumerator(co: seq<real>, v: seq<real>): (num: Poly)
  {
    seq(|v|, n requires 0 <= n < |v| => -v[n] + Sum(0, n, NumeratorTerms(co, v, n)))
  }

  /** The o.g.f. the source builds from coefficients c and values v. */
  function RecurrenceOgf(c: seq<real>, v: seq<real>): (o: Ogf)
    ensures Coef(o.den, 0) == -1.0 && !IsZero(o.den)
  {
    var co := Reversed(c, |v|);
    var o := Ogf(RecurrenceNumerator(co, v), RecurrenceDenominator(co, |c|));
    assert o.den[0] == -1.0;
    o
  }

  /** `from_recurrence`: both arguments must be lists, and there must be a
      first start value; the o.g.f. is then canonicalised, which cannot fail
      since den(0) = -1. */
  function FromRecurrence(coefficients: Arg, values: Arg): (r: Result<CFiniteSequence>)
    ensures coefficients.OtherArg? ==> r == Err(WrongCoefficientType)
    ensures coefficients.ListArg? && values.OtherArg? ==> r == Err(WrongValueType)
    ensures coefficients.ListArg? && values.ListArg? && |values.items| == 0 ==> r == Err(MissingStartValue)
    ensures r.Ok? <==> coefficients.ListArg? && values.ListArg? && |values.items| > 0
    ensures r.Ok? ==> Valid(r.value) && r.value.offset >= 0
  {
    if coefficients.OtherArg? then Err(WrongCoefficientType)
    else if values.OtherArg? then Err(WrongValueType)
    else if |values.items| == 0 then Err(MissingStartValue)
    else
      var o := RecurrenceOgf(coefficients.items, values.items);
      assert Valuation(o.den) == 0;
      Canonicalize(o)
  }

  /** The terms f(k + 1). */
  function Later(f: int -> real): int -> real
  {
    k => f(k + 1)
  }

  /** The denominator's coefficient j + 1 is co_j, for every j >= 0, when
      co is zero from deg on. */
  lemma DenominatorCoef(co: seq<real>, deg: nat, j: int)
    requires deg <= |co| && j >= 0
    requires forall i :: deg <= i < |co| ==> co[i] == 0.0
    ensures Coef(RecurrenceDenominator(co, deg), j + 1) == Coef(co, j)
  {
  }

  /** The numerator is den * values cut off after the values: the source's
      coefficient formula is the convolution written out. */
  lemma NumeratorIsProduct(c: seq<real>, v: seq<real>, n: int)
    ensures var o := RecurrenceOgf(c, v);
      Coef(o.num, n) == if n < |v| then Coef(Mul(o.den, v), n) else 0.0
  {
    var co := Reversed(c, |v|);
    var o := RecurrenceOgf(c, v);
    MulCoef(o.den, v);
    if 0 <= n < |v| {
      NumeratorFormula(co, |c|, v, n);
    }
  }

  /** One coefficient: -v_n + sum of v_k co_{n-1-k} is the coefficient of
      x^n in den * v. */
  lemma NumeratorFormula(co: seq<real>, deg: nat, v: seq<real>, n: int)
    requires deg <= |co| && 0 <= n
    requires forall i :: deg <= i < |co| ==> co[i] == 0.0
    ensures -Coef(v, n) + Sum(0, n, NumeratorTerms(co, v, n)) == Conv(RecurrenceDenominator(co, deg), v, n)
  {
    var t := ConvTerms(RecurrenceDenominator(co, deg), v, n);
    SumSplit(0, 1, n + 1, t);
    assert Sum(0, 1, t) == t(0) + Sum(1, 1, t);
    SumShift(0, n, 1, t, Later(t));
    forall k | 0 <= k < n
      ensures Later(t)(k) == NumeratorTerms(co, v, n)(0 + n - 1 - k)
    {
      DenominatorCoef(co, deg, k);
      SummandSwap(RecurrenceDenominator(co, deg), co, v, n, k);
    }
    SumReverse(0, n, NumeratorTerms(co, v, n), Later(t));
  }

  lemma SummandSwap(den: Poly, co: seq<real>, v: seq<real>, n: int, k: int)
    requires Coef(den, k + 1) == Coef(co, k)
    ensures Later(ConvTerms(den, v, n))(k) == NumeratorTerms(co, v, n)(0 + n - 1 - k)
  {
    assert n - (k + 1) == n - 1 - k;
    assert n - 1 - (n - 1 - k) == k;
  }

  /** The summands c_i * a(m - d + i) of the recurrence for a(m), d = |c|. */
  function StepTerms(c: seq<real>, a: Terms, m: int): int -> real
  {
    i => Coef(c, i) * a(m - |c| + i)
  }

  /** The shape of the denominator: -1, then the coefficients reversed. */
  ghost predicate RecurrenceShape(c: seq<real>, den: Poly)
  {
    && |den| == |c| + 1 && Coef(den, 0) == -1.0
    && forall j :: 1 <= j <= |c| ==> Coef(den, j) == c[|c| - j]
  }

  lemma DenominatorShape(c: seq<real>, v: seq<real>)
    ensures RecurrenceShape(c, RecurrenceOgf(c, v).den)
  {
    var co := Reversed(c, |v|);
    forall j | 1 <= j <= |c|
      ensures Coef(RecurrenceOgf(c, v).den, j) == c[|c| - j]
    {
      DenominatorCoef(co, |c|, j - 1);
    }
  }

  /** The denominator acting on any terms: den * A at m is
      -a(m) + c_0 a(m - d) + ... + c_{d-1} a(m - 1). */
  lemma DenominatorAction(c: seq<real>, den: Poly, a: Terms, m: int)
    requires RecurrenceShape(c, den)
    ensures Act(den, a, m) == -a(m) + Sum(0, |c|, StepTerms(c, a, m))
  {
    var d := |c|;
    var w := Weighted(den, Back(a, m));
    assert Back(a, m)(0) == a(m);
    SumSplit(0, 1, d + 1, w);
    assert Sum(0, 1, w) == w(0) + Sum(1, 1, w);
    SumShift(0, d, 1, w, Later(w));
    forall k | 0 <= k < d
      ensures Later(w)(k) == StepTerms(c, a, m)(0 + d - 1 - k)
    {
      assert Coef(den, k + 1) == c[|c| - (k + 1)];
      StepSwap(c, den, a, m, k);
    }
    SumReverse(0, d, StepTerms(c, a, m), Later(w));
  }

  lemma StepSwap(c: seq<real>, den: Poly, a: Terms, m: int, k: int)
    requires 0 <= k < |c| && Coef(den, k + 1) == c[|c| - 1 - k]
    ensures Later(Weighted(den, Back(a, m)))(k) == StepTerms(c, a, m)(0 + |c| - 1 - k)
  {
    assert m - (k + 1) == m - |c| + (|c| - 1 - k);
  }

  /** Where den * A vanishes, A follows the recurrence. */
  lemma FollowsAt(c: seq<real>, den: Poly, a: Terms, m: int)
    requires RecurrenceShape(c, den) && Act(den, a, m) == 0.0
    ensures a(m) == Sum(0, |c|, StepTerms(c, a, m))
  {
    DenominatorAction(c, den, a, m);
  }

  /** The sequence `from_recurrence` builds is a solution of den * A = num
      for the o.g.f. it writes down, and vanishes at negative indices. */
  lemma RecurrenceSolves(c: seq<real>, v: seq<real>)
    requires |v| > 0
    ensures var r := FromRecurrence(ListArg(c), ListArg(v));
      && r.Ok?
      && Solves(RecurrenceOgf(c, v).num, RecurrenceOgf(c, v).den, TermsOf(r.value))
      && VanishesBelow(TermsOf(r.value), 0)
  {
    var o := RecurrenceOgf(c, v);
    var s := FromRecurrence(ListArg(c), ListArg(v)).value;
    assert Canonicalize(o) == Ok(s);
    forall k
      ensures Act(o.den, TermsOf(s), k) == Coef(o.num, k)
    {
      OgfExpansion(o, s, k);
      ActIsProduct(o.den, s, k);
    }
  }

  /** Below |v| the denominator acts on the terms as on the values. */
  lemma ValuesAction(c: seq<real>, v: seq<real>, k: int)
    requires |v| > 0 && k < |v|
    ensures var o := RecurrenceOgf(c, v);
      Act(o.den, TermsOf(FromRecurrence(ListArg(c), ListArg(v)).value), k) == Act(o.den, CoefOf(v), k)
  {
    RecurrenceSolves(c, v);
    ActPoly(RecurrenceOgf(c, v).den, v, k);
    NumeratorIsProduct(c, v, k);
  }

  /** The first terms of `from_recurrence(c, v)` are the values v. */
  lemma FromRecurrenceValues(c: seq<real>, v: seq<real>)
    requires |v| > 0
    ensures var r := FromRecurrence(ListArg(c), ListArg(v));
      r.Ok? && forall i :: 0 <= i < |v| ==> Coefficient(r.value, i) == v[i]
  {
    var s := FromRecurrence(ListArg(c), ListArg(v)).value;
    forall i | 0 <= i < |v|
      ensures Coefficient(s, i) == v[i]
    {
      ValuesAgree(c, v);
      assert Built(c, v)(i) == CoefOf(v)(i);
    }
  }

  lemma ValuesAgree(c: seq<real>, v: seq<real>)
    requires |v| > 0
    ensures forall k :: k < |v| ==> Built(c, v)(k) == CoefOf(v)(k)
  {
    BuiltVanishes(c, v);
    ActionsAgree(c, v);
    AgreeBelow(RecurrenceOgf(c, v).den, Built(c, v), CoefOf(v), 0, |v|);
  }

  lemma BuiltVanishes(c: seq<real>, v: seq<real>)
    requires |v| > 0
    ensures VanishesBelow(Built(c, v), 0)
  {
    RecurrenceSolves(c, v);
  }

  lemma ActionsAgree(c: seq<real>, v: seq<real>)
    requires |v| > 0
    ensures forall k :: k < |v| ==>
      Act(RecurrenceOgf(c, v).den, Built(c, v), k) == Act(RecurrenceOgf(c, v).den, CoefOf(v), k)
  {
    forall k | k < |v|
      ensures Act(RecurrenceOgf(c, v).den, Built(c, v), k) == Act(RecurrenceOgf(c, v).den, CoefOf(v), k)
    {
      ValuesAction(c, v, k);
    }
  }

  /** Past the values the terms follow the recurrence:
      a(m) = c_0 a(m - d) + ... + c_{d-1} a(m - 1) for every m >= |v|, which
      is a(n + d) = c_0 a(n) + ... + c_{d-1} a(n + d - 1) with n = m - d. */
  lemma FromRecurrenceFollows(c: seq<real>, v: seq<real>, m: int)
    requires |v| > 0 && m >= |v|
    ensures var r := FromRecurrence(ListArg(c), ListArg(v));
      r.Ok? && Coefficient(r.value, m) == Sum(0, |c|, StepTerms(c, TermsOf(r.value), m))
  {
    var o := RecurrenceOgf(c, v);
    var r := FromRecurrence(ListArg(c), ListArg(v));
    RecurrenceSolves(c, v);
    var a := TermsOf(r.value);
    NumeratorIsProduct(c, v, m);
    assert Act(o.den, a, m) == 0.0;
    DenominatorShape(c, v);
    FollowsAt(c, o.den, a, m);
    assert Coefficient(r.value, m) == a(m);
  }

  /** The values w follow the recurrence c from index n on. */
  ghost predicate ValuesFollow(c: seq<real>, w: seq<real>, n: nat) {
    forall m :: n <= m < |w| ==> w[m] == Sum(0, |c|, StepTerms(c, CoefOf(w), m))
  }

  /** w starts with v, and its values past v follow the recurrence c. */
  ghost predicate Extends(c: seq<real>, v: seq<real>, w: seq<real>) {
    0 < |v| <= |w| && v == w[..|v|] && ValuesFollow(c, w, |v|)
  }

  /** The terms of `from_recurrence(c, v)`. */
  function Built(c: seq<real>, v: seq<real>): Terms
    requires |v| > 0
  {
    TermsOf(FromRecurrence(ListArg(c), ListArg(v)).value)
  }

  /** The recurrence step at m reads only the terms below m. */
  lemma StepsAgree(c: seq<real>, f: Terms, g: Terms, m: int)
    requires forall j :: j < m ==> f(j) == g(j)
    ensures Sum(0, |c|, StepTerms(c, f, m)) == Sum(0, |c|, StepTerms(c, g, m))
  {
    forall i | 0 <= i < |c|
      ensures StepTerms(c, f, m)(i) == StepTerms(c, g, m)(i)
    {
      assert m - |c| + i < m;
    }
    SumExt(0, |c|, StepTerms(c, f, m), StepTerms(c, g, m));
  }

  /** Past the values, every term is the recurrence step on the earlier ones. */
  lemma BuiltFollows(c: seq<real>, v: seq<real>)
    requires |v| > 0
    ensures forall m :: m >= |v| ==> Built(c, v)(m) == Sum(0, |c|, StepTerms(c, Built(c, v), m))
  {
    forall m | m >= |v|
      ensures Built(c, v)(m) == Sum(0, |c|, StepTerms(c, Built(c, v), m))
    {
      FromRecurrenceFollows(c, v, m);
    }
  }

  /** What `from_recurrence(c, v)` promises about its terms f: they are v
      below |v| (0 at negative indices) and follow the recurrence after. */
  ghost predicate Generated(c: seq<real>, v: seq<real>, f: Terms) {
    && (forall j :: j < |v| ==> f(j) == CoefOf(v)(j))
    && (forall m :: m >= |v| ==> f(m) == Sum(0, |c|, StepTerms(c, f, m)))
  }

  lemma BuiltGenerated(c: seq<real>, v: seq<real>)
    requires |v| > 0
    ensures Generated(c, v, Built(c, v))
  {
    ValuesAgree(c, v);
    BuiltFollows(c, v);
  }

  /** The step of the induction below: agreement below k gives agreement at k. */
  lemma AgreeAt(c: seq<real>, v: seq<real>, w: seq<real>, f: Terms, g: Terms, k: nat)
    requires Extends(c, v, w) && Generated(c, v, f) && Generated(c, w, g)
    requires forall j :: j < k ==> f(j) == g(j)
    ensures f(k) == g(k)
  {
    if k < |v| {
      assert f(k) == v[k] && g(k) == w[k];
    } else {
      StepsAgree(c, f, g, k);
      if k < |w| {
        assert w[k] == Sum(0, |c|, StepTerms(c, CoefOf(w), k));
        StepsAgree(c, CoefOf(w), g, k);
        assert g(k) == w[k];
      }
    }
  }

  /** Terms that agree at negative indices, and agree at every k >= 0 once
      they agree below k, agree everywhere below n. */
  lemma {:induction false} AgreeByInduction(f: Terms, g: Terms, n: nat)
    requires forall j :: j < 0 ==> f(j) == g(j)
    requires forall k: nat :: (forall j :: j < k ==> f(j) == g(j)) ==> f(k) == g(k)
    ensures forall j :: j < n ==> f(j) == g(j)
    decreases n
  {
    if n > 0 {
      AgreeByInduction(f, g, n - 1);
      assert f(n - 1) == g(n - 1);
    }
  }

  /** Two term sequences generated from v and from its extension w agree. */
  lemma GeneratedAgree(c: seq<real>, v: seq<real>, w: seq<real>, f: Terms, g: Terms, k: int)
    requires Extends(c, v, w) && Generated(c, v, f) && Generated(c, w, g)
    ensures f(k) == g(k)
  {
    forall j | j < 0
      ensures f(j) == g(j)
    {
      assert f(j) == CoefOf(v)(j) && g(j) == CoefOf(w)(j);
    }
    forall k: nat | (forall j :: j < k ==> f(j) == g(j))
      ensures f(k) == g(k)
    {
      AgreeAt(c, v, w, f, g, k);
    }
    AgreeByInduction(f, g, if k < 0 then 0 else k + 1);
  }

  /** Start values beyond those the recurrence needs change nothing: when w
      extends v by values that already follow the recurrence, both
      `from_recurrence` results are the same sequence. */
  lemma FromRecurrenceRedundant(c: seq<real>, v: seq<real>, w: seq<real>)
    requires Extends(c, v, w)
    ensures var r1 := FromRecurrence(ListArg(c), ListArg(v));
      var r2 := FromRecurrence(ListArg(c), ListArg(w));
      r1.Ok? && r2.Ok? && Equal(r1.value, r2.value)
  {
    var s := FromRecurrence(ListArg(c), ListArg(v)).value;
    var t := FromRecurrence(ListArg(c), ListArg(w)).value;
    BuiltGenerated(c, v);
    BuiltGenerated(c, w);
    forall k
      ensures Coefficient(s, k) == Coefficient(t, k)
    {
      GeneratedAgree(c, v, w, Built(c, v), Built(c, w), k);
    }
    SameTermsEqual(s, t);
  }

  /** `from_recurrence([-1], [1])` and `from_recurrence([-1], [1, -1])` are
      the same sequence 1, -1, 1, -1, ... */
  lemma AlternatingRedundant()
    ensures var r1 := FromRecurrence(ListArg([-1.0]), ListArg([1.0]));
      var r2 := FromRecurrence(ListArg([-1.0]), ListArg([1.0, -1.0]));
      r1.Ok? && r2.Ok? && Equal(r1.value, r2.value)
  {
    var c := [-1.0];
    var w := [1.0, -1.0];
    assert Sum(0, 1, StepTerms(c, CoefOf(w), 1)) == -1.0 by {
      SumSingle(0, 1, 0, StepTerms(c, CoefOf(w), 1));
    }
    assert ValuesFollow(c, w, 1);
    assert [1.0] == w[..1];
    FromRecurrenceRedundant(c, [1.0], w);
  }
}
