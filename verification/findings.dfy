/** Four o.g.f.s on which the term evaluator as the sequence class writes
    it (`Terms.TermAsWritten`) returns a value other than the true term
    (`Terms.Term`, proved equal to the power-series coefficient), or no
    value at all. Each lemma starts from the o.g.f. itself, so the sequence
    is the one the constructor builds. */
module Findings {
  import opened Sums
  import opened Poly
  import opened Series
  import opened Recurrence
  import opened Errors
  import opened Normal
  import opened Canonical
  import opened Terms

  /** Where the last of the first n listed terms is nonzero, dropping
      trailing zeros before cutting to n entries changes nothing. */
  lemma TrimCut(p: seq<real>, n: nat)
    requires 0 < n <= |p| && p[n - 1] != 0.0
    ensures Cut(Trim(p), n) == p[..n]
  {
    assert Degree(p) >= n - 1;
  }

  /** The sequence the constructor builds for a fraction with a nonconstant
      denominator, assembled from its window and its remainder seed. */
  lemma RationalParts(fr: Fraction, alen: int, rem: Poly, window: seq<real>, seed: seq<real>)
    requires Coef(fr.den, 0) == 1.0 && !IsZero(Denominator(fr))
    requires alen == Max(Degree(fr.den), Degree(Numerator(fr)) + 1)
    requires rem == QuoRem(Numerator(fr), Denominator(fr)).1
    requires window == SeriesPrefix(fr.num, fr.den, alen)
    requires seed == Cut(Trim(SeriesPrefix(ShiftDown(rem, Valuation(rem)), fr.den, alen)), Degree(fr.den))
    ensures RationalSequence(fr)
         == CFiniteSequence(fr.offset, fr.num, fr.den, Degree(fr.den), RecurrenceOf(fr.den, Degree(fr.den)), window, seed)
  {
  }

  /** x^2/(1 - 2x): offset 2, terms a(k) = 2^(k-2) from k = 2 on. */
  const ExampleA := CFiniteSequence(2, [1.0], [1.0, -2.0], 1, [2.0], [1.0, 2.0, 4.0], [0.25])

  lemma PrefixA()
    ensures SeriesPrefix([1.0], [1.0, -2.0], 4) == [1.0, 2.0, 4.0, 8.0]
    ensures SeriesPrefix([1.0], [1.0, -2.0], 3) == [1.0, 2.0, 4.0]
  {
    var n, d := [1.0], [1.0, -2.0];
    assert SeriesPrefix(n, d, 1) == [1.0];
    assert ConvTail(d, [1.0], 1) == -2.0;
    assert SeriesPrefix(n, d, 2) == [1.0, 2.0];
    assert Coef(d, 1) == -2.0;
    assert Coef([1.0, 2.0], 1) == 2.0;
    assert ConvTerms(d, [1.0, 2.0], 2)(1) == Coef(d, 1) * Coef([1.0, 2.0], 1);
    assert ConvTerms(d, [1.0, 2.0], 2)(2) == 0.0;
    assert ConvTail(d, [1.0, 2.0], 2) == -4.0;
    assert SeriesPrefix(n, d, 3) == [1.0, 2.0, 4.0];
    assert ConvTerms(d, [1.0, 2.0, 4.0], 3)(1) == -8.0;
    assert ConvTerms(d, [1.0, 2.0, 4.0], 3)(2) == 0.0;
    assert ConvTerms(d, [1.0, 2.0, 4.0], 3)(3) == 0.0;
    assert ConvTail(d, [1.0, 2.0, 4.0], 3) == -8.0;
  }

  lemma RemainderPrefixA()
    ensures SeriesPrefix([0.25], [1.0, -2.0], 3)[..1] == [0.25]
  {
    assert SeriesPrefix([0.25], [1.0, -2.0], 1) == [0.25];
    SeriesPrefixCoef([0.25], [1.0, -2.0], 1);
    SeriesPrefixCoef([0.25], [1.0, -2.0], 3);
  }

  lemma QuoRemA()
    ensures Coef([1.0, -2.0], 0) != 0.0 && QuoRem([0.0, 0.0, 1.0], [1.0, -2.0]) == ([-0.25, -0.5], [0.25])
  {
    var p, d := [0.0, 0.0, 1.0], [1.0, -2.0];
    assert Degree(p) == 2 && Degree(d) == 1;
    assert ShiftUp(Scale(d, -0.5), 1) == [0.0, -0.5, 1.0];
    assert Sub(p, [0.0, -0.5, 1.0])[..2] == [0.0, 0.5];
    assert Degree([0.0, 0.5]) == 1;
    assert ShiftUp(Scale(d, -0.25), 0) == [-0.25, 0.5];
    assert Sub([0.0, 0.5], [-0.25, 0.5])[..1] == [0.25];
    assert Degree([0.25]) == 0;
    assert QuoRem([0.25], d) == ([], [0.25]);
    assert Add([], Monomial(-0.25, 0)) == [-0.25];
    assert QuoRem([0.0, 0.5], d) == ([-0.25], [0.25]);
    assert Monomial(-0.5, 1) == [0.0, -0.5];
    assert Add([-0.25], [0.0, -0.5]) == [-0.25, -0.5];
  }

  lemma NormalA()
    ensures var o := Ogf([0.0, 0.0, 1.0], [1.0, -2.0]);
      && o.den[0] != 0.0
      && Degree(o.den) == 1
      && Normalize(o) == Ok(Fraction(2, [1.0], [1.0, -2.0]))
  {
    var o := Ogf([0.0, 0.0, 1.0], [1.0, -2.0]);
    assert Degree(o.den) == 1;
    assert Valuation(o.num) == 2;
    assert ShiftDown(o.num, 2) == [1.0];
    assert Scale([1.0], 1.0 / 1.0) == [1.0];
    assert Scale(o.den, 1.0 / 1.0) == [1.0, -2.0];
    assert Degree([1.0]) == 0;
    assert Coef(o.num, 0) == 0.0 && Coef(o.den, 0) == 1.0;
    assert Normalize(o) == Ok(Divided(2, ShiftDown(o.num, 2), o.den));
    assert Trim([1.0]) == [1.0];
    assert Trim([1.0, -2.0]) == [1.0, -2.0];
  }

  lemma ReportedA()
    ensures var fr := Fraction(2, [1.0], [1.0, -2.0]);
      && Numerator(fr) == [0.0, 0.0, 1.0]
      && Denominator(fr) == [1.0, -2.0]
      && Degree(Numerator(fr)) == 2
      && Degree(fr.den) == 1
      && RecurrenceOf(fr.den, 1) == [2.0]
      && Valuation([0.25]) == 0
      && ShiftDown([0.25], 0) == [0.25]
  {
    assert Degree([0.0, 0.0, 1.0]) == 2;
    assert Degree([1.0, -2.0]) == 1;
  }

  lemma RationalA()
    ensures RationalSequence(Fraction(2, [1.0], [1.0, -2.0])) == ExampleA
  {
    var fr := Fraction(2, [1.0], [1.0, -2.0]);
    ReportedA();
    PrefixA();
    QuoRemA();
    RemainderPrefixA();
    TrimCut(SeriesPrefix([0.25], [1.0, -2.0], 3), 1);
    assert Coef(Denominator(fr), 0) == 1.0;
    RationalParts(fr, 3, [0.25], [1.0, 2.0, 4.0], [0.25]);
  }


  lemma CanonicalA()
    ensures var o := Ogf([0.0, 0.0, 1.0], [1.0, -2.0]);
      o.den[0] != 0.0 && Canonicalize(o) == Ok(ExampleA)
  {
    NormalA();
    RationalA();
  }

  lemma JumpA()
    ensures Last(Power(Companion([2.0]), 3, Reverse([0.25]))) == 2.0
  {
    assert Reverse([0.25]) == [0.25];
    assert Companion([2.0]) == [[2.0]];
    DotSingle(2.0, 0.25);
    DotSingle(2.0, 0.5);
    DotSingle(2.0, 1.0);
    assert MatVec([[2.0]], [0.25]) == [0.5];
    assert MatVec([[2.0]], [0.5]) == [1.0];
    assert MatVec([[2.0]], [1.0]) == [2.0];
    assert Power([[2.0]], 3, [0.25]) == [2.0];
    assert Last([2.0]) == 2.0;
  }

  lemma DotSingle(c: real, v: real)
    ensures Dot([c], [v]) == c * v
  {
    var f := DotTerms([c], [v]);
    assert f(0) == c * v;
    assert Sum(1, 1, f) == 0.0;
    assert Sum(0, 1, f) == f(0) + Sum(1, 1, f);
  }

  lemma AsWrittenA()
    requires Valid(ExampleA)
    ensures TermAsWritten(ExampleA, 5) == Ok(2.0)
  {
    ReportedA();
    QuoRemA();
    var quo := Quotient(ExampleA);
    assert quo == [-0.25, -0.5];
    assert TermAsWritten(ExampleA, 5) == EvaluateAsWritten(ExampleA, quo, 5);
    assert quo[0] != 0.0;
    JumpFromRemainder(ExampleA, quo, 5);
    assert Coef(quo, 3) == 0.0;
    JumpA();
    assert ExampleA.remStart[..1] == [0.25];
    assert ExampleA.coefficients == [2.0];
  }


  lemma TrueTermA()
    requires Valid(ExampleA)
    ensures Term(ExampleA, 5) == 8.0
  {
    PrefixA();
  }

  /** With a positive offset the matrix power is taken to k - offset
      although the quotient and remainder belong to the reported numerator
      x^offset * num, which needs the power k: here the evaluator returns 2
      for a(5) = 8. */
  lemma FindingShiftedQuotient()
    ensures var o := Ogf([0.0, 0.0, 1.0], [1.0, -2.0]);
      && o.den[0] != 0.0
      && Canonicalize(o) == Ok(ExampleA)
      && TermAsWritten(ExampleA, 5) == Ok(2.0)
      && Term(ExampleA, 5) == 8.0
  {
    CanonicalA();
    AsWrittenA();
    TrueTermA();
  }

  /** (1 + x)/(x - x^2): offset -1, terms 1, 2, 2, 2, ... from k = -1 on. */
  const ExampleB := CFiniteSequence(-1, [1.0, 1.0], [1.0, -1.0], 1, [1.0], [1.0, 2.0], [1.0])

  lemma NormalB()
    ensures var o := Ogf([1.0, 1.0], [0.0, 1.0, -1.0]);
      && o.den[1] != 0.0
      && Degree(o.den) == 2
      && Normalize(o) == Ok(Fraction(-1, [1.0, 1.0], [1.0, -1.0]))
  {
    var o := Ogf([1.0, 1.0], [0.0, 1.0, -1.0]);
    assert Degree(o.den) == 2;
    assert Valuation(o.den) == 1;
    assert ShiftDown(o.den, 1) == [1.0, -1.0];
    assert Coef(o.num, 0) == 1.0 && Coef(o.den, 0) == 0.0;
    assert Normalize(o) == Ok(Divided(-1, o.num, ShiftDown(o.den, 1)));
    assert Scale([1.0, 1.0], 1.0 / 1.0) == [1.0, 1.0];
    assert Scale([1.0, -1.0], 1.0 / 1.0) == [1.0, -1.0];
    assert Trim([1.0, 1.0]) == [1.0, 1.0];
    assert Trim([1.0, -1.0]) == [1.0, -1.0];
  }

  lemma PrefixB()
    ensures SeriesPrefix([1.0, 1.0], [1.0, -1.0], 3) == [1.0, 2.0, 2.0]
    ensures SeriesPrefix([1.0, 1.0], [1.0, -1.0], 2) == [1.0, 2.0]
  {
    var n, d := [1.0, 1.0], [1.0, -1.0];
    assert SeriesPrefix(n, d, 1) == [1.0];
    assert Coef(d, 1) == -1.0 && Coef([1.0], 0) == 1.0;
    assert ConvTerms(d, [1.0], 1)(1) == Coef(d, 1) * Coef([1.0], 0);
    assert ConvTail(d, [1.0], 1) == -1.0;
    assert SeriesPrefix(n, d, 2) == [1.0, 2.0];
    assert ConvTerms(d, [1.0, 2.0], 2)(1) == -2.0;
    assert ConvTerms(d, [1.0, 2.0], 2)(2) == 0.0;
    assert ConvTail(d, [1.0, 2.0], 2) == -2.0;
  }

  lemma ReportedB()
    ensures var fr := Fraction(-1, [1.0, 1.0], [1.0, -1.0]);
      && Numerator(fr) == [1.0, 1.0]
      && Denominator(fr) == [0.0, 1.0, -1.0]
      && Degree(Numerator(fr)) == 1
      && Degree(fr.den) == 1
      && Degree(Denominator(fr)) == 2
      && RecurrenceOf(fr.den, 1) == [1.0]
      && Valuation([1.0, 1.0]) == 0
      && ShiftDown([1.0, 1.0], 0) == [1.0, 1.0]
  {
    assert Degree([1.0, 1.0]) == 1;
    assert Degree([1.0, -1.0]) == 1;
    assert Degree([0.0, 1.0, -1.0]) == 2;
  }

  lemma QuoRemB()
    ensures Coef([0.0, 1.0, -1.0], 2) != 0.0 && QuoRem([1.0, 1.0], [0.0, 1.0, -1.0]) == ([], [1.0, 1.0])
  {
    assert Degree([1.0, 1.0]) == 1;
    assert Degree([0.0, 1.0, -1.0]) == 2;
  }

  lemma RationalB()
    ensures RationalSequence(Fraction(-1, [1.0, 1.0], [1.0, -1.0])) == ExampleB
  {
    var fr := Fraction(-1, [1.0, 1.0], [1.0, -1.0]);
    ReportedB();
    PrefixB();
    QuoRemB();
    assert SeriesPrefix([1.0, 1.0], [1.0, -1.0], 2)[..1] == [1.0];
    TrimCut(SeriesPrefix([1.0, 1.0], [1.0, -1.0], 2), 1);
    assert Coef(Denominator(fr), 1) == 1.0;
    RationalParts(fr, 2, [1.0, 1.0], [1.0, 2.0], [1.0]);
  }


  lemma CanonicalB()
    ensures var o := Ogf([1.0, 1.0], [0.0, 1.0, -1.0]);
      o.den[1] != 0.0 && Canonicalize(o) == Ok(ExampleB)
  {
    NormalB();
    RationalB();
  }

  lemma JumpB()
    ensures Last(Power(Companion([1.0]), 2, Reverse([1.0]))) == 1.0
  {
    assert Reverse([1.0]) == [1.0];
    assert Companion([1.0]) == [[1.0]];
    DotSingle(1.0, 1.0);
    assert MatVec([[1.0]], [1.0]) == [1.0];
    assert Power([[1.0]], 2, [1.0]) == [1.0];
    assert Last([1.0]) == 1.0;
  }

  lemma AsWrittenB()
    requires Valid(ExampleB)
    ensures TermAsWritten(ExampleB, 1) == Ok(1.0)
  {
    ReportedB();
    QuoRemB();
    var quo := Quotient(ExampleB);
    assert quo == [];
    assert TermAsWritten(ExampleB, 1) == EvaluateAsWritten(ExampleB, quo, 1);
    JumpFromWindow(ExampleB, quo, 1);
    JumpB();
    assert ExampleB.start[..1] == [1.0];
    assert ExampleB.coefficients == [1.0];
  }


  lemma TrueTermB()
    requires Valid(ExampleB)
    ensures Term(ExampleB, 1) == 2.0
  {
    PrefixB();
  }

  /** With a negative offset the seed a(offset), ..., a(offset + d - 1) is
      not a state of the recurrence when the numerator reaches degree d:
      here the evaluator returns 1 for a(1) = 2. */
  lemma FindingNegativeOffset()
    ensures var o := Ogf([1.0, 1.0], [0.0, 1.0, -1.0]);
      && o.den[1] != 0.0
      && Canonicalize(o) == Ok(ExampleB)
      && TermAsWritten(ExampleB, 1) == Ok(1.0)
      && Term(ExampleB, 1) == 2.0
  {
    CanonicalB();
    AsWrittenB();
    TrueTermB();
  }

  /** (1 - x^2)/(1 - x - x^2): offset 0, terms 1, 1, 1, 2, 3, 5, ... */
  const ExampleC := CFiniteSequence(0, [1.0, 0.0, -1.0], [1.0, -1.0, -1.0], 2, [1.0, 1.0],
    [1.0, 1.0, 1.0], [1.0, 1.0])

  lemma NormalC()
    ensures var o := Ogf([1.0, 0.0, -1.0], [1.0, -1.0, -1.0]);
      && o.den[0] != 0.0
      && Degree(o.den) == 2
      && Normalize(o) == Ok(Fraction(0, [1.0, 0.0, -1.0], [1.0, -1.0, -1.0]))
  {
    var o := Ogf([1.0, 0.0, -1.0], [1.0, -1.0, -1.0]);
    assert Degree(o.den) == 2;
    assert Valuation(o.num) == 0;
    assert ShiftDown(o.num, 0) == o.num;
    assert Coef(o.num, 0) == 1.0 && Coef(o.den, 0) == 1.0;
    assert Normalize(o) == Ok(Divided(0, o.num, o.den));
    assert Scale(o.num, 1.0 / 1.0) == o.num;
    assert Scale(o.den, 1.0 / 1.0) == o.den;
    assert Degree(o.num) == 2;
    assert Trim(o.num) == o.num;
    assert Trim(o.den) == o.den;
  }

  lemma PrefixC()
    ensures SeriesPrefix([1.0, 0.0, -1.0], [1.0, -1.0, -1.0], 4) == [1.0, 1.0, 1.0, 2.0]
    ensures SeriesPrefix([1.0, 0.0, -1.0], [1.0, -1.0, -1.0], 3) == [1.0, 1.0, 1.0]
  {
    var n, d := [1.0, 0.0, -1.0], [1.0, -1.0, -1.0];
    assert Coef(d, 1) == -1.0 && Coef(d, 2) == -1.0 && Coef(d, 3) == 0.0;
    assert SeriesPrefix(n, d, 1) == [1.0];
    assert ConvTerms(d, [1.0], 1)(1) == Coef(d, 1) * Coef([1.0], 0);
    assert ConvTail(d, [1.0], 1) == -1.0;
    assert SeriesPrefix(n, d, 2) == [1.0, 1.0];
    var s2 := [1.0, 1.0];
    assert ConvTerms(d, s2, 2)(1) == Coef(d, 1) * Coef(s2, 1);
    assert ConvTerms(d, s2, 2)(2) == Coef(d, 2) * Coef(s2, 0);
    assert ConvTail(d, s2, 2) == -2.0;
    assert SeriesPrefix(n, d, 3) == [1.0, 1.0, 1.0];
    var s3 := [1.0, 1.0, 1.0];
    assert ConvTerms(d, s3, 3)(1) == Coef(d, 1) * Coef(s3, 2);
    assert ConvTerms(d, s3, 3)(2) == Coef(d, 2) * Coef(s3, 1);
    assert ConvTerms(d, s3, 3)(3) == 0.0;
    assert ConvTail(d, s3, 3) == -2.0;
  }

  lemma RemainderPrefixC()
    ensures SeriesPrefix([1.0], [1.0, -1.0, -1.0], 3)[..2] == [1.0, 1.0]
  {
    var n, d := [1.0], [1.0, -1.0, -1.0];
    assert SeriesPrefix(n, d, 1) == [1.0];
    assert Coef(d, 1) == -1.0 && Coef([1.0], 0) == 1.0;
    assert ConvTerms(d, [1.0], 1)(1) == Coef(d, 1) * Coef([1.0], 0);
    assert ConvTail(d, [1.0], 1) == -1.0;
    assert SeriesPrefix(n, d, 2) == [1.0, 1.0];
    SeriesPrefixCoef(n, d, 2);
    SeriesPrefixCoef(n, d, 3);
  }

  lemma QuoRemC()
    ensures Coef([1.0, -1.0, -1.0], 0) != 0.0
      && QuoRem([1.0, 0.0, -1.0], [1.0, -1.0, -1.0]) == ([1.0], [0.0, 1.0])
  {
    var p, d := [1.0, 0.0, -1.0], [1.0, -1.0, -1.0];
    assert Degree(p) == 2 && Degree(d) == 2;
    assert ShiftUp(Scale(d, 1.0), 0) == d;
    assert Sub(p, d)[..2] == [0.0, 1.0];
    assert Degree([0.0, 1.0]) == 1;
    assert QuoRem([0.0, 1.0], d) == ([], [0.0, 1.0]);
    assert Add([], Monomial(1.0, 0)) == [1.0];
  }

  lemma ReportedC()
    ensures var fr := Fraction(0, [1.0, 0.0, -1.0], [1.0, -1.0, -1.0]);
      && Numerator(fr) == [1.0, 0.0, -1.0]
      && Denominator(fr) == [1.0, -1.0, -1.0]
      && Degree(Numerator(fr)) == 2
      && Degree(fr.den) == 2
      && RecurrenceOf(fr.den, 2) == [1.0, 1.0]
      && Valuation([0.0, 1.0]) == 1
      && ShiftDown([0.0, 1.0], 1) == [1.0]
  {
    assert ShiftUp([1.0, 0.0, -1.0], 0) == [1.0, 0.0, -1.0];
    assert Degree([1.0, 0.0, -1.0]) == 2;
    assert Degree([1.0, -1.0, -1.0]) == 2;
  }

  lemma RationalC()
    ensures RationalSequence(Fraction(0, [1.0, 0.0, -1.0], [1.0, -1.0, -1.0])) == ExampleC
  {
    var fr := Fraction(0, [1.0, 0.0, -1.0], [1.0, -1.0, -1.0]);
    ReportedC();
    PrefixC();
    QuoRemC();
    RemainderPrefixC();
    TrimCut(SeriesPrefix([1.0], [1.0, -1.0, -1.0], 3), 2);
    assert Coef(Denominator(fr), 0) == 1.0;
    RationalParts(fr, 3, [0.0, 1.0], [1.0, 1.0, 1.0], [1.0, 1.0]);
  }


  lemma CanonicalC()
    ensures var o := Ogf([1.0, 0.0, -1.0], [1.0, -1.0, -1.0]);
      o.den[0] != 0.0 && Canonicalize(o) == Ok(ExampleC)
  {
    NormalC();
    RationalC();
  }

  lemma DotPair(a: real, b: real, x: real, y: real)
    ensures Dot([a, b], [x, y]) == a * x + b * y
  {
    var f := DotTerms([a, b], [x, y]);
    assert f(0) == a * x && f(1) == b * y;
    assert Sum(2, 2, f) == 0.0;
    assert Sum(1, 2, f) == f(1) + Sum(2, 2, f);
    assert Sum(0, 2, f) == f(0) + Sum(1, 2, f);
  }

  /** One step of the Fibonacci companion matrix [[1, 1], [1, 0]]. */
  lemma FibonacciStep(x: real, y: real)
    ensures MatVec(Companion([1.0, 1.0]), [x, y]) == [x + y, x]
  {
    var M := Companion([1.0, 1.0]);
    assert M[0] == [1.0, 1.0];
    assert M[1] == [1.0, 0.0];
    DotPair(1.0, 1.0, x, y);
    DotPair(1.0, 0.0, x, y);
  }

  lemma JumpC()
    ensures Last(Power(Companion([1.0, 1.0]), 3, Reverse([1.0, 1.0]))) == 3.0
  {
    var M := Companion([1.0, 1.0]);
    assert Reverse([1.0, 1.0]) == [1.0, 1.0];
    FibonacciStep(1.0, 1.0);
    FibonacciStep(2.0, 1.0);
    FibonacciStep(3.0, 2.0);
    assert Power(M, 1, [1.0, 1.0]) == [2.0, 1.0];
    assert Power(M, 2, [1.0, 1.0]) == [3.0, 2.0];
    assert Power(M, 3, [1.0, 1.0]) == [5.0, 3.0];
  }

  lemma AsWrittenC()
    requires Valid(ExampleC)
    ensures TermAsWritten(ExampleC, 3) == Ok(3.0)
  {
    ReportedC();
    QuoRemC();
    var quo := Quotient(ExampleC);
    assert quo == [1.0];
    assert TermAsWritten(ExampleC, 3) == EvaluateAsWritten(ExampleC, quo, 3);
    assert quo[0] != 0.0;
    JumpFromRemainder(ExampleC, quo, 3);
    assert Coef(quo, 3) == 0.0;
    JumpC();
    assert ExampleC.remStart[..2] == [1.0, 1.0];
    assert ExampleC.coefficients == [1.0, 1.0];
  }


  lemma TrueTermC()
    requires Valid(ExampleC)
    ensures Term(ExampleC, 3) == 2.0
  {
    PrefixC();
  }

  /** The remainder's expansion is read from its lowest term on, so the seed
      is shifted by the remainder's valuation: here the evaluator returns 3
      for a(3) = 2. */
  lemma FindingRemainderValuation()
    ensures var o := Ogf([1.0, 0.0, -1.0], [1.0, -1.0, -1.0]);
      && o.den[0] != 0.0
      && Canonicalize(o) == Ok(ExampleC)
      && TermAsWritten(ExampleC, 3) == Ok(3.0)
      && Term(ExampleC, 3) == 2.0
  {
    CanonicalC();
    AsWrittenC();
    TrueTermC();
  }

  /** (2 + x - 2x^2 + x^3)/(1 - x^2 + x^3): offset 0, terms 2, 1, 0, 0, -1, ... */
  const ExampleD := CFiniteSequence(0, [2.0, 1.0, -2.0, 1.0], [1.0, 0.0, -1.0, 1.0], 3,
    [0.0, 1.0, -1.0], [2.0, 1.0, 0.0, 0.0], [1.0, 1.0])

  /** D_1*s_{m-1} + D_2*s_{m-2} + D_3*s_{m-3} for a denominator of degree at most 3. */
  lemma ConvTailCubic(d: Poly, s: seq<real>, m: int)
    requires |d| == 4 && m >= 3
    ensures ConvTail(d, s, m) == d[1] * Coef(s, m - 1) + d[2] * Coef(s, m - 2) + d[3] * Coef(s, m - 3)
  {
    var f := ConvTerms(d, s, m);
    forall k | 4 <= k < m + 1
      ensures f(k) == 0.0
    {
      assert Coef(d, k) == 0.0;
    }
    SumZero(4, m + 1, f);
    assert Sum(3, m + 1, f) == f(3) + Sum(4, m + 1, f);
    assert Sum(2, m + 1, f) == f(2) + Sum(3, m + 1, f);
    assert Sum(1, m + 1, f) == f(1) + Sum(2, m + 1, f);
  }

  lemma NormalD()
    ensures var o := Ogf([2.0, 1.0, -2.0, 1.0], [1.0, 0.0, -1.0, 1.0]);
      && o.den[0] != 0.0
      && Degree(o.den) == 3
      && Normalize(o) == Ok(Fraction(0, [2.0, 1.0, -2.0, 1.0], [1.0, 0.0, -1.0, 1.0]))
  {
    var o := Ogf([2.0, 1.0, -2.0, 1.0], [1.0, 0.0, -1.0, 1.0]);
    assert Degree(o.den) == 3;
    assert Valuation(o.num) == 0;
    assert ShiftDown(o.num, 0) == o.num;
    assert Coef(o.num, 0) == 2.0 && Coef(o.den, 0) == 1.0;
    assert Normalize(o) == Ok(Divided(0, o.num, o.den));
    assert Scale(o.num, 1.0 / 1.0) == o.num;
    assert Scale(o.den, 1.0 / 1.0) == o.den;
    assert Degree(o.num) == 3;
    assert Trim(o.num) == o.num;
    assert Trim(o.den) == o.den;
  }

  lemma PrefixD()
    ensures SeriesPrefix([2.0, 1.0, -2.0, 1.0], [1.0, 0.0, -1.0, 1.0], 5) == [2.0, 1.0, 0.0, 0.0, -1.0]
    ensures SeriesPrefix([2.0, 1.0, -2.0, 1.0], [1.0, 0.0, -1.0, 1.0], 4) == [2.0, 1.0, 0.0, 0.0]
  {
    var n, d := [2.0, 1.0, -2.0, 1.0], [1.0, 0.0, -1.0, 1.0];
    assert SeriesPrefix(n, d, 1) == [2.0];
    var s1 := [2.0];
    assert ConvTail(d, s1, 1) == Coef(d, 1) * Coef(s1, 0) + Sum(2, 2, ConvTerms(d, s1, 1));
    assert SeriesPrefix(n, d, 2) == [2.0, 1.0];
    var s2 := [2.0, 1.0];
    assert ConvTerms(d, s2, 2)(1) == 0.0;
    assert ConvTerms(d, s2, 2)(2) == -2.0;
    assert Sum(3, 3, ConvTerms(d, s2, 2)) == 0.0;
    assert ConvTail(d, s2, 2) == -2.0;
    assert SeriesPrefix(n, d, 3) == [2.0, 1.0, 0.0];
    ConvTailCubic(d, [2.0, 1.0, 0.0], 3);
    assert SeriesPrefix(n, d, 4) == [2.0, 1.0, 0.0, 0.0];
    ConvTailCubic(d, [2.0, 1.0, 0.0, 0.0], 4);
  }

  lemma QuoRemD()
    ensures Coef([1.0, 0.0, -1.0, 1.0], 0) != 0.0
      && QuoRem([2.0, 1.0, -2.0, 1.0], [1.0, 0.0, -1.0, 1.0]) == ([1.0], [1.0, 1.0, -1.0])
  {
    var p, d := [2.0, 1.0, -2.0, 1.0], [1.0, 0.0, -1.0, 1.0];
    assert Degree(p) == 3 && Degree(d) == 3;
    assert ShiftUp(Scale(d, 1.0), 0) == d;
    assert Sub(p, d)[..3] == [1.0, 1.0, -1.0];
    assert Degree([1.0, 1.0, -1.0]) == 2;
    assert QuoRem([1.0, 1.0, -1.0], d) == ([], [1.0, 1.0, -1.0]);
    assert Add([], Monomial(1.0, 0)) == [1.0];
  }

  lemma ReportedD()
    ensures var fr := Fraction(0, [2.0, 1.0, -2.0, 1.0], [1.0, 0.0, -1.0, 1.0]);
      && Numerator(fr) == [2.0, 1.0, -2.0, 1.0]
      && Denominator(fr) == [1.0, 0.0, -1.0, 1.0]
      && Degree(Numerator(fr)) == 3
      && Degree(fr.den) == 3
      && RecurrenceOf(fr.den, 3) == [0.0, 1.0, -1.0]
      && Valuation([1.0, 1.0, -1.0]) == 0
      && ShiftDown([1.0, 1.0, -1.0], 0) == [1.0, 1.0, -1.0]
  {
    assert ShiftUp([2.0, 1.0, -2.0, 1.0], 0) == [2.0, 1.0, -2.0, 1.0];
    assert Degree([2.0, 1.0, -2.0, 1.0]) == 3;
    assert Degree([1.0, 0.0, -1.0, 1.0]) == 3;
  }

  /** The expansion of the remainder over the denominator ends in two zeros
      within its first four terms, so only two remainder values are kept. */
  lemma RemainderPrefixD()
    ensures SeriesPrefix([1.0, 1.0, -1.0], [1.0, 0.0, -1.0, 1.0], 4) == [1.0, 1.0, 0.0, 0.0]
  {
    var n, d := [1.0, 1.0, -1.0], [1.0, 0.0, -1.0, 1.0];
    assert SeriesPrefix(n, d, 1) == [1.0];
    var s1 := [1.0];
    assert ConvTail(d, s1, 1) == Coef(d, 1) * Coef(s1, 0) + Sum(2, 2, ConvTerms(d, s1, 1));
    assert SeriesPrefix(n, d, 2) == [1.0, 1.0];
    var s2 := [1.0, 1.0];
    assert ConvTerms(d, s2, 2)(1) == 0.0;
    assert ConvTerms(d, s2, 2)(2) == -1.0;
    assert Sum(3, 3, ConvTerms(d, s2, 2)) == 0.0;
    assert ConvTail(d, s2, 2) == -1.0;
    assert SeriesPrefix(n, d, 3) == [1.0, 1.0, 0.0];
    ConvTailCubic(d, [1.0, 1.0, 0.0], 3);
  }

  lemma TrimmedRemainderD()
    ensures Cut(Trim([1.0, 1.0, 0.0, 0.0]), 3) == [1.0, 1.0]
  {
    DegreeByTop([1.0, 1.0, 0.0, 0.0], 1);
  }

  lemma RationalD()
    ensures RationalSequence(Fraction(0, [2.0, 1.0, -2.0, 1.0], [1.0, 0.0, -1.0, 1.0])) == ExampleD
  {
    var fr := Fraction(0, [2.0, 1.0, -2.0, 1.0], [1.0, 0.0, -1.0, 1.0]);
    ReportedD();
    PrefixD();
    QuoRemD();
    RemainderPrefixD();
    TrimmedRemainderD();
    assert Coef(Denominator(fr), 0) == 1.0;
    RationalParts(fr, 4, [1.0, 1.0, -1.0], [2.0, 1.0, 0.0, 0.0], [1.0, 1.0]);
  }


  lemma CanonicalD()
    ensures var o := Ogf([2.0, 1.0, -2.0, 1.0], [1.0, 0.0, -1.0, 1.0]);
      o.den[0] != 0.0 && Canonicalize(o) == Ok(ExampleD)
  {
    NormalD();
    RationalD();
  }

  lemma AsWrittenD()
    requires Valid(ExampleD)
    ensures TermAsWritten(ExampleD, 4) == Err(WrongEntryCount)
  {
    ReportedD();
    QuoRemD();
    var quo := Quotient(ExampleD);
    assert quo == [1.0];
    assert TermAsWritten(ExampleD, 4) == EvaluateAsWritten(ExampleD, quo, 4);
    assert quo[0] != 0.0;
  }


  lemma TrueTermD()
    requires Valid(ExampleD)
    ensures Term(ExampleD, 4) == -1.0
  {
    PrefixD();
  }

  /** The remainder values are kept with trailing zeros dropped, so fewer
      than d of them can be left and the seed matrix cannot be built: here
      the evaluator fails on a(4) = -1. */
  lemma FindingTrimmedRemainder()
    ensures var o := Ogf([2.0, 1.0, -2.0, 1.0], [1.0, 0.0, -1.0, 1.0]);
      && o.den[0] != 0.0
      && Canonicalize(o) == Ok(ExampleD)
      && TermAsWritten(ExampleD, 4) == Err(WrongEntryCount)
      && Term(ExampleD, 4) == -1.0
  {
    CanonicalD();
    AsWrittenD();
    TrueTermD();
  }
}
