/** Term evaluation `s[k]`: the stored window, and beyond it a jump with the
    companion matrix of the recurrence.

    `TermAsWritten` follows the evaluator of the sequence class step by
    step; `Term` is the corrected evaluator the rest of the model uses. The
    two agree whenever the reported numerator has lower degree than the
    reported denominator and the offset is not negative
    (`AsWrittenAgrees`), and differ in the four cases the lemmas
    `FindingShiftedQuotient`, `FindingNegativeOffset`,
    `FindingRemainderValuation` and `FindingTrimmedRemainder` exhibit. */
module Terms {
  import opened Sums
  import opened Poly
  import opened Recurrence
  import opened Series
  import opened Errors
  import opened Normal
  import opened Canonical

  /** The quotient of the reported numerator by the reported denominator. */
  function Quotient(s: CFiniteSequence): Poly
    requires Coef(s.den, 0) == 1.0
  {
    assert Coef(Denominator(FractionOf(s)), Max(-s.offset, 0)) == 1.0;
    QuoRem(Numerator(FractionOf(s)), Denominator(FractionOf(s))).0
  }

  /** What the evaluator reads of a sequence: a denominator with constant
      term 1, and d = |c| coefficients with at least d window values. Every
      canonical sequence has these. */
  predicate Evaluable(s: CFiniteSequence)
  {
    Coef(s.den, 0) == 1.0 && s.degree == |s.coefficients| <= |s.start|
  }

  /** The evaluator as the sequence class writes it, with the quotient of
      the reported numerator by the reported denominator. */
  function TermAsWritten(s: CFiniteSequence, k: int): (r: Result<real>)
    requires Evaluable(s)
    ensures r.Err? ==> r.error == WrongEntryCount && !IsZero(Quotient(s))
  {
    EvaluateAsWritten(s, Quotient(s), k)
  }

  /** The evaluator as written, given the quotient `quo`: inside the window
      a lookup; a finite sequence is 0 elsewhere; below the offset the
      quotient's coefficient at n = k - offset; beyond the window that
      coefficient plus the last component of M^n * V, where V is the first
      d window values (or, when the quotient is not zero, the first d
      remainder values) reversed. The remainder list drops trailing zeros,
      and when fewer than d values are left the d x 1 matrix V cannot be
      built: that is the `WrongEntryCount` error. */
  function EvaluateAsWritten(s: CFiniteSequence, quo: Poly, k: int): (r: Result<real>)
    requires Evaluable(s)
    ensures r.Err? ==> r.error == WrongEntryCount && !IsZero(quo) && |s.remStart| < s.degree
  {
    var d := s.degree;
    if s.offset <= k < s.offset + |s.start| then Ok(s.start[k - s.offset])
    else if d == 0 then Ok(0.0)
    else
      var wp := Coef(quo, k - s.offset);
      if k < s.offset then Ok(wp)
      else if !IsZero(quo) && |s.remStart| < d then Err(WrongEntryCount)
      else
        var seed := if IsZero(quo) then s.start[..d] else s.remStart[..d];
        Ok(wp + Last(Power(Companion(s.coefficients), k - s.offset, Reverse(seed))))
  }

  /** With a zero quotient the evaluator as written jumps from the first
      d window values past the window. */
  lemma JumpFromWindow(s: CFiniteSequence, quo: Poly, k: int)
    requires Evaluable(s) && IsZero(quo) && s.degree > 0 && k >= s.offset + |s.start|
    ensures EvaluateAsWritten(s, quo, k)
         == Ok(Last(Power(Companion(s.coefficients), k - s.offset, Reverse(s.start[..s.degree]))))
  {
    assert Coef(quo, k - s.offset) == 0.0;
  }

  /** The corrected evaluator: inside the window a lookup; 0 below the
      offset and everywhere outside the window of a finite sequence;
      otherwise the recurrence is run on from the last d window values,
      M^(k - offset - j) * V with V = (a(offset + j + d - 1), ..., a(offset + j))
      and j = |window| - d. */
  function Term(s: CFiniteSequence, k: int): (r: real)
    requires Valid(s)
    ensures r == Coefficient(s, k)
  {
    var d := s.degree;
    if s.offset <= k < s.offset + |s.start| then
      WindowTerm(s, k);
      s.start[k - s.offset]
    else if d == 0 || k < s.offset then
      OutsideTerm(s, k);
      0.0
    else
      var j := |s.start| - d;
      JumpTerm(s, k);
      Last(Power(Companion(s.coefficients), k - s.offset - j, Reverse(s.start[j..])))
  }

  lemma WindowTerm(s: CFiniteSequence, k: int)
    requires Valid(s) && s.offset <= k < s.offset + |s.start|
    ensures s.start[k - s.offset] == Coefficient(s, k)
  {
    SeriesPrefixCoef(s.num, s.den, |s.start|);
  }

  /** A finite sequence vanishes past its window, and every sequence
      vanishes below its offset. */
  lemma OutsideTerm(s: CFiniteSequence, k: int)
    requires Valid(s) && !(s.offset <= k < s.offset + |s.start|)
    requires s.degree == 0 || k < s.offset
    ensures Coefficient(s, k) == 0.0
  {
    if k >= s.offset {
      var m := k - s.offset;
      SeriesOfPolynomial(s.num, s.den, m + 1);
      CoefBeyondDegree(s.num, m);
    }
  }

  /** Beyond the window the jump from the window's last d values reaches
      the power-series coefficient. */
  lemma JumpTerm(s: CFiniteSequence, k: int)
    requires Valid(s) && s.degree > 0 && k >= s.offset + |s.start|
    ensures var j := |s.start| - s.degree;
      Last(Power(Companion(s.coefficients), k - s.offset - j, Reverse(s.start[j..]))) == Coefficient(s, k)
  {
    SeriesPrefixCoef(s.num, s.den, |s.start|);
    WindowJump(s.num, s.den, s.degree, s.start, k - s.offset);
  }

  /** With a nonzero quotient and at least d remainder values the
      evaluator as written jumps from the remainder values past the window. */
  lemma JumpFromRemainder(s: CFiniteSequence, quo: Poly, k: int)
    requires Evaluable(s) && !IsZero(quo) && s.degree > 0 && k >= s.offset + |s.start|
    requires |s.remStart| >= s.degree
    ensures EvaluateAsWritten(s, quo, k)
         == Ok(Coef(quo, k - s.offset)
               + Last(Power(Companion(s.coefficients), k - s.offset, Reverse(s.remStart[..s.degree]))))
  {
  }

  /** Where the numerator the sequence reports has lower degree than its
      denominator (so the quotient is zero) and the offset is not negative,
      the evaluator as written computes the true terms. */
  lemma AsWrittenAgrees(s: CFiniteSequence, k: int)
    requires Valid(s) && s.offset >= 0 && IsZero(Quotient(s))
    ensures TermAsWritten(s, k) == Ok(Term(s, k))
  {
    if !(s.offset <= k < s.offset + |s.start|) && s.degree > 0 {
      var quo := Quotient(s);
      assert TermAsWritten(s, k) == EvaluateAsWritten(s, quo, k);
      if k < s.offset {
        assert Coef(quo, k - s.offset) == 0.0;
      } else {
        JumpFromWindow(s, quo, k);
        NumeratorBelowDenominator(s);
        SeedJump(s, k);
      }
    }
  }

  /** Inside the window the evaluator as written returns the true term. */
  lemma AsWrittenInWindow(s: CFiniteSequence, k: int)
    requires Valid(s) && s.offset <= k < s.offset + |s.start|
    ensures TermAsWritten(s, k) == Ok(Coefficient(s, k))
  {
    assert TermAsWritten(s, k) == EvaluateAsWritten(s, Quotient(s), k);
    WindowTerm(s, k);
  }

  /** Where the numerator's degree is below the order of the recurrence,
      the jump from the first d terms reaches every term past the window. */
  lemma SeedJump(s: CFiniteSequence, k: int)
    requires Valid(s) && s.degree > 0 && k >= s.offset + |s.start| && Degree(s.num) < s.degree
    ensures Last(Power(Companion(s.coefficients), k - s.offset, Reverse(s.start[..s.degree]))) == Coefficient(s, k)
  {
    var d := s.degree;
    var seed := s.start[..d];
    SeriesPrefixCoef(s.num, s.den, |s.start|);
    WindowJump(s.num, s.den, d, seed, k - s.offset);
    assert seed[|seed| - d..] == seed;
  }

  /** A zero quotient means the reported numerator has lower degree than
      the reported denominator; with a nonnegative offset that bounds the
      degree of num by the order of the recurrence. */
  lemma NumeratorBelowDenominator(s: CFiniteSequence)
    requires Valid(s) && s.offset >= 0 && IsZero(Quotient(s))
    ensures Degree(s.num) < s.degree
  {
    assert Coef(Denominator(FractionOf(s)), 0) == 1.0;
    QuotientDegree(Numerator(FractionOf(s)), Denominator(FractionOf(s)));
    DegreeShiftUp(s.num, s.offset);
  }
}
