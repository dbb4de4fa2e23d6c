/** The samples 1, 0, 1, 0, 1, 0, generated by 1/(1 - x^2), against the
    default guessing method. The kernel of their Hankel matrix is spanned by
    (1, 0, -1), so den = x^2 - 1 and num = -1; the series of num/den
    reproduces all six samples, but its coefficient list without the final
    zero does not equal the samples, and the guess is discarded. */
module GuessFindings {
  import opened Sums
  import opened Poly
  import opened Series
  import opened Errors
  import opened Canonical
  import opened Convolution
  import opened Guess

  const Samples: seq<real> := [1.0, 0.0, 1.0, 0.0, 1.0, 0.0]
  const KernelVector: seq<real> := [1.0, 0.0, -1.0]
  const Den: seq<real> := [-1.0, 0.0, 1.0]
  const Num: seq<real> := [-1.0, 0.0, 0.0, 0.0]

  /** Three summands written out. */
  lemma SumThree(f: int -> real)
    ensures Sum(0, 3, f) == f(0) + f(1) + f(2)
  {
    assert Sum(2, 3, f) == f(2) + Sum(3, 3, f);
    assert Sum(1, 3, f) == f(1) + Sum(2, 3, f);
  }

  /** Column j of v * A: v_0 a(j) + v_1 a(j + 1) + v_2 a(j + 2). */
  lemma HankelColumn(v: seq<real>, j: int)
    requires |v| == 3
    ensures Sum(0, 3, HankelTerms(Samples, v, j))
      == v[0] * Coef(Samples, j) + v[1] * Coef(Samples, j + 1) + v[2] * Coef(Samples, j + 2)
  {
    SumThree(HankelTerms(Samples, v, j));
  }

  /** The kernel vector spans the kernel: (v0, v1, v2) is in it exactly
      when v1 = 0 and v2 = -v0. */
  lemma KernelOfSamples(v: seq<real>)
    requires |v| == 3
    ensures InHankelKernel(Samples, HalfLength(|Samples|), v) <==> v[1] == 0.0 && v[2] == -v[0]
  {
    assert HalfLength(|Samples|) == 3;
    HankelColumn(v, 0);
    HankelColumn(v, 1);
    HankelColumn(v, 2);
    assert Coef(Samples, 0) == 1.0 && Coef(Samples, 1) == 0.0 && Coef(Samples, 2) == 1.0;
    assert Coef(Samples, 3) == 0.0 && Coef(Samples, 4) == 1.0;
  }

  lemma KernelVectorInKernel()
    ensures InHankelKernel(Samples, HalfLength(|Samples|), KernelVector)
  {
    KernelOfSamples(KernelVector);
  }

  lemma DenOfKernel()
    ensures TrimZeros(Reverse(KernelVector)) == Den
  {
    assert Reverse(KernelVector) == Den;
    assert Den[0] != 0.0;
    assert Valuation(Den) == 0;
    assert Degree(Den) == 2;
    assert Den[0..3] == Den;
  }

  /** x^2 - 1 acting on any terms: a(k - 2) - a(k). */
  lemma DenAction(f: Terms, k: int)
    ensures Act(Den, f, k) == -f(k) + f(k - 2)
  {
    var w := Weighted(Den, Back(f, k));
    SumThree(w);
    assert w(0) == -1.0 * f(k) && w(1) == 0.0 * f(k - 1) && w(2) == 1.0 * f(k - 2);
  }

  /** (x^2 - 1) times the samples: -1, then zeros up to x^5. */
  lemma SampleAction(k: int)
    requires 0 <= k < 6
    ensures Act(Den, CoefOf(Samples), k) == if k == 0 then -1.0 else 0.0
  {
    DenAction(CoefOf(Samples), k);
    assert CoefOf(Samples)(k) == Coef(Samples, k);
    assert CoefOf(Samples)(k - 2) == Coef(Samples, k - 2);
  }

  lemma ProductCoef(k: int)
    requires 0 <= k < 6
    ensures Coef(Mul(Samples, Den), k) == Conv(Den, Samples, k) == if k == 0 then -1.0 else 0.0
  {
    MulCommutes(Samples, Den, k);
    ActPoly(Den, Samples, k);
    MulCoef(Den, Samples);
    SampleAction(k);
  }

  lemma NumOfSamples()
    ensures Truncate(Mul(Samples, Den), 4) == Num
  {
    var p := Mul(Samples, Den);
    assert |p| == 8;
    forall k | 0 <= k < 4
      ensures p[k] == Num[k]
    {
      ProductCoef(k);
    }
  }

  /** The series of num/den to precision 6 is the samples themselves. */
  lemma ExpansionIsSamples()
    ensures Coef(Den, 0) != 0.0 && SeriesPrefix(Num, Den, 6) == Samples
  {
    forall m | 0 <= m < 6
      ensures Conv(Den, Samples, m) == Coef(Num, m)
    {
      ProductCoef(m);
    }
    SeriesUnique(Num, Den, Samples);
  }

  lemma TrimmedSamples()
    ensures Trim(Samples) == [1.0, 0.0, 1.0, 0.0, 1.0] && Trim(Samples) != Samples
  {
    assert Coef(Samples, 4) == 1.0;
    DegreeByTop(Samples, 4);
  }

  /** As written the guess for 1, 0, 1, 0, 1, 0 is 0; comparing the full
      list of six coefficients keeps 1/(1 - x^2), whose terms are the
      samples. */
  lemma FindingTrailingZero()
    ensures GuessKernel(Samples, Some(KernelVector)) == Ok(None)
    ensures var r := GuessKernelPadded(Samples, Some(KernelVector));
      && r.Ok? && r.value.Some?
      && forall i :: 0 <= i < 6 ==> Coefficient(r.value.value, i) == Samples[i]
  {
    DenOfKernel();
    NumOfSamples();
    ExpansionIsSamples();
    TrimmedSamples();
    assert !IsZero(Samples) by {
      assert Samples[0] != 0.0;
    }
    assert !IsZero(Num) by {
      assert Num[0] != 0.0;
    }
    assert |Samples| / 2 + 1 == 4;
    assert !Matches(Samples, SeriesPrefix(Num, Den, |Samples|), false);
    assert Matches(Samples, SeriesPrefix(Num, Den, |Samples|), true);
    GuessKernelSound(Samples, Some(KernelVector), true);
  }
}
