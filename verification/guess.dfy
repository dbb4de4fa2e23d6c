/** `guess(sequence, algorithm)`: find a C-finite sequence whose first
    terms are the given samples.

    The linear algebra is outside the model: the default method receives
    the last basis vector of the kernel of the Hankel matrix of the samples
    (or nothing when the kernel is trivial), and the Berlekamp-Massey method
    receives the coefficient list of the minimal polynomial that algorithm
    returns. What the model covers is everything the source does with those
    answers. The result `None` stands for the 0 the source returns when it
    finds no o.g.f. */
module Guess {
  import opened Sums
  import opened Poly
  import opened Series
  import opened Errors
  import opened Normal
  import opened Canonical
  import opened Convolution
  import opened Generating

  /** numpy's `trim_zeros`: the list without its leading and trailing zeros,
      which as a polynomial is v divided by its lowest power of x. */
  function TrimZeros(v: seq<real>): (r: seq<real>)
    ensures IsZero(v) <==> r == []
    ensures r != [] ==> r[0] != 0.0 && r[|r| - 1] != 0.0
    ensures !IsZero(v) ==> |r| == Degree(v) - Valuation(v) + 1
    ensures forall i :: Coef(r, i) == if i < 0 then 0.0 else Coef(v, i + Valuation(v))
  {
    if IsZero(v) then [] else v[Valuation(v)..Degree(v) + 1]
  }

  /** The o.g.f. of the samples is a polynomial times den; a zero den gives
      the zero product. */
  lemma ProductWithEmpty(p: Poly, q: Poly, n: nat)
    ensures !IsZero(Truncate(Mul(p, q), n)) ==> |q| > 0
  {
  }

  /** Terms that solve den * A = num and vanish at negative indices are the
      expansion of num/den. */
  lemma PrefixAgree(n: Poly, d: Poly, f: Terms, len: nat)
    requires Coef(d, 0) != 0.0 && VanishesBelow(f, 0)
    requires forall k :: Act(d, f, k) == Coef(n, k)
    ensures forall i :: 0 <= i < len ==> f(i) == SeriesPrefix(n, d, len)[i]
  {
    var p := SeriesPrefix(n, d, len);
    PrefixSolves(n, d, len);
    AgreeBelow(d, f, CoefOf(p), 0, len);
    forall i | 0 <= i < len
      ensures f(i) == p[i]
    {
      assert CoefOf(p)(i) == p[i];
    }
  }

  /** The prefix of the expansion solves den * A = num below its length. */
  lemma PrefixSolves(n: Poly, d: Poly, len: nat)
    requires Coef(d, 0) != 0.0
    ensures forall k :: k < len ==> Act(d, CoefOf(SeriesPrefix(n, d, len)), k) == Coef(n, k)
  {
    var p := SeriesPrefix(n, d, len);
    SeriesSolves(n, d, len);
    MulCoef(d, p);
    forall k | k < len
      ensures Act(d, CoefOf(p), k) == Coef(n, k)
    {
      ActPoly(d, p, k);
    }
  }

  /** The terms of the canonical sequence of num/den solve den * A = num and
      vanish at negative indices when den(0) != 0. */
  lemma CanonicalSolves(o: Ogf, s: CFiniteSequence)
    requires Coef(o.den, 0) != 0.0 && Canonicalize(o) == Ok(s)
    ensures forall k :: Act(o.den, TermsOf(s), k) == Coef(o.num, k)
    ensures VanishesBelow(TermsOf(s), 0)
  {
    forall k
      ensures Act(o.den, TermsOf(s), k) == Coef(o.num, k)
    {
      CanonicalActs(o, s, k);
    }
    CanonicalVanishes(o, s);
  }

  lemma CanonicalVanishes(o: Ogf, s: CFiniteSequence)
    requires Coef(o.den, 0) != 0.0 && Canonicalize(o) == Ok(s)
    ensures VanishesBelow(TermsOf(s), 0)
  {
    assert s.offset >= 0;
  }

  lemma CanonicalActs(o: Ogf, s: CFiniteSequence, k: int)
    requires Coef(o.den, 0) != 0.0 && Canonicalize(o) == Ok(s)
    ensures Act(o.den, TermsOf(s), k) == Coef(o.num, k)
  {
    OgfExpansion(o, s, k);
    ActIsProduct(o.den, s, k);
  }

  /** hl = ceil(l/2), the size of the Hankel matrix of l samples. */
  function HalfLength(l: nat): nat
  {
    (l + 1) / 2
  }

  /** The summands v_k * a(k + j) of column j of v * A, where A is the
      Hankel matrix with rows a(k), ..., a(k + hl - 1). */
  function HankelTerms(sequence: seq<real>, v: seq<real>, j: int): int -> real
  {
    k => Coef(v, k) * Coef(sequence, k + j)
  }

  /** v lies in the (left) kernel of the hl x hl Hankel matrix of the
      samples. */
  ghost predicate InHankelKernel(sequence: seq<real>, hl: nat, v: seq<real>)
  {
    |v| == hl && forall j :: 0 <= j < hl ==> Sum(0, hl, HankelTerms(sequence, v, j)) == 0.0
  }

  /** The source's final test of a kernel guess: the samples against the
      coefficient list of the power series num/den to precision l. Sage's
      `list()` of a power series omits trailing zero coefficients, so as
      written the samples are compared with the trimmed list; `padded`
      compares with all l coefficients instead. */
  predicate Matches(sequence: seq<real>, expansion: seq<real>, padded: bool)
  {
    if padded then sequence == expansion else sequence == Trim(expansion)
  }

  /** The default method given the kernel's last basis vector: den is that
      vector reversed with zeros trimmed, and num the samples times den cut
      off after x^(l/2); the guess is kept when num/den reproduces the
      samples. */
  function GuessKernelWith(sequence: seq<real>, kernel: Option<seq<real>>, padded: bool): (r: Result<Option<CFiniteSequence>>)
    ensures r.Err? <==> (|sequence| < 6 ||
                         (kernel.Some? && TrimZeros(Reverse(kernel.value)) != [1.0] && IsZero(sequence)))
    ensures r.Err? ==> r.error == if |sequence| < 6 then TooShort else NoNonzeroSample
    ensures |sequence| >= 6 && kernel.None? ==> r == Ok(None)
    ensures r.Ok? && r.value.Some? ==> Valid(r.value.value)
  {
    var l := |sequence|;
    if l < 6 then Err(TooShort)
    else if kernel.None? then Ok(None)
    else
      var o := KernelOgf(sequence, kernel.value);
      if o.den == [1.0] then Ok(None)
      else if IsZero(sequence) then Err(NoNonzeroSample)
      else Ok(KernelCheck(sequence, o, padded))
  }

  /** The last step of the default method: a zero numerator is rejected,
      and otherwise num/den is kept exactly when its series passes the
      comparison with the samples. */
  function KernelCheck(sequence: seq<real>, o: Ogf, padded: bool): (r: Option<CFiniteSequence>)
    requires !IsZero(o.num) ==> Coef(o.den, 0) != 0.0
    ensures r.Some? <==> !IsZero(o.num) && Matches(sequence, SeriesPrefix(o.num, o.den, |sequence|), padded)
    ensures r.Some? ==> Valid(r.value) && Coef(o.den, 0) != 0.0 && Canonicalize(o) == Ok(r.value)
  {
    if IsZero(o.num) then None
    else if !Matches(sequence, SeriesPrefix(o.num, o.den, |sequence|), padded) then None
    else
      CanonicalizeUnitDen(o);
      Some(Canonicalize(o).value)
  }

  /** The candidate o.g.f. of the default method: den is the kernel vector
      reversed with zeros trimmed, num the samples times den cut off after
      x^(l/2). A nonzero num comes with den(0) != 0. */
  function KernelOgf(sequence: seq<real>, kernel: seq<real>): (o: Ogf)
    ensures o.den == TrimZeros(Reverse(kernel))
    ensures !IsZero(o.num) ==> Coef(o.den, 0) != 0.0
  {
    var den := TrimZeros(Reverse(kernel));
    ProductWithEmpty(sequence, den, |sequence| / 2 + 1);
    Ogf(Truncate(Mul(sequence, den), |sequence| / 2 + 1), den)
  }

  /** `guess(sequence)` with the default method, as written. Whatever it
      returns is canonical and reproduces every sample. */
  function GuessKernel(sequence: seq<real>, kernel: Option<seq<real>>): (r: Result<Option<CFiniteSequence>>)
    ensures r.Ok? && r.value.Some? ==>
      Valid(r.value.value) && forall i :: 0 <= i < |sequence| ==> Coefficient(r.value.value, i) == sequence[i]
  {
    var r := GuessKernelWith(sequence, kernel, false);
    if r.Ok? && r.value.Some? then GuessKernelSound(sequence, kernel, false); r else r
  }

  /** The default method comparing all l coefficients of the series. Whatever
      it returns is canonical and reproduces every sample. */
  function GuessKernelPadded(sequence: seq<real>, kernel: Option<seq<real>>): (r: Result<Option<CFiniteSequence>>)
    ensures r.Ok? && r.value.Some? ==>
      Valid(r.value.value) && forall i :: 0 <= i < |sequence| ==> Coefficient(r.value.value, i) == sequence[i]
  {
    var r := GuessKernelWith(sequence, kernel, true);
    if r.Ok? && r.value.Some? then GuessKernelSound(sequence, kernel, true); r else r
  }

  /** A sequence the default method returns generates the samples: its
      first l terms are the l samples. */
  lemma GuessKernelSound(sequence: seq<real>, kernel: Option<seq<real>>, padded: bool)
    requires GuessKernelWith(sequence, kernel, padded).Ok?
    requires GuessKernelWith(sequence, kernel, padded).value.Some?
    ensures var s := GuessKernelWith(sequence, kernel, padded).value.value;
      Valid(s) && forall i :: 0 <= i < |sequence| ==> Coefficient(s, i) == sequence[i]
  {
    var o := KernelOgf(sequence, kernel.value);
    assert GuessKernelWith(sequence, kernel, padded) == Ok(KernelCheck(sequence, o, padded));
    KernelCheckSound(sequence, o, padded);
  }

  /** A candidate the comparison keeps generates the samples. */
  lemma KernelCheckSound(sequence: seq<real>, o: Ogf, padded: bool)
    requires !IsZero(o.num) ==> Coef(o.den, 0) != 0.0
    requires KernelCheck(sequence, o, padded).Some?
    ensures forall i :: 0 <= i < |sequence| ==> Coefficient(KernelCheck(sequence, o, padded).value, i) == sequence[i]
  {
    var l := |sequence|;
    var s := KernelCheck(sequence, o, padded).value;
    MatchesAll(sequence, SeriesPrefix(o.num, o.den, l), padded);
    assert sequence[..l] == sequence;
    SamplesOfCanonical(o, s, sequence, l);
  }

  /** An o.g.f. whose denominator has a nonzero constant term always canonicalises. */
  lemma CanonicalizeUnitDen(o: Ogf)
    requires Coef(o.den, 0) != 0.0
    ensures !IsZero(o.den) && Canonicalize(o).Ok?
  {
    assert o.den[0] != 0.0;
  }

  /** Either comparison accepts only an expansion equal to the samples,
      since both have l entries. */
  lemma MatchesAll(sequence: seq<real>, e: seq<real>, padded: bool)
    requires Matches(sequence, e, padded) && |e| == |sequence|
    ensures e == sequence
  {
    if !padded {
      assert |Trim(e)| == |e|;
    }
  }

  /** `guess(sequence, algorithm='bm')` given the coefficient list of the
      minimal polynomial Berlekamp-Massey returns for the samples (the last
      one dropped when their number is odd): den is that list reversed and
      num the samples times den cut off below x^l, l one less than the
      number of samples used. */
  function GuessBerlekampMassey(sequence: seq<real>, minpoly: seq<real>): (r: Result<CFiniteSequence>)
    ensures r.Err? <==> (|sequence| < 2 || IsZero(Reverse(minpoly)) ||
                         Normalize(BerlekampMasseyOgf(EvenPrefix(sequence), Reverse(minpoly))).Err?)
    ensures |sequence| < 2 ==> r == Err(TooShort)
    ensures |sequence| >= 2 && r.Err? ==> r.error == ZeroDivision
    ensures r.Ok? ==> Valid(r.value)
  {
    if |sequence| < 2 then Err(TooShort)
    else
      var sq := EvenPrefix(sequence);
      var den := Reverse(minpoly);
      if IsZero(den) then Err(ZeroDivision)
      else Canonicalize(BerlekampMasseyOgf(sq, den))
  }

  /** num/den with num the samples times den cut off below x^l. */
  function BerlekampMasseyOgf(sq: seq<real>, den: Poly): Ogf
    requires |sq| > 0
  {
    Ogf(Truncate(Mul(sq, den), |sq| - 1), den)
  }

  /** The samples Berlekamp-Massey uses: all of them when their number is
      even, all but the last otherwise. */
  function EvenPrefix(sequence: seq<real>): (sq: seq<real>)
    ensures |sq| % 2 == 0 && |sequence| - 1 <= |sq| <= |sequence|
    ensures sq == sequence[..|sq|]
  {
    if |sequence| % 2 == 1 then sequence[..|sequence| - 1] else sequence
  }

  /** With a minimal polynomial whose leading coefficient is 1, as
      Berlekamp-Massey returns, the guess generates every sample it used
      but the last: the first l terms are the samples. */
  lemma GuessBerlekampMasseySound(sequence: seq<real>, minpoly: seq<real>)
    requires |sequence| >= 2 && |minpoly| > 0 && minpoly[|minpoly| - 1] == 1.0
    ensures var r := GuessBerlekampMassey(sequence, minpoly);
      r.Ok? && forall i :: 0 <= i < |EvenPrefix(sequence)| - 1 ==> Coefficient(r.value, i) == sequence[i]
  {
    BerlekampMasseyOk(sequence, minpoly);
    BerlekampMasseyPrefix(sequence, EvenPrefix(sequence), Reverse(minpoly), GuessBerlekampMassey(sequence, minpoly).value);
  }

  /** The same for any prefix sq of the samples in place of the even one. */
  lemma BerlekampMasseyPrefix(sequence: seq<real>, sq: seq<real>, den: Poly, s: CFiniteSequence)
    requires 1 <= |sq| <= |sequence| && sq == sequence[..|sq|]
    requires Coef(den, 0) != 0.0 && Canonicalize(BerlekampMasseyOgf(sq, den)) == Ok(s)
    ensures forall i :: 0 <= i < |sq| - 1 ==> Coefficient(s, i) == sequence[i]
  {
    var l := |sq| - 1;
    BerlekampMasseyMatches(sequence, sq, den, l);
    SamplesOfCanonical(BerlekampMasseyOgf(sq, den), s, sequence, l);
  }

  /** With den(0) = 1 the candidate always canonicalises. */
  lemma BerlekampMasseyOk(sequence: seq<real>, minpoly: seq<real>)
    requires |sequence| >= 2 && |minpoly| > 0 && minpoly[|minpoly| - 1] == 1.0
    ensures var o := BerlekampMasseyOgf(EvenPrefix(sequence), Reverse(minpoly));
      Coef(Reverse(minpoly), 0) == 1.0 && !IsZero(Reverse(minpoly)) &&
      GuessBerlekampMassey(sequence, minpoly).Ok? && Canonicalize(o) == GuessBerlekampMassey(sequence, minpoly)
  {
    assert Coef(Reverse(minpoly), 0) == 1.0;
  }

  /** A sequence canonicalised from num/den whose first l series
      coefficients are the first l samples has those samples as its first
      l terms. */
  lemma SamplesOfCanonical(o: Ogf, s: CFiniteSequence, sequence: seq<real>, l: nat)
    requires Coef(o.den, 0) != 0.0 && Canonicalize(o) == Ok(s) && l <= |sequence|
    requires SeriesPrefix(o.num, o.den, l) == sequence[..l]
    ensures forall i :: 0 <= i < l ==> Coefficient(s, i) == sequence[i]
  {
    CanonicalSolves(o, s);
    PrefixAgreeWith(o.num, o.den, TermsOf(s), l, sequence);
    forall i | 0 <= i < l
      ensures Coefficient(s, i) == sequence[i]
    {
      assert TermsOf(s)(i) == sequence[i];
    }
  }

  /** Terms that solve den * A = num and vanish at negative indices agree
      with any list that starts with the expansion of num/den. */
  lemma PrefixAgreeWith(n: Poly, d: Poly, f: Terms, len: nat, t: seq<real>)
    requires Coef(d, 0) != 0.0 && VanishesBelow(f, 0)
    requires forall k :: Act(d, f, k) == Coef(n, k)
    requires len <= |t| && SeriesPrefix(n, d, len) == t[..len]
    ensures forall i :: 0 <= i < len ==> f(i) == t[i]
  {
    PrefixAgree(n, d, f, len);
    forall i | 0 <= i < len
      ensures f(i) == t[i]
    {
      assert t[..len][i] == t[i];
    }
  }

  /** The first l power-series coefficients of the Berlekamp-Massey o.g.f.
      are the first l samples. */
  lemma BerlekampMasseyMatches(sequence: seq<real>, sq: seq<real>, den: Poly, l: nat)
    requires Coef(den, 0) != 0.0 && l + 1 == |sq| <= |sequence| && sq == sequence[..|sq|]
    ensures var o := BerlekampMasseyOgf(sq, den);
      SeriesPrefix(o.num, o.den, l) == sequence[..l]
  {
    BerlekampMasseyExpansion(sq, den);
    assert sq[..l] == sequence[..l];
  }

  /** The expansion of the Berlekamp-Massey o.g.f. starts with the samples. */
  lemma BerlekampMasseyExpansion(sq: seq<real>, den: Poly)
    requires Coef(den, 0) != 0.0 && |sq| >= 1
    ensures SeriesPrefix(BerlekampMasseyOgf(sq, den).num, den, |sq| - 1) == sq[..|sq| - 1]
  {
    MulSymmetric(sq, den);
    TruncatedProduct(den, sq, |sq| - 1);
  }
}
