# C-finite sequences: a Dafny model

A C-finite sequence is a sequence of rationals that satisfies a linear
recurrence with constant coefficients. Equivalently, its ordinary generating
function (o.g.f.) is a rational function num/den. This project models the
core of Sage's `CFiniteSequence` class and proves what that class promises:

- canonicalisation of an o.g.f.: the offset, the normalised denominator, the
  recurrence coefficients, and the stored window of start values;
- term access `s[k]`: a window lookup, then the companion-matrix jump;
- Python 2 slices `s[a:b:c]`;
- `from_recurrence`, `coefficients`, `ogf` and `==`;
- the parts of `guess` that do not depend on the linear-algebra library.

Polynomials are coefficient lists `seq<real>`, where index i holds the
coefficient of x^i. Rationals are modelled as reals. Every division in the
model is by a nonzero value the code has checked, so nothing depends on the
difference between the two.

The true sequence is the reference definition throughout.
`Canonical.Coefficient(s, k)` is the coefficient of x^k in
x^offset · num/den, computed as a power series. Every operation is stated
against it:

- the evaluator returns it;
- `from_recurrence` reproduces its start values in it;
- `==` holds exactly when the two sequences of coefficients are equal;
- a guess reproduces the samples.

Modules:

| module | content |
|---|---|
| `Sums`, `Poly` | finite sums; polynomial coefficients, degree, valuation, product, `quo_rem` |
| `Series` | power series of num/den and their recurrence |
| `Recurrence` | recurrence states and the companion matrix |
| `Convolution` | a polynomial acting on a two-sided sequence, and cancellation |
| `Normal`, `Canonical` | the constructor |
| `Terms`, `Slices` | `__getitem__` |
| `Generating` | `coefficients`, `ogf`, `__eq__` |
| `FromRecurrence` | `from_recurrence` |
| `Guess` | `guess` |
| `Findings`, `GuessFindings` | the counterexamples listed under Findings |

The recurrence convention is the one the code uses. `coefficients()` returns
c with c_i = -den[i+1]. The stored coefficients act as
a(m) = c_0 a(m-1) + … + c_{d-1} a(m-d); this is the first row of the
companion matrix. `from_recurrence` takes its list in the documented order,
a(n+d) = c_0 a(n) + … + c_{d-1} a(n+d-1), which is the reverse.

`__getitem__` is modelled by the corrected evaluator `Terms.Term`, which
`Slices.GetItem` uses. Past the window it runs the recurrence on from the
last d window values, to the power k - offset - j, where j = window length - d.
The evaluator as the code writes it is `Terms.TermAsWritten`. It seeds with
the first d window values `_a[:d]`, or with `_aa[:d]` when the quotient is
not zero, and takes the power k - offset. The inputs on which the two differ
are listed under Findings.

`guess` is modelled as written (`Guess.GuessKernel`) and corrected
(`Guess.GuessKernelPadded`). The version as written compares the complete
sample list with the expansion list, which drops trailing zeros. The
corrected one pads that list to the sample count. The input that separates
them is listed under Findings.

## Model

| member | source | states |
|---|---|---|
| Normal.Normalize | src/sage/rings/cfinite_sequence.py:187-197 | The constructor's normalisation fails with ZeroDivision exactly when the denominator is not constant and both num(0) and den(0) are 0. Otherwise the new denominator has constant coefficient 1, and the offset is val(num) - val(den). So it is val(num) > 0 when num(0) = 0, -val(den) < 0 when den(0) = 0, and 0 when neither is. A constant denominator gives offset val(num) >= 0. |
| Normal.NormalizeSameFraction | src/sage/rings/cfinite_sequence.py:189-197 | The normalised fraction is the input's: x^offset·num and den, each divided by the denominator's lowest nonzero coefficient. |
| Normal.NormalizeShape | src/sage/rings/cfinite_sequence.py:189-202 | After removing the power of x, a nonzero numerator has a nonzero constant term. The recurrence order `_deg` is deg(den) - val(den). |
| Canonical.Canonicalize | src/sage/rings/cfinite_sequence.py:159-231 | The constructor succeeds exactly when normalisation does. The result keeps the canonical invariant (den(0) = 1, order = deg(den), c read off den, window = series of num/den) and carries the normalised fraction. |
| Canonical.RationalSequence | src/sage/rings/cfinite_sequence.py:201-218 | For a proper fraction the stored window has length exactly max(_deg, deg(num)+1), and the invariant holds. |
| Canonical.PolynomialSequence | src/sage/rings/cfinite_sequence.py:222-229 | A polynomial o.g.f. keeps its fraction and gets order 0. Its window is the coefficient list of num: deg(num)+1 entries, or [0] for the zero polynomial. |
| Canonical.OgfExpansion | src/sage/rings/cfinite_sequence.py:187-220 | The sequence built from num/den has den · A = num coefficient by coefficient. Its terms are the expansion of the o.g.f. it was given. |
| Poly.QuoRemIdentity | src/sage/rings/cfinite_sequence.py:211 | Long division, as `num % den` and `quo_rem` use it, splits p into q·d + r as polynomials. The remainder r has lower degree than d (Poly.QuoRem). |
| Poly.QuoRem | src/sage/rings/cfinite_sequence.py:487 | The remainder of long division has lower degree than the divisor. |
| Series.SeriesUnique | src/sage/rings/cfinite_sequence.py:209-213 | The window the constructor stores, the series of num/den, is the only list with den · a = num on its length. |
| Series.SeriesFollowsRecurrence | src/sage/rings/cfinite_sequence.py:201-213 | With den(0) = 1, the series of num/den follows a(m) = c_0 a(m-1) + … + c_{d-1} a(m-d) once m passes both d and deg(num). |
| Recurrence.MatrixJump | src/sage/rings/cfinite_sequence.py:491-500 | For the companion matrix M (first row c, shifted identity below) and V the d seed values reversed, the last entry of M^k V is the k-th term of the recurrence run from the seed. |
| Terms.Term | src/sage/rings/cfinite_sequence.py:480-500 | The corrected evaluator returns the true term Coefficient(s, k) for every integer k. |
| Terms.WindowTerm | src/sage/rings/cfinite_sequence.py:483-484 | Inside the window the stored value is the true term. |
| Terms.OutsideTerm | src/sage/rings/cfinite_sequence.py:485-490 | Below the offset, and outside the window of a sequence of order 0, the true term is 0. |
| Terms.JumpTerm | src/sage/rings/cfinite_sequence.py:491-500 | Past the window, the last entry of M^(k-offset-j) applied to the last d window values reversed is the true term, where j = window length - d. |
| Terms.SeedJump | src/sage/rings/cfinite_sequence.py:494-495 | The source's own seed (the first d window values, power k - offset) is right whenever deg(num) < d. |
| Terms.TermAsWritten | src/sage/rings/cfinite_sequence.py:487-500 | The evaluator as written fails only with WrongEntryCount, and only when the quotient of num by den is not zero: then the d x 1 seed matrix is built from `_aa`, which may hold fewer than d values. |
| Terms.AsWrittenInWindow | src/sage/rings/cfinite_sequence.py:483-484 | Inside the window the evaluator as written returns the stored value, which is the true term. |
| Terms.AsWrittenAgrees | src/sage/rings/cfinite_sequence.py:487-500 | The evaluator as written returns the true term whenever the offset is not negative and the quotient of num by den is 0. |
| Slices.MaxBound | src/sage/rings/cfinite_sequence.py:478 | Python 2 `max(start, stop)` with None below every integer: None only when both are None, otherwise an upper bound of both and one of them. |
| Slices.SliceIndices | src/sage/rings/cfinite_sequence.py:479 | `slice.indices` fails exactly for step 0, and a missing step becomes 1. |
| Slices.RangeProgression | src/sage/rings/cfinite_sequence.py:479 | `xrange(a, b, c)` lists a + i·c for exactly those i whose value lies before b in the direction of c, and stops at the first that does not. |
| Slices.SliceInBounds | src/sage/rings/cfinite_sequence.py:478-479 | Every index a slice produces lies in [0, length) for the length passed to `indices`, which the source sets to max(start, stop)+1. |
| Slices.GetSlice | src/sage/rings/cfinite_sequence.py:477-479 | A slice fails with neither start nor stop, and fails with step 0. Otherwise it succeeds. |
| Slices.ForwardSlice | src/sage/rings/cfinite_sequence.py:477-479 | For 0 <= a <= b and a positive step c, `s[a:b:c]` is the true terms at a, a+c, …, exactly those below b. |
| Slices.GetItem | src/sage/rings/cfinite_sequence.py:477-502 | An integer key returns the true term through the corrected Terms.Term; the source's integer branch is modelled separately as Terms.TermAsWritten. A slice key returns the slice. Any other key fails with the type error. |
| Generating.Coefficients | src/sage/rings/cfinite_sequence.py:389-405 | `coefficients()` has deg(den) entries, with c_i = -den[i+1]. |
| Generating.CoefficientsRecurrence | src/sage/rings/cfinite_sequence.py:201-202 | Once k - offset passes both the order and deg(num), every true term is c_0 a(k-1) + … + c_{d-1} a(k-d) with the stored coefficients. |
| Generating.OgfOf | src/sage/rings/cfinite_sequence.py:504-521 | `ogf()` is 0/1 for the zero sequence. Otherwise it is the reported numerator over a nonzero denominator. |
| Generating.OgfSolves | src/sage/rings/cfinite_sequence.py:504-521 | The terms are a solution of den · A = num for `ogf()`'s num and den, vanishing below the offset. |
| Generating.Equal | src/sage/rings/cfinite_sequence.py:407-423 | `==` compares the two `ogf()` fractions by cross-multiplication. It holds for a sequence and itself, and gives the same answer with the operands swapped. |
| Generating.EqualSameTerms | src/sage/rings/cfinite_sequence.py:407-423 | `==`, the cross-multiplied comparison of `ogf()`, holds exactly when all terms of the two sequences are equal. |
| Convolution.TermsFromCross | src/sage/rings/cfinite_sequence.py:407-423 | Two sequences vanishing below a common index whose fractions cross-multiply equal have equal terms. |
| FromRecurrence.Reversed | src/sage/rings/cfinite_sequence.py:279-280 | `co` is the coefficient list reversed and padded with zeros to the number of values. |
| FromRecurrence.FromRecurrence | src/sage/rings/cfinite_sequence.py:273-288 | A non-list coefficient argument or value argument is rejected, and so is an empty value list. In every other case the result is a canonical sequence with offset >= 0. |
| FromRecurrence.NumeratorIsProduct | src/sage/rings/cfinite_sequence.py:283-287 | The numerator `from_recurrence` writes down is den·values cut to len(values) terms. |
| FromRecurrence.FromRecurrenceValues | src/sage/rings/cfinite_sequence.py:273-288 | The first len(values) terms of the result are the given values. |
| FromRecurrence.FromRecurrenceFollows | src/sage/rings/cfinite_sequence.py:273-288 | Every later term follows the given recurrence a(n+d) = c_0 a(n) + … + c_{d-1} a(n+d-1). |
| FromRecurrence.FromRecurrenceRedundant | src/sage/rings/cfinite_sequence.py:273-288 | Extra start values that already follow the recurrence change nothing: the two results are `==`. |
| FromRecurrence.AlternatingRedundant | src/sage/rings/cfinite_sequence.py:257-260 | `from_recurrence([-1],[1]) == from_recurrence([-1],[1,-1])`. |
| Guess.TrimZeros | src/sage/rings/cfinite_sequence.py:688 | `trim_zeros` drops the leading and trailing zeros. The result is empty only for an all-zero list, starts and ends with nonzero entries, and is the list shifted down by its valuation. |
| Guess.GuessKernelWith | src/sage/rings/cfinite_sequence.py:675-697 | The default method fails as too short below 6 samples. It fails for lack of a nonzero sample only when it gets past the denominator test with all samples 0. It returns 0 for a trivial kernel. Anything it returns is a canonical sequence. |
| Guess.GuessKernel | src/sage/rings/cfinite_sequence.py:675-697 | The default method as written (the full sample list against the trimmed series list). Any sequence it returns is canonical and reproduces every sample. GuessFindings.FindingTrailingZero shows it can return 0 where a generating fraction exists. |
| Guess.GuessKernelPadded | src/sage/rings/cfinite_sequence.py:675-697 | The corrected default method, which compares all l series coefficients. Any sequence it returns is canonical and reproduces every sample. On the samples of GuessFindings.FindingTrailingZero it returns 1/(1-x^2). |
| Guess.KernelCheck | src/sage/rings/cfinite_sequence.py:693-697 | The last step rejects a zero numerator. Otherwise it keeps the candidate exactly when the series of num/den passes the comparison with the samples. What it keeps is the canonical sequence of num/den, and den(0) != 0. |
| Guess.GuessKernelSound | src/sage/rings/cfinite_sequence.py:691-697 | Whatever the default method returns reproduces every sample: its terms 0 … l-1 are the samples. |
| Guess.EvenPrefix | src/sage/rings/cfinite_sequence.py:646-647 | With an odd number of samples the last one is dropped. The rest are kept. |
| Guess.GuessBerlekampMassey | src/sage/rings/cfinite_sequence.py:641-652 | Berlekamp–Massey fails as too short below 2 samples. Otherwise it fails only with ZeroDivision, exactly when its fraction cannot be normalised. Any result is canonical. |
| Guess.BerlekampMasseyExpansion | src/sage/rings/cfinite_sequence.py:648-650 | The numerator is samples·den truncated to l = len - 1 terms, so the series of num/den starts with the first l samples. |
| Guess.GuessBerlekampMasseySound | src/sage/rings/cfinite_sequence.py:641-652 | With a monic minimal polynomial, the Berlekamp–Massey guess exists, and its first l terms are the samples (l = even length - 1). |
| Findings.FindingShiftedQuotient | src/sage/rings/cfinite_sequence.py:487-500 | For x^2/(1-2x) the evaluator as written gives s[5] = 2, where the term is 8. |
| Findings.FindingNegativeOffset | src/sage/rings/cfinite_sequence.py:491-495 | For (1+x)/(x-x^2) the evaluator as written gives s[1] = 1, where the term is 2. |
| Findings.FindingRemainderValuation | src/sage/rings/cfinite_sequence.py:214 | For (1-x^2)/(1-x-x^2) the evaluator as written gives s[3] = 3, where the term is 2. |
| Findings.FindingTrimmedRemainder | src/sage/rings/cfinite_sequence.py:214 | For (2+x-2x^2+x^3)/(1-x^2+x^3) the remainder list keeps 2 of the 3 seed values, so the evaluator as written fails on s[4], where the term is -1. |
| GuessFindings.FindingTrailingZero | src/sage/rings/cfinite_sequence.py:694 | For the samples 1,0,1,0,1,0 the default guess as written returns 0. Comparing full lists returns 1/(1-x^2), whose terms are the samples. |

## Left out

- The gcd reduction (lines 198-200) is not modelled: the model keeps num/den as given after normalisation. Sage's fraction field hands over only reduced fractions, so the model also accepts unreduced ones whose terms are the same. For those, x dividing both num and den is the one case reported as ZeroDivision.
- FromRecurrence.FromRecurrence: the result is num/den as built, not reduced. Sage forms `num / den` in its fraction field (line 288), which cancels common factors. So the order, `coefficients()`, the window length and the num/den of `ogf()` can be larger than in Sage: for `from_recurrence([-1,2],[1,1])` the model has order 2 where Sage has order 1. The terms and `==` do not change. The same holds for the fractions the guess builders return (lines 652 and 697).
- The base-ring check, Laurent-polynomial conversion and the multivariate error (lines 159-177) are type dispatch and are not modelled.
- `_add_`, `_sub_`, `_mul_`, `_div_`, `__repr__`, `recurrence_repr` and `series` are not modelled: they are arithmetic on Sage's fraction field and string formatting.
- The Pari/GP LLL strategy of `guess` (lines 653-673) needs an external process and is not modelled.
- The Hankel kernel (line 684) and `berlekamp_massey` (line 649) are library calls whose results are parameters. The kernel method takes the last basis vector, or nothing when the kernel is trivial. The Berlekamp–Massey method takes the minimal polynomial's coefficient list.
- Guess.GuessBerlekampMasseySound: assumes the minimal polynomial is monic, as Berlekamp–Massey returns it. Without that the reversed list may have a zero constant term and the constructor may shift the offset.
- Guess.GuessKernelSound: does not state that the guess is minimal. Minimality depends on the kernel the library computes.
- Guess.GuessKernelWith: when all samples are 0 past the denominator test, the source fails on `l - None`. The model reports this as the error NoNonzeroSample.
- The valuation of the zero polynomial is +Infinity in Sage and 0 here. It matters only for the zero o.g.f., where both give the sequence 0.
- Terms.TermAsWritten: where Sage's matrix constructor raises on a list of the wrong length (line 497), the model returns the error WrongEntryCount. The exception type is not modelled.
- Rationals are modelled as `real`. There is no overflow: Python integers and Sage rationals are unbounded too.

## Findings

| source | as written | input that shows it | evidently intended | confidence | as-written member | corrected member |
|---|---|---|---|---|---|---|
| src/sage/rings/cfinite_sequence.py:487-500 | for offset > 0 the matrix power is taken to k - offset, although `quo_rem` splits the reported numerator x^offset·num, whose series starts at index 0 | x^2/(1-2x), s[5] | s[5] = 8 = 2^3 | high, not executed | Terms.TermAsWritten, Findings.FindingShiftedQuotient | Terms.Term |
| src/sage/rings/cfinite_sequence.py:491-495 | for offset < 0 the seed is the first d window values, which do not follow the recurrence when the numerator reaches degree d | (1+x)/(x-x^2), s[1] | s[1] = 2 (terms 1, 2, 2, … from index -1) | high, not executed | Terms.TermAsWritten, Findings.FindingNegativeOffset | Terms.Term |
| src/sage/rings/cfinite_sequence.py:214 | `_aa` lists the Laurent expansion of rem/den from its lowest nonzero term, so a remainder with rem(0) = 0 gives a shifted seed | (1-x^2)/(1-x-x^2), s[3] | s[3] = 2 (terms 1, 1, 1, 2, 3, …) | high, not executed | Terms.TermAsWritten, Findings.FindingRemainderValuation | Terms.Term |
| src/sage/rings/cfinite_sequence.py:214 | `_aa` is the Laurent expansion list of rem/den, which drops trailing zeros, so it can hold fewer than d values and `Matrix(QQ, d, 1, self._aa[:d][::-1])` fails | (2+x-2x^2+x^3)/(1-x^2+x^3), s[4] | s[4] = -1 (terms 2, 1, 0, 0, -1, …) | high, not executed | Terms.TermAsWritten, Findings.FindingTrimmedRemainder | Terms.Term |
| src/sage/rings/cfinite_sequence.py:694 | `S(num/den).list()` drops trailing zero coefficients, so a sample list ending in 0 never equals it | guess([1,0,1,0,1,0]) with kernel vector (1,0,-1) | 1/(1-x^2) | high, not executed | Guess.GuessKernel, GuessFindings.FindingTrailingZero | Guess.GuessKernelPadded |
