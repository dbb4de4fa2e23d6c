/** Power-series expansion of a polynomial ratio N/D with D(0) != 0.

    The coefficients s_0, s_1, ... are the unique solution of D*s = N as
    formal power series: s_m = (N_m - D_1*s_{m-1} - ... - D_m*s_0) / D_0.
    With D(0) = 1 this division is the linear recurrence whose coefficients
    are c_i = -D_{i+1}, once the numerator has run out. */
module Series {
  import opened Sums
  import opened Poly
  import opened Recurrence

  /** D_1*s_{m-1} + ... + D_m*s_0, the part of (D*s)_m that excludes s_m. */
  function ConvTail(d: Poly, s: seq<real>, m: int): real
  {
    Sum(1, m + 1, ConvTerms(d, s, m))
  }

  /** The first len coefficients of the power series of n/d. */
  function SeriesPrefix(n: Poly, d: Poly, len: nat): (s: seq<real>)
    requires Coef(d, 0) != 0.0
    ensures |s| == len
    decreases len
  {
    if len == 0 then []
    else
      var s := SeriesPrefix(n, d, len - 1);
      s + [(Coef(n, len - 1) - ConvTail(d, s, len - 1)) / Coef(d, 0)]
  }

  /** The coefficient of x^m in the power series of n/d. */
  function SeriesCoef(n: Poly, d: Poly, m: nat): real
    requires Coef(d, 0) != 0.0
  {
    SeriesPrefix(n, d, m + 1)[m]
  }

  /** The recurrence coefficients c_i = -D_{i+1} of order `order`. */
  function RecurrenceOf(d: Poly, order: nat): (c: seq<real>)
    ensures |c| == order
    ensures forall i :: 0 <= i < order ==> c[i] == -Coef(d, i + 1)
  {
    seq(order, i => -Coef(d, i + 1))
  }

  lemma {:induction false} ConvTailAgree(d: Poly, s: seq<real>, t: seq<real>, m: int)
    requires forall i :: 0 <= i < m ==> Coef(s, i) == Coef(t, i)
    ensures ConvTail(d, s, m) == ConvTail(d, t, m)
  {
    SumExt(1, m + 1, ConvTerms(d, s, m), ConvTerms(d, t, m));
  }

  lemma {:induction false} ConvAgree(d: Poly, s: seq<real>, t: seq<real>, m: int)
    requires forall i :: 0 <= i <= m ==> Coef(s, i) == Coef(t, i)
    ensures Conv(d, s, m) == Conv(d, t, m)
  {
    SumExt(0, m + 1, ConvTerms(d, s, m), ConvTerms(d, t, m));
  }

  /** (D*s)_m splits into D_0*s_m and the tail. */
  lemma ConvHead(d: Poly, s: seq<real>, m: int)
    requires m >= 0
    ensures Conv(d, s, m) == Coef(d, 0) * Coef(s, m) + ConvTail(d, s, m)
  {
  }

  lemma DivideOut(a: real, x: real, t: real, n: real)
    requires a != 0.0
    ensures x == (n - t) / a <==> a * x + t == n
  {
  }

  /** Every prefix is a prefix of every longer one. */
  lemma {:induction false} SeriesPrefixCoef(n: Poly, d: Poly, len: nat)
    requires Coef(d, 0) != 0.0
    ensures forall i :: 0 <= i < len ==> SeriesPrefix(n, d, len)[i] == SeriesCoef(n, d, i)
  {
    if len > 0 {
      SeriesPrefixCoef(n, d, len - 1);
    }
  }

  lemma PrefixAt(n: Poly, d: Poly, len: nat, i: nat)
    requires Coef(d, 0) != 0.0 && i < len
    ensures SeriesPrefix(n, d, len)[i] == SeriesCoef(n, d, i)
  {
    SeriesPrefixCoef(n, d, len);
  }

  /** The expansion solves D*s = N on every prefix. */
  lemma {:induction false} SeriesSolves(n: Poly, d: Poly, len: nat)
    requires Coef(d, 0) != 0.0
    ensures forall m :: 0 <= m < len ==> Conv(d, SeriesPrefix(n, d, len), m) == Coef(n, m)
  {
    forall m | 0 <= m < len
      ensures Conv(d, SeriesPrefix(n, d, len), m) == Coef(n, m)
    {
      SolvesAt(n, d, len, m);
    }
  }

  /** One coefficient of SeriesSolves. */
  lemma SolvesAt(n: Poly, d: Poly, len: nat, m: nat)
    requires Coef(d, 0) != 0.0 && m < len
    ensures Conv(d, SeriesPrefix(n, d, len), m) == Coef(n, m)
  {
    var s := SeriesPrefix(n, d, len);
    var p := SeriesPrefix(n, d, m);
    SeriesPrefixCoef(n, d, len);
    SeriesPrefixCoef(n, d, m);
    SeriesPrefixCoef(n, d, m + 1);
    ConvTailAgree(d, s, p, m);
    assert s[m] == (Coef(n, m) - ConvTail(d, p, m)) / Coef(d, 0);
    ConvHead(d, s, m);
    DivideOut(Coef(d, 0), s[m], ConvTail(d, s, m), Coef(n, m));
  }

  /** Uniqueness: a list that solves D*a = N on its own length is the prefix
      of the expansion of N/D. */
  lemma {:induction false} SeriesUnique(n: Poly, d: Poly, a: seq<real>)
    requires Coef(d, 0) != 0.0
    requires forall m :: 0 <= m < |a| ==> Conv(d, a, m) == Coef(n, m)
    ensures SeriesPrefix(n, d, |a|) == a
  {
    if |a| > 0 {
      var m := |a| - 1;
      var a' := a[..m];
      forall k | 0 <= k < m
        ensures Conv(d, a', k) == Coef(n, k)
      {
        ConvAgree(d, a', a, k);
      }
      SeriesUnique(n, d, a');
      ConvTailAgree(d, a', a, m);
      ConvHead(d, a, m);
      DivideOut(Coef(d, 0), a[m], ConvTail(d, a, m), Coef(n, m));
      assert a == a' + [a[m]];
    }
  }

  lemma ConvScale(d: Poly, s: seq<real>, m: int, f: real)
    ensures Conv(Scale(d, f), s, m) == f * Conv(d, s, m)
  {
    var g := ConvTerms(d, s, m);
    var h := ConvTerms(Scale(d, f), s, m);
    forall k | 0 <= k < m + 1
      ensures h(k) == f * g(k)
    {
      assert h(k) == (f * Coef(d, k)) * Coef(s, m - k);
    }
    SumScale(0, m + 1, f, g, h);
  }

  /** Dividing numerator and denominator by the same nonzero constant leaves
      the expansion unchanged. */
  lemma SeriesScale(n: Poly, d: Poly, f: real, len: nat)
    requires Coef(d, 0) != 0.0 && f != 0.0
    ensures Coef(Scale(d, f), 0) != 0.0
    ensures SeriesPrefix(Scale(n, f), Scale(d, f), len) == SeriesPrefix(n, d, len)
  {
    var s := SeriesPrefix(n, d, len);
    SeriesSolves(n, d, len);
    forall m | 0 <= m < len
      ensures Conv(Scale(d, f), s, m) == Coef(Scale(n, f), m)
    {
      ConvScale(d, s, m, f);
    }
    SeriesUnique(Scale(n, f), Scale(d, f), s);
  }

  /** Over the denominator 1 the expansion is the numerator itself. */
  lemma SeriesOfPolynomial(n: Poly, d: Poly, len: nat)
    requires Coef(d, 0) == 1.0 && Degree(d) == 0
    ensures forall i :: 0 <= i < len ==> SeriesPrefix(n, d, len)[i] == Coef(n, i)
  {
    var a := seq(len, i => Coef(n, i));
    forall m | 0 <= m < len
      ensures Conv(d, a, m) == Coef(n, m)
    {
      forall k | 0 < k < m + 1
        ensures ConvTerms(d, a, m)(k) == 0.0
      {
        CoefBeyondDegree(d, k);
      }
      SumSingle(0, m + 1, 0, ConvTerms(d, a, m));
      assert ConvTerms(d, a, m)(0) == 1.0 * a[m];
    }
    SeriesUnique(n, d, a);
  }

  /** The expansion of a truncated product p*d (terms below x^len) over d
      gives back p's first len coefficients. */
  lemma TruncatedProduct(d: Poly, p: seq<real>, len: nat)
    requires Coef(d, 0) != 0.0 && len <= |p|
    ensures SeriesPrefix(Truncate(Mul(d, p), len), d, len) == p[..len]
  {
    var a := p[..len];
    MulCoef(d, p);
    forall m | 0 <= m < len
      ensures Conv(d, a, m) == Coef(Truncate(Mul(d, p), len), m)
    {
      ConvAgree(d, a, p, m);
    }
    SeriesUnique(Truncate(Mul(d, p), len), d, a);
  }

  /** Past deg D the tail of (D*s)_m only has deg D summands. */
  lemma TailToOrder(d: Poly, s: seq<real>, order: nat, m: int)
    requires Degree(d) <= order <= m
    ensures ConvTail(d, s, m) == Sum(1, order + 1, ConvTerms(d, s, m))
  {
    var f := ConvTerms(d, s, m);
    SumSplit(1, order + 1, m + 1, f);
    forall j | order + 1 <= j < m + 1
      ensures f(j) == 0.0
    {
      CoefBeyondDegree(d, j);
    }
    SumZero(order + 1, m + 1, f);
  }

  /** The summands D_{i+1}*s_{m-1-i}: the tail of (D*s)_m counted from 0. */
  function TailTerms(d: Poly, s: seq<real>, m: int): int -> real
  {
    i => Coef(d, i + 1) * Coef(s, m - 1 - i)
  }

  lemma TailReindex(d: Poly, s: seq<real>, order: nat, m: int)
    ensures Sum(1, order + 1, ConvTerms(d, s, m)) == Sum(0, order, TailTerms(d, s, m))
  {
    var f := ConvTerms(d, s, m);
    var g := TailTerms(d, s, m);
    forall k | 0 <= k < order
      ensures g(k) == f(k + 1)
    {
    }
    SumShift(0, order, 1, f, g);
  }

  lemma NextIsTailTerms(d: Poly, s: seq<real>, order: nat, m: int)
    ensures Next(RecurrenceOf(d, order), s, m) == -1.0 * Sum(0, order, TailTerms(d, s, m))
  {
    var c := RecurrenceOf(d, order);
    var g := TailTerms(d, s, m);
    var st := State(s, m - order, order);
    var h := DotTerms(c, st);
    forall k | 0 <= k < order
      ensures h(k) == -1.0 * g(k)
    {
      assert Coef(c, k) == -Coef(d, k + 1);
      assert Coef(st, k) == Coef(s, m - 1 - k);
    }
    SumScale(0, order, -1.0, g, h);
  }

  /** The predicted value is minus the tail of (D*s)_m, reindexed. */
  lemma NextIsTail(d: Poly, s: seq<real>, order: nat, m: int)
    ensures Next(RecurrenceOf(d, order), s, m) == -Sum(1, order + 1, ConvTerms(d, s, m))
  {
    TailReindex(d, s, order, m);
    NextIsTailTerms(d, s, order, m);
  }

  /** One position of the recurrence lemma below. */
  lemma SeriesStep(n: Poly, d: Poly, order: nat, s: seq<real>, m: int)
    requires Coef(d, 0) == 1.0 && Degree(d) <= order <= m && Degree(n) < m < |s|
    requires Conv(d, s, m) == Coef(n, m)
    ensures s[m] == Next(RecurrenceOf(d, order), s, m)
  {
    // (D*s)_m = N_m = 0 and D_0 = 1, so s_m = -(D_1*s_{m-1} + ... + D_m*s_0)
    CoefBeyondDegree(n, m);
    ConvHead(d, s, m);
    TailToOrder(d, s, order, m);
    NextIsTail(d, s, order, m);
  }

  /** Power-series division by D with D(0) = 1 is the recurrence: from the
      position where both the order `order` (at least deg D) and the
      numerator's degree are passed, each coefficient is the combination
      c_0*s_{m-1} + ... of the ones before it, with c_i = -D_{i+1}. */
  lemma SeriesFollowsRecurrence(n: Poly, d: Poly, order: nat, len: nat)
    requires Coef(d, 0) == 1.0 && Degree(d) <= order
    ensures FollowsFrom(RecurrenceOf(d, order), SeriesPrefix(n, d, len), if order > Degree(n) then order else Degree(n) + 1)
  {
    var s := SeriesPrefix(n, d, len);
    SeriesSolves(n, d, len);
    forall m | 0 <= m < len && order <= m && Degree(n) < m
      ensures s[m] == Next(RecurrenceOf(d, order), s, m)
    {
      SeriesStep(n, d, order, s, m);
    }
  }

  /** The last d values of a window of the expansion, newest first, are the
      state at position |window| - d of any longer prefix. */
  lemma WindowState(n: Poly, d: Poly, start: seq<real>, order: nat, len: nat)
    requires Coef(d, 0) != 0.0
    requires forall i :: 0 <= i < |start| ==> start[i] == SeriesCoef(n, d, i)
    requires 0 < order <= |start| <= len
    ensures var j := |start| - order;
      State(SeriesPrefix(n, d, len + order), j, order) == Reverse(start[j..])
  {
    var j := |start| - order;
    var a := SeriesPrefix(n, d, len + order);
    forall i | 0 <= i < order
      ensures State(a, j, order)[i] == Reverse(start[j..])[i]
    {
      PrefixAt(n, d, len + order, j + order - 1 - i);
    }
  }

  /** The companion matrix of D's recurrence moves the state of the
      expansion of N/D from any position j with j + deg D past N's degree
      to any later position. */
  lemma SeriesJump(n: Poly, d: Poly, order: nat, wlen: nat, len: int)
    requires Coef(d, 0) == 1.0 && order == Degree(d) && 0 < order <= wlen
    requires Degree(n) < wlen <= len
    ensures var j := wlen - order;
      var a := SeriesPrefix(n, d, len + order);
      Power(Companion(RecurrenceOf(d, order)), len - j, State(a, j, order)) == State(a, len, order)
  {
    var j := wlen - order;
    var a := SeriesPrefix(n, d, len + order);
    var c := RecurrenceOf(d, order);
    var lo := if order > Degree(n) then order else Degree(n) + 1;
    SeriesFollowsRecurrence(n, d, order, len + order);
    JumpTo(c, a, j, len, order, lo);
  }

  /** JumpFollowsRecurrence, stated with the target position. */
  lemma JumpTo(c: seq<real>, a: seq<real>, j: int, target: int, order: nat, lo: int)
    requires order == |c| >= 1 && 0 <= j <= target && target + order <= |a|
    requires FollowsFrom(c, a, lo) && lo <= j + order
    ensures Power(Companion(c), target - j, State(a, j, order)) == State(a, target, order)
  {
    FollowsFromLater(c, a, lo, j + order);
    JumpFollowsRecurrence(c, a, j, target - j);
    assert j + (target - j) == target;
  }

  /** The jump from the last `order` values of a window of the expansion of
      N/D reaches the coefficient at any position past the window. */
  lemma WindowJump(n: Poly, d: Poly, order: nat, start: seq<real>, len: nat)
    requires Coef(d, 0) == 1.0 && order == Degree(d) && 0 < order <= |start|
    requires Degree(n) < |start| <= len
    requires forall i :: 0 <= i < |start| ==> start[i] == SeriesCoef(n, d, i)
    ensures var j := |start| - order;
      Last(Power(Companion(RecurrenceOf(d, order)), len - j, Reverse(start[j..]))) == SeriesCoef(n, d, len)
  {
    StateToCoef(n, d, order, len);
    WindowState(n, d, start, order, len);
    SeriesJump(n, d, order, |start|, len);
  }

  /** The oldest component of the state at m of a long enough prefix is the
      coefficient at m. */
  lemma StateToCoef(n: Poly, d: Poly, order: nat, m: nat)
    requires Coef(d, 0) != 0.0 && order > 0
    ensures Last(State(SeriesPrefix(n, d, m + order), m, order)) == SeriesCoef(n, d, m)
  {
    LastOfState(SeriesPrefix(n, d, m + order), m, order);
    PrefixAt(n, d, m + order, m);
  }
}
