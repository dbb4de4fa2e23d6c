/** Linear recurrences with constant coefficients and their companion matrix.

    The coefficient list c of order d = |c| predicts a term from the d terms
    before it, nearest first:

        a(m) = c_0*a(m-1) + c_1*a(m-2) + ... + c_{d-1}*a(m-d)

    which is the convention the sequence class uses internally (its
    `coefficients()` list, the first row of its companion matrix and its
    recurrence string). The state of the recurrence after position j is the
    vector (a(j+d-1), ..., a(j)), newest first, the layout of the seed vector
    the term evaluator multiplies by the matrix power. */
module Recurrence {
  import opened Sums
  import opened Poly

  type Matrix = seq<seq<real>>

  /** The summands c_i*v_i of a dot product. */
  function DotTerms(c: seq<real>, v: seq<real>): int -> real
  {
    i => Coef(c, i) * Coef(v, i)
  }

  /** c_0*v_0 + ... + c_{|c|-1}*v_{|c|-1}. */
  function Dot(c: seq<real>, v: seq<real>): real
  {
    Sum(0, |c|, DotTerms(c, v))
  }

  /** The state (a(j+d-1), ..., a(j)) of a coefficient list a. */
  function State(a: seq<real>, j: int, d: nat): (v: seq<real>)
    ensures |v| == d
    ensures forall i :: 0 <= i < d ==> v[i] == Coef(a, j + d - 1 - i)
  {
    seq(d, i => Coef(a, j + d - 1 - i))
  }

  /** The value the recurrence predicts at position m from the |c| terms before it. */
  function Next(c: seq<real>, a: seq<real>, m: int): real
  {
    Dot(c, State(a, m - |c|, |c|))
  }

  /** Every term of a from position lo on is predicted by the recurrence. */
  ghost predicate FollowsFrom(c: seq<real>, a: seq<real>, lo: int)
  {
    forall m {:trigger Next(c, a, m)} :: 0 <= m < |a| && lo <= m ==> a[m] == Next(c, a, m)
  }

  /** A sequence that follows the recurrence from lo on follows it from
      every later position. */
  lemma FollowsFromLater(c: seq<real>, a: seq<real>, lo: int, hi: int)
    requires FollowsFrom(c, a, lo) && lo <= hi
    ensures FollowsFrom(c, a, hi)
  {
  }

  /** The first len terms of the sequence that starts with init and then
      follows the recurrence c: the reference for the matrix jump. */
  function Iterate(c: seq<real>, init: seq<real>, len: nat): (a: seq<real>)
    ensures |a| == len
    ensures forall i :: 0 <= i < len && i < |init| ==> a[i] == init[i]
    ensures FollowsFrom(c, a, |init|)
    decreases len
  {
    if len <= |init| then init[..len]
    else
      var a := Iterate(c, init, len - 1);
      var r := a + [Next(c, a, len - 1)];
      forall m | |init| <= m < len
        ensures r[m] == Next(c, r, m)
      {
        assert State(r, m - |c|, |c|) == State(a, m - |c|, |c|);
        if m < len - 1 {
          assert a[m] == Next(c, a, m);
        }
      }
      r
  }

  /** The companion matrix of c: first row c, then the shifted identity
      (row r has its single 1 in column r-1). */
  function Companion(c: seq<real>): (M: Matrix)
    ensures |M| == |c|
    ensures forall r :: 0 <= r < |c| ==> |M[r]| == |c|
  {
    seq(|c|, r => if r == 0 then c else seq(|c|, col => if col == r - 1 then 1.0 else 0.0))
  }

  function MatVec(M: Matrix, v: seq<real>): (w: seq<real>)
    ensures |w| == |M|
    ensures forall r :: 0 <= r < |M| ==> w[r] == Dot(M[r], v)
  {
    seq(|M|, r requires 0 <= r < |M| => Dot(M[r], v))
  }

  /** M^k * v, the product taken one factor of M at a time. */
  function Power(M: Matrix, k: nat, v: seq<real>): (w: seq<real>)
    ensures k > 0 ==> |w| == |M|
  {
    if k == 0 then v else MatVec(M, Power(M, k - 1, v))
  }

  /** The last component of a vector (0 for the empty vector). */
  function Last(v: seq<real>): real
  {
    if |v| == 0 then 0.0 else v[|v| - 1]
  }

  /** One multiplication by the companion matrix is one step of the
      recurrence: the new first component is the predicted term and the
      old components move down by one. */
  lemma CompanionStep(c: seq<real>, v: seq<real>)
    requires |c| >= 1 && |v| == |c|
    ensures MatVec(Companion(c), v) == [Dot(c, v)] + v[..|c| - 1]
  {
    var M := Companion(c);
    var w := MatVec(M, v);
    var e := [Dot(c, v)] + v[..|c| - 1];
    forall r | 1 <= r < |c|
      ensures w[r] == e[r]
    {
      var f := DotTerms(M[r], v);
      forall i | 0 <= i < |c| && i != r - 1
        ensures f(i) == 0.0
      {
      }
      SumSingle(0, |c|, r - 1, f);
    }
    assert w == e;
  }

  /** Where the term at j+|c| is the one the recurrence predicts, one
      multiplication by the companion matrix moves the state from j to j+1. */
  lemma StateAdvance(c: seq<real>, a: seq<real>, j: int)
    requires |c| >= 1
    requires Coef(a, j + |c|) == Next(c, a, j + |c|)
    ensures MatVec(Companion(c), State(a, j, |c|)) == State(a, j + 1, |c|)
  {
    var d := |c|;
    var prev := State(a, j, d);
    var next := State(a, j + 1, d);
    CompanionStep(c, prev);
    assert next[0] == Next(c, a, j + d);
    assert forall i :: 1 <= i < d ==> next[i] == prev[i - 1];
    assert next == [Next(c, a, j + d)] + prev[..d - 1];
  }

  /** Matrix jump: wherever the terms follow the recurrence, k
      multiplications by the companion matrix move the state k positions on. */
  lemma {:induction false} JumpFollowsRecurrence(c: seq<real>, a: seq<real>, j: int, k: nat)
    requires |c| >= 1
    requires 0 <= j + |c| && j + |c| + k <= |a|
    requires FollowsFrom(c, a, j + |c|)
    ensures Power(Companion(c), k, State(a, j, |c|)) == State(a, j + k, |c|)
  {
    if k > 0 {
      JumpFollowsRecurrence(c, a, j, k - 1);
      assert a[j + k - 1 + |c|] == Next(c, a, j + k - 1 + |c|);
      StateAdvance(c, a, j + k - 1);
    }
  }

  /** The last component of a state is its oldest term. */
  lemma LastOfState(a: seq<real>, j: int, d: nat)
    requires d >= 1
    ensures Last(State(a, j, d)) == Coef(a, j)
  {
  }

  /** k steps of the companion matrix equal k steps of the recurrence: with
      V the start values reversed, the last component of M^k*V is the k-th
      term of the sequence the recurrence generates from them. */
  lemma MatrixJump(c: seq<real>, init: seq<real>, k: nat)
    requires |c| >= 1 && |init| == |c|
    ensures Last(Power(Companion(c), k, Reverse(init))) == Iterate(c, init, k + |c|)[k]
  {
    var a := Iterate(c, init, k + |c|);
    InitialState(c, init, a);
    JumpFollowsRecurrence(c, a, 0, k);
    LastOfState(a, k, |c|);
  }

  /** The state at 0 of a sequence that starts with init is init reversed. */
  lemma InitialState(c: seq<real>, init: seq<real>, a: seq<real>)
    requires |init| == |c| <= |a|
    requires forall i :: 0 <= i < |init| ==> a[i] == init[i]
    ensures State(a, 0, |c|) == Reverse(init)
  {
    assert forall i :: 0 <= i < |c| ==> State(a, 0, |c|)[i] == Reverse(init)[i];
  }
}
