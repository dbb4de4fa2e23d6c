/** Finite sums over integer ranges.

    Every convolution, dot product and matrix entry in this project is a `Sum`,
    so the handful of reindexing facts below is proved once and reused. */
module Sums {

  /** Sum of f(k) for lo <= k < hi (zero when the range is empty). */
  function Sum(lo: int, hi: int, f: int -> real): real
    decreases hi - lo
  {
    if lo >= hi then 0.0 else f(lo) + Sum(lo + 1, hi, f)
  }

  /** Summands that agree on the range give the same sum. */
  lemma {:induction false} SumExt(lo: int, hi: int, f: int -> real, g: int -> real)
    requires forall k :: lo <= k < hi ==> f(k) == g(k)
    ensures Sum(lo, hi, f) == Sum(lo, hi, g)
    decreases hi - lo
  {
    if lo < hi {
      SumExt(lo + 1, hi, f, g);
    }
  }

  /** A sum of zeros is zero. */
  lemma {:induction false} SumZero(lo: int, hi: int, f: int -> real)
    requires forall k :: lo <= k < hi ==> f(k) == 0.0
    ensures Sum(lo, hi, f) == 0.0
    decreases hi - lo
  {
    if lo < hi {
      SumZero(lo + 1, hi, f);
    }
  }

  /** A range splits at any point inside it. */
  lemma {:induction false} SumSplit(lo: int, mid: int, hi: int, f: int -> real)
    requires lo <= mid <= hi
    ensures Sum(lo, hi, f) == Sum(lo, mid, f) + Sum(mid, hi, f)
    decreases mid - lo
  {
    if lo < mid {
      SumSplit(lo + 1, mid, hi, f);
    }
  }

  /** Peeling off the last summand. */
  lemma SumLast(lo: int, hi: int, f: int -> real)
    requires lo < hi
    ensures Sum(lo, hi, f) == Sum(lo, hi - 1, f) + f(hi - 1)
  {
    SumSplit(lo, hi - 1, hi, f);
    assert Sum(hi, hi, f) == 0.0;
  }

  /** Translating the summation index. */
  lemma {:induction false} SumShift(lo: int, hi: int, s: int, f: int -> real, g: int -> real)
    requires forall k :: lo <= k < hi ==> g(k) == f(k + s)
    ensures Sum(lo, hi, g) == Sum(lo + s, hi + s, f)
    decreases hi - lo
  {
    if lo < hi {
      SumShift(lo + 1, hi, s, f, g);
    }
  }

  /** A constant factor comes out of the sum. */
  lemma {:induction false} SumScale(lo: int, hi: int, a: real, f: int -> real, g: int -> real)
    requires forall k :: lo <= k < hi ==> g(k) == a * f(k)
    ensures Sum(lo, hi, g) == a * Sum(lo, hi, f)
    decreases hi - lo
  {
    if lo < hi {
      SumScale(lo + 1, hi, a, f, g);
    }
  }

  /** The sum of pointwise sums. */
  lemma {:induction false} SumAdd(lo: int, hi: int, f: int -> real, g: int -> real, h: int -> real)
    requires forall k :: lo <= k < hi ==> h(k) == f(k) + g(k)
    ensures Sum(lo, hi, h) == Sum(lo, hi, f) + Sum(lo, hi, g)
    decreases hi - lo
  {
    if lo < hi {
      SumAdd(lo + 1, hi, f, g, h);
    }
  }

  /** A sum whose only nonzero summand sits at p. */
  lemma SumSingle(lo: int, hi: int, p: int, f: int -> real)
    requires lo <= p < hi
    requires forall k :: lo <= k < hi && k != p ==> f(k) == 0.0
    ensures Sum(lo, hi, f) == f(p)
  {
    SumSplit(lo, p, hi, f);
    SumZero(lo, p, f);
    SumZero(p + 1, hi, f);
  }

  /** Summands that vanish outside [a, b) contribute nothing there. */
  lemma SumWindow(lo: int, a: int, b: int, hi: int, f: int -> real)
    requires lo <= a <= b <= hi
    requires forall k :: lo <= k < a ==> f(k) == 0.0
    requires forall k :: b <= k < hi ==> f(k) == 0.0
    ensures Sum(lo, hi, f) == Sum(a, b, f)
  {
    SumSplit(lo, a, hi, f);
    SumSplit(a, b, hi, f);
    SumZero(lo, a, f);
    SumZero(b, hi, f);
  }

  /** Summing in the opposite order. */
  lemma {:induction false} SumReverse(lo: int, hi: int, f: int -> real, g: int -> real)
    requires forall k :: lo <= k < hi ==> g(k) == f(lo + hi - 1 - k)
    ensures Sum(lo, hi, g) == Sum(lo, hi, f)
    decreases hi - lo
  {
    if lo < hi {
      var g' := (k: int) => g(k + 1);
      SumReverse(lo, hi - 1, f, g');
      SumShift(lo, hi - 1, 1, g, g');
      SumLast(lo, hi, f);
    }
  }

  /** Row i of a table, as a function of the column. */
  function Row(h: (int, int) -> real, i: int): int -> real
  {
    j => h(i, j)
  }

  /** Column j of a table, as a function of the row. */
  function Column(h: (int, int) -> real, j: int): int -> real
  {
    i => h(i, j)
  }

  /** The sums of the rows of a table over its first b columns. */
  function RowSums(h: (int, int) -> real, b: int): int -> real
  {
    i => Sum(0, b, Row(h, i))
  }

  /** The sums of the columns of a table over its first a rows. */
  function ColumnSums(h: (int, int) -> real, a: int): int -> real
  {
    j => Sum(0, a, Column(h, j))
  }

  /** A finite double sum may be taken in either order. */
  lemma {:induction false} SumSwap(a: int, b: int, h: (int, int) -> real)
    requires 0 <= a && 0 <= b
    ensures Sum(0, a, RowSums(h, b)) == Sum(0, b, ColumnSums(h, a))
    decreases a
  {
    if a > 0 {
      SumSwap(a - 1, b, h);
      SumLast(0, a, RowSums(h, b));
      forall j | 0 <= j < b
        ensures ColumnSums(h, a)(j) == ColumnSums(h, a - 1)(j) + Row(h, a - 1)(j)
      {
        SumLast(0, a, Column(h, j));
      }
      SumAdd(0, b, ColumnSums(h, a - 1), Row(h, a - 1), ColumnSums(h, a));
    } else {
      SumZero(0, b, ColumnSums(h, a));
    }
  }
}
