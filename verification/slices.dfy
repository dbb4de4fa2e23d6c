/** Indexing a sequence with `s[k]` or `s[start:stop:step]`.

    A slice is resolved the way Python 2.7 resolves it: the larger of its
    two bounds m (a missing bound counts as smaller than every integer)
    fixes the length m + 1 against which `slice.indices` clamps the
    bounds, and `xrange` enumerates the indices; each index is then
    evaluated as a single term. */
module Slices {
  import opened Errors
  import opened Canonical
  import opened Terms

  /** A slice object; a missing component is `None`. */
  datatype Slice = Slice(start: Option<int>, stop: Option<int>, step: Option<int>)

  /** The argument of `s[...]`. */
  datatype Key = IntKey(index: int) | SliceKey(slice: Slice) | OtherKey

  /** The value of `s[...]`: one term or a list of terms. */
  datatype Item = Single(value: real) | Several(values: seq<real>)

  /** Python 2's `max(a, b)` where `None` is smaller than every integer. */
  function MaxBound(a: Option<int>, b: Option<int>): (r: Option<int>)
    ensures r.None? <==> a.None? && b.None?
    ensures r.Some? ==> (a.Some? ==> a.value <= r.value) && (b.Some? ==> b.value <= r.value)
    ensures r.Some? ==> r == a || r == b
  {
    match (a, b)
    case (None, _) => b
    case (_, None) => a
    case (Some(x), Some(y)) => if x < y then b else a
  }

  /** One bound of a slice against a length: a negative bound counts from
      the end; the result is clamped to [0, length] for a forward slice and
      to [-1, length - 1] for a backward one. */
  function Clamp(i: int, length: int, step: int): (r: int)
  {
    var j := if i < 0 then i + length else i;
    if j < 0 then (if step < 0 then -1 else 0)
    else if j >= length then (if step < 0 then length - 1 else length)
    else j
  }

  /** `slice.indices(length)`: (start, stop, step) with defaults filled in
      and both bounds clamped; a zero step is an error. */
  function SliceIndices(sl: Slice, length: int): (r: Result<(int, int, int)>)
    ensures r.Err? <==> sl.step == Some(0)
    ensures r.Err? ==> r.error == ZeroSliceStep
    ensures r.Ok? ==> r.value.2 != 0 && (sl.step.None? ==> r.value.2 == 1)
  {
    var step := if sl.step.None? then 1 else sl.step.value;
    if step == 0 then Err(ZeroSliceStep)
    else
      var start := if sl.start.None? then (if step < 0 then length - 1 else 0)
        else Clamp(sl.start.value, length, step);
      var stop := if sl.stop.None? then (if step < 0 then -1 else length)
        else Clamp(sl.stop.value, length, step);
      Ok((start, stop, step))
  }

  /** `xrange(start, stop, step)`: start, start + step, ... for as long as
      the value lies strictly before stop in the direction of the step. */
  function Range(start: int, stop: int, step: int): (r: seq<int>)
    requires step != 0
    decreases if step > 0 then stop - start else start - stop
  {
    if (step > 0 && start < stop) || (step < 0 && start > stop) then
      [start] + Range(start + step, stop, step)
    else []
  }

  /** Whether x lies strictly before stop in the direction of the step. */
  predicate Before(x: int, stop: int, step: int)
  {
    if step > 0 then x < stop else x > stop
  }

  /** The range is the arithmetic progression start + i*step for as long
      as it stays before stop: every element is before stop and the next
      one would not be. */
  lemma {:induction false} RangeProgression(start: int, stop: int, step: int)
    requires step != 0
    ensures var r := Range(start, stop, step);
      && (forall i :: 0 <= i < |r| ==> r[i] == start + i * step && Before(r[i], stop, step))
      && !Before(start + |r| * step, stop, step)
    decreases if step > 0 then stop - start else start - stop
  {
    var r := Range(start, stop, step);
    if Before(start, stop, step) {
      RangeProgression(start + step, stop, step);
      var rest := Range(start + step, stop, step);
      assert r == [start] + rest;
      forall i | 1 <= i < |r|
        ensures r[i] == start + i * step
      {
        assert r[i] == rest[i - 1] == start + step + (i - 1) * step;
      }
      assert start + step + |rest| * step == start + |r| * step;
    }
  }

  /** For a nonnegative length every index `slice.indices` yields lies in
      [0, length). */
  lemma SliceInBounds(sl: Slice, length: int)
    requires length >= 0 && SliceIndices(sl, length).Ok?
    ensures var (a, b, c) := SliceIndices(sl, length).value;
      forall i :: 0 <= i < |Range(a, b, c)| ==> 0 <= Range(a, b, c)[i] < length
  {
    var (a, b, c) := SliceIndices(sl, length).value;
    RangeProgression(a, b, c);
    var r := Range(a, b, c);
    forall i | 0 <= i < |r|
      ensures 0 <= r[i] < length
    {
      if c > 0 {
        assert 0 <= a && b <= length;
        assert r[i] >= a by {
          assert i * c >= 0;
        }
      } else {
        assert a <= length - 1 && -1 <= b;
        assert r[i] <= a by {
          assert i * c <= 0;
        }
      }
    }
  }

  /** The terms of the sequence at the given indices, in order. */
  function TermsAt(s: CFiniteSequence, ix: seq<int>): (r: seq<real>)
    requires Valid(s)
    ensures |r| == |ix|
    ensures forall i :: 0 <= i < |ix| ==> r[i] == Coefficient(s, ix[i])
  {
    seq(|ix|, i requires 0 <= i < |ix| => Term(s, ix[i]))
  }

  /** `s[start:stop:step]`: without either bound the source fails adding 1
      to None; otherwise the indices of the slice against length m + 1, m
      the larger bound, are evaluated as single terms. */
  function GetSlice(s: CFiniteSequence, sl: Slice): (r: Result<seq<real>>)
    requires Valid(s)
    ensures sl.start.None? && sl.stop.None? ==> r == Err(UnboundedSlice)
    ensures (sl.start.Some? || sl.stop.Some?) && sl.step == Some(0) ==> r == Err(ZeroSliceStep)
    ensures r.Ok? <==> (sl.start.Some? || sl.stop.Some?) && sl.step != Some(0)
  {
    match MaxBound(sl.start, sl.stop)
    case None => Err(UnboundedSlice)
    case Some(m) =>
      match SliceIndices(sl, m + 1)
      case Err(e) => Err(e)
      case Ok((a, b, c)) => Ok(TermsAt(s, Range(a, b, c)))
  }

  /** `s[key]`: a term for an integer, a list of terms for a slice. */
  function GetItem(s: CFiniteSequence, key: Key): (r: Result<Item>)
    requires Valid(s)
    ensures key.OtherKey? <==> r == Err(InvalidKey)
    ensures key.IntKey? ==> r == Ok(Single(Coefficient(s, key.index)))
    ensures key.SliceKey? ==> (r.Ok? <==> GetSlice(s, key.slice).Ok?)
    ensures key.SliceKey? && r.Ok? ==> r.value == Several(GetSlice(s, key.slice).value)
  {
    match key
    case IntKey(k) => Ok(Single(Term(s, k)))
    case SliceKey(sl) =>
      (match GetSlice(s, sl)
       case Err(e) => Err(e)
       case Ok(vs) => Ok(Several(vs)))
    case OtherKey => Err(InvalidKey)
  }

  /** A slice a:b with 0 <= a <= b and a positive step c (1 when omitted)
      lists the terms a(a), a(a + c), ... that lie before b, and no more. */
  lemma ForwardSlice(s: CFiniteSequence, a: int, b: int, step: Option<int>)
    requires Valid(s) && 0 <= a <= b && (step.None? || step.value > 0)
    ensures var c := if step.None? then 1 else step.value;
      var r := GetSlice(s, Slice(Some(a), Some(b), step));
      && r.Ok?
      && (forall i :: 0 <= i < |r.value| ==> a + i * c < b && r.value[i] == Coefficient(s, a + i * c))
      && a + |r.value| * c >= b
  {
    var c := if step.None? then 1 else step.value;
    var sl := Slice(Some(a), Some(b), step);
    ForwardIndices(a, b, step);
    var ix := Range(a, b, c);
    var r := TermsAt(s, ix);
    assert GetSlice(s, sl) == Ok(r);
    RangeProgression(a, b, c);
    forall i | 0 <= i < |r|
      ensures a + i * c < b && r[i] == Coefficient(s, a + i * c)
    {
      assert ix[i] == a + i * c && Before(ix[i], b, c);
    }
    assert !Before(a + |ix| * c, b, c);
  }

  /** Both bounds of such a slice lie within the length b + 1 it is
      resolved against, so they are taken as they are. */
  lemma ForwardIndices(a: int, b: int, step: Option<int>)
    requires 0 <= a <= b && (step.None? || step.value > 0)
    ensures var sl := Slice(Some(a), Some(b), step);
      && MaxBound(sl.start, sl.stop) == Some(b)
      && SliceIndices(sl, b + 1) == Ok((a, b, if step.None? then 1 else step.value))
  {
  }
}
