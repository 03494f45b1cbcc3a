/** The `Array.prototype` operations the story-book preview relies on:
    `filter`, `map` and `slice`. Arrays are sequences. */
module JsArray {

  /** `xs.filter(keep)`. */
  function Filter<T>(xs: seq<T>, keep: T -> bool): (ys: seq<T>)
    decreases |xs|
    ensures |ys| <= |xs|
  {
    if xs == [] then []
    else (if keep(xs[0]) then [xs[0]] else []) + Filter(xs[1..], keep)
  }

  /** An element survives `filter` exactly when it was there and is kept. */
  lemma {:induction false} FilterMembership<T>(xs: seq<T>, keep: T -> bool, x: T)
    decreases |xs|
    ensures x in Filter(xs, keep) <==> x in xs && keep(x)
  {
    if xs != [] {
      FilterMembership(xs[1..], keep, x);
      assert xs == [xs[0]] + xs[1..];
    }
  }

  /** `filter` leaves nothing exactly when no element is kept. */
  lemma {:induction false} FilterEmpty<T>(xs: seq<T>, keep: T -> bool)
    decreases |xs|
    ensures Filter(xs, keep) == [] <==> forall k :: 0 <= k < |xs| ==> !keep(xs[k])
  {
    if xs != [] {
      FilterEmpty(xs[1..], keep);
      assert forall k :: 1 <= k < |xs| ==> xs[k] == xs[1..][k - 1];
    }
  }

  /** `filter` keeps relative order: filtering a concatenation concatenates
      the filtered parts. */
  lemma {:induction false} FilterConcat<T>(xs: seq<T>, ys: seq<T>, keep: T -> bool)
    decreases |xs|
    ensures Filter(xs + ys, keep) == Filter(xs, keep) + Filter(ys, keep)
  {
    if xs != [] {
      assert (xs + ys)[1..] == xs[1..] + ys;
      FilterConcat(xs[1..], ys, keep);
    } else {
      assert xs + ys == ys;
    }
  }

  /** Filtering a list keeps or drops its head and filters its tail. */
  lemma FilterCons<T>(x: T, rest: seq<T>, keep: T -> bool)
    ensures Filter([x] + rest, keep) == (if keep(x) then [x] else []) + Filter(rest, keep)
  {
    assert ([x] + rest)[1..] == rest;
  }

  /** `xs.map(f)`. */
  function Map<T, U>(xs: seq<T>, f: T -> U): (ys: seq<U>)
    decreases |xs|
    ensures |ys| == |xs|
    ensures forall k :: 0 <= k < |xs| ==> ys[k] == f(xs[k])
  {
    if xs == [] then [] else [f(xs[0])] + Map(xs[1..], f)
  }

  /** The index `slice` starts or stops at for argument `k` on an array of
      length `len`: a negative argument counts from the end, and the result is
      clamped to `[0, len]`. */
  function SliceIndex(k: int, len: nat): (r: nat)
    ensures r <= len
  {
    if k < 0 then (if len + k < 0 then 0 else len + k)
    else if k > len then len
    else k
  }

  /** `xs.slice(start, end)`. */
  function Slice<T>(xs: seq<T>, start: int, end: int): seq<T> {
    var from, to := SliceIndex(start, |xs|), SliceIndex(end, |xs|);
    if from < to then xs[from..to] else []
  }

  /** For non-negative arguments, `slice` is empty when `start >= end`, and
      otherwise the elements from `start` up to `end`, both cut at the end of
      the array. */
  lemma SliceNonNegative<T>(xs: seq<T>, start: int, end: int)
    requires 0 <= start && 0 <= end
    ensures start >= end ==> Slice(xs, start, end) == []
    ensures start < end && start <= |xs| ==>
      Slice(xs, start, end) == xs[start..if end <= |xs| then end else |xs|]
    ensures |xs| <= start ==> Slice(xs, start, end) == []
  {
  }
}
