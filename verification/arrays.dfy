/** The JavaScript array built-ins the todo store is made of, on immutable
    sequences: `filter`, `findIndex` (and `find`, which returns the element
    at that index) and `slice` with ECMAScript's index clamping. */
module Arrays {

  /** `xs.filter(keep)`: the elements of `xs` that satisfy `keep`, in their
      original order. Defined from the back, the way the result array is
      built up by appending. */
  function Filter<T(!new)>(xs: seq<T>, keep: T -> bool): (r: seq<T>)
    ensures |r| == Count(xs, keep) <= |xs|
    ensures forall x :: x in r <==> x in xs && keep(x)
    decreases |xs|
  {
    if |xs| == 0 then []
    else
      var init := xs[..|xs| - 1];
      var last := xs[|xs| - 1];
      assert xs == init + [last];
      CountSnoc(init, last, keep);
      if keep(last) then Filter(init, keep) + [last] else Filter(init, keep)
  }

  /** The number of elements of `xs` that satisfy `p`, counted from the front. */
  function Count<T>(xs: seq<T>, p: T -> bool): nat
    decreases |xs|
  {
    if |xs| == 0 then 0
    else (if p(xs[0]) then 1 else 0) + Count(xs[1..], p)
  }

  /** Counting is additive over an appended element. */
  lemma {:induction false} CountSnoc<T>(xs: seq<T>, x: T, p: T -> bool)
    ensures Count(xs + [x], p) == Count(xs, p) + (if p(x) then 1 else 0)
    decreases |xs|
  {
    if |xs| > 0 {
      assert (xs + [x])[1..] == xs[1..] + [x];
      CountSnoc(xs[1..], x, p);
    }
  }

  /** Every element satisfies exactly one of `p` and its negation `q`, so
      the two counts add up to the length. */
  lemma {:induction false} CountComplement<T>(xs: seq<T>, p: T -> bool, q: T -> bool)
    requires forall x :: q(x) == !p(x)
    ensures Count(xs, p) + Count(xs, q) == |xs|
    decreases |xs|
  {
    if |xs| > 0 {
      CountComplement(xs[1..], p, q);
    }
  }

  /** The positions of `xs` whose element satisfies `keep`, in increasing
      order: the positions `Filter` keeps. */
  function KeptIndices<T>(xs: seq<T>, keep: T -> bool): seq<int>
    decreases |xs|
  {
    if |xs| == 0 then []
    else
      var init := KeptIndices(xs[..|xs| - 1], keep);
      if keep(xs[|xs| - 1]) then init + [|xs| - 1] else init
  }

  /** `r` holds the elements of `xs` at the positions `idx`. */
  ghost predicate Picks<T>(xs: seq<T>, idx: seq<int>, r: seq<T>)
  {
    |idx| == |r| && forall k :: 0 <= k < |idx| ==> 0 <= idx[k] < |xs| && r[k] == xs[idx[k]]
  }

  ghost predicate Increasing(idx: seq<int>)
  {
    forall k, l :: 0 <= k < l < |idx| ==> idx[k] < idx[l]
  }

  /** `idx` holds exactly the positions of `xs` whose element satisfies `keep`. */
  ghost predicate ExactlyKept<T>(xs: seq<T>, keep: T -> bool, idx: seq<int>)
  {
    forall i :: 0 <= i < |xs| ==> (keep(xs[i]) <==> i in idx)
  }

  /** `r` is the subsequence of `xs` at the strictly increasing positions
      `idx`, and `idx` holds exactly the positions whose element satisfies
      `keep`. This pins `r` down completely. */
  ghost predicate SelectedBy<T>(xs: seq<T>, keep: T -> bool, idx: seq<int>, r: seq<T>)
  {
    Picks(xs, idx, r) && Increasing(idx) && ExactlyKept(xs, keep, idx)
  }

  /** `Filter` keeps the original order and drops exactly the elements that
      fail `keep`. */
  lemma {:induction false} FilterSelects<T(!new)>(xs: seq<T>, keep: T -> bool)
    ensures SelectedBy(xs, keep, KeptIndices(xs, keep), Filter(xs, keep))
    decreases |xs|
  {
    if |xs| > 0 {
      var init := xs[..|xs| - 1];
      var last := xs[|xs| - 1];
      var idx := KeptIndices(init, keep);
      var r := Filter(init, keep);
      FilterSelects(init, keep);
      assert xs == init + [last];
      assert KeptIndices(xs, keep) == if keep(last) then idx + [|init|] else idx;
      assert Filter(xs, keep) == if keep(last) then r + [last] else r;
      PicksSnoc(init, idx, r, last, keep(last));
      IncreasingSnoc(init, idx, keep(last));
      ExactlyKeptSnoc(init, keep, idx, last);
    }
  }

  lemma PicksSnoc<T>(xs: seq<T>, idx: seq<int>, r: seq<T>, x: T, taken: bool)
    requires Picks(xs, idx, r)
    ensures Picks(xs + [x], if taken then idx + [|xs|] else idx, if taken then r + [x] else r)
  {
    var ys := xs + [x];
    assert forall i :: 0 <= i < |xs| ==> ys[i] == xs[i];
  }

  lemma IncreasingSnoc<T>(xs: seq<T>, idx: seq<int>, taken: bool)
    requires Increasing(idx)
    requires forall k :: 0 <= k < |idx| ==> idx[k] < |xs|
    ensures Increasing(if taken then idx + [|xs|] else idx)
  {
  }

  lemma ExactlyKeptSnoc<T>(xs: seq<T>, keep: T -> bool, idx: seq<int>, x: T)
    requires ExactlyKept(xs, keep, idx)
    requires forall k :: 0 <= k < |idx| ==> idx[k] < |xs|
    ensures ExactlyKept(xs + [x], keep, if keep(x) then idx + [|xs|] else idx)
  {
    var ys := xs + [x];
    var idx' := if keep(x) then idx + [|xs|] else idx;
    forall i | 0 <= i < |ys|
      ensures keep(ys[i]) <==> i in idx'
    {
      if i < |xs| {
        assert ys[i] == xs[i];
        assert i in idx' <==> i in idx;
      } else {
        assert |xs| !in idx;
      }
    }
  }

  /** Filtering twice is filtering once by the conjunction, which is how a
      chain of `.filter` calls reads. */
  lemma {:induction false} FilterFuse<T(!new)>(xs: seq<T>, p: T -> bool, q: T -> bool, pq: T -> bool)
    requires forall x :: pq(x) == (p(x) && q(x))
    ensures Filter(Filter(xs, p), q) == Filter(xs, pq)
    decreases |xs|
  {
    if |xs| > 0 {
      var init := xs[..|xs| - 1];
      var last := xs[|xs| - 1];
      FilterFuse(init, p, q, pq);
      if p(last) {
        var a := Filter(init, p);
        assert (a + [last])[..|a + [last]| - 1] == a;
      }
    }
  }

  /** Two pointwise-equal predicates filter alike. */
  lemma {:induction false} FilterExt<T(!new)>(xs: seq<T>, p: T -> bool, q: T -> bool)
    requires forall x :: p(x) == q(x)
    ensures Filter(xs, p) == Filter(xs, q)
    decreases |xs|
  {
    if |xs| > 0 {
      FilterExt(xs[..|xs| - 1], p, q);
    }
  }

  /** A predicate that every element passes keeps the whole sequence. */
  lemma {:induction false} FilterKeepsAll<T(!new)>(xs: seq<T>, p: T -> bool)
    requires forall i :: 0 <= i < |xs| ==> p(xs[i])
    ensures Filter(xs, p) == xs
    decreases |xs|
  {
    if |xs| > 0 {
      FilterKeepsAll(xs[..|xs| - 1], p);
      assert xs == xs[..|xs| - 1] + [xs[|xs| - 1]];
    }
  }

  /** Filtering a sequence with one element in front filters that element
      on its own. */
  lemma {:induction false} FilterCons<T(!new)>(x: T, xs: seq<T>, p: T -> bool)
    ensures Filter([x] + xs, p) == (if p(x) then [x] else []) + Filter(xs, p)
    decreases |xs|
  {
    if |xs| > 0 {
      var init := xs[..|xs| - 1];
      var last := xs[|xs| - 1];
      FilterCons(x, init, p);
      assert ([x] + xs)[..|[x] + xs| - 1] == [x] + init;
    }
  }

  /** `xs.findIndex(p)`: the first position whose element satisfies `p`,
      or -1 when there is none. */
  function FindIndex<T>(xs: seq<T>, p: T -> bool): (i: int)
    ensures -1 <= i < |xs|
    ensures i == -1 <==> forall j :: 0 <= j < |xs| ==> !p(xs[j])
    ensures 0 <= i ==> p(xs[i]) && forall j :: 0 <= j < i ==> !p(xs[j])
    decreases |xs|
  {
    if |xs| == 0 then -1
    else if p(xs[0]) then 0
    else
      var k := FindIndex(xs[1..], p);
      if k == -1 then -1 else k + 1
  }

  /** ECMAScript's reading of a relative index into `[0, len]`: a negative
      index counts back from the end, and both ends are clamped. */
  function RelativeIndex(i: int, len: nat): (r: nat)
    ensures r <= len
    ensures 0 <= i <= len ==> r == i
    ensures i > len ==> r == len
    ensures i < 0 && len + i >= 0 ==> r == len + i
    ensures len + i < 0 ==> r == 0
  {
    if i < 0 then (if len + i < 0 then 0 else len + i)
    else if i > len then len
    else i
  }

  /** `xs.slice(start, end)`. */
  function Slice<T>(xs: seq<T>, start: int, end: int): (r: seq<T>)
    ensures start <= end ==> |r| <= end - start
    ensures 0 <= start <= |xs| && start <= end ==>
      r == xs[start..if end < |xs| then end else |xs|]
    ensures |xs| <= start ==> r == []
    ensures RelativeIndex(start, |xs|) + |r| <= |xs|
    ensures |r| == if RelativeIndex(start, |xs|) < RelativeIndex(end, |xs|)
                   then RelativeIndex(end, |xs|) - RelativeIndex(start, |xs|) else 0
    ensures forall k :: 0 <= k < |r| ==> r[k] == xs[RelativeIndex(start, |xs|) + k]
  {
    var from := RelativeIndex(start, |xs|);
    var to := RelativeIndex(end, |xs|);
    if from < to then xs[from..to] else []
  }

  /** Negative bounds are read from the back: with `end < 0` the slice is
      the run between `|xs| + start` and `|xs| + end`, cut at the front. */
  lemma SliceFromBack<T>(xs: seq<T>, start: int, end: int)
    requires start <= end < 0
    ensures var lo := |xs| + start;
            var hi := |xs| + end;
            && (hi <= 0 ==> Slice(xs, start, end) == [])
            && (0 <= lo ==> Slice(xs, start, end) == xs[lo..hi])
            && (lo < 0 < hi ==> Slice(xs, start, end) == xs[..hi])
  {
  }
}
