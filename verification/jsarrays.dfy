/** The two JavaScript array operations the handlers use, on immutable sequences. */
module JsArrays {

  /** `xs.filter((_, i) => i !== k)` scanned from position `from` on: every
      element whose position differs from `k` is kept, in order. */
  function KeepOthers<T>(xs: seq<T>, k: int, from: nat): (r: seq<T>)
    requires from <= |xs|
    ensures |r| == if from <= k < |xs| then |xs| - from - 1 else |xs| - from
    decreases |xs| - from
  {
    if from == |xs| then []
    else (if from != k then [xs[from]] else []) + KeepOthers(xs, k, from + 1)
  }

  /** `xs.filter((_, i) => i !== k)`. */
  function FilterIndex<T>(xs: seq<T>, k: int): (r: seq<T>)
    ensures |r| == if 0 <= k < |xs| then |xs| - 1 else |xs|
  {
    KeepOthers(xs, k, 0)
  }

  /** The scan from `from` leaves out exactly position `k`, when `k` lies ahead of it. */
  lemma {:induction false} KeepOthersSlices<T>(xs: seq<T>, k: int, from: nat)
    requires from <= |xs|
    ensures from <= k < |xs| ==> KeepOthers(xs, k, from) == xs[from..k] + xs[k + 1..]
    ensures !(from <= k < |xs|) ==> KeepOthers(xs, k, from) == xs[from..]
    decreases |xs| - from
  {
    if from < |xs| {
      KeepOthersSlices(xs, k, from + 1);
      if from == k {
        assert xs[from..k] == [];
      } else if from < k < |xs| {
        assert xs[from..k] == [xs[from]] + xs[from + 1..k];
      } else {
        assert xs[from..] == [xs[from]] + xs[from + 1..];
      }
    }
  }

  /** Filtering out an in-range position removes exactly that element and keeps
      the order of the rest; an out-of-range position removes nothing. */
  lemma FilterIndexSlices<T>(xs: seq<T>, k: int)
    ensures 0 <= k < |xs| ==> FilterIndex(xs, k) == xs[..k] + xs[k + 1..]
    ensures !(0 <= k < |xs|) ==> FilterIndex(xs, k) == xs
  {
    KeepOthersSlices(xs, k, 0);
  }

  /** Filtering out position `k` takes away one occurrence of the element there. */
  lemma FilterIndexMultiset<T>(xs: seq<T>, k: int)
    requires 0 <= k < |xs|
    ensures multiset(FilterIndex(xs, k)) == multiset(xs) - multiset{xs[k]}
  {
    FilterIndexSlices(xs, k);
    assert xs == xs[..k] + [xs[k]] + xs[k + 1..];
  }

  /** `ys = [...xs]; ys[i] = v` for an index no greater than the length: an index
      inside the array replaces that element, the index equal to the length appends. */
  function Assign<T>(xs: seq<T>, i: nat, v: T): (r: seq<T>)
    requires i <= |xs|
    ensures |r| == if i < |xs| then |xs| else |xs| + 1
    ensures r[i] == v
    ensures forall j :: 0 <= j < |xs| && j != i ==> r[j] == xs[j]
  {
    if i < |xs| then xs[i := v] else xs + [v]
  }

  /** Writing an element back where it already is leaves the array as it was. */
  lemma AssignOwnValue<T>(xs: seq<T>, i: nat)
    requires i < |xs|
    ensures Assign(xs, i, xs[i]) == xs
  {
  }
}
