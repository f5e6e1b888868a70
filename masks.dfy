/**
  Boolean-mask indexing of the leading axis of an array, as numpy does it for `a[mask]` and `~mask`:
  the mask has one entry per element, and indexing keeps, in their original order, exactly the
  elements at the positions where the mask is true.

*/
module Masks {

  /** Number of positions the mask selects. */
  function CountTrue(mask: seq<bool>): (n: nat)
    ensures n <= |mask|
  {
    if |mask| == 0 then 0
    else (if mask[0] then 1 else 0) + CountTrue(mask[1..])
  }

  /** `~mask`: element-wise negation; it selects exactly the positions `mask` does not. */
  function Negate(mask: seq<bool>): (r: seq<bool>)
    ensures |r| == |mask|
    ensures forall i :: 0 <= i < |mask| ==> r[i] == !mask[i]
    ensures CountTrue(r) == |mask| - CountTrue(mask)
  {
    if |mask| == 0 then []
    else
      var r := [!mask[0]] + Negate(mask[1..]);
      assert r[1..] == Negate(mask[1..]);
      r
  }

  /** `xs[mask]`: the elements whose mask entry is true, in their original order. */
  function Select<T>(xs: seq<T>, mask: seq<bool>): (r: seq<T>)
    requires |xs| == |mask|
    ensures |r| == CountTrue(mask)
  {
    if |xs| == 0 then []
    else (if mask[0] then [xs[0]] else []) + Select(xs[1..], mask[1..])
  }

  /** The positions where the mask is true, each offset by `base`, in increasing order. */
  function IndicesFrom(mask: seq<bool>, base: nat): (r: seq<nat>)
    ensures |r| == CountTrue(mask)
    ensures forall j :: 0 <= j < |r| ==> base <= r[j] < base + |mask| && mask[r[j] - base]
    ensures forall j, k :: 0 <= j < k < |r| ==> r[j] < r[k]
  {
    if |mask| == 0 then []
    else (if mask[0] then [base] else []) + IndicesFrom(mask[1..], base + 1)
  }

  /** `IndicesFrom` misses no position where the mask is true. */
  lemma {:induction false} IndicesFromComplete(mask: seq<bool>, base: nat, i: nat)
    requires i < |mask| && mask[i]
    ensures base + i in IndicesFrom(mask, base)
  {
    if i > 0 {
      assert mask[1..][i - 1];
      IndicesFromComplete(mask[1..], base + 1, i - 1);
    }
  }

  /** The positions where the mask is true (`numpy.flatnonzero(mask)`), in increasing order. */
  function TrueIndices(mask: seq<bool>): (r: seq<nat>)
    ensures |r| == CountTrue(mask)
    ensures forall j :: 0 <= j < |r| ==> r[j] < |mask| && mask[r[j]]
    ensures forall j, k :: 0 <= j < k < |r| ==> r[j] < r[k]
  {
    IndicesFrom(mask, 0)
  }

  /** Every position where the mask is true is listed by `TrueIndices`. */
  lemma TrueIndicesComplete(mask: seq<bool>)
    ensures forall i :: 0 <= i < |mask| && mask[i] ==> i in TrueIndices(mask)
  {
    forall i | 0 <= i < |mask| && mask[i]
      ensures i in TrueIndices(mask)
    {
      IndicesFromComplete(mask, 0, i);
    }
  }

  /**
    Interleaves `a` (the elements a mask selected) and `b` (the elements it left out) back
    into one sequence, taking from `a` where the mask is true and from `b` where it is false.
  */
  function Merge<T>(mask: seq<bool>, a: seq<T>, b: seq<T>): (r: seq<T>)
    requires |a| == CountTrue(mask) && |b| == |mask| - CountTrue(mask)
    ensures |r| == |mask|
  {
    if |mask| == 0 then []
    else if mask[0] then [a[0]] + Merge(mask[1..], a[1..], b)
    else [b[0]] + Merge(mask[1..], a, b[1..])
  }

  /** The j-th selected element is the element at the j-th selected position. */
  lemma {:induction false} SelectAt<T>(xs: seq<T>, mask: seq<bool>)
    requires |xs| == |mask|
    ensures |Select(xs, mask)| == |TrueIndices(mask)|
    ensures forall j :: 0 <= j < |TrueIndices(mask)| ==> Select(xs, mask)[j] == xs[TrueIndices(mask)[j]]
  {
    SelectAtFrom(xs, mask, 0);
  }

  lemma {:induction false} SelectAtFrom<T>(xs: seq<T>, mask: seq<bool>, base: nat)
    requires |xs| == |mask|
    ensures |Select(xs, mask)| == |IndicesFrom(mask, base)|
    ensures forall j :: 0 <= j < |Select(xs, mask)| ==> Select(xs, mask)[j] == xs[IndicesFrom(mask, base)[j] - base]
  {
    if |xs| > 0 {
      SelectAtFrom(xs[1..], mask[1..], base + 1);
    }
  }

  /** Unfolds `Select` by a negated mask at the first position. */
  lemma SelectNegateFirst<T>(xs: seq<T>, mask: seq<bool>)
    requires |xs| == |mask| > 0
    ensures Select(xs, Negate(mask)) == (if mask[0] then [] else [xs[0]]) + Select(xs[1..], Negate(mask[1..]))
  {
  }

  /** Splitting by a mask and its negation loses nothing and reorders nothing: merging restores the input. */
  lemma {:induction false} MergeSelect<T>(xs: seq<T>, mask: seq<bool>)
    requires |xs| == |mask|
    ensures Merge(mask, Select(xs, mask), Select(xs, Negate(mask))) == xs
  {
    if |xs| > 0 {
      var a', b' := Select(xs[1..], mask[1..]), Select(xs[1..], Negate(mask[1..]));
      MergeSelect(xs[1..], mask[1..]);
      SelectNegateFirst(xs, mask);
      var a, b := Select(xs, mask), Select(xs, Negate(mask));
      if mask[0] {
        assert a == [xs[0]] + a' && b == b';
        assert a[1..] == a';
      } else {
        assert a == a' && b == [xs[0]] + b';
        assert b[1..] == b';
      }
      assert xs == [xs[0]] + xs[1..];
    }
  }

  /** Conversely, splitting a merged sequence by the same mask gives back both halves. */
  lemma {:induction false} SelectMerge<T>(mask: seq<bool>, a: seq<T>, b: seq<T>)
    requires |a| == CountTrue(mask) && |b| == |mask| - CountTrue(mask)
    ensures Select(Merge(mask, a, b), mask) == a
    ensures Select(Merge(mask, a, b), Negate(mask)) == b
  {
    if |mask| > 0 {
      var r := Merge(mask, a, b);
      SelectNegateFirst(r, mask);
      if mask[0] {
        SelectMerge(mask[1..], a[1..], b);
        assert r[1..] == Merge(mask[1..], a[1..], b);
        assert a == [a[0]] + a[1..];
      } else {
        SelectMerge(mask[1..], a, b[1..]);
        assert r[1..] == Merge(mask[1..], a, b[1..]);
        assert b == [b[0]] + b[1..];
      }
    }
  }

  /** Every element goes to exactly one side: the two selections together are the input, counted with multiplicity. */
  lemma {:induction false} SelectPartition<T>(xs: seq<T>, mask: seq<bool>)
    requires |xs| == |mask|
    ensures |Select(xs, mask)| + |Select(xs, Negate(mask))| == |xs|
    ensures multiset(Select(xs, mask)) + multiset(Select(xs, Negate(mask))) == multiset(xs)
  {
    if |xs| > 0 {
      assert xs == [xs[0]] + xs[1..];
      assert multiset(xs) == multiset{xs[0]} + multiset(xs[1..]);
      SelectPartition(xs[1..], mask[1..]);
      SelectNegateFirst(xs, mask);
    }
  }

  /** Each position is selected by exactly one of a mask and its negation. */
  lemma IndicesPartition(mask: seq<bool>)
    ensures forall i :: 0 <= i < |mask| ==> (i in TrueIndices(mask) <==> i !in TrueIndices(Negate(mask)))
  {
    TrueIndicesComplete(mask);
    TrueIndicesComplete(Negate(mask));
  }
}
