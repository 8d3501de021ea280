/**
 * `std::random_shuffle`, which both repositories and the server's submission list
 * use, rearranges a sequence by swapping pairs of positions.  The random choices are
 * an input: an arbitrary list of in-range swaps, which can produce any permutation.
 */
module Shuffle {

  datatype Swap = Swap(i: nat, j: nat)

  predicate ValidSwaps(swaps: seq<Swap>, n: nat) {
    forall k :: 0 <= k < |swaps| ==> swaps[k].i < n && swaps[k].j < n
  }

  /** The sequence after the swaps, in order; every element keeps its multiplicity. */
  function ApplySwaps<T(==)>(s: seq<T>, swaps: seq<Swap>): (r: seq<T>)
    requires ValidSwaps(swaps, |s|)
    ensures |r| == |s|
    ensures multiset(r) == multiset(s)
    decreases |swaps|
  {
    if swaps == [] then s
    else
      var i, j := swaps[0].i, swaps[0].j;
      ApplySwaps(s[i := s[j]][j := s[i]], swaps[1..])
  }

  /** Every element of the shuffled sequence is an element of the original, whole. */
  lemma ShuffledElementIsOriginal<T>(s: seq<T>, swaps: seq<Swap>, k: nat)
    requires ValidSwaps(swaps, |s|) && k < |s|
    ensures ApplySwaps(s, swaps)[k] in s
  {
    var r := ApplySwaps(s, swaps);
    assert r[k] in multiset(r);
  }
}
