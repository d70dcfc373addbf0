/** Small facts about sequences and their multisets, shared by the
    collector and the decile report. */
module Seqs {

  /** A sequence is its prefix, the element at `k`, and its suffix. */
  lemma SplitAt<T>(d: seq<T>, k: int)
    requires 0 <= k < |d|
    ensures d == d[..k] + ([d[k]] + d[k + 1..])
  {
  }

  /** Taking a middle part out of a sequence takes its elements out of the
      multiset. */
  lemma MultisetMiddle<T>(a: seq<T>, x: seq<T>, b: seq<T>)
    ensures multiset(a + (x + b)) == multiset(x) + multiset(a + b)
  {
  }
}
