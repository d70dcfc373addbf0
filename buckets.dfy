/**
 * The index arithmetic that splits N sorted samples into ten deciles
 * (tasks/find-deciles.js:128-131).  Decile `i` (1..10) spans the indices
 * `StartIdx(i, N) .. EndIdx(i, N)` of the sorted population.
 *
 * The source evaluates `(i - 1) * (N / 10)` and `i * (N / 10)` in double
 * precision; the model takes the exact quotients `(i - 1) * N / 10` and
 * `i * N / 10`, both non-negative, so `Math.floor` is integer division.
 */
module Buckets {

  /** Number of buckets the loop of line 128 produces. */
  const Deciles := 10

  /** First index read for decile `i`: `floor((i - 1) * N / 10)`. */
  function StartIdx(i: int, n: nat): (r: int)
    requires 1 <= i <= Deciles
    ensures 0 <= r
    ensures n > 0 ==> r < n
  {
    MulBound(i - 1, Deciles - 1, n);
    ((i - 1) * n) / 10
  }

  /** Last index read for decile `i`: `min(floor(i * N / 10) - 1, N - 1)`.
      The clamp never takes effect, and the index is -1, outside the
      population, exactly when `i * N < 10`. */
  function EndIdx(i: int, n: nat): (r: int)
    requires 1 <= i <= Deciles
    ensures r == (i * n) / 10 - 1
    ensures -1 <= r < n
    ensures r == -1 <==> i * n < 10
  {
    MulBound(i, Deciles, n);
    Min((i * n) / 10 - 1, n - 1)
  }

  function Min(a: int, b: int): (r: int)
    ensures r <= a && r <= b && (r == a || r == b)
  {
    if a <= b then a else b
  }

  /** `i * n` grows with `i`. */
  lemma MulBound(i: int, j: int, n: nat)
    requires 0 <= i <= j
    ensures 0 <= i * n <= j * n
  {
  }

  /** Bucket `i` ends just before bucket `i + 1` starts, for every N. */
  lemma BucketsAdjacent(i: int, n: nat)
    requires 1 <= i < Deciles
    ensures StartIdx(i + 1, n) == EndIdx(i, n) + 1
  {
  }

  /** The first bucket starts at the first sample and the last bucket ends
      at the last one. */
  lemma BucketsCoverEnds(n: nat)
    ensures StartIdx(1, n) == 0
    ensures EndIdx(Deciles, n) == n - 1
  {
  }

  /** The number of indices in bucket `i` is `N / 10` or `N / 10 + 1`, so
      bucket sizes differ by at most one; for N >= 10 no bucket is empty. */
  lemma {:induction false} BucketSize(i: int, n: nat)
    requires 1 <= i <= Deciles
    ensures var size := EndIdx(i, n) - StartIdx(i, n) + 1;
            size == n / 10 || size == n / 10 + 1
    ensures n >= 10 ==> StartIdx(i, n) <= EndIdx(i, n)
  {
    var a := (i - 1) * n;
    assert i * n == a + n;
    var p, s := a / 10, a % 10;
    var q, t := n / 10, n % 10;
    assert a + n == 10 * (p + q) + (s + t);
    assert 0 <= s + t < 20;
  }

  /** Bucket starts never decrease. */
  lemma StartMonotone(i: int, j: int, n: nat)
    requires 1 <= i <= j <= Deciles
    ensures StartIdx(i, n) <= StartIdx(j, n)
  {
    MulBound(i - 1, j - 1, n);
  }

  /** Bucket containing index `k`: the last bucket starting at or before `k`. */
  function BucketOf(k: int, n: nat): (i: int)
    requires 0 <= k < n
    ensures 1 <= i <= Deciles
  {
    LastStartAtMost(k, n, 1)
  }

  function LastStartAtMost(k: int, n: nat, i: int): (r: int)
    requires 0 <= k < n && 1 <= i <= Deciles
    ensures i <= r <= Deciles
    decreases Deciles - i
  {
    if i == Deciles || k < StartIdx(i + 1, n) then i
    else LastStartAtMost(k, n, i + 1)
  }

  /** Every index of the population lies in exactly one bucket: the ten
      index ranges cover 0 .. N - 1 with no gap and no overlap. */
  lemma {:induction false} BucketsPartition(k: int, n: nat)
    requires 0 <= k < n
    ensures StartIdx(BucketOf(k, n), n) <= k <= EndIdx(BucketOf(k, n), n)
    ensures forall i :: 1 <= i <= Deciles && StartIdx(i, n) <= k <= EndIdx(i, n) ==> i == BucketOf(k, n)
  {
    LastStartAtMostContains(k, n, 1);
    var b := BucketOf(k, n);
    forall i | 1 <= i <= Deciles && StartIdx(i, n) <= k <= EndIdx(i, n)
      ensures i == b
    {
      if i < b {
        BucketsAdjacent(i, n);
        StartMonotone(i + 1, b, n);
      } else if b < i {
        BucketsAdjacent(b, n);
        StartMonotone(b + 1, i, n);
      }
    }
  }

  lemma {:induction false} LastStartAtMostContains(k: int, n: nat, i: int)
    requires 0 <= k < n && 1 <= i <= Deciles
    requires StartIdx(i, n) <= k
    ensures StartIdx(LastStartAtMost(k, n, i), n) <= k <= EndIdx(LastStartAtMost(k, n, i), n)
    decreases Deciles - i
  {
    if i == Deciles {
      BucketsCoverEnds(n);
    } else if k < StartIdx(i + 1, n) {
      BucketsAdjacent(i, n);
    } else {
      LastStartAtMostContains(k, n, i + 1);
    }
  }
}
