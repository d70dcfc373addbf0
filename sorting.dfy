/**
 * Ascending order on real samples.
 *
 * The decile report sorts its population in place with the numeric
 * comparator `(a, b) => a - b` (tasks/find-deciles.js:109).  The order the
 * engine's sort uses internally is not specified, so the model states what
 * every correct sort yields: an ascending permutation of its input.
 * `SortSeq` is a reference definition of that value, `SortedUnique` shows
 * that it is the only such value, and `Sort` is the in-place algorithm
 * proved to produce it.
 */
module Sorting {

  /** Every earlier element is at most every later one. */
  predicate Sorted(s: seq<real>)
  {
    forall p, q :: 0 <= p < q < |s| ==> s[p] <= s[q]
  }

  /** Inserts `x` into `s` before the first element not smaller than it. */
  function Insert(x: real, s: seq<real>): (r: seq<real>)
    ensures multiset(r) == multiset(s) + multiset{x}
    ensures Sorted(s) ==> Sorted(r)
  {
    if s == [] then [x]
    else if x <= s[0] then [x] + s
    else
      var t := Insert(x, s[1..]);
      InsertAfterHead(x, s, t);
      [s[0]] + t
  }

  /** The step case of `Insert`: putting the head back in front keeps order. */
  lemma InsertAfterHead(x: real, s: seq<real>, t: seq<real>)
    requires s != [] && s[0] < x
    requires multiset(t) == multiset(s[1..]) + multiset{x}
    requires Sorted(s[1..]) ==> Sorted(t)
    ensures multiset([s[0]] + t) == multiset(s) + multiset{x}
    ensures Sorted(s) ==> Sorted([s[0]] + t)
  {
    assert s == [s[0]] + s[1..];
    if Sorted(s) {
      forall q | 0 <= q < |t| ensures s[0] <= t[q] {
        assert t[q] in multiset(t);
        if t[q] != x {
          assert t[q] in multiset(s[1..]);
          var k :| 0 <= k < |s[1..]| && s[1..][k] == t[q];
          assert s[k + 1] == t[q];
        }
      }
      var r := [s[0]] + t;
      forall p, q | 0 <= p < q < |r| ensures r[p] <= r[q] {
        if p > 0 {
          assert r[p] == t[p - 1] && r[q] == t[q - 1];
        }
      }
    }
  }

  /** Insertion sort: the reference value of "the sorted population". */
  function SortSeq(s: seq<real>): (r: seq<real>)
    ensures Sorted(r)
    ensures multiset(r) == multiset(s)
  {
    if s == [] then []
    else
      assert s == [s[0]] + s[1..];
      Insert(s[0], SortSeq(s[1..]))
  }

  /** Two ascending sequences with the same elements are equal, so the
      sorted population does not depend on the sort algorithm nor on the
      order in which the samples arrived. */
  lemma {:induction false} SortedUnique(a: seq<real>, b: seq<real>)
    requires Sorted(a) && Sorted(b)
    requires multiset(a) == multiset(b)
    ensures a == b
  {
    assert |a| == |multiset(a)| == |multiset(b)| == |b|;
    if a != [] {
      HeadIsLeast(a, b[0]);
      HeadIsLeast(b, a[0]);
      assert a[0] == b[0];
      assert a == [a[0]] + a[1..];
      assert b == [b[0]] + b[1..];
      assert multiset(a) == multiset{a[0]} + multiset(a[1..]);
      assert multiset(b) == multiset{b[0]} + multiset(b[1..]);
      assert multiset(a[1..]) == multiset(a) - multiset{a[0]};
      assert multiset(b[1..]) == multiset(b) - multiset{b[0]};
      SortedUnique(a[1..], b[1..]);
    }
  }

  /** The head of an ascending sequence is at most each of its elements. */
  lemma HeadIsLeast(s: seq<real>, x: real)
    requires Sorted(s) && x in multiset(s)
    ensures s != [] && s[0] <= x
  {
    assert x in s;
  }

  /** The in-place sort of line 109 (insertion sort by adjacent swaps). */
  method Sort(a: array<real>)
    modifies a
    ensures Sorted(a[..])
    ensures multiset(a[..]) == multiset(old(a[..]))
    ensures a[..] == SortSeq(old(a[..]))
  {
    var i := 0;
    while i < a.Length
      invariant 0 <= i <= a.Length
      invariant forall p, q :: 0 <= p < q < i ==> a[p] <= a[q]
      invariant multiset(a[..]) == multiset(old(a[..]))
    {
      var j := i;
      while j > 0 && a[j - 1] > a[j]
        invariant 0 <= j <= i
        invariant forall p, q :: 0 <= p < q <= i && p != j && q != j ==> a[p] <= a[q]
        invariant forall q :: j < q <= i ==> a[j] < a[q]
        invariant multiset(a[..]) == multiset(old(a[..]))
      {
        a[j - 1], a[j] := a[j], a[j - 1];
        j := j - 1;
      }
      i := i + 1;
    }
    SortedUnique(a[..], SortSeq(old(a[..])));
  }
}
