/**
 * The decile report of one unit of work, `generateDecileReport`
 * (tasks/find-deciles.js:92-141): coerce the raw values to numbers, drop
 * the negative ones, sort, and, if anything is left, emit ten
 * `(decile, min, max)` rows whose bounds are the values at the bucket
 * boundaries rounded to a multiple of 1000.
 *
 * Numbers are exact reals, not doubles.  `parseFloat` is a parameter of
 * the model: a `Parser` gives the number a text denotes, or `None` where
 * `parseFloat` gives NaN.
 */
module Deciles {
  import opened Wrappers
  import opened Collector
  import opened Sorting
  import opened Buckets
  import opened Seqs

  /** `parseFloat` on a present text; `None` stands for NaN. */
  type Parser = string -> Option<real>

  /** A number as the report writes it: an integer or NaN. */
  datatype Num = Finite(n: int) | NaN

  /** One line of the decile report (lines 132-136). */
  datatype DecileRow = DecileRow(decile: int, min: Num, max: Num)

  /** `parseFloat(d[targetVar])`: an absent cell parses to NaN. */
  function Coerce(parse: Parser, raw: Option<string>): (r: Option<real>)
    ensures raw.None? ==> r.None?
    ensures raw.Some? ==> r == parse(raw.value)
  {
    match raw
    case None => None
    case Some(s) => parse(s)
  }

  /** The samples one row contributes: its number, or none for NaN. */
  function Sample(parse: Parser, row: Row): (r: seq<real>)
    ensures |r| <= 1
  {
    match Coerce(parse, row.raw)
    case Some(v) => [v]
    case None => []
  }

  /** Step 1 (lines 94-96): the numbers that parse, in row order. */
  function Parsed(parse: Parser, data: seq<Row>): (r: seq<real>)
    ensures |r| <= |data|
  {
    if data == [] then [] else Sample(parse, data[0]) + Parsed(parse, data[1..])
  }

  /** Step 2 (line 101): the samples that are not below zero.  Each
      non-negative value keeps its multiplicity, each negative one is gone. */
  function NonNegative(vs: seq<real>): (r: seq<real>)
    ensures |r| <= |vs|
    ensures forall v :: multiset(r)[v] == if 0.0 <= v then multiset(vs)[v] else 0
  {
    if vs == [] then []
    else
      assert vs == [vs[0]] + vs[1..];
      (if 0.0 <= vs[0] then [vs[0]] else []) + NonNegative(vs[1..])
  }

  /** Steps 1 and 2 (lines 94-106): the population the deciles are taken
      over.  The sign filter applies unless `includeNegatives` is set. */
  function Population(parse: Parser, data: seq<Row>, includeNegatives: bool): (r: seq<real>)
    ensures |r| <= |data|
    ensures !includeNegatives ==> forall k :: 0 <= k < |r| ==> 0.0 <= r[k]
  {
    var values := Parsed(parse, data);
    if !includeNegatives then
      var kept := NonNegative(values);
      assert forall k :: 0 <= k < |kept| ==> multiset(kept)[kept[k]] > 0;
      kept
    else values
  }

  /** `Math.round(v / 1000) * 1000`, with `Math.round(x) = floor(x + 1/2)`:
      the multiple of 1000 nearest to `v`, halves going up. */
  function RoundThousand(v: real): (r: int)
    ensures r % 1000 == 0
    ensures r as real - 500.0 <= v < r as real + 500.0
  {
    var k := (v / 1000.0 + 0.5).Floor;
    assert k as real <= v / 1000.0 + 0.5 < k as real + 1.0;
    k * 1000
  }

  /** `values[idx]`: a sample, or `undefined` outside the array. */
  function At(values: seq<real>, idx: int): (r: Option<real>)
    ensures r.Some? <==> 0 <= idx < |values|
    ensures r.Some? ==> r.value == values[idx]
  {
    if 0 <= idx < |values| then Some(values[idx]) else None
  }

  /** Rounding a bound: `undefined / 1000` is NaN, and NaN stays NaN. */
  function RoundBound(x: Option<real>): (r: Num)
    ensures r.NaN? <==> x.None?
    ensures x.Some? ==> r.Finite? && r.n % 1000 == 0
    ensures x.Some? ==> r.n as real - 500.0 <= x.value < r.n as real + 500.0
  {
    match x
    case None => NaN
    case Some(v) => Finite(RoundThousand(v))
  }

  /** The row the loop body of lines 129-136 pushes for decile `i`. */
  function BucketRow(values: seq<real>, i: int): (r: DecileRow)
    requires 1 <= i <= Deciles
    ensures r.decile == i
    ensures r.min.Finite? <==> |values| > 0
    ensures r.min.Finite? ==> r.min.n == RoundThousand(values[StartIdx(i, |values|)])
    ensures r.max.NaN? <==> i * |values| < 10
    ensures r.max.Finite? ==> r.max.n == RoundThousand(values[EndIdx(i, |values|)])
  {
    var n := |values|;
    DecileRow(i, RoundBound(At(values, StartIdx(i, n))), RoundBound(At(values, EndIdx(i, n))))
  }

  /** The ten rows of lines 127-137, in decile order. */
  function DecileTable(values: seq<real>): (rows: seq<DecileRow>)
    ensures |rows| == Deciles
    ensures forall j :: 0 <= j < Deciles ==> rows[j].decile == j + 1
  {
    seq(Deciles, j requires 0 <= j < Deciles => BucketRow(values, j + 1))
  }

  /** What the report of a dataset is: nothing when no sample survives the
      filters (lines 111-114), otherwise the ten rows over the sorted
      population. */
  function DecileReport(parse: Parser, data: seq<Row>, includeNegatives: bool): (r: Option<seq<DecileRow>>)
    ensures r.Some? ==> |r.value| == Deciles
    ensures r.Some? ==> forall j :: 0 <= j < Deciles ==> r.value[j].decile == j + 1
  {
    var sorted := SortSeq(Population(parse, data, includeNegatives));
    if |sorted| == 0 then None else Some(DecileTable(sorted))
  }

  /** The decile loop of lines 127-137 over the sorted array. */
  method BuildDeciles(values: array<real>) returns (deciles: seq<DecileRow>)
    ensures deciles == DecileTable(values[..])
  {
    deciles := [];
    for i := 1 to Deciles + 1
      invariant |deciles| == i - 1
      invariant forall j :: 0 <= j < i - 1 ==> deciles[j] == BucketRow(values[..], j + 1)
    {
      var n := values.Length;
      var startIdx := StartIdx(i, n);
      var endIdx := EndIdx(i, n);
      var min := if 0 <= startIdx < n then Finite(RoundThousand(values[startIdx])) else NaN;
      var max := if 0 <= endIdx < n then Finite(RoundThousand(values[endIdx])) else NaN;
      deciles := deciles + [DecileRow(i, min, max)];
    }
  }

  /** `generateDecileReport` (lines 92-141) without the file output: the
      result is `None` where the source writes no report. */
  method GenerateDecileReport(parse: Parser, data: seq<Row>, includeNegatives: bool)
    returns (report: Option<seq<DecileRow>>)
    ensures report == DecileReport(parse, data, includeNegatives)
  {
    var values := Population(parse, data, includeNegatives);
    var a := new real[|values|](k requires 0 <= k < |values| => values[k]);
    assert a[..] == values;
    Sort(a);
    if a.Length == 0 {
      return None;
    }
    var deciles := BuildDeciles(a);
    report := Some(deciles);
  }

  // ---------------------------------------------------------------------
  // Properties of the population

  /** A number is among the parsed samples exactly when some row's raw
      value parses to it. */
  lemma {:induction false} ParsedMembers(parse: Parser, data: seq<Row>, v: real)
    ensures v in Parsed(parse, data) <==>
            exists k :: 0 <= k < |data| && Coerce(parse, data[k].raw) == Some(v)
  {
    if data != [] {
      ParsedMembers(parse, data[1..], v);
      if v in Parsed(parse, data[1..]) {
        var k :| 0 <= k < |data[1..]| && Coerce(parse, data[1..][k].raw) == Some(v);
        assert Coerce(parse, data[k + 1].raw) == Some(v);
      }
      if k :| 0 <= k < |data| && Coerce(parse, data[k].raw) == Some(v) {
        if k > 0 {
          assert Coerce(parse, data[1..][k - 1].raw) == Some(v);
        }
      }
    }
  }

  /** With negatives excluded (the only way the pipeline calls the report,
      line 83), a number is in the population exactly when some row parses
      to it and it is at least zero; zero itself is kept. */
  lemma PopulationMembers(parse: Parser, data: seq<Row>, v: real)
    ensures v in Population(parse, data, false) <==>
            0.0 <= v && exists k :: 0 <= k < |data| && Coerce(parse, data[k].raw) == Some(v)
  {
    ParsedMembers(parse, data, v);
    assert v in Population(parse, data, false) <==> v in multiset(Population(parse, data, false));
    assert v in Parsed(parse, data) <==> v in multiset(Parsed(parse, data));
  }

  /** Parsing a concatenation parses each part. */
  lemma {:induction false} ParsedAppend(parse: Parser, a: seq<Row>, b: seq<Row>)
    ensures Parsed(parse, a + b) == Parsed(parse, a) + Parsed(parse, b)
  {
    if a == [] {
      assert a + b == b;
    } else {
      assert (a + b)[1..] == a[1..] + b;
      ParsedAppend(parse, a[1..], b);
    }
  }

  /** Which numbers parse does not depend on the order of the rows. */
  lemma {:induction false} ParsedPermutation(parse: Parser, d1: seq<Row>, d2: seq<Row>)
    requires multiset(d1) == multiset(d2)
    ensures multiset(Parsed(parse, d1)) == multiset(Parsed(parse, d2))
    decreases |d1|
  {
    assert |d1| == |multiset(d1)| == |multiset(d2)| == |d2|;
    if d1 != [] {
      var x := d1[0];
      assert x in multiset(d2);
      var k :| 0 <= k < |d2| && d2[k] == x;
      var rest := d2[..k] + d2[k + 1..];
      assert multiset(d1[1..]) == multiset(rest) by {
        assert d1 == [x] + d1[1..];
        assert d2 == d2[..k] + [x] + d2[k + 1..];
        assert multiset(d1[1..]) == multiset(d1) - multiset{x};
        assert multiset(rest) == multiset(d2) - multiset{x};
      }
      ParsedPermutation(parse, d1[1..], rest);
      ParsedRemove(parse, d1, 0);
      assert d1[..0] + d1[0 + 1..] == d1[1..];
      ParsedRemove(parse, d2, k);
    }
  }

  /** Taking row `k` out takes exactly its parsed number, if any, out of
      the parsed samples. */
  lemma ParsedRemove(parse: Parser, d: seq<Row>, k: int)
    requires 0 <= k < |d|
    ensures multiset(Parsed(parse, d)) ==
            multiset(Sample(parse, d[k])) + multiset(Parsed(parse, d[..k] + d[k + 1..]))
  {
    var pre, x, post := d[..k], d[k], d[k + 1..];
    var pPre, pX, pPost := Parsed(parse, pre), Sample(parse, x), Parsed(parse, post);
    assert Parsed(parse, d) == pPre + (pX + pPost) by {
      SplitAt(d, k);
      ParsedAround(parse, pre, x, post);
    }
    assert Parsed(parse, pre + post) == pPre + pPost by {
      ParsedAppend(parse, pre, post);
    }
    MultisetMiddle(pPre, pX, pPost);
  }

  /** Parsing around one row: the rows before it, then it, then the rest. */
  lemma ParsedAround(parse: Parser, pre: seq<Row>, x: Row, post: seq<Row>)
    ensures Parsed(parse, pre + ([x] + post)) == Parsed(parse, pre) + (Sample(parse, x) + Parsed(parse, post))
  {
    ParsedAppend(parse, pre, [x] + post);
    assert ([x] + post)[1..] == post;
  }

  /** The report depends only on which rows there are, not on their
      order: the merged dataset may list the files in any order. */
  lemma ReportOrderIndependent(parse: Parser, d1: seq<Row>, d2: seq<Row>, includeNegatives: bool)
    requires multiset(d1) == multiset(d2)
    ensures DecileReport(parse, d1, includeNegatives) == DecileReport(parse, d2, includeNegatives)
  {
    var p1 := Population(parse, d1, includeNegatives);
    var p2 := Population(parse, d2, includeNegatives);
    PopulationPermutation(parse, d1, d2, includeNegatives);
    SortedUnique(SortSeq(p1), SortSeq(p2));
  }

  /** The population's multiset depends only on the multiset of rows. */
  lemma PopulationPermutation(parse: Parser, d1: seq<Row>, d2: seq<Row>, includeNegatives: bool)
    requires multiset(d1) == multiset(d2)
    ensures multiset(Population(parse, d1, includeNegatives)) == multiset(Population(parse, d2, includeNegatives))
  {
    ParsedPermutation(parse, d1, d2);
    if !includeNegatives {
      var n1, n2 := NonNegative(Parsed(parse, d1)), NonNegative(Parsed(parse, d2));
      assert forall v :: multiset(n1)[v] == multiset(n2)[v];
      assert multiset(n1) == multiset(n2);
    }
  }

  // ---------------------------------------------------------------------
  // Properties of the report

  /** No report is written exactly when no sample survives the filters. */
  lemma ReportNoData(parse: Parser, data: seq<Row>, includeNegatives: bool)
    ensures DecileReport(parse, data, includeNegatives).None? <==>
            Population(parse, data, includeNegatives) == []
  {
    var p := Population(parse, data, includeNegatives);
    assert |SortSeq(p)| == |multiset(SortSeq(p))| == |multiset(p)| == |p|;
  }

  /** Each row of the table over N values: the minimum is the rounded
      value at `StartIdx`, always inside the values when N > 0; the maximum
      is the rounded value at `EndIdx`, or NaN exactly when `i * N < 10`
      (every decile with `i * N < 10` reads `values[-1]`). */
  lemma TableRow(values: seq<real>, j: int)
    requires |values| > 0 && 0 <= j < Deciles
    ensures var n := |values|;
            var row := DecileTable(values)[j];
            && row.decile == j + 1
            && row.min == Finite(RoundThousand(values[StartIdx(j + 1, n)]))
            && (row.max == NaN <==> (j + 1) * n < 10)
            && (row.max != NaN ==> row.max == Finite(RoundThousand(values[EndIdx(j + 1, n)])))
  {
    assert DecileTable(values)[j] == BucketRow(values, j + 1);
  }

  /** A bucket that ends before it starts ends exactly one index before
      its start, so over sorted values its maximum, when it is a number,
      is at most its minimum: the written range is inverted or a single
      point, never a proper range. */
  lemma InvertedBucket(values: seq<real>, j: int)
    requires Sorted(values) && |values| > 0 && 0 <= j < Deciles
    requires EndIdx(j + 1, |values|) < StartIdx(j + 1, |values|)
    ensures EndIdx(j + 1, |values|) == StartIdx(j + 1, |values|) - 1
    ensures var row := DecileTable(values)[j];
            row.max.Finite? ==> row.max.n <= row.min.n
  {
    var n := |values|;
    MulBound(j, j + 1, n);
    TableRow(values, j);
    var row := DecileTable(values)[j];
    if row.max.Finite? {
      RoundMonotone(values[EndIdx(j + 1, n)], values[StartIdx(j + 1, n)]);
    }
  }

  /** Every bound of the table is a multiple of 1000 (or NaN), and none is
      below zero when no value is. */
  lemma TableBoundsRounded(values: seq<real>)
    requires |values| > 0
    ensures forall j :: 0 <= j < Deciles ==>
              var row := DecileTable(values)[j];
              && (row.min.Finite? ==> row.min.n % 1000 == 0)
              && (row.max.Finite? ==> row.max.n % 1000 == 0)
    ensures (forall k :: 0 <= k < |values| ==> 0.0 <= values[k]) ==>
            forall j :: 0 <= j < Deciles ==>
              var row := DecileTable(values)[j];
              && (row.min.Finite? ==> row.min.n >= 0)
              && (row.max.Finite? ==> row.max.n >= 0)
  {
    forall j | 0 <= j < Deciles {
      TableRow(values, j);
    }
  }

  /** Every bound the report writes is a multiple of 1000 (or NaN), and
      none is below zero, since negatives are excluded. */
  lemma ReportBoundsRounded(parse: Parser, data: seq<Row>)
    requires DecileReport(parse, data, false).Some?
    ensures forall j :: 0 <= j < Deciles ==>
              var row := DecileReport(parse, data, false).value[j];
              && (row.min.Finite? ==> row.min.n % 1000 == 0 && row.min.n >= 0)
              && (row.max.Finite? ==> row.max.n % 1000 == 0 && row.max.n >= 0)
  {
    SortedNonNegative(parse, data);
    TableBoundsRounded(SortSeq(Population(parse, data, false)));
  }

  /** The sorted population holds no negative sample when negatives are
      excluded. */
  lemma SortedNonNegative(parse: Parser, data: seq<Row>)
    ensures forall k :: 0 <= k < |SortSeq(Population(parse, data, false))| ==>
              0.0 <= SortSeq(Population(parse, data, false))[k]
  {
    var p := Population(parse, data, false);
    var sorted := SortSeq(p);
    forall k | 0 <= k < |sorted| ensures 0.0 <= sorted[k] {
      assert sorted[k] in multiset(p);
    }
  }

  /** For N >= 10 every bound is a number, each decile's minimum is at most
      its maximum, and each maximum is at most the next decile's minimum,
      so minima and maxima never decrease from decile 1 to decile 10. */
  lemma TableOrdered(values: seq<real>)
    requires Sorted(values) && |values| >= 10
    ensures var rows := DecileTable(values);
            && (forall j :: 0 <= j < Deciles ==> rows[j].min.Finite? && rows[j].max.Finite?)
            && (forall j :: 0 <= j < Deciles ==> rows[j].min.n <= rows[j].max.n)
            && (forall j :: 0 <= j < Deciles - 1 ==> rows[j].max.n <= rows[j + 1].min.n)
  {
    var n := |values|;
    var rows := DecileTable(values);
    forall j | 0 <= j < Deciles
      ensures rows[j].min.Finite? && rows[j].max.Finite?
      ensures rows[j].min.n <= rows[j].max.n
    {
      TableRow(values, j);
      BucketSize(j + 1, n);
      RoundMonotone(values[StartIdx(j + 1, n)], values[EndIdx(j + 1, n)]);
    }
    forall j | 0 <= j < Deciles - 1
      ensures rows[j].max.n <= rows[j + 1].min.n
    {
      TableRow(values, j);
      TableRow(values, j + 1);
      BucketSize(j + 1, n);
      BucketsAdjacent(j + 1, n);
      RoundMonotone(values[EndIdx(j + 1, n)], values[StartIdx(j + 2, n)]);
    }
  }

  /** The report over at least ten samples is ordered as `TableOrdered`
      says. */
  lemma ReportOrdered(parse: Parser, data: seq<Row>, includeNegatives: bool)
    requires |Population(parse, data, includeNegatives)| >= 10
    ensures DecileReport(parse, data, includeNegatives).Some?
    ensures var rows := DecileReport(parse, data, includeNegatives).value;
            && (forall j :: 0 <= j < Deciles ==> rows[j].min.Finite? && rows[j].max.Finite?)
            && (forall j :: 0 <= j < Deciles ==> rows[j].min.n <= rows[j].max.n)
            && (forall j :: 0 <= j < Deciles - 1 ==> rows[j].max.n <= rows[j + 1].min.n)
  {
    var p := Population(parse, data, includeNegatives);
    assert |SortSeq(p)| == |multiset(SortSeq(p))| == |multiset(p)| == |p|;
    TableOrdered(SortSeq(p));
  }

  /** Rounding to a multiple of 1000 never reverses the order of two values. */
  lemma RoundMonotone(v: real, w: real)
    requires v <= w
    ensures RoundThousand(v) <= RoundThousand(w)
  {
    var a, b := RoundThousand(v), RoundThousand(w);
    if a > b {
      assert a >= b + 1000 by {
        assert a == (a / 1000) * 1000 && b == (b / 1000) * 1000;
        assert a / 1000 > b / 1000;
      }
      assert false;
    }
  }

  /** `RoundThousand` picks the only multiple of 1000 within half a
      thousand of the value (the lower end included, the upper excluded). */
  lemma RoundThousandUnique(v: real, r: int)
    requires r % 1000 == 0
    requires r as real - 500.0 <= v < r as real + 500.0
    ensures RoundThousand(v) == r
  {
  }

  /** Ten samples after the filters: every decile holds one sample, so
      decile 3 is 2200, written as 2000, and decile 4 is 2800, written as
      3000. */
  lemma TenSampleExample()
    ensures var rows := DecileTable([0.0, 1000.0, 2200.0, 2800.0, 4100.0, 4900.0, 6000.0, 7000.0, 8800.0, 9900.0]);
            && rows[0] == DecileRow(1, Finite(0), Finite(0))
            && rows[2] == DecileRow(3, Finite(2000), Finite(2000))
            && rows[3] == DecileRow(4, Finite(3000), Finite(3000))
            && rows[9] == DecileRow(10, Finite(10000), Finite(10000))
  {
  }

  /** Three samples: deciles 1 to 3 read `values[-1]`, so their maximum
      is NaN; deciles 1 to 4 share the first sample as their minimum; and
      decile 5 ends before it starts, so its minimum exceeds its maximum. */
  lemma SmallPopulationExample()
    ensures var rows := DecileTable([100.0, 2600.0, 4400.0]);
            && rows[0] == DecileRow(1, Finite(0), NaN)
            && rows[1] == DecileRow(2, Finite(0), NaN)
            && rows[2] == DecileRow(3, Finite(0), NaN)
            && rows[3] == DecileRow(4, Finite(0), Finite(0))
            && rows[4] == DecileRow(5, Finite(3000), Finite(0))
            && rows[9] == DecileRow(10, Finite(4000), Finite(4000))
  {
  }

}
