/**
 * The collector of one unit of work (tasks/find-deciles.js:52-76): every
 * parsed CSV record yields one row holding its `NEWID` and the raw text of
 * the target column, and the per-file row lists are concatenated in the
 * order the directory listing gave the files.
 *
 * Reading the directory and the CSV streams is not part of this model: a
 * file arrives here already parsed, as the sequence of its records, each a
 * map from header name to cell text.
 */
module Collector {
  import opened Wrappers
  import opened Seqs

  /** One parsed CSV data line: header name to cell text. */
  type Record = map<string, string>

  /** A row of the merged dataset (lines 66-69). Either field is absent
      (`undefined`) when the record has no such column. */
  datatype Row = Row(newId: Option<string>, raw: Option<string>)

  /** Name of the identifier column (line 67). */
  const IdColumn: string := "NEWID"

  /** `row[name]`: the cell text, or absent. */
  function Field(rec: Record, name: string): (r: Option<string>)
    ensures r.Some? <==> name in rec
    ensures r.Some? ==> rec[name] == r.value
  {
    if name in rec then Some(rec[name]) else None
  }

  /** The row pushed for one record (lines 63-69): the raw text is kept
      as it is; the `parseFloat` of line 64 is never used. */
  function ExtractRow(rec: Record, targetVar: string): (r: Row)
    ensures r.raw.Some? <==> targetVar in rec
    ensures r.raw.Some? ==> r.raw.value == rec[targetVar]
    ensures r.newId.Some? <==> IdColumn in rec
    ensures r.newId.Some? ==> r.newId.value == rec[IdColumn]
  {
    Row(Field(rec, IdColumn), Field(rec, targetVar))
  }

  /** The rows collected from one file, in record order. */
  function ExtractFile(recs: seq<Record>, targetVar: string): (rows: seq<Row>)
    ensures |rows| == |recs|
    ensures forall j :: 0 <= j < |recs| ==> rows[j].raw == Field(recs[j], targetVar)
    ensures forall j :: 0 <= j < |recs| ==> rows[j].newId == Field(recs[j], IdColumn)
  {
    seq(|recs|, j requires 0 <= j < |recs| => ExtractRow(recs[j], targetVar))
  }

  /** The rows collected from every file, file by file. */
  function ExtractFiles(files: seq<seq<Record>>, targetVar: string): (r: seq<seq<Row>>)
    ensures |r| == |files|
    ensures forall f :: 0 <= f < |files| ==> r[f] == ExtractFile(files[f], targetVar)
  {
    seq(|files|, f requires 0 <= f < |files| => ExtractFile(files[f], targetVar))
  }

  /** Reference value of the merged dataset: the concatenation of the
      per-file row lists in enumeration order. */
  function Flatten(files: seq<seq<Row>>): (r: seq<Row>)
    ensures forall row :: row in r <==> exists f :: 0 <= f < |files| && row in files[f]
  {
    if files == [] then [] else files[0] + Flatten(files[1..])
  }

  /** Total number of rows over all files. */
  function TotalRows(files: seq<seq<Row>>): (r: nat)
  {
    if files == [] then 0 else |files[0]| + TotalRows(files[1..])
  }

  /** Position in the merged dataset of the first row of file `f`. */
  function Offset(files: seq<seq<Row>>, f: int): (r: nat)
    requires 0 <= f <= |files|
  {
    TotalRows(files[..f])
  }

  /** Merging two batches of files one after the other is the same as
      merging them all at once; this is what lets the merge loop grow its
      result one file at a time. */
  lemma {:induction false} FlattenAppend(xs: seq<seq<Row>>, ys: seq<seq<Row>>)
    ensures Flatten(xs + ys) == Flatten(xs) + Flatten(ys)
  {
    if xs == [] {
      assert xs + ys == ys;
    } else {
      assert (xs + ys)[1..] == xs[1..] + ys;
      FlattenAppend(xs[1..], ys);
    }
  }

  /** The merged dataset holds exactly as many rows as all files together. */
  lemma {:induction false} FlattenLength(files: seq<seq<Row>>)
    ensures |Flatten(files)| == TotalRows(files)
  {
    if files != [] {
      FlattenLength(files[1..]);
    }
  }

  /** Row `j` of file `f` sits, unchanged, at `Offset(files, f) + j` of the
      merged dataset: every file's rows appear in order, after the rows of
      every earlier file. */
  lemma FlattenAt(files: seq<seq<Row>>, f: int, j: int)
    requires 0 <= f < |files| && 0 <= j < |files[f]|
    ensures Offset(files, f) + j < |Flatten(files)|
    ensures Flatten(files)[Offset(files, f) + j] == files[f][j]
  {
    assert files[f..] == [files[f]] + files[f + 1..];
    assert files == files[..f] + files[f..];
    FlattenAppend(files[..f], files[f..]);
    FlattenAppend([files[f]], files[f + 1..]);
    assert Flatten([files[f]]) == files[f] by {
      assert [files[f]][1..] == [];
    }
    FlattenLength(files[..f]);
  }

  /** The merged rows, read back against the CSV records they came from:
      row `j` of file `f` keeps the identifier and the raw target text of
      record `j` of that file (lines 62-69 and 75). */
  lemma MergedRowIsRecord(files: seq<seq<Record>>, targetVar: string, f: int, j: int)
    requires 0 <= f < |files| && 0 <= j < |files[f]|
    ensures var extracted := ExtractFiles(files, targetVar);
            var merged := Flatten(extracted);
            && Offset(extracted, f) + j < |merged|
            && merged[Offset(extracted, f) + j].raw == Field(files[f][j], targetVar)
            && merged[Offset(extracted, f) + j].newId == Field(files[f][j], IdColumn)
  {
    FlattenAt(ExtractFiles(files, targetVar), f, j);
  }

  /** Enumerating the same files in another order changes the order of the
      merged rows but not which rows there are. */
  lemma {:induction false} FlattenPermutation(xs: seq<seq<Row>>, ys: seq<seq<Row>>)
    requires multiset(xs) == multiset(ys)
    ensures multiset(Flatten(xs)) == multiset(Flatten(ys))
    decreases |xs|
  {
    assert |xs| == |multiset(xs)| == |multiset(ys)| == |ys|;
    if xs != [] {
      var x := xs[0];
      assert x in multiset(ys);
      var k :| 0 <= k < |ys| && ys[k] == x;
      var rest := ys[..k] + ys[k + 1..];
      assert multiset(xs[1..]) == multiset(rest) by {
        assert xs == [x] + xs[1..];
        assert ys == ys[..k] + [x] + ys[k + 1..];
        assert multiset(xs[1..]) == multiset(xs) - multiset{x};
        assert multiset(rest) == multiset(ys) - multiset{x};
      }
      FlattenPermutation(xs[1..], rest);
      FlattenRemove(ys, k);
    }
  }

  /** Taking file `k` out of the list takes exactly its rows out of the
      merged dataset. */
  lemma FlattenRemove(ys: seq<seq<Row>>, k: int)
    requires 0 <= k < |ys|
    ensures multiset(Flatten(ys)) == multiset(ys[k]) + multiset(Flatten(ys[..k] + ys[k + 1..]))
  {
    var pre, x, post := ys[..k], ys[k], ys[k + 1..];
    var rest := pre + post;
    assert Flatten(ys) == Flatten(pre) + (x + Flatten(post)) by {
      assert ys[k..] == [x] + post;
      assert ys == pre + ys[k..];
      FlattenAppend(pre, ys[k..]);
      FlattenAppend([x], post);
      assert Flatten([x]) == x by {
        assert [x][1..] == [];
      }
    }
    assert Flatten(rest) == Flatten(pre) + Flatten(post) by {
      FlattenAppend(pre, post);
    }
    MultisetMiddle(Flatten(pre), x, Flatten(post));
  }
}
