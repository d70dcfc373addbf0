/**
 * One unit of work of `runPipeline` (tasks/find-deciles.js:49-83), without
 * its file system and CSV I/O: collect the rows of every input file, merge
 * them, and hand the merged dataset to the decile report.
 */
module Pipeline {
  import opened Wrappers
  import opened Collector
  import opened Deciles

  /** The report call of line 83 passes three arguments, so the fourth
      parameter `includeNegatives` of line 92 is `undefined`, which is
      falsy: negatives are always dropped, whatever the module-level flag
      of line 17 says. */
  const IncludeNegativesAtCall := false

  /** The body of one iteration of the unit loop: the merge loop of lines
      52-76, then the report of line 83.  `files` holds the parsed records
      of each CSV file in directory order. */
  method RunUnit(parse: Parser, files: seq<seq<Record>>, targetVar: string)
    returns (combined: seq<Row>, report: Option<seq<DecileRow>>)
    ensures combined == Flatten(ExtractFiles(files, targetVar))
    ensures report == DecileReport(parse, combined, IncludeNegativesAtCall)
  {
    ghost var extracted := ExtractFiles(files, targetVar);
    combined := [];
    for f := 0 to |files|
      invariant combined == Flatten(extracted[..f])
    {
      var data := ExtractFile(files[f], targetVar);
      assert extracted[..f + 1] == extracted[..f] + [data];
      FlattenAppend(extracted[..f], [data]);
      assert Flatten([data]) == data by {
        assert [data][1..] == [];
      }
      combined := combined + data;
    }
    assert extracted[..|files|] == extracted;
    report := GenerateDecileReport(parse, combined, IncludeNegativesAtCall);
  }

  /** The unit's report does not depend on the order in which the
      directory listing returns the files. */
  lemma UnitReportFileOrderIndependent(parse: Parser, xs: seq<seq<Row>>, ys: seq<seq<Row>>)
    requires multiset(xs) == multiset(ys)
    ensures DecileReport(parse, Flatten(xs), IncludeNegativesAtCall) ==
            DecileReport(parse, Flatten(ys), IncludeNegativesAtCall)
  {
    FlattenPermutation(xs, ys);
    ReportOrderIndependent(parse, Flatten(xs), Flatten(ys), IncludeNegativesAtCall);
  }

  /** Whatever the input, every sample the unit's deciles are taken over
      parsed from some merged row and is at least zero. */
  lemma UnitPopulationNonNegative(parse: Parser, files: seq<seq<Record>>, targetVar: string, v: real)
    requires v in Population(parse, Flatten(ExtractFiles(files, targetVar)), IncludeNegativesAtCall)
    ensures 0.0 <= v
    ensures exists row :: row in Flatten(ExtractFiles(files, targetVar)) && Coerce(parse, row.raw) == Some(v)
  {
    var merged := Flatten(ExtractFiles(files, targetVar));
    PopulationMembers(parse, merged, v);
    var k :| 0 <= k < |merged| && Coerce(parse, merged[k].raw) == Some(v);
    assert merged[k] in merged;
  }
}
