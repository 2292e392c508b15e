/**
 * `analyze_ranking()` up to the point where the chart is drawn: the missing
 * column check, column selection, coercion column by column, dropping empty
 * rows, the mean rank per column, the ascending sort and the rename.
 */
module Analysis {
  import opened Wrappers
  import opened Sequences
  import opened Columns
  import opened Frame
  import opened Aggregate
  import opened Ordering

  /** What the routine ends with: the warning naming the absent ranking
      columns, or the mean-rank series that is plotted and printed. */
  datatype Outcome = MissingColumnsWarning(missing: seq<string>) | MeanRanks(means: seq<Entry>)

  /** The coerced ranking matrix of the whole table, before any row is dropped. */
  function CoercedRankings(t: Table): (m: seq<Row>)
    requires WellFormed(t) && MissingColumns(t.header) == []
    ensures |m| == |t.rows| && Wide(m, |RequiredColumns| - 1)
    ensures forall i :: 0 <= i < |m| ==> |m[i]| == |RequiredColumns|
  {
    CoerceMatrix(Select(t))
  }

  /** Reference result: one entry per discipline, in the order of the mapping,
      holding the mean of that discipline's coerced column over ALL rows. */
  function ExpectedRanking(t: Table): (r: seq<Entry>)
    requires WellFormed(t) && MissingColumns(t.header) == []
    ensures |r| == |RequiredColumns| && DistinctKeys(r)
  {
    RankingColumnsShape();
    var m := CoercedRankings(t);
    seq(|RequiredColumns|, k requires 0 <= k < |RequiredColumns| =>
      Entry(DisciplineNames[RequiredColumns[k]], Mean(Column(m, k))))
  }

  /** The means, sorted and renamed, of a coerced ranking matrix after its
      empty rows are dropped (lines 51-58 of the routine). */
  function RankMeans(m: seq<Row>): (r: seq<Entry>)
    requires Wide(m, |RequiredColumns| - 1)
    ensures |r| == |RequiredColumns| && DistinctKeys(r) && SortedByMean(r)
    ensures forall i :: 0 <= i < |r| ==> r[i].key in DisciplineNames.Values
  {
    var d := DropEmptyRows(m);
    DropKeepsWide(m, |RequiredColumns| - 1);
    var means := ColumnMeans(d);
    var sorted := SortByMean(means);
    SortedMeansHaveCodes(d);
    RankingColumnsShape();
    assert DistinctKeys(means);
    PermutationKeepsDistinctKeys(sorted, means);
    assert |sorted| == |multiset(means)| == |means|;
    Rename(sorted)
  }

  /** Every key of the sorted column means is a code of the mapping. */
  lemma SortedMeansHaveCodes(m: seq<Row>)
    requires Wide(m, |RequiredColumns| - 1)
    ensures KeysAreCodes(SortByMean(ColumnMeans(m)))
  {
    RankingColumnsShape();
    var means := ColumnMeans(m);
    forall e | e in SortByMean(means) ensures e.key in DisciplineNames {
      assert e in multiset(means);
    }
  }

  /** Reading the fully coerced frame as numbers gives the coerced table. */
  lemma CoercedFrameView(t: Table, frame: seq<seq<Cell>>)
    requires WellFormed(t) && MissingColumns(t.header) == []
    requires |frame| == |Select(t)|
    requires forall i :: 0 <= i < |frame| ==> |frame[i]| == |RequiredColumns|
    requires forall i, k :: 0 <= i < |frame| && 0 <= k < |RequiredColumns| ==>
               frame[i][k] == ToCell(Coerce(Select(t)[i][k]))
    ensures Numeric(frame) && NumericView(frame) == CoercedRankings(t)
  {
    var view, expected := NumericView(frame), CoercedRankings(t);
    forall i | 0 <= i < |view| ensures view[i] == expected[i] {
      assert |view[i]| == |expected[i]|;
      forall k | 0 <= k < |view[i]| ensures view[i][k] == expected[i][k] {
        assert ToCell(view[i][k]) == ToCell(expected[i][k]);
      }
    }
  }

  /** Renaming the column means of the coerced table, in column order, gives
      the reference series. */
  lemma RenamedMeansAreReference(t: Table)
    requires WellFormed(t) && MissingColumns(t.header) == []
    ensures KeysAreCodes(ColumnMeans(CoercedRankings(t)))
    ensures Rename(ColumnMeans(CoercedRankings(t))) == ExpectedRanking(t)
  {
    RankingColumnsShape();
    var m := CoercedRankings(t);
    var means := ColumnMeans(m);
    assert KeysAreCodes(means);
    var renamed, expected := Rename(means), ExpectedRanking(t);
    forall k | 0 <= k < |RequiredColumns| ensures renamed[k] == expected[k] {
      assert Wide(m, k);
      assert means[k] == Entry(RequiredColumns[k], Mean(Column(m, k)));
      assert expected[k] == Entry(DisciplineNames[RequiredColumns[k]], Mean(Column(m, k)));
    }
  }

  /** The sorted, renamed means of the coerced table are the seven disciplines,
      each once, with their means over all rows, in ascending order of mean. */
  lemma RankMeansMeetReference(t: Table)
    requires WellFormed(t) && MissingColumns(t.header) == []
    ensures var r := RankMeans(CoercedRankings(t));
            && |r| == |RequiredColumns|
            && DistinctKeys(r)
            && SortedByMean(r)
            && multiset(r) == multiset(ExpectedRanking(t))
  {
    var m := CoercedRankings(t);
    DropKeepsColumnMeans(m);
    var columnMeans := ColumnMeans(m);
    var sorted := SortByMean(columnMeans);
    RenamedMeansAreReference(t);
    RenamePermutation(sorted, columnMeans);
    var r := Rename(sorted);
    assert RankMeans(m) == r;
    PermutationKeepsDistinctKeys(r, ExpectedRanking(t));
    assert |r| == |sorted| == |multiset(columnMeans)| == |columnMeans|;
  }

  /** The aggregation of `analyze_ranking()`. A table lacking a ranking column
      yields only the warning. Otherwise the result holds each of the seven
      disciplines exactly once with its mean rank over the coerced cells of
      all rows (dropping the empty rows changes no mean), sorted ascending by
      mean with missing means last. */
  method AnalyzeRanking(t: Table) returns (out: Outcome)
    requires WellFormed(t)
    ensures out.MissingColumnsWarning? <==> exists k :: 0 <= k < |RequiredColumns| && RequiredColumns[k] !in t.header
    ensures out.MissingColumnsWarning? ==> out.missing == MissingColumns(t.header)
    ensures out.MeanRanks? ==>
              && |out.means| == |RequiredColumns|
              && DistinctKeys(out.means)
              && SortedByMean(out.means)
              && multiset(out.means) == multiset(ExpectedRanking(t))
  {
    var missing := MissingColumns(t.header);
    if missing != [] {
      return MissingColumnsWarning(missing);
    }

    var selected := Select(t);
    var frame := selected;
    for j := 0 to |RequiredColumns|
      invariant |frame| == |selected|
      invariant forall i :: 0 <= i < |frame| ==> |frame[i]| == |RequiredColumns|
      invariant forall i, k :: 0 <= i < |frame| && 0 <= k < |RequiredColumns| ==>
                  frame[i][k] == if k < j then ToCell(Coerce(selected[i][k])) else selected[i][k]
    {
      frame := CoerceColumn(frame, j);
    }

    CoercedFrameView(t, frame);
    var rankings := NumericView(frame);
    rankings := DropEmptyRows(rankings);
    DropKeepsWide(CoercedRankings(t), |RequiredColumns| - 1);
    var meanRanks := SortByMean(ColumnMeans(rankings));
    RankMeansMeetReference(t);
    SortedMeansHaveCodes(rankings);
    meanRanks := Rename(meanRanks);
    out := MeanRanks(meanRanks);
  }
}
