/**
 * The numeric ranking matrix after coercion: dropping all-missing rows
 * (`dropna(how='all')`) and the per-column mean over non-missing values
 * (`DataFrame.mean()`).
 */
module Aggregate {
  import opened Wrappers
  import opened Sequences
  import opened Columns

  /** One respondent's coerced rankings, one cell per ranking column. */
  type Row = seq<Option<real>>

  /** A (key, mean) pair of the mean-rank series; a `None` mean is NaN. */
  datatype Entry = Entry(key: string, mean: Option<real>)

  /** The row holds at least one number. */
  predicate HasValue(row: Row) {
    exists k :: 0 <= k < |row| && row[k].Some?
  }

  /** Every row has more than `k` cells. */
  predicate Wide(m: seq<Row>, k: nat) {
    forall i :: 0 <= i < |m| ==> k < |m[i]|
  }

  /** `dropna(how='all')`: the rows with at least one number, in their order. */
  function DropEmptyRows(m: seq<Row>): (r: seq<Row>)
    ensures IsSubsequence(r, m)
    ensures forall i :: 0 <= i < |r| ==> HasValue(r[i])
    ensures forall row :: multiset(r)[row] == if HasValue(row) then multiset(m)[row] else 0
  {
    if m == [] then []
    else
      var rest := DropEmptyRows(m[1..]);
      assert m == [m[0]] + m[1..];
      if HasValue(m[0]) then [m[0]] + rest else rest
  }

  /** Dropping empty rows keeps every row that has a number and never adds rows. */
  lemma DropEmptyRowsKeeps(m: seq<Row>)
    ensures |DropEmptyRows(m)| <= |m|
    ensures forall i :: 0 <= i < |m| && HasValue(m[i]) ==> m[i] in DropEmptyRows(m)
  {
    SubsequenceLength(DropEmptyRows(m), m);
    forall i | 0 <= i < |m| && HasValue(m[i]) ensures m[i] in DropEmptyRows(m) {
      assert m[i] in multiset(m);
    }
  }

  /** Column `k` of the matrix, top to bottom. */
  function Column(m: seq<Row>, k: nat): (c: seq<Option<real>>)
    requires Wide(m, k)
    ensures |c| == |m| && forall i :: 0 <= i < |m| ==> c[i] == m[i][k]
  {
    seq(|m|, i requires 0 <= i < |m| => m[i][k])
  }

  /** Sum of the numbers in a column; missing cells add nothing. */
  function Total(col: seq<Option<real>>): real {
    if col == [] then 0.0
    else (match col[0] case Some(v) => v case None => 0.0) + Total(col[1..])
  }

  /** How many cells of a column hold a number. */
  function Count(col: seq<Option<real>>): nat {
    if col == [] then 0
    else (if col[0].Some? then 1 else 0) + Count(col[1..])
  }

  /** The mean of the numbers in a column; `None` (NaN) when it has none. */
  function Mean(col: seq<Option<real>>): (r: Option<real>)
    ensures r.None? <==> Present(col) == []
    ensures r.Some? ==> r.value == Sum(Present(col)) / |Present(col)| as real
  {
    TotalIsSumOfPresent(col);
    if Count(col) == 0 then None else Some(Total(col) / Count(col) as real)
  }

  // ---- An independent description of the mean ----

  /** The numbers of a column, in order, with the missing cells left out. */
  function Present(col: seq<Option<real>>): (vs: seq<real>)
    ensures |vs| <= |col|
    ensures forall v :: v in vs <==> Some(v) in col
  {
    if col == [] then []
    else
      var rest := Present(col[1..]);
      assert forall o :: o in col <==> o == col[0] || o in col[1..];
      match col[0]
      case Some(v) => [v] + rest
      case None => rest
  }

  function Sum(vs: seq<real>): real {
    if vs == [] then 0.0 else vs[0] + Sum(vs[1..])
  }

  lemma {:induction false} TotalIsSumOfPresent(col: seq<Option<real>>)
    ensures Total(col) == Sum(Present(col))
    ensures Count(col) == |Present(col)|
  {
    if col != [] {
      TotalIsSumOfPresent(col[1..]);
      if col[0].Some? {
        assert Present(col)[1..] == Present(col[1..]);
      }
    }
  }

  /** The mean is the sum of the non-missing values divided by their number;
      missing cells are ignored, not counted as zero. */
  lemma MeanOfPresentValues(col: seq<Option<real>>)
    ensures Mean(col) == if Present(col) == [] then None
                         else Some(Sum(Present(col)) / |Present(col)| as real)
  {
    TotalIsSumOfPresent(col);
  }

  lemma {:induction false} TotalBounds(col: seq<Option<real>>, lo: real, hi: real)
    requires forall v :: Some(v) in col ==> lo <= v <= hi
    ensures lo * Count(col) as real <= Total(col) <= hi * Count(col) as real
  {
    if col != [] {
      assert forall o :: o in col[1..] ==> o in col;
      TotalBounds(col[1..], lo, hi);
    }
  }

  lemma PositiveFactor(x: real, n: real)
    requires n > 0.0
    ensures x * n >= 0.0 ==> x >= 0.0
  {
  }

  lemma QuotientBounds(t: real, n: real, lo: real, hi: real)
    requires n > 0.0 && lo * n <= t <= hi * n
    ensures lo <= t / n <= hi
  {
    var q := t / n;
    assert q * n == t;
    PositiveFactor(q - lo, n);
    PositiveFactor(hi - q, n);
  }

  /** When every ranking lies in [lo, hi], so does the mean. */
  lemma MeanWithinBounds(col: seq<Option<real>>, lo: real, hi: real)
    requires forall v :: Some(v) in col ==> lo <= v <= hi
    requires Mean(col).Some?
    ensures lo <= Mean(col).value <= hi
  {
    MeanIsRatio(col);
    TotalBounds(col, lo, hi);
    QuotientBounds(Total(col), Count(col) as real, lo, hi);
  }

  lemma MeanIsRatio(col: seq<Option<real>>)
    requires Mean(col).Some?
    ensures Count(col) > 0 && Mean(col).value == Total(col) / Count(col) as real
  {
  }

  /** The mean of Q8_1 = [1, 2, missing] is 1.5. */
  lemma AuditingScenario()
    ensures Mean([Some(1.0), Some(2.0), None]) == Some(1.5)
  {
    var col: seq<Option<real>> := [Some(1.0), Some(2.0), None];
    assert col[1..][1..][1..] == [];
  }

  // ---- Dropping empty rows does not move any mean ----

  lemma DropKeepsWide(m: seq<Row>, k: nat)
    requires Wide(m, k)
    ensures Wide(DropEmptyRows(m), k)
  {
    var d := DropEmptyRows(m);
    forall i | 0 <= i < |d| ensures k < |d[i]| {
      assert d[i] in multiset(d);
      assert d[i] in m;
    }
  }

  lemma ColumnCons(m: seq<Row>, k: nat)
    requires Wide(m, k) && m != []
    ensures Wide(m[1..], k) && Column(m, k) == [m[0][k]] + Column(m[1..], k)
  {
  }

  lemma {:induction false} DropKeepsTotalAndCount(m: seq<Row>, k: nat)
    requires Wide(m, k) && Wide(DropEmptyRows(m), k)
    ensures Total(Column(DropEmptyRows(m), k)) == Total(Column(m, k))
    ensures Count(Column(DropEmptyRows(m), k)) == Count(Column(m, k))
  {
    if m != [] {
      var rest := DropEmptyRows(m[1..]);
      ColumnCons(m, k);
      DropKeepsWide(m[1..], k);
      DropKeepsTotalAndCount(m[1..], k);
      if HasValue(m[0]) {
        assert DropEmptyRows(m) == [m[0]] + rest;
        ColumnCons([m[0]] + rest, k);
        assert ([m[0]] + rest)[1..] == rest;
      } else {
        assert DropEmptyRows(m) == rest;
        assert m[0][k].None?;
      }
    }
  }

  /** Dropping the all-missing rows leaves the mean of every column unchanged. */
  lemma DropKeepsMean(m: seq<Row>, k: nat)
    requires Wide(m, k)
    ensures Wide(DropEmptyRows(m), k)
    ensures Mean(Column(DropEmptyRows(m), k)) == Mean(Column(m, k))
  {
    DropKeepsWide(m, k);
    DropKeepsTotalAndCount(m, k);
  }

  /** `df_rankings.mean()`: one entry per ranking column, labelled with its
      code, in column order, holding the mean over the non-missing values. */
  function ColumnMeans(m: seq<Row>): (r: seq<Entry>)
    requires Wide(m, |RequiredColumns| - 1)
    ensures |r| == |RequiredColumns|
    ensures forall k :: 0 <= k < |r| ==> r[k].key == RequiredColumns[k]
    ensures forall k :: 0 <= k < |r| ==>
              var vs := Present(Column(m, k));
              r[k].mean == if vs == [] then None else Some(Sum(vs) / |vs| as real)
  {
    forall k | 0 <= k < |RequiredColumns| ensures Wide(m, k) {}
    forall k | 0 <= k < |RequiredColumns|
      ensures var vs := Present(Column(m, k));
              Mean(Column(m, k)) == if vs == [] then None else Some(Sum(vs) / |vs| as real)
    {
      MeanOfPresentValues(Column(m, k));
    }
    seq(|RequiredColumns|, k requires 0 <= k < |RequiredColumns| =>
      Entry(RequiredColumns[k], Mean(Column(m, k))))
  }

  /** The column means are the same before and after dropping empty rows. */
  lemma DropKeepsColumnMeans(m: seq<Row>)
    requires Wide(m, |RequiredColumns| - 1)
    ensures Wide(DropEmptyRows(m), |RequiredColumns| - 1)
    ensures ColumnMeans(DropEmptyRows(m)) == ColumnMeans(m)
  {
    DropKeepsMean(m, |RequiredColumns| - 1);
    forall k | 0 <= k < |RequiredColumns| ensures Wide(m, k) {}
    forall k | 0 <= k < |RequiredColumns|
      ensures Mean(Column(DropEmptyRows(m), k)) == Mean(Column(m, k))
    {
      DropKeepsMean(m, k);
    }
  }
}
