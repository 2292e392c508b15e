/**
 * The fixed survey mapping from ranking-question codes to discipline names,
 * and the check that every ranking column is present in the table.
 */
module Columns {
  import opened Sequences

  /** The keys of the mapping in their order of definition (`list(ranking_columns.keys())`). */
  const RequiredColumns: seq<string> :=
    ["Q8_1", "Q8_2", "Q8_3", "Q8_4", "Q8_5", "Q8_6", "Q8_7"]

  /** The mapping from column code to discipline name. */
  const DisciplineNames: map<string, string> :=
    map[
      "Q8_1" := "Auditing",
      "Q8_2" := "Taxation",
      "Q8_3" := "Financial Accounting",
      "Q8_4" := "Management Accounting",
      "Q8_5" := "Information Systems",
      "Q8_6" := "Data Analytics",
      "Q8_7" := "Other Business Management"
    ]

  /** The mapping has exactly seven entries, listed without repetition, and
      no two codes share a discipline name. */
  lemma RankingColumnsShape()
    ensures |RequiredColumns| == 7 && Distinct(RequiredColumns)
    ensures forall c :: c in DisciplineNames <==> c in RequiredColumns
    ensures forall i, j :: 0 <= i < j < |RequiredColumns| ==>
              DisciplineNames[RequiredColumns[i]] != DisciplineNames[RequiredColumns[j]]
  {
  }

  /** The elements of `required` that do not occur in `present`, in the order of `required`. */
  function MissingFrom(required: seq<string>, present: seq<string>): (r: seq<string>)
    ensures IsSubsequence(r, required)
    ensures forall c :: c in r <==> c in required && c !in present
    ensures forall c {:trigger multiset(r)[c]} :: multiset(r)[c] == if c in present then 0 else multiset(required)[c]
  {
    if required == [] then []
    else
      var rest := MissingFrom(required[1..], present);
      assert forall c :: c in required <==> c == required[0] || c in required[1..];
      assert required == [required[0]] + required[1..];
      if required[0] in present then rest else [required[0]] + rest
  }

  /** The required ranking columns absent from a table with the given header. */
  function MissingColumns(header: seq<string>): (r: seq<string>)
    ensures IsSubsequence(r, RequiredColumns)
    ensures forall c :: c in r <==> c in RequiredColumns && c !in header
    ensures r == [] <==> forall k :: 0 <= k < |RequiredColumns| ==> RequiredColumns[k] in header
  {
    var r := MissingFrom(RequiredColumns, header);
    assert r != [] ==> r[0] in r;
    assert forall k :: 0 <= k < |RequiredColumns| ==> RequiredColumns[k] in RequiredColumns;
    r
  }

  /** A header lacking only `Q8_3` yields exactly `["Q8_3"]`. */
  lemma MissingOnlyQ83()
    ensures MissingColumns(["StartDate", "Q8_1", "Q8_2", "Q8_4", "Q8_5", "Q8_6", "Q8_7"]) == ["Q8_3"]
  {
    var header := ["StartDate", "Q8_1", "Q8_2", "Q8_4", "Q8_5", "Q8_6", "Q8_7"];
    var req := RequiredColumns;
    assert MissingFrom(req[7..], header) == [];
    assert MissingFrom(req[6..], header) == [];
    assert MissingFrom(req[5..], header) == [];
    assert MissingFrom(req[4..], header) == [];
    assert MissingFrom(req[3..], header) == [];
    assert MissingFrom(req[2..], header) == ["Q8_3"];
    assert MissingFrom(req[1..], header) == ["Q8_3"];
  }
}
