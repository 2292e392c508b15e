/**
 * `mean_ranks.sort_values()` (ascending, NaN last) and
 * `mean_ranks.index.map(ranking_columns)` (codes replaced by discipline names).
 */
module Ordering {
  import opened Wrappers
  import opened Sequences
  import opened Columns
  import opened Aggregate

  /** The order of `sort_values()`: numbers ascending, NaN after every number. */
  predicate MeanLeq(a: Option<real>, b: Option<real>) {
    match (a, b)
    case (Some(x), Some(y)) => x <= y
    case (_, None) => true
    case (None, Some(_)) => false
  }

  lemma MeanLeqTotalPreorder(a: Option<real>, b: Option<real>, c: Option<real>)
    ensures MeanLeq(a, a)
    ensures MeanLeq(a, b) || MeanLeq(b, a)
    ensures MeanLeq(a, b) && MeanLeq(b, c) ==> MeanLeq(a, c)
  {
  }

  /** Entries in non-decreasing order of their means. */
  predicate SortedByMean(s: seq<Entry>) {
    forall i, j :: 0 <= i < j < |s| ==> MeanLeq(s[i].mean, s[j].mean)
  }

  /** Every key of the sequence occurs once. */
  predicate DistinctKeys(s: seq<Entry>) {
    forall i, j :: 0 <= i < j < |s| ==> s[i].key != s[j].key
  }

  /** Puts `e` into a sorted sequence at a place that keeps it sorted. */
  function Insert(e: Entry, s: seq<Entry>): (r: seq<Entry>)
    requires SortedByMean(s)
    ensures SortedByMean(r)
    ensures multiset(r) == multiset(s) + multiset{e}
  {
    if s == [] then [e]
    else if MeanLeq(e.mean, s[0].mean) then
      assert forall j :: 0 <= j < |s| ==> MeanLeq(e.mean, s[j].mean) by {
        forall j | 0 <= j < |s| ensures MeanLeq(e.mean, s[j].mean) {
          MeanLeqTotalPreorder(e.mean, s[0].mean, s[j].mean);
        }
      }
      [e] + s
    else
      var rest := Insert(e, s[1..]);
      assert s == [s[0]] + s[1..];
      assert forall x :: x in rest ==> MeanLeq(s[0].mean, x.mean) by {
        forall x | x in rest ensures MeanLeq(s[0].mean, x.mean) {
          assert x in multiset(rest);
          if x == e {
            MeanLeqTotalPreorder(e.mean, s[0].mean, s[0].mean);
          } else {
            assert x in multiset(s[1..]);
          }
        }
      }
      [s[0]] + rest
  }

  /** The entries ordered by ascending mean, NaN last. Ties may come out in any
      order: the contract promises only what `sort_values()` does. */
  function SortByMean(s: seq<Entry>): (r: seq<Entry>)
    ensures SortedByMean(r)
    ensures multiset(r) == multiset(s)
  {
    if s == [] then []
    else
      assert s == [s[0]] + s[1..];
      Insert(s[0], SortByMean(s[1..]))
  }

  /** Reordering keeps the keys free of repetition. */
  lemma PermutationKeepsDistinctKeys(a: seq<Entry>, b: seq<Entry>)
    requires multiset(a) == multiset(b) && DistinctKeys(b)
    ensures DistinctKeys(a)
  {
    forall i, j | 0 <= i < j < |a| ensures a[i].key != a[j].key {
      if a[i].key == a[j].key {
        assert a[i] in multiset(b) && a[j] in multiset(b);
        var p :| 0 <= p < |b| && b[p] == a[i];
        var q :| 0 <= q < |b| && b[q] == a[j];
        assert p == q;
        assert Distinct(b);
        DistinctOccursAtMostOnce(b, b[p]);
        OccursTwice(a, i, j);
        assert false;
      }
    }
  }

  /** Every key of the sequence is a code of the mapping. */
  predicate KeysAreCodes(s: seq<Entry>) {
    forall e :: e in s ==> e.key in DisciplineNames
  }

  /** `index.map(ranking_columns)`: each code becomes its discipline name; the
      order and the means are those of the input. */
  function Rename(s: seq<Entry>): (r: seq<Entry>)
    requires KeysAreCodes(s)
    ensures |r| == |s|
    ensures forall i :: 0 <= i < |s| ==> r[i].key == DisciplineNames[s[i].key] && r[i].mean == s[i].mean
    ensures SortedByMean(s) ==> SortedByMean(r)
    ensures DistinctKeys(s) ==> DistinctKeys(r)
  {
    RankingColumnsShape();
    seq(|s|, i requires 0 <= i < |s| => Entry(DisciplineNames[s[i].key], s[i].mean))
  }

  lemma RenameConcat(a: seq<Entry>, b: seq<Entry>)
    requires KeysAreCodes(a) && KeysAreCodes(b)
    ensures KeysAreCodes(a + b) && Rename(a + b) == Rename(a) + Rename(b)
  {
  }

  lemma RemoveAt<T>(b: seq<T>, k: nat)
    requires k < |b|
    ensures b == b[..k] + [b[k]] + b[k + 1..]
    ensures multiset(b[..k] + b[k + 1..]) == multiset(b) - multiset{b[k]}
  {
    assert b == b[..k] + [b[k]] + b[k + 1..];
  }

  lemma PermutationKeepsCodes(a: seq<Entry>, b: seq<Entry>)
    requires multiset(a) == multiset(b) && KeysAreCodes(b)
    ensures KeysAreCodes(a)
  {
    forall e | e in a ensures e.key in DisciplineNames {
      assert e in multiset(b);
    }
  }

  lemma MoveToFront<T>(x: seq<T>, a: seq<T>, p: seq<T>, q: seq<T>)
    requires multiset(a) == multiset(p + q)
    ensures multiset(x + a) == multiset(p + x + q)
  {
    assert multiset(x + a) == multiset(x) + multiset(p) + multiset(q);
  }

  /** Renaming a permutation of a series gives a permutation of the renamed
      series. */
  lemma {:induction false} RenamePermutation(a: seq<Entry>, b: seq<Entry>)
    requires multiset(a) == multiset(b) && KeysAreCodes(b)
    ensures KeysAreCodes(a)
    ensures multiset(Rename(a)) == multiset(Rename(b))
    decreases |a|
  {
    PermutationKeepsCodes(a, b);
    if a == [] {
      assert |multiset(b)| == 0;
    } else {
      var x := a[0];
      assert x in multiset(b);
      var k :| 0 <= k < |b| && b[k] == x;
      RemoveAt(b, k);
      var pre, post := b[..k], b[k + 1..];
      assert a == [x] + a[1..];
      assert multiset(a[1..]) == multiset(pre + post);
      assert KeysAreCodes(pre + post) by {
        assert forall e :: e in pre + post ==> e in b;
      }
      RenamePermutation(a[1..], pre + post);
      RenameConcat([x], a[1..]);
      RenameConcat(pre, [x]);
      RenameConcat(pre + [x], post);
      RenameConcat(pre, post);
      var rx, ra, rp, rq := Rename([x]), Rename(a[1..]), Rename(pre), Rename(post);
      assert Rename(a) == rx + ra;
      assert Rename(b) == rp + rx + rq;
      MoveToFront(rx, ra, rp, rq);
    }
  }
}
