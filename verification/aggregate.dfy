/** The sums the dashboard charts: `groupby(...)[column].sum()` over the filtered
    rows, and the per-column sums of the age-group columns. */
module Aggregate {
  import opened Seqs
  import opened Table

  /** `rows.groupby(facets)[column].sum()`, built row by row: there are groups
      exactly when there are rows. `GroupByMeaning` states which keys occur and
      each group's value. pandas orders the result by key; a map commits to no
      order. */
  function GroupBy(rows: seq<Row>, facets: seq<Facet>, column: string): (groups: map<seq<string>, int>)
    ensures |groups| == 0 <==> |rows| == 0
  {
    if |rows| == 0 then map[]
    else
      var m := GroupBy(rows[1..], facets, column);
      var k := Key(rows[0], facets);
      m[k := Cell(rows[0], column) + (if k in m then m[k] else 0)]
  }

  lemma KeysOfCons(rows: seq<Row>, facets: seq<Facet>)
    requires |rows| > 0
    ensures KeysOf(rows, facets) == {Key(rows[0], facets)} + KeysOf(rows[1..], facets)
  {
    assert forall x :: x in rows <==> x == rows[0] || x in rows[1..];
  }

  /** A key that occurs in no row selects no rows. */
  lemma WhereAbsent(rows: seq<Row>, facets: seq<Facet>, k: seq<string>)
    requires k !in KeysOf(rows, facets)
    ensures Where(rows, facets, k) == []
  {
  }

  /** The grouping has exactly one entry per key combination that occurs in
      `rows`, and each entry is the sum of `column` over the rows with that key. */
  lemma {:induction false} GroupByMeaning(rows: seq<Row>, facets: seq<Facet>, column: string)
    ensures GroupBy(rows, facets, column).Keys == KeysOf(rows, facets)
    ensures forall k :: k in GroupBy(rows, facets, column) ==>
      GroupBy(rows, facets, column)[k] == Sum(Where(rows, facets, k), column)
    decreases |rows|
  {
    if |rows| > 0 {
      GroupByMeaning(rows[1..], facets, column);
      KeysOfCons(rows, facets);
      forall j | j in GroupBy(rows, facets, column)
        ensures GroupBy(rows, facets, column)[j] == Sum(Where(rows, facets, j), column)
      {
        GroupByStep(rows, facets, column, j);
      }
    }
  }

  /** One row more: if the grouping of the remaining rows has its meaning, so
      has the group `j` of the grouping of all rows. */
  lemma GroupByStep(rows: seq<Row>, facets: seq<Facet>, column: string, j: seq<string>)
    requires |rows| > 0
    requires GroupBy(rows[1..], facets, column).Keys == KeysOf(rows[1..], facets)
    requires forall k :: k in GroupBy(rows[1..], facets, column) ==>
      GroupBy(rows[1..], facets, column)[k] == Sum(Where(rows[1..], facets, k), column)
    requires j in GroupBy(rows, facets, column)
    ensures GroupBy(rows, facets, column)[j] == Sum(Where(rows, facets, j), column)
  {
    var m := GroupBy(rows[1..], facets, column);
    var k := Key(rows[0], facets);
    if j == k {
      assert Where(rows, facets, k) == [rows[0]] + Where(rows[1..], facets, k);
      if k !in m {
        WhereAbsent(rows[1..], facets, k);
      }
    } else {
      assert Where(rows, facets, j) == Where(rows[1..], facets, j);
    }
  }

  /** Some key of a non-empty map. */
  ghost function Pick<K>(m: map<K, int>): K
    requires |m| > 0
  {
    assert m.Keys != {};
    var k :| k in m; k
  }

  /** The sum of all values of `m`. */
  ghost function MapTotal<K>(m: map<K, int>): int
    decreases |m|
  {
    if |m| == 0 then 0
    else
      var k := Pick(m);
      assert (m - {k}).Keys == m.Keys - {k};
      m[k] + MapTotal(m - {k})
  }

  /** The total does not depend on which key is taken out first. */
  lemma {:induction false} MapTotalRemove<K>(m: map<K, int>, k: K)
    requires k in m
    ensures MapTotal(m) == m[k] + MapTotal(m - {k})
    decreases |m|
  {
    var j := Pick(m);
    assert (m - {j}).Keys == m.Keys - {j};
    if j != k {
      assert (m - {k}).Keys == m.Keys - {k};
      MapTotalRemove(m - {j}, k);
      MapTotalRemove(m - {k}, j);
      assert m - {j} - {k} == m - {k} - {j};
    }
  }

  /** The groups of any grouping add up to the ungrouped total: no row is lost
      or counted twice. */
  lemma {:induction false} GroupByConserves(rows: seq<Row>, facets: seq<Facet>, column: string)
    ensures MapTotal(GroupBy(rows, facets, column)) == Sum(rows, column)
    decreases |rows|
  {
    if |rows| > 0 {
      var m := GroupBy(rows[1..], facets, column);
      var k := Key(rows[0], facets);
      GroupByConserves(rows[1..], facets, column);
      MapTotalUpdate(m, k, Cell(rows[0], column));
    }
  }

  /** Adding `v` to the entry for `k` (a new entry when `k` is absent) adds `v`
      to the total. */
  lemma MapTotalUpdate<K>(m: map<K, int>, k: K, v: int)
    ensures MapTotal(m[k := v + (if k in m then m[k] else 0)]) == v + MapTotal(m)
  {
    var m' := m[k := v + (if k in m then m[k] else 0)];
    MapTotalRemove(m', k);
    assert m' - {k} == m - {k} by {
      RemoveUpdated(m, k, m'[k]);
    }
    if k in m {
      MapTotalRemove(m, k);
    } else {
      assert m - {k} == m;
    }
  }

  lemma RemoveUpdated<K>(m: map<K, int>, k: K, v: int)
    ensures m[k := v] - {k} == m - {k}
  {
  }

  /** Line 97's test for an age-group column. */
  const AgeGroupPrefix: string := "group_"

  predicate IsAgeGroup(column: string) {
    AgeGroupPrefix <= column && column != AllAges
  }

  function Labels(dist: seq<(string, int)>): seq<string> {
    seq(|dist|, i requires 0 <= i < |dist| => dist[i].0)
  }

  /** `rows[age_group_cols].sum()`: for each age-group column, in column order,
      its name and its sum over `rows`. */
  function AgeGroupDistribution(columns: seq<string>, rows: seq<Row>): (dist: seq<(string, int)>)
    ensures IsSubseq(Labels(dist), columns)
    ensures forall c :: c in Labels(dist) <==> c in columns && IsAgeGroup(c)
    ensures forall i :: 0 <= i < |dist| ==> dist[i].1 == Sum(rows, dist[i].0)
  {
    if |columns| == 0 then []
    else
      var rest := AgeGroupDistribution(columns[1..], rows);
      assert forall c :: c in columns <==> c == columns[0] || c in columns[1..];
      if IsAgeGroup(columns[0]) then
        var dist := [(columns[0], Sum(rows, columns[0]))] + rest;
        assert Labels(dist) == [columns[0]] + Labels(rest);
        dist
      else
        rest
  }
}
