/** The "Top 20 Districts by Population" chart: rank districts by total
    population, keep the first twenty, and restrict the (district, area type)
    totals to them. */
module TopN {
  import opened Seqs
  import opened Table
  import opened Aggregate

  /** `.head(20)` on line 206. */
  const TopCount: nat := 20

  function Min(a: nat, b: nat): nat {
    if a < b then a else b
  }

  /** `top` lists the `n` keys of `totals` with the largest values (all keys when
      there are fewer), without repeats, largest first. Ties may come in any
      order: pandas' default sort is not stable. */
  predicate IsRanking<K(==)>(totals: map<K, int>, n: nat, top: seq<K>) {
    && |top| == Min(n, |totals|)
    && NoDups(top)
    && (forall i :: 0 <= i < |top| ==> top[i] in totals)
    && (forall i, j :: 0 <= i < j < |top| ==> totals[top[i]] >= totals[top[j]])
    && (forall i, k :: 0 <= i < |top| && k in totals && k !in top ==> totals[top[i]] >= totals[k])
  }

  /** A key of `candidates` with the largest total. */
  method Largest<K>(totals: map<K, int>, candidates: set<K>) returns (best: K)
    requires candidates != {} && candidates <= totals.Keys
    ensures best in candidates
    ensures forall k :: k in candidates ==> totals[k] <= totals[best]
  {
    best :| best in candidates;
    var rest := candidates - {best};
    while rest != {}
      invariant rest <= candidates && best in candidates
      invariant forall k :: k in candidates && k !in rest ==> totals[k] <= totals[best]
      decreases |rest|
    {
      var k :| k in rest;
      if totals[k] > totals[best] {
        best := k;
      }
      rest := rest - {k};
    }
  }

  /** `sort_values(ascending=False).head(n)` on the keys of `totals`. */
  method SortDescendingHead<K>(totals: map<K, int>, n: nat) returns (top: seq<K>)
    ensures IsRanking(totals, n, top)
  {
    top := [];
    var remaining := totals.Keys;
    while |top| < n && remaining != {}
      invariant |top| <= n
      invariant remaining <= totals.Keys
      invariant forall k :: k in totals ==> (k in remaining <==> k !in top)
      invariant |top| + |remaining| == |totals|
      invariant NoDups(top)
      invariant forall i :: 0 <= i < |top| ==> top[i] in totals
      invariant forall i, j :: 0 <= i < j < |top| ==> totals[top[i]] >= totals[top[j]]
      invariant forall i, k :: 0 <= i < |top| && k in remaining ==> totals[top[i]] >= totals[k]
      decreases |remaining|
    {
      var best := Largest(totals, remaining);
      top := top + [best];
      remaining := remaining - {best};
    }
  }

  /** The districts that occur in `rows`. */
  function Districts(rows: seq<Row>): set<string> {
    set x | x in rows :: x.district
  }

  /** The total population of district `d` over `rows`. */
  function DistrictTotal(rows: seq<Row>, d: string): int {
    Sum(Where(rows, [District], [d]), AllAges)
  }

  lemma DistrictsCons(rows: seq<Row>)
    requires |rows| > 0
    ensures Districts(rows) == {rows[0].district} + Districts(rows[1..])
  {
    assert forall x :: x in rows <==> x == rows[0] || x in rows[1..];
  }

  /** Grouping by district alone has one key `[d]` per district `d`. */
  lemma {:induction false} DistrictKeys(rows: seq<Row>)
    ensures forall d :: [d] in KeysOf(rows, [District]) <==> d in Districts(rows)
    ensures forall k :: k in KeysOf(rows, [District]) ==> |k| == 1
    ensures |KeysOf(rows, [District])| == |Districts(rows)|
    decreases |rows|
  {
    if |rows| > 0 {
      var rest := rows[1..];
      DistrictKeys(rest);
      KeysOfCons(rows, [District]);
      DistrictsCons(rows);
      var d := rows[0].district;
      assert Key(rows[0], [District]) == [d] by {
        KeySingleton(District);
      }
      assert [d] in KeysOf(rest, [District]) <==> d in Districts(rest);
    }
  }

  /** A key of the per-district totals is `[d]` for a district `d` present, and
      its total is that district's total population. */
  lemma DistrictKey(rows: seq<Row>, k: seq<string>)
    requires k in GroupBy(rows, [District], AllAges)
    ensures |k| == 1 && k == [k[0]] && k[0] in Districts(rows)
    ensures GroupBy(rows, [District], AllAges)[k] == DistrictTotal(rows, k[0])
  {
    GroupByMeaning(rows, [District], AllAges);
    DistrictKeys(rows);
    assert |k| == 1;
    assert k == [k[0]];
  }

  lemma RankedDistrictKeys(rows: seq<Row>, top: seq<seq<string>>, names: seq<string>)
    requires forall i :: 0 <= i < |top| ==> top[i] in GroupBy(rows, [District], AllAges)
    requires |names| == |top| && forall i :: 0 <= i < |top| ==> |top[i]| > 0 && names[i] == top[i][0]
    ensures forall i :: 0 <= i < |top| ==> top[i] == [names[i]] && names[i] in Districts(rows)
    ensures forall i :: 0 <= i < |top| ==>
      GroupBy(rows, [District], AllAges)[top[i]] == DistrictTotal(rows, names[i])
  {
    forall i | 0 <= i < |top|
      ensures top[i] == [names[i]] && names[i] in Districts(rows)
      ensures GroupBy(rows, [District], AllAges)[top[i]] == DistrictTotal(rows, names[i])
    {
      DistrictKey(rows, top[i]);
    }
  }

  /** `names` are the names of the districts with the largest total population,
      at most twenty and at most as many as there are districts, without
      repeats, largest first, and none left out outweighs one chosen. */
  predicate IsTopDistricts(rows: seq<Row>, names: seq<string>) {
    && |names| == Min(TopCount, |Districts(rows)|)
    && NoDups(names)
    && (forall i :: 0 <= i < |names| ==> names[i] in Districts(rows))
    && (forall i, j :: 0 <= i < j < |names| ==>
          DistrictTotal(rows, names[i]) >= DistrictTotal(rows, names[j]))
    && (forall i, d :: 0 <= i < |names| && d in Districts(rows) && d !in names ==>
          DistrictTotal(rows, names[i]) >= DistrictTotal(rows, d))
  }

  /** The ranking of the district keys `[d]`, read as a ranking of the names `d`. */
  lemma DistrictRanking(rows: seq<Row>, top: seq<seq<string>>, names: seq<string>)
    requires IsRanking(GroupBy(rows, [District], AllAges), TopCount, top)
    requires |names| == |top| && forall i :: 0 <= i < |top| ==> |top[i]| > 0 && names[i] == top[i][0]
    ensures IsTopDistricts(rows, names)
  {
    var totals := GroupBy(rows, [District], AllAges);
    RankedDistrictKeys(rows, top, names);
    GroupByMeaning(rows, [District], AllAges);
    DistrictKeys(rows);
    forall i, d | 0 <= i < |names| && d in Districts(rows) && d !in names
      ensures DistrictTotal(rows, names[i]) >= DistrictTotal(rows, d)
    {
      assert [d] in totals && [d] !in top;
    }
  }

  /** Lines 201-208: the twenty most populous districts, largest first. */
  method TopDistricts(rows: seq<Row>) returns (names: seq<string>)
    ensures IsTopDistricts(rows, names)
  {
    var totals := GroupBy(rows, [District], AllAges);
    GroupByMeaning(rows, [District], AllAges);
    DistrictKeys(rows);
    var top := SortDescendingHead(totals, TopCount);
    assert forall i :: 0 <= i < |top| ==> top[i] in KeysOf(rows, [District]);
    names := seq(|top|, i requires 0 <= i < |top| && |top[i]| > 0 => top[i][0]);
    DistrictRanking(rows, top, names);
  }

  /** The rows whose district is one of `names`, in their original order and
      every copy kept: the reference that line 211's restriction of the grouped
      table is compared against in `RestrictedAreaTable`. */
  function InDistricts(rows: seq<Row>, names: seq<string>): (r: seq<Row>)
    ensures IsSubseq(r, rows)
    ensures forall x :: x in r <==> x in rows && x.district in names
  {
    if |rows| == 0 then []
    else
      var rest := InDistricts(rows[1..], names);
      assert forall x :: x in rows <==> x == rows[0] || x in rows[1..];
      if rows[0].district in names then [rows[0]] + rest else rest
  }

  /** The chosen districts' rows keep every copy of each row. */
  lemma {:induction false} InDistrictsCounts(rows: seq<Row>, names: seq<string>)
    ensures forall x :: multiset(InDistricts(rows, names))[x] ==
                        if x.district in names then multiset(rows)[x] else 0
    decreases |rows|
  {
    if |rows| > 0 {
      InDistrictsCounts(rows[1..], names);
      assert rows == [rows[0]] + rows[1..];
    }
  }

  /** Line 211: keep the (district, area type) groups whose district is one of
      `names`. */
  function RestrictToDistricts(area: map<seq<string>, int>, names: seq<string>): map<seq<string>, int> {
    map k | k in area && |k| > 0 && k[0] in names :: area[k]
  }

  /** Restricting to chosen districts selects the same rows of a group as the
      whole table does, when the group's district is chosen. */
  lemma {:induction false} WhereInDistricts(rows: seq<Row>, names: seq<string>, facets: seq<Facet>, k: seq<string>)
    requires |facets| > 0 && facets[0] == District
    requires |k| > 0 && k[0] in names
    ensures Where(InDistricts(rows, names), facets, k) == Where(rows, facets, k)
    decreases |rows|
  {
    if |rows| > 0 {
      WhereInDistricts(rows[1..], names, facets, k);
      assert Key(rows[0], facets)[0] == rows[0].district;
      if rows[0].district in names {
        assert InDistricts(rows, names) == [rows[0]] + InDistricts(rows[1..], names);
      }
    }
  }

  /** The restricted (district, area type) table keeps exactly the groups whose
      district was chosen. */
  lemma RestrictedAreaKeys(rows: seq<Row>, names: seq<string>, column: string)
    ensures forall k :: k in RestrictToDistricts(GroupBy(rows, [District, AreaType], column), names) <==>
      exists x :: x in rows && x.district in names && Key(x, [District, AreaType]) == k
  {
    GroupByMeaning(rows, [District, AreaType], column);
    assert forall x :: Key(x, [District, AreaType])[0] == x.district;
  }

  /** The restricted table and the grouping of the chosen districts' rows have
      the same groups. */
  lemma RestrictedAreaSameKeys(rows: seq<Row>, names: seq<string>, column: string)
    ensures RestrictToDistricts(GroupBy(rows, [District, AreaType], column), names).Keys
         == GroupBy(InDistricts(rows, names), [District, AreaType], column).Keys
  {
    var facets := [District, AreaType];
    GroupByMeaning(rows, facets, column);
    GroupByMeaning(InDistricts(rows, names), facets, column);
    assert forall x :: Key(x, facets)[0] == x.district;
  }

  /** A kept group has the same total in the restricted table as in the
      grouping of the chosen districts' rows. */
  lemma RestrictedAreaValue(rows: seq<Row>, names: seq<string>, column: string, k: seq<string>)
    requires k in RestrictToDistricts(GroupBy(rows, [District, AreaType], column), names)
    ensures k in GroupBy(InDistricts(rows, names), [District, AreaType], column)
    ensures RestrictToDistricts(GroupBy(rows, [District, AreaType], column), names)[k]
         == GroupBy(InDistricts(rows, names), [District, AreaType], column)[k]
  {
    var facets := [District, AreaType];
    RestrictedAreaSameKeys(rows, names, column);
    GroupByMeaning(rows, facets, column);
    GroupByMeaning(InDistricts(rows, names), facets, column);
    WhereInDistricts(rows, names, facets, k);
  }

  /** The restricted table is the grouping of the chosen districts' rows alone,
      so the kept groups' totals are unchanged. */
  lemma RestrictedAreaTable(rows: seq<Row>, names: seq<string>, column: string)
    ensures RestrictToDistricts(GroupBy(rows, [District, AreaType], column), names)
         == GroupBy(InDistricts(rows, names), [District, AreaType], column)
  {
    var r := RestrictToDistricts(GroupBy(rows, [District, AreaType], column), names);
    var b := GroupBy(InDistricts(rows, names), [District, AreaType], column);
    RestrictedAreaSameKeys(rows, names, column);
    forall k | k in r
      ensures r[k] == b[k]
    {
      RestrictedAreaValue(rows, names, column, k);
    }
  }
}
