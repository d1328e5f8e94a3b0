/** A four-row table worked through the cascade, the population cards and the
    district ranking. */
module Examples {
  import opened Seqs
  import opened Table
  import opened Cascade
  import opened Aggregate
  import opened TopN

  /** The four-row example table: two provinces, one district each. */
  function Example(): seq<Row> {
    [ Row("A", "D1", "Urban", "M", map[AllAges := 10, Adults := 6]),
      Row("A", "D1", "Urban", "F", map[AllAges := 12, Adults := 8]),
      Row("B", "D2", "Rural", "M", map[AllAges := 5, Adults := 3]),
      Row("B", "D2", "Rural", "F", map[AllAges := 7, Adults := 4]) ]
  }

  /** Choosing province A keeps the first two rows. */
  lemma ProvinceAFilter()
    ensures Filtered(Example(), Selection("A", All, All, All)) == Example()[..2]
  {
    var d := Example();
    var s := Selection("A", All, All, All);
    KeySingleton(Province);
    assert Where(d[3..], [Province], ["A"]) == [] by {
      assert d[3..][1..] == [];
    }
    assert Where(d[2..], [Province], ["A"]) == [] by {
      assert d[2..][1..] == d[3..];
    }
    assert Where(d[1..], [Province], ["A"]) == [d[1]] by {
      assert d[1..][1..] == d[2..];
    }
    assert Where(d, [Province], ["A"]) == d[..2];
    assert Stage(d, s, 1) == d[..2];
  }

  /** Choosing province A shows a total of 22 people: 10 men and 12 women. */
  lemma ProvinceAExample()
    ensures Sum(Filtered(Example(), Selection("A", All, All, All)), AllAges) == 22
    ensures GroupBy(Filtered(Example(), Selection("A", All, All, All)), [Gender], AllAges)
         == map[["M"] := 10, ["F"] := 12]
  {
    ProvinceAFilter();
    ProvinceARows();
  }

  /** Province A's two rows hold 10 men and 12 women. */
  lemma ProvinceARows()
    ensures Sum(Example()[..2], AllAges) == 22
    ensures GroupBy(Example()[..2], [Gender], AllAges) == map[["M"] := 10, ["F"] := 12]
  {
    var d := Example()[..2];
    KeySingleton(Gender);
    assert d[1..][1..] == [];
    assert Sum(d[1..], AllAges) == 12;
    assert GroupBy(d[1..], [Gender], AllAges) == map[["F"] := 12];
  }

  /** Province A's rows all lie in district D1. */
  lemma ProvinceADistricts()
    ensures Options(Example()[..2], District) == [All, "D1"]
  {
    var d := Example()[..2];
    assert Column(d, District) == ["D1", "D1"];
    assert Distinct(["D1", "D1"]) == ["D1"] by {
      assert ["D1", "D1"][..1] == ["D1"];
      assert Distinct(["D1"]) == ["D1"];
    }
  }

  /** Once province A is chosen, the district drop-down offers only D1. */
  lemma ProvinceADistrictOptions()
    ensures OptionsAt(Example(), Selection("A", All, All, All), 1) == [All, "D1"]
  {
    ProvinceAFilter();
    ProvinceADistricts();
    assert Stage(Example(), Selection("A", All, All, All), 1) == Example()[..2];
  }

  /** With no filter the example holds 34 people in D1 (22) and D2 (12). */
  lemma ExampleDistrictTotals()
    ensures Sum(Example(), AllAges) == 34
    ensures GroupBy(Example(), [District], AllAges) == map[["D1"] := 22, ["D2"] := 12]
  {
    var d := Example();
    KeySingleton(District);
    assert d[3..][1..] == [];
    assert d[2..][1..] == d[3..];
    assert d[1..][1..] == d[2..];
    assert GroupBy(d[3..], [District], AllAges) == map[["D2"] := 7];
    assert GroupBy(d[2..], [District], AllAges) == map[["D2"] := 12];
    assert GroupBy(d[1..], [District], AllAges) == map[["D2"] := 12, ["D1"] := 12];
  }

  /** D1 outranks D2, so a ranking of length one can only be D1. */
  lemma TopOneExample(top: seq<seq<string>>)
    requires IsRanking(GroupBy(Example(), [District], AllAges), 1, top)
    ensures top == [["D1"]]
  {
    ExampleDistrictTotals();
    TopOneOfTwo(top);
  }

  lemma TopOneOfTwo(top: seq<seq<string>>)
    requires IsRanking(map[["D1"] := 22, ["D2"] := 12], 1, top)
    ensures top == [["D1"]]
  {
    var totals := map[["D1"] := 22, ["D2"] := 12];
    assert |totals| == 2 by {
      assert totals.Keys == {["D1"], ["D2"]};
    }
    assert top[0] in totals && ["D1"] in totals;
    assert totals[["D2"]] < totals[["D1"]];
    assert top == [top[0]];
  }
}
