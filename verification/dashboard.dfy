/** The whole script: the cascade, then every figure the page shows, computed
    afresh from the filtered rows. */
module Dashboard {
  import opened Seqs
  import opened Table
  import opened Cascade
  import opened Aggregate
  import opened TopN

  /** The figures behind the page's metric cards and charts. Group sums are keyed
      by the values of their group-by columns, in group-by order. */
  datatype Report = Report(
    subset: seq<Row>,
    totalPopulation: int,
    genderDistribution: map<seq<string>, int>,
    provincePopulation: map<seq<string>, int>,
    ageGroupDistribution: seq<(string, int)>,
    areaPopulation: map<seq<string>, int>,
    seniorPopulation: map<seq<string>, int>,
    totalAdultPopulation: int,
    adultByGender: map<seq<string>, int>,
    adultByProvince: map<seq<string>, int>,
    adultByProvinceGender: map<seq<string>, int>,
    topDistrictNames: seq<string>,
    topDistrictsArea: map<seq<string>, int>)

  /** `rep` is what the script computes for table `t` under selection `s`. The
      top-district names are any ranking the sort may produce. */
  predicate Reports(t: Table, s: Selection, rep: Report) {
    var rows := Filtered(t.rows, s);
    && rep.subset == rows
    && rep.totalPopulation == Sum(rows, AllAges)
    && rep.genderDistribution == GroupBy(rows, [Gender], AllAges)
    && rep.provincePopulation == GroupBy(rows, [Province], AllAges)
    && rep.ageGroupDistribution == AgeGroupDistribution(t.columns, rows)
    && rep.areaPopulation == GroupBy(rows, [AreaType], AllAges)
    && rep.seniorPopulation == GroupBy(rows, [Province], Seniors)
    && rep.totalAdultPopulation == Sum(rows, Adults)
    && rep.adultByGender == GroupBy(rows, [Gender], Adults)
    && rep.adultByProvince == GroupBy(rows, [Province], Adults)
    && rep.adultByProvinceGender == GroupBy(rows, [Province, Gender], Adults)
    && IsTopDistricts(rows, rep.topDistrictNames)
    && rep.topDistrictsArea == RestrictToDistricts(GroupBy(rows, [District, AreaType], AllAges), rep.topDistrictNames)
  }

  /** Runs the script. Selecting a column the file lacks raises a key error;
      the first such column in script order (line 63, then 126, then 142) ends
      the run. Otherwise every figure is computed from the filtered rows. */
  method Run(t: Table, s: Selection) returns (r: Result<Report>)
    ensures AllAges !in t.columns ==> r == Failure(UnknownColumn(AllAges))
    ensures AllAges in t.columns && Seniors !in t.columns ==> r == Failure(UnknownColumn(Seniors))
    ensures AllAges in t.columns && Seniors in t.columns && Adults !in t.columns ==>
      r == Failure(UnknownColumn(Adults))
    ensures r.Success? <==> AllAges in t.columns && Seniors in t.columns && Adults in t.columns
    ensures r.Success? ==> Reports(t, s, r.value)
  {
    if AllAges !in t.columns {
      return Failure(UnknownColumn(AllAges));
    }
    if Seniors !in t.columns {
      return Failure(UnknownColumn(Seniors));
    }
    if Adults !in t.columns {
      return Failure(UnknownColumn(Adults));
    }
    var rows := Filtered(t.rows, s);
    var names := TopDistricts(rows);
    var rep := Report(
      rows,
      Sum(rows, AllAges),
      GroupBy(rows, [Gender], AllAges),
      GroupBy(rows, [Province], AllAges),
      AgeGroupDistribution(t.columns, rows),
      GroupBy(rows, [AreaType], AllAges),
      GroupBy(rows, [Province], Seniors),
      Sum(rows, Adults),
      GroupBy(rows, [Gender], Adults),
      GroupBy(rows, [Province], Adults),
      GroupBy(rows, [Province, Gender], Adults),
      names,
      RestrictToDistricts(GroupBy(rows, [District, AreaType], AllAges), names));
    return Success(rep);
  }

  /** The slices of every population chart add up to the total population card,
      and those of every adult chart to the total adult card. */
  lemma ChartsAddUp(t: Table, s: Selection, rep: Report)
    requires Reports(t, s, rep)
    ensures MapTotal(rep.genderDistribution) == rep.totalPopulation
    ensures MapTotal(rep.provincePopulation) == rep.totalPopulation
    ensures MapTotal(rep.areaPopulation) == rep.totalPopulation
    ensures MapTotal(rep.adultByGender) == rep.totalAdultPopulation
    ensures MapTotal(rep.adultByProvince) == rep.totalAdultPopulation
    ensures MapTotal(rep.adultByProvinceGender) == rep.totalAdultPopulation
  {
    var rows := rep.subset;
    GroupByConserves(rows, [Gender], AllAges);
    GroupByConserves(rows, [Province], AllAges);
    GroupByConserves(rows, [AreaType], AllAges);
    GroupByConserves(rows, [Gender], Adults);
    GroupByConserves(rows, [Province], Adults);
    GroupByConserves(rows, [Province, Gender], Adults);
  }

  /** A selection no row satisfies is not an error: the cards show 0, the group
      charts are empty and every age group sums to 0. */
  lemma EmptySubsetReport(t: Table, s: Selection, rep: Report)
    requires Reports(t, s, rep)
    requires rep.subset == []
    ensures rep.totalPopulation == 0 && rep.totalAdultPopulation == 0
    ensures rep.genderDistribution == map[] && rep.provincePopulation == map[]
    ensures rep.areaPopulation == map[] && rep.seniorPopulation == map[]
    ensures rep.adultByGender == map[] && rep.adultByProvince == map[]
    ensures rep.adultByProvinceGender == map[]
    ensures rep.topDistrictNames == [] && rep.topDistrictsArea == map[]
    ensures forall i :: 0 <= i < |rep.ageGroupDistribution| ==> rep.ageGroupDistribution[i].1 == 0
  {
    assert Districts([]) == {};
  }
}
