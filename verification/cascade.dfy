/** The sidebar's four dependent drop-downs: province, then district, then area
    type, then gender. Each drop-down offers "All" plus the distinct values left
    by the drop-downs before it, and each choice narrows the rows in turn. */
module Cascade {
  import opened Seqs
  import opened Table

  /** The option that leaves a stage's rows unfiltered. */
  const All: string := "All"

  /** The order in which the stages filter. */
  const Order: seq<Facet> := [Province, District, AreaType, Gender]

  /** The value chosen in each drop-down. */
  datatype Selection = Selection(province: string, district: string, areaType: string, gender: string)

  function Choice(s: Selection, f: Facet): string {
    match f
    case Province => s.province
    case District => s.district
    case AreaType => s.areaType
    case Gender => s.gender
  }

  /** A row passes the stage for `f`: the choice is "All" or equals the row's value. */
  predicate Admits(s: Selection, f: Facet, x: Row) {
    Choice(s, f) == All || Value(x, f) == Choice(s, f)
  }

  /** A row passes all four drop-downs. */
  predicate Matches(s: Selection, x: Row) {
    Admits(s, Province, x) && Admits(s, District, x) && Admits(s, AreaType, x) && Admits(s, Gender, x)
  }

  /** One stage of the cascade: keep the rows whose `f` value is `choice`,
      or every row when `choice` is "All". */
  function Apply(rows: seq<Row>, f: Facet, choice: string): (r: seq<Row>)
    ensures choice == All ==> r == rows
    ensures IsSubseq(r, rows)
    ensures forall x :: x in r <==> x in rows && (choice == All || Value(x, f) == choice)
  {
    if choice == All then
      SubseqReflexive(rows);
      rows
    else
      KeySingleton(f);
      Where(rows, [f], [choice])
  }

  /** A stage keeps every copy of each row it admits, and no copy of any other. */
  lemma ApplyCounts(rows: seq<Row>, f: Facet, choice: string)
    ensures forall x :: multiset(Apply(rows, f, choice))[x] ==
                        if choice == All || Value(x, f) == choice then multiset(rows)[x] else 0
  {
    if choice != All {
      KeySingleton(f);
      WhereCounts(rows, [f], [choice]);
    }
  }

  /** The drop-down for `f` over `rows`: "All" followed by the distinct values of
      `f` in first-appearance order. The list repeats "All" exactly when some
      row's own value is the literal "All". */
  function Options(rows: seq<Row>, f: Facet): (opts: seq<string>)
    ensures |opts| >= 1 && opts[0] == All
    ensures NoDups(opts[1..])
    ensures forall v :: v in opts[1..] <==> exists x :: x in rows && Value(x, f) == v
    ensures NoDups(opts) <==> forall x :: x in rows ==> Value(x, f) != All
    ensures forall v :: v in opts[1..] ==> v in Column(rows, f)
    ensures forall i, j :: 1 <= i < j < |opts| ==>
      FirstIndex(Column(rows, f), opts[i]) < FirstIndex(Column(rows, f), opts[j])
  {
    ColumnMembers(rows, f);
    DistinctFirstAppearance(Column(rows, f));
    var d := Distinct(Column(rows, f));
    var opts := [All] + d;
    assert opts[1..] == d;
    assert NoDups(opts) <==> All !in d by {
      if All in d {
        var j :| 0 <= j < |d| && d[j] == All;
        assert opts[0] == opts[j + 1];
      }
    }
    opts
  }

  /** The rows left after the first `k` stages (`filtered_data_by_province`,
      `filtered_data_by_district`, and so on); filtering never adds rows. */
  function Stage(data: seq<Row>, s: Selection, k: nat): (r: seq<Row>)
    requires k <= |Order|
    ensures |r| <= |data|
  {
    if k == 0 then data
    else
      var r := Apply(Stage(data, s, k - 1), Order[k - 1], Choice(s, Order[k - 1]));
      SubseqShrinks(r, Stage(data, s, k - 1));
      r
  }

  /** The rows every chart is drawn from (`filtered_data` after line 56), in
      their original order. */
  function Filtered(data: seq<Row>, s: Selection): (r: seq<Row>)
    ensures IsSubseq(r, data)
  {
    StageShrinks(data, s, 0, |Order|);
    Stage(data, s, |Order|)
  }

  /** The options shown in drop-down `k`: "All", then the values in column
      `Order[k]` of the data rows that the first `k` choices admit. */
  function OptionsAt(data: seq<Row>, s: Selection, k: nat): (opts: seq<string>)
    requires k < |Order|
    ensures |opts| >= 1 && opts[0] == All
    ensures forall v :: v in opts[1..] <==>
      exists x :: x in data && (forall i :: 0 <= i < k ==> Admits(s, Order[i], x)) && Value(x, Order[k]) == v
  {
    StageMembers(data, s, k);
    Options(Stage(data, s, k), Order[k])
  }

  /** Every drop-down's value is one of the options it was offered. */
  predicate ValidSelection(data: seq<Row>, s: Selection) {
    forall k :: 0 <= k < |Order| ==> Choice(s, Order[k]) in OptionsAt(data, s, k)
  }

  /** Each stage keeps a sub-sequence of the rows of any earlier stage. */
  lemma {:induction false} StageShrinks(data: seq<Row>, s: Selection, j: nat, k: nat)
    requires j <= k <= |Order|
    ensures IsSubseq(Stage(data, s, k), Stage(data, s, j))
    decreases k
  {
    if j == k {
      SubseqReflexive(Stage(data, s, k));
    } else {
      StageShrinks(data, s, j, k - 1);
      SubseqTransitive(Stage(data, s, k), Stage(data, s, k - 1), Stage(data, s, j));
    }
  }

  /** After `k` stages each data row occurs as often as in the data when all
      `k` choices admit it, and not at all otherwise. */
  lemma {:induction false} StageCounts(data: seq<Row>, s: Selection, k: nat)
    requires k <= |Order|
    ensures forall x :: multiset(Stage(data, s, k))[x] ==
                        if forall i :: 0 <= i < k ==> Admits(s, Order[i], x) then multiset(data)[x] else 0
    decreases k
  {
    if k > 0 {
      StageCounts(data, s, k - 1);
      var f := Order[k - 1];
      var prev := Stage(data, s, k - 1);
      ApplyCounts(prev, f, Choice(s, f));
      forall x
        ensures multiset(Stage(data, s, k))[x] ==
                if Admits(s, f, x) then multiset(prev)[x] else 0
      {
      }
    }
  }

  /** A row survives `k` stages exactly when each of those stages admits it. */
  lemma {:induction false} StageMembers(data: seq<Row>, s: Selection, k: nat)
    requires k <= |Order|
    ensures forall x :: x in Stage(data, s, k) <==>
      x in data && forall i :: 0 <= i < k ==> Admits(s, Order[i], x)
    decreases k
  {
    if k > 0 {
      StageMembers(data, s, k - 1);
    }
  }

  /** The final rows are the data rows, in order, that satisfy all four
      choices at once, each kept as often as it occurs; in particular none are
      left exactly when no row does. */
  lemma FilteredIsConjunction(data: seq<Row>, s: Selection)
    ensures IsSubseq(Filtered(data, s), data)
    ensures forall x :: x in Filtered(data, s) <==> x in data && Matches(s, x)
    ensures forall x :: multiset(Filtered(data, s))[x] == if Matches(s, x) then multiset(data)[x] else 0
    ensures Filtered(data, s) == [] <==> forall x :: x in data ==> !Matches(s, x)
  {
    StageMembers(data, s, |Order|);
    StageCounts(data, s, |Order|);
    forall x ensures (forall i :: 0 <= i < |Order| ==> Admits(s, Order[i], x)) <==> Matches(s, x) {
      assert Order[0] == Province && Order[1] == District && Order[2] == AreaType && Order[3] == Gender;
    }
    if Filtered(data, s) != [] {
      assert Filtered(data, s)[0] in Filtered(data, s);
    }
  }

  /** Drop-down `k` and the rows it filters depend only on the choices made in
      the drop-downs before it. */
  lemma {:induction false} EarlierChoicesDecide(data: seq<Row>, s: Selection, s': Selection, k: nat)
    requires k <= |Order|
    requires forall i :: 0 <= i < k ==> Choice(s, Order[i]) == Choice(s', Order[i])
    ensures Stage(data, s, k) == Stage(data, s', k)
    ensures k < |Order| ==> OptionsAt(data, s, k) == OptionsAt(data, s', k)
    decreases k
  {
    if k > 0 {
      EarlierChoicesDecide(data, s, s', k - 1);
    }
  }

  /** A value picked from a stage's own options never empties a non-empty subset. */
  lemma ChosenOptionKeepsRows(rows: seq<Row>, f: Facet, v: string)
    requires v in Options(rows, f)
    ensures Apply(rows, f, v) == [] <==> rows == []
  {
    var opts := Options(rows, f);
    if v != All && rows != [] {
      var i :| 0 <= i < |opts| && opts[i] == v;
      assert v in opts[1..];
      var x :| x in rows && Value(x, f) == v;
      assert x in Apply(rows, f, v);
    }
  }

  /** When every drop-down holds one of its offered options, the final subset
      is empty only if the whole table is. */
  lemma {:induction false} ValidSelectionNonEmpty(data: seq<Row>, s: Selection)
    requires ValidSelection(data, s)
    ensures Filtered(data, s) == [] <==> data == []
  {
    var k := 0;
    while k < |Order|
      invariant k <= |Order|
      invariant Stage(data, s, k) == [] <==> data == []
    {
      ChosenOptionKeepsRows(Stage(data, s, k), Order[k], Choice(s, Order[k]));
      k := k + 1;
    }
  }
}
