/** The population table the dashboard loads: one row per (province, district,
    area type, gender) observation with a set of named population counts. */
module Table {
  import opened Seqs

  /** The four categorical columns, which the filters apply in declaration order. */
  datatype Facet = Province | District | AreaType | Gender

  /** One CSV row: its four facet values and its numeric columns by name. A
      measure column missing from `measures` is an empty (NaN) cell. */
  datatype Row = Row(
    province: string,
    district: string,
    areaType: string,
    gender: string,
    measures: map<string, int>)

  /** The loaded data set. `columns` are the numeric column names in file order,
      without repeats: pandas' CSV reader renames a repeated header (the facet
      columns `province_name`, `district_name`, `area_type` and `gender` are
      the fixed fields of every row). */
  datatype Table = Table(columns: seq<string>, rows: seq<Row>)

  /** Indexing a data frame by a column it lacks raises a key error. */
  datatype Error = UnknownColumn(column: string)

  datatype Result<T> = Success(value: T) | Failure(error: Error)

  const AllAges: string := "group_all_ages"
  const Adults: string := "group_18_and_up"
  const Seniors: string := "group_60_and_up"

  function Value(r: Row, f: Facet): string {
    match f
    case Province => r.province
    case District => r.district
    case AreaType => r.areaType
    case Gender => r.gender
  }

  /** The composite group key of a row over the columns `facets`. */
  function Key(r: Row, facets: seq<Facet>): seq<string> {
    seq(|facets|, i requires 0 <= i < |facets| => Value(r, facets[i]))
  }

  lemma KeySingleton(f: Facet)
    ensures forall x :: Key(x, [f]) == [Value(x, f)]
  {
    forall x ensures Key(x, [f]) == [Value(x, f)] {
      assert Key(x, [f])[0] == Value(x, f);
    }
  }

  /** One facet column of the rows, in row order. */
  function Column(rows: seq<Row>, f: Facet): seq<string> {
    seq(|rows|, i requires 0 <= i < |rows| => Value(rows[i], f))
  }

  lemma ColumnMembers(rows: seq<Row>, f: Facet)
    ensures forall v :: v in Column(rows, f) <==> exists x :: x in rows && Value(x, f) == v
  {
    var c := Column(rows, f);
    forall v | v in c ensures exists x :: x in rows && Value(x, f) == v {
      var i :| 0 <= i < |c| && c[i] == v;
      assert rows[i] in rows;
    }
    forall v | exists x :: x in rows && Value(x, f) == v ensures v in c {
      var x :| x in rows && Value(x, f) == v;
      var i :| 0 <= i < |rows| && rows[i] == x;
      assert c[i] == v;
    }
  }

  /** A numeric cell; pandas' `sum` skips an empty cell, so it reads as 0. */
  function Cell(r: Row, column: string): int {
    if column in r.measures then r.measures[column] else 0
  }

  /** `rows[column].sum()`: the total of a column over the rows. */
  function Sum(rows: seq<Row>, column: string): int {
    if |rows| == 0 then 0 else Cell(rows[0], column) + Sum(rows[1..], column)
  }

  /** Summing two runs of rows one after the other adds their totals: the sum
      does not depend on where the rows are split. */
  lemma {:induction false} SumAppend(a: seq<Row>, b: seq<Row>, column: string)
    ensures Sum(a + b, column) == Sum(a, column) + Sum(b, column)
    decreases |a|
  {
    if |a| == 0 {
      assert a + b == b;
    } else {
      SumAppend(a[1..], b, column);
      assert (a + b)[1..] == a[1..] + b;
    }
  }

  /** Population counts are never negative, and then neither is their total. */
  lemma {:induction false} SumNonNegative(rows: seq<Row>, column: string)
    requires forall i :: 0 <= i < |rows| ==> Cell(rows[i], column) >= 0
    ensures Sum(rows, column) >= 0
    decreases |rows|
  {
    if |rows| > 0 {
      SumNonNegative(rows[1..], column);
    }
  }

  /** The rows whose key over `facets` equals `key`, in their original order. */
  function Where(rows: seq<Row>, facets: seq<Facet>, key: seq<string>): (r: seq<Row>)
    ensures IsSubseq(r, rows)
    ensures forall x :: x in r <==> x in rows && Key(x, facets) == key
  {
    if |rows| == 0 then []
    else
      var rest := Where(rows[1..], facets, key);
      assert forall x :: x in rows <==> x == rows[0] || x in rows[1..];
      if Key(rows[0], facets) == key then [rows[0]] + rest else rest
  }

  /** The filter keeps every copy of a matching row (a boolean mask drops no
      duplicate) and no copy of any other row. */
  lemma {:induction false} WhereCounts(rows: seq<Row>, facets: seq<Facet>, key: seq<string>)
    ensures forall x :: multiset(Where(rows, facets, key))[x] ==
                        if Key(x, facets) == key then multiset(rows)[x] else 0
    decreases |rows|
  {
    if |rows| > 0 {
      WhereCounts(rows[1..], facets, key);
      assert rows == [rows[0]] + rows[1..];
    }
  }

  /** The keys over `facets` that occur in `rows`. */
  function KeysOf(rows: seq<Row>, facets: seq<Facet>): set<seq<string>> {
    set x | x in rows :: Key(x, facets)
  }
}
