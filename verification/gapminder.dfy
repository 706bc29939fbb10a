/**
 The dataset rows the scatter plot is built from: the gapminder rows of the
 year 2000, each projected onto the four fields the plot uses.
 */
module Gapminder {

  /** One gapminder row: a country in one year. */
  datatype Row<C> = Row(
    year: int,
    country: string,
    cluster: C,
    pop: int,
    lifeExpect: real,
    fertility: real)

  /** One point of the scatter plot. */
  datatype CountryPoint<C> = CountryPoint(
    country: string,
    pop: int,
    lifeExpect: real,
    cluster: C)

  /** The year both charts show. */
  const SnapshotYear: int := 2000

  /** Keeps the fields `country`, `pop`, `life_expect` and `cluster` of a row. */
  function Project<C>(row: Row<C>): (p: CountryPoint<C>)
    ensures p.country == row.country && p.pop == row.pop
    ensures p.lifeExpect == row.lifeExpect && p.cluster == row.cluster
  {
    CountryPoint(row.country, row.pop, row.lifeExpect, row.cluster)
  }

  /** The rows of the snapshot year, in their original order. */
  function FilterYear<C>(rows: seq<Row<C>>): (r: seq<Row<C>>)
    ensures |r| <= |rows|
    ensures forall i :: 0 <= i < |r| ==> r[i].year == SnapshotYear && r[i] in rows
    ensures forall i :: 0 <= i < |rows| && rows[i].year == SnapshotYear ==> rows[i] in r
  {
    if |rows| == 0 then []
    else
      var rest := FilterYear(rows[1..]);
      assert forall i :: 1 <= i < |rows| ==> rows[i] == rows[1..][i - 1];
      if rows[0].year == SnapshotYear then [rows[0]] + rest else rest
  }

  /** The projection applied to every row, in order. */
  function ProjectAll<C>(rows: seq<Row<C>>): (r: seq<CountryPoint<C>>)
    ensures |r| == |rows|
    ensures forall i :: 0 <= i < |r| ==> r[i] == Project(rows[i])
  {
    if |rows| == 0 then [] else [Project(rows[0])] + ProjectAll(rows[1..])
  }

  /** The scatter plot's data: filter on the year, then project. */
  function Countries2000<C>(rows: seq<Row<C>>): (r: seq<CountryPoint<C>>)
    ensures |r| <= |rows|
    ensures forall i :: 0 <= i < |rows| && rows[i].year == SnapshotYear ==> Project(rows[i]) in r
    ensures forall k :: 0 <= k < |r| ==>
      exists i :: 0 <= i < |rows| && rows[i].year == SnapshotYear && r[k] == Project(rows[i])
  {
    ProjectAll(FilterYear(rows))
  }

  /** The filter keeps order and duplicates: filtering two consecutive parts
      of the rows concatenates the two results. */
  lemma {:induction false} FilterYearAppend<C>(a: seq<Row<C>>, b: seq<Row<C>>)
    ensures FilterYear(a + b) == FilterYear(a) + FilterYear(b)
    decreases |a|
  {
    if |a| > 0 {
      assert (a + b)[1..] == a[1..] + b;
      FilterYearAppend(a[1..], b);
    } else {
      assert a + b == b;
    }
  }

  /** The projection keeps order: projecting two consecutive parts of the
      rows concatenates the two results. */
  lemma ProjectAllAppend<C>(a: seq<Row<C>>, b: seq<Row<C>>)
    ensures ProjectAll(a + b) == ProjectAll(a) + ProjectAll(b)
  {}

  /** The scatter plot keeps the dataset's order: building it from two
      consecutive parts of the dataset concatenates the two results. */
  lemma Countries2000Append<C>(a: seq<Row<C>>, b: seq<Row<C>>)
    ensures Countries2000(a + b) == Countries2000(a) + Countries2000(b)
  {
    FilterYearAppend(a, b);
    ProjectAllAppend(FilterYear(a), FilterYear(b));
  }

  /** A single row contributes its projection if it is of the year 2000 and
      nothing otherwise. */
  lemma Countries2000Single<C>(row: Row<C>)
    ensures Countries2000([row]) == (if row.year == SnapshotYear then [Project(row)] else [])
  {}

  /** The scatter plot's data row by row: the first row contributes its
      projection in front if it is of the year 2000, and nothing otherwise. */
  lemma Countries2000Cons<C>(row: Row<C>, rest: seq<Row<C>>)
    ensures Countries2000([row] + rest)
      == (if row.year == SnapshotYear then [Project(row)] else []) + Countries2000(rest)
  {
    Countries2000Append([row], rest);
    Countries2000Single(row);
  }

  /** A point is on the scatter plot exactly when it is the projection of a
      year-2000 row. */
  lemma Countries2000Members<C>(rows: seq<Row<C>>, p: CountryPoint<C>)
    ensures p in Countries2000(rows) <==>
      exists i :: 0 <= i < |rows| && rows[i].year == SnapshotYear && Project(rows[i]) == p
  {}
}
