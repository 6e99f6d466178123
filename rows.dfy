/**
  Rows of the merged table (population and GDP per capita joined on
  (iso3, year), continent joined on iso3) and the selection `main` makes
  from it: the requested continent, unless "All", and the requested year.
 */
module Rows {
  import opened Wrappers

  /** One row of the merged table. Missing cells (NaN after the outer and
      left joins, or numbers that failed coercion) are `None`. */
  datatype MergedRow = MergedRow(
    iso3: string,
    year: int,
    population: Option<real>,
    gdpPerCapita: Option<real>,
    continent: Option<string>)

  /** The metric chosen on the command line. */
  datatype MetricKind = Population | GdpPerCapita

  /** The cell of the chosen metric's column. */
  function MetricOf(row: MergedRow, metric: MetricKind): Option<real> {
    match metric
    case Population => row.population
    case GdpPerCapita => row.gdpPerCapita
  }

  /** `df["continent"].fillna("")`. */
  function ContinentOrBlank(row: MergedRow): string {
    row.continent.GetOr("")
  }

  /** Boolean-mask selection `df[mask]`: the rows that satisfy `keep`, in order. */
  function Select(rows: seq<MergedRow>, keep: MergedRow -> bool): (r: seq<MergedRow>)
    ensures |r| <= |rows|
    ensures forall x :: x in r ==> keep(x)
  {
    if rows == [] then []
    else
      var rest := Select(rows[1..], keep);
      if keep(rows[0]) then [rows[0]] + rest else rest
  }

  /** Selection keeps every row that satisfies `keep`, as many times as it
      occurs, and drops every other row. */
  lemma {:induction false} SelectCounts(rows: seq<MergedRow>, keep: MergedRow -> bool)
    ensures forall x :: multiset(Select(rows, keep))[x] == if keep(x) then multiset(rows)[x] else 0
    ensures forall x :: x in Select(rows, keep) <==> x in rows && keep(x)
  {
    if rows != [] {
      SelectCounts(rows[1..], keep);
      assert rows == [rows[0]] + rows[1..];
    }
  }

  /** Selection keeps relative order: it distributes over concatenation. */
  lemma {:induction false} SelectAppend(a: seq<MergedRow>, b: seq<MergedRow>, keep: MergedRow -> bool)
    ensures Select(a + b, keep) == Select(a, keep) + Select(b, keep)
  {
    if a != [] {
      SelectAppend(a[1..], b, keep);
      assert (a + b)[0] == a[0];
      assert (a + b)[1..] == a[1..] + b;
    } else {
      assert a + b == b;
    }
  }

  /** Selecting twice is selecting once by both conditions. */
  lemma {:induction false} SelectTwice(rows: seq<MergedRow>, p: MergedRow -> bool, q: MergedRow -> bool)
    ensures Select(Select(rows, p), q) == Select(rows, x => p(x) && q(x))
  {
    if rows != [] {
      SelectTwice(rows[1..], p, q);
    }
  }

  function InContinent(continent: string): MergedRow -> bool {
    (row: MergedRow) => ContinentOrBlank(row) == continent
  }

  function InYear(year: int): MergedRow -> bool {
    (row: MergedRow) => row.year == year
  }

  /** The selection in `main`: continent first (skipped for "All"), then
      year. It keeps no more rows than it is given, each of them of the
      requested year and, unless "All", of the requested continent. */
  function SelectForView(df: seq<MergedRow>, year: int, continent: string): (view: seq<MergedRow>)
    ensures |view| <= |df|
    ensures forall x :: x in view ==>
      x in df && x.year == year && (continent == "All" || ContinentOrBlank(x) == continent)
  {
    var byContinent := if continent != "All" then Select(df, InContinent(continent)) else df;
    SelectCounts(byContinent, InYear(year));
    SelectCounts(df, InContinent(continent));
    Select(byContinent, InYear(year))
  }

  /** A row survives exactly when it has the requested year and, unless the
      continent is "All", the requested continent (missing counts as ""). */
  lemma SelectForViewSpec(df: seq<MergedRow>, year: int, continent: string)
    ensures forall x :: x in SelectForView(df, year, continent) <==>
      x in df && x.year == year && (continent == "All" || ContinentOrBlank(x) == continent)
  {
    if continent != "All" {
      SelectCounts(df, InContinent(continent));
      SelectCounts(Select(df, InContinent(continent)), InYear(year));
    } else {
      SelectCounts(df, InYear(year));
    }
  }

  /** The view is one selection by the conjunction of both conditions, so it
      keeps the rows' order and their multiplicities. */
  lemma SelectForViewIsOneSelection(df: seq<MergedRow>, year: int, continent: string)
    ensures SelectForView(df, year, continent) ==
      Select(df, (x: MergedRow) => x.year == year && (continent == "All" || ContinentOrBlank(x) == continent))
  {
    var keep := (x: MergedRow) => x.year == year && (continent == "All" || ContinentOrBlank(x) == continent);
    if continent != "All" {
      SelectTwice(df, InContinent(continent), InYear(year));
      SelectSameCondition(df, x => InContinent(continent)(x) && InYear(year)(x), keep);
    } else {
      SelectSameCondition(df, InYear(year), keep);
    }
  }

  /** Selections by conditions that agree on every row are equal. */
  lemma {:induction false} SelectSameCondition(rows: seq<MergedRow>, p: MergedRow -> bool, q: MergedRow -> bool)
    requires forall x :: p(x) == q(x)
    ensures Select(rows, p) == Select(rows, q)
  {
    if rows != [] {
      SelectSameCondition(rows[1..], p, q);
    }
  }
}
