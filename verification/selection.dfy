/** The table logic of `main`: the sidebar's option lists, the region filter
    on the selected countries, the header metrics, the rows handed to the map
    and trend charts, and the population table shown under the charts. */
module Selection {
  import opened Collections
  import opened Ordering
  import opened Catalog
  import opened Series
  import opened Summaries
  import opened Aggregation

  /** The distinct names of `ks` in ascending order. */
  function SortedNames(ks: seq<string>): (names: seq<string>)
    ensures StrictlySorted(names, StrLess)
    ensures Distinct(names)
    ensures forall x :: x in names <==> x in ks
  {
    StrLessIsStrictTotal();
    var names := SortedKeys(ks, StrLess);
    StrictlySortedIsDistinct(names, StrLess);
    names
  }

  function CountryOfRow(r: Row): string {
    r.country
  }

  function RegionOfRow(r: Row): string {
    r.region
  }

  /** `all_countries = sorted(df['Country'].unique())`. */
  function AllCountries(df: seq<Row>): (cs: seq<string>)
    ensures StrictlySorted(cs, StrLess) && Distinct(cs)
    ensures forall c :: c in cs <==> exists i :: 0 <= i < |df| && df[i].country == c
  {
    var cs := SortedNames(Map(df, CountryOfRow));
    assert forall i :: 0 <= i < |df| ==> Map(df, CountryOfRow)[i] == df[i].country;
    cs
  }

  /** `regions = sorted(df['Region'].unique())`, also the default region
      selection. */
  function AllRegions(df: seq<Row>): (rs: seq<string>)
    ensures StrictlySorted(rs, StrLess) && Distinct(rs)
    ensures forall r :: r in rs <==> exists i :: 0 <= i < |df| && df[i].region == r
  {
    var rs := SortedNames(Map(df, RegionOfRow));
    assert forall i :: 0 <= i < |df| ==> Map(df, RegionOfRow)[i] == df[i].region;
    rs
  }

  function YearOfRow(r: Row): int {
    r.year
  }

  /** `years = sorted(df['Year'].unique())`: the year slider's options. */
  function AllYears(df: seq<Row>): (ys: seq<int>)
    ensures StrictlySorted(ys, IntLess)
    ensures forall y :: y in ys <==> exists i :: 0 <= i < |df| && df[i].year == y
  {
    IntLessIsStrictTotal();
    var ys := SortedKeys(Map(df, YearOfRow), IntLess);
    assert forall i :: 0 <= i < |df| ==> Map(df, YearOfRow)[i] == df[i].year;
    ys
  }

  /** On a table generated for at least one country, the slider offers
      exactly the generated years, when those ascend. */
  lemma GeneratedYearOptions(countries: seq<string>, years: seq<int>, regions: seq<RegionList>,
                             pop: (string, int) -> Pop)
    requires |countries| > 0 && StrictlySorted(years, IntLess)
    ensures AllYears(Generate(countries, years, regions, pop)) == years
  {
    var df := Generate(countries, years, regions, pop);
    GenerateRows(countries, years, regions, pop);
    GenerateCovers(countries, years, regions, pop);
    var ys := AllYears(df);
    forall y ensures y in ys <==> y in years {
      if y in years {
        assert HasRow(df, countries[0], y);
      }
    }
    IntLessIsStrictTotal();
    StrictlySortedUnique(ys, years, IntLess);
  }

  /** On the dashboard's table the slider offers the fifteen generated years,
      among them its default 2020. */
  lemma DatasetYearOptions(pop: (string, int) -> Pop)
    ensures AllYears(Dataset(pop)) == Years
    ensures 2020 in AllYears(Dataset(pop))
  {
    YearsAreEveryFifthYear();
    assert StrictlySorted(Years, IntLess);
    GeneratedYearOptions(Countries, Years, Regions, pop);
  }

  /** Some row puts `country` in one of `regions`:
      `c in df[df['Region'].isin(regions)]['Country'].unique()`. */
  predicate InRegions(df: seq<Row>, country: string, regions: seq<string>) {
    exists i :: 0 <= i < |df| && df[i].country == country && df[i].region in regions
  }

  function InRegionsTest(df: seq<Row>, regions: seq<string>): string -> bool {
    c => InRegions(df, c, regions)
  }

  /** The region filter: with no region chosen the selection is kept as it
      is; otherwise only the selected countries that some row places in a
      chosen region remain, in their selected order. */
  function RegionFilter(df: seq<Row>, selected: seq<string>, regions: seq<string>): (r: seq<string>)
    ensures |regions| == 0 ==> r == selected
    ensures |regions| > 0 ==> Subsequence(r, selected)
    ensures |regions| > 0 ==> forall c :: c in r <==> c in selected && InRegions(df, c, regions)
    ensures |regions| > 0 ==> forall c :: multiset(r)[c] == if InRegions(df, c, regions) then multiset(selected)[c] else 0
  {
    if |regions| == 0 then selected else Filter(selected, InRegionsTest(df, regions))
  }

  /** On the dashboard's table a country is placed in a region exactly when
      it is one of the twenty countries and its looked-up region is chosen. */
  lemma DatasetInRegions(pop: (string, int) -> Pop, c: string, regions: seq<string>)
    ensures InRegions(Dataset(pop), c, regions) <==> c in Countries && RegionOf(Regions, c) in regions
  {
    var df := Dataset(pop);
    DatasetIsTable(pop);
    YearsAreEveryFifthYear();
    if c in Countries && RegionOf(Regions, c) in regions {
      assert Years[0] in Years;
      assert HasRow(df, c, Years[0]);
    }
  }

  /** With every region of the table chosen, as by default, the filter keeps
      every selected country that has a row. */
  lemma DefaultRegionsKeepSelection(df: seq<Row>, selected: seq<string>)
    requires forall c :: c in selected ==> exists i :: 0 <= i < |df| && df[i].country == c
    ensures RegionFilter(df, selected, AllRegions(df)) == selected
  {
    var regions := AllRegions(df);
    var keep := InRegionsTest(df, regions);
    forall c | c in selected ensures keep(c) {
      var i :| 0 <= i < |df| && df[i].country == c;
      assert df[i].region in regions;
    }
    FilterKeepsAll(selected, keep);
  }

  /** The countries the table and the count use: the selection, or every
      country when the selection is empty. */
  function Shown(df: seq<Row>, selected: seq<string>): (cs: seq<string>)
    ensures |selected| > 0 ==> cs == selected
    ensures |selected| == 0 ==> Distinct(cs) && forall c :: c in cs <==> exists i :: 0 <= i < |df| && df[i].country == c
  {
    if |selected| > 0 then selected else AllCountries(df)
  }

  /** "Countries Displayed": `len(selected)`, or the number of distinct
      countries of the table when nothing is selected. */
  function DisplayedCount(df: seq<Row>, selected: seq<string>): (n: nat)
    ensures |selected| > 0 ==> n == |selected|
    ensures |selected| == 0 ==> n == |set i | 0 <= i < |df| :: df[i].country|
  {
    var cs := Shown(df, selected);
    DistinctCardinality(AllCountries(df));
    assert (set x | x in AllCountries(df)) == (set i | 0 <= i < |df| :: df[i].country);
    |cs|
  }

  /** The header's "World Population": the sum over the rows of the year. */
  function WorldTotal(df: seq<Row>, year: int): (t: int)
    ensures 0 <= t
    ensures t == 0 <==> forall i :: 0 <= i < |df| ==> df[i].year != year
  {
    YearTotal(df, year)
  }

  /** The metric's delta: this year's total minus the total five years
      earlier, where a year without rows sums to 0. */
  function PopulationDelta(df: seq<Row>, year: int): (d: int)
    ensures d + WorldTotal(df, year - 5) == WorldTotal(df, year)
    ensures (forall i :: 0 <= i < |df| ==> df[i].year != year - 5) ==> d == WorldTotal(df, year)
  {
    WorldTotal(df, year) - WorldTotal(df, year - 5)
  }

  /** On the dashboard's table the world total of a generated year is the
      oracle's sum over the twenty countries, and 0 for any other year. */
  lemma DatasetWorldTotal(pop: (string, int) -> Pop, year: int)
    ensures WorldTotal(Dataset(pop), year) == if year in Years then OracleSum(Countries, year, pop) else 0
  {
    YearsDistinct();
    GeneratedYearTotal(Countries, Years, Regions, pop, year);
  }

  /** A table whose years are all drawn from `years`, with no year five
      years before `year` and a row in `year`, has at `year` a delta equal to
      the whole world total and not a missing value. */
  lemma DeltaWithoutEarlierYear(df: seq<Row>, years: seq<int>, year: int, k: int)
    requires forall i :: 0 <= i < |df| ==> df[i].year in years
    requires year - 5 !in years
    requires 0 <= k < |df| && df[k].year == year
    ensures PopulationDelta(df, year) == WorldTotal(df, year) > 0
  {
  }

  /** At 1950, the first generated year, the delta is the whole world total. */
  lemma DatasetDeltaAtFirstYear(pop: (string, int) -> Pop)
    ensures PopulationDelta(Dataset(pop), 1950) == WorldTotal(Dataset(pop), 1950) > 0
  {
    DatasetFirstRow(pop);
    YearsMembership();
    DeltaWithoutEarlierYear(Dataset(pop), Years, 1950, 0);
  }

  /** "Total Growth": the sum of the summary's growth column. */
  function TotalGrowth(s: seq<CountrySummary>): (t: real)
    ensures (forall k :: 0 <= k < |s| ==> 0.0 <= s[k].growth) ==> 0.0 <= t
  {
    if |s| == 0 then 0.0
    else
      assert forall k :: 1 <= k < |s| ==> s[k] == s[1..][k - 1];
      s[0].growth + TotalGrowth(s[1..])
  }

  /** "Average Growth Rate": the mean of the growth column; pandas gives NaN
      for an empty column, modelled as `None`. */
  function AverageGrowth(s: seq<CountrySummary>): (a: Option<real>)
    ensures a.None? <==> |s| == 0
    ensures a.Some? ==> a.value * |s| as real == TotalGrowth(s)
  {
    if |s| == 0 then None else Some(TotalGrowth(s) / |s| as real)
  }

  /** `x` added `n` times. */
  function Repeat(x: real, n: nat): real {
    if n == 0 then 0.0 else x + Repeat(x, n - 1)
  }

  lemma {:induction false} RepeatIsProduct(x: real, n: nat)
    ensures Repeat(x, n) == x * n as real
  {
    if n > 0 {
      RepeatIsProduct(x, n - 1);
      assert x * n as real == x + x * (n - 1) as real;
    }
  }

  /** Growth bounds carry over to the total: with every growth between `lo`
      and `hi`, the total lies between `|s|` times `lo` and `|s|` times `hi`. */
  lemma {:induction false} TotalGrowthBounds(s: seq<CountrySummary>, lo: real, hi: real)
    requires forall k :: 0 <= k < |s| ==> lo <= s[k].growth <= hi
    ensures Repeat(lo, |s|) <= TotalGrowth(s) <= Repeat(hi, |s|)
    decreases |s|
  {
    if |s| > 0 {
      var tail := s[1..];
      assert forall k :: 0 <= k < |tail| ==> tail[k] == s[k + 1];
      TotalGrowthBounds(tail, lo, hi);
    }
  }

  /** The average lies between the smallest and the largest growth. */
  lemma AverageBetween(s: seq<CountrySummary>, lo: real, hi: real)
    requires |s| > 0
    requires forall k :: 0 <= k < |s| ==> lo <= s[k].growth <= hi
    ensures lo <= AverageGrowth(s).value <= hi
  {
    TotalGrowthBounds(s, lo, hi);
    MeanBetween(TotalGrowth(s), |s|, AverageGrowth(s).value, lo, hi);
  }

  /** A mean `a` of `n` values whose total lies between `n` times `lo` and
      `n` times `hi` lies between `lo` and `hi`. */
  lemma MeanBetween(total: real, n: nat, a: real, lo: real, hi: real)
    requires 0 < n && a * n as real == total
    requires Repeat(lo, n) <= total <= Repeat(hi, n)
    ensures lo <= a <= hi
  {
    RepeatIsProduct(lo, n);
    RepeatIsProduct(hi, n);
    ScaledBetween(n as real, a, lo, hi);
  }

  lemma ScaledBetween(n: real, a: real, lo: real, hi: real)
    requires 0.0 < n && lo * n <= a * n <= hi * n
    ensures lo <= a <= hi
  {
  }

  /** On the dashboard's table the "Total Growth" metric is non-negative. */
  lemma DatasetTotalGrowth(pop: (string, int) -> Pop)
    ensures 0.0 <= TotalGrowth(Summarize(Dataset(pop)))
  {
  }

  /** On the dashboard's table the "Avg Growth Rate" metric exists and is the
      total over the twenty countries. */
  lemma DatasetAverageGrowth(pop: (string, int) -> Pop)
    ensures AverageGrowth(Summarize(Dataset(pop))).Some?
    ensures AverageGrowth(Summarize(Dataset(pop))).value * 20.0 == TotalGrowth(Summarize(Dataset(pop)))
  {
    DatasetSummary(pop);
    GrowthMetricsOfTwenty(Summarize(Dataset(pop)));
  }

  lemma GrowthMetricsOfTwenty(s: seq<CountrySummary>)
    requires |s| == 20
    ensures AverageGrowth(s).Some? && AverageGrowth(s).value * 20.0 == TotalGrowth(s)
  {
    assert |s| as real == 20.0;
  }

  function YearTest(year: int): Row -> bool {
    (r: Row) => r.year == year
  }

  /** `create_world_map`: the rows of the selected year, in table order. */
  function YearRows(df: seq<Row>, year: int): (rows: seq<Row>)
    ensures Subsequence(rows, df)
    ensures forall r :: r in rows <==> r in df && r.year == year
    ensures forall r :: multiset(rows)[r] == if r.year == year then multiset(df)[r] else 0
  {
    Filter(df, YearTest(year))
  }

  function CountryTest(countries: seq<string>): Row -> bool {
    (r: Row) => r.country in countries
  }

  /** `create_population_trend`: the rows of the selected countries, in
      table order. */
  function TrendRows(df: seq<Row>, countries: seq<string>): (rows: seq<Row>)
    ensures Subsequence(rows, df)
    ensures forall r :: r in rows <==> r in df && r.country in countries
    ensures forall r :: multiset(rows)[r] == if r.country in countries then multiset(df)[r] else 0
  {
    Filter(df, CountryTest(countries))
  }

  /** One row of the population table: Country, Region, Population. */
  datatype DisplayRow = DisplayRow(country: string, region: string, population: Pop)

  function Project(r: Row): DisplayRow {
    DisplayRow(r.country, r.region, r.population)
  }

  function PopulationKey(d: DisplayRow): real {
    d.population as real
  }

  function TableTest(countries: seq<string>, year: int): Row -> bool {
    (r: Row) => r.country in countries && r.year == year
  }

  /** The population table: the rows of the selected year whose country is
      shown, projected to (Country, Region, Population), largest population
      first; the order among equal populations is left open. */
  function DisplayTable(df: seq<Row>, selected: seq<string>, year: int): (t: seq<DisplayRow>)
    ensures NonIncreasing(t, PopulationKey)
    ensures multiset(t) == multiset(Map(Filter(df, TableTest(Shown(df, selected), year)), Project))
    ensures |t| == |Filter(df, TableTest(Shown(df, selected), year))|
  {
    SortDesc(Map(Filter(df, TableTest(Shown(df, selected), year)), Project), PopulationKey)
  }

  /** A row is in the table exactly when some row of the table's data has the
      selected year and a shown country and projects to it. */
  lemma DisplayTableRows(df: seq<Row>, selected: seq<string>, year: int, d: DisplayRow)
    ensures d in DisplayTable(df, selected, year) <==>
              exists i :: 0 <= i < |df| && df[i].year == year && df[i].country in Shown(df, selected) && d == Project(df[i])
  {
    var test := TableTest(Shown(df, selected), year);
    MapFilterMembers(df, test, Project, d);
    assert d in DisplayTable(df, selected, year) <==> d in multiset(Map(Filter(df, test), Project));
  }

  /** A year without rows gives an empty table. */
  lemma UnknownYearEmptyTable(df: seq<Row>, selected: seq<string>, year: int)
    requires forall i :: 0 <= i < |df| ==> df[i].year != year
    ensures DisplayTable(df, selected, year) == []
  {
    var test := TableTest(Shown(df, selected), year);
    FilterDropsAll(df, test);
    var t := DisplayTable(df, selected, year);
    assert |multiset(t)| == |t|;
  }

  function ListTest(names: seq<string>): string -> bool {
    c => c in names
  }

  /** With distinct years, one country's rows hold one row of `year` when
      the year is generated. */
  lemma {:induction false} CountryRowsInTable(country: string, years: seq<int>, region: string, pop: (string, int) -> Pop,
                                              shown: seq<string>, year: int)
    requires Distinct(years) && year in years
    ensures |Filter(CountryRows(country, years, region, pop), TableTest(shown, year))| == if country in shown then 1 else 0
    decreases |years|
  {
    var rows := CountryRows(country, years, region, pop);
    var test := TableTest(shown, year);
    var rest := years[1..];
    assert rows[1..] == CountryRows(country, rest, region, pop);
    DistinctTail(years);
    if years[0] == year {
      FilterDropsAll(rows[1..], test);
    } else {
      assert year in rest;
      CountryRowsInTable(country, rest, region, pop, shown, year);
    }
  }

  /** On a generated table, a generated year has one table row for each
      listed country that is shown. */
  lemma {:induction false} GeneratedTableRows(countries: seq<string>, years: seq<int>, regions: seq<RegionList>,
                                              pop: (string, int) -> Pop, shown: seq<string>, year: int)
    requires Distinct(years) && year in years
    ensures |Filter(Generate(countries, years, regions, pop), TableTest(shown, year))| == |Filter(countries, ListTest(shown))|
    decreases |countries|
  {
    if |countries| > 0 {
      var head := CountryRows(countries[0], years, RegionOf(regions, countries[0]), pop);
      var rest := Generate(countries[1..], years, regions, pop);
      FilterAppend(head, rest, TableTest(shown, year));
      CountryRowsInTable(countries[0], years, RegionOf(regions, countries[0]), pop, shown, year);
      GeneratedTableRows(countries[1..], years, regions, pop, shown, year);
    }
  }

  /** On the dashboard's table, for a generated year and a selection of
      distinct catalog countries (or none), the population table has as many
      rows as the "Countries Displayed" metric counts. */
  lemma DisplayCountMatchesTable(pop: (string, int) -> Pop, selected: seq<string>, year: int)
    requires year in Years && Distinct(selected)
    requires forall c :: c in selected ==> c in Countries
    ensures |DisplayTable(Dataset(pop), selected, year)| == DisplayedCount(Dataset(pop), selected)
  {
    ListedCountriesArePermutation();
    YearsDistinct();
    GeneratedCountMatchesTable(Countries, Years, Regions, pop, selected, year);
  }

  /** The same for any generated table with distinct countries and years. */
  lemma GeneratedCountMatchesTable(countries: seq<string>, years: seq<int>, regions: seq<RegionList>,
                                   pop: (string, int) -> Pop, selected: seq<string>, year: int)
    requires Distinct(countries) && Distinct(years) && year in years && Distinct(selected)
    requires forall c :: c in selected ==> c in countries
    ensures |DisplayTable(Generate(countries, years, regions, pop), selected, year)|
            == DisplayedCount(Generate(countries, years, regions, pop), selected)
  {
    var df := Generate(countries, years, regions, pop);
    var shown := Shown(df, selected);
    GeneratedTableRows(countries, years, regions, pop, shown, year);
    var listed := Filter(countries, ListTest(shown));
    FilterDistinct(countries, ListTest(shown));
    if |selected| == 0 {
      GenerateRows(countries, years, regions, pop);
      forall c | c in shown ensures c in countries {
        var i :| 0 <= i < |df| && df[i].country == c;
      }
    }
    SameElementsSameLength(listed, shown);
  }
}
