/** The per-country summary of `load_data`: the table grouped by
    (Country, Region), with the minimum and maximum population of each group
    and the growth between them as a percentage. */
module Summaries {
  import opened Collections
  import opened Ordering
  import opened Catalog
  import opened Series

  /** One row of the summary. As in the source, `population1950` and
      `population2023` are the smallest and the largest population of the
      group by value, whichever years they come from. */
  datatype CountrySummary = CountrySummary(
    country: string,
    region: string,
    population1950: Pop,
    population2023: Pop,
    growth: real)

  /** `(high - low) / low * 100` on reals: no growth exactly when the two
      populations agree, and non-negative growth when the first is the
      smaller. */
  function GrowthPercent(low: Pop, high: Pop): (g: real)
    ensures low <= high ==> 0.0 <= g
    ensures g == 0.0 <==> low == high
  {
    (high - low) as real / low as real * 100.0
  }

  /** The growth is the percentage of `low` that `high` adds:
      `low * growth / 100 == high - low`. */
  lemma GrowthScales(low: Pop, high: Pop)
    ensures GrowthPercent(low, high) * low as real == (high - low) as real * 100.0
  {
  }

  /** The row belongs to the group with key (country, region). */
  predicate InGroup(r: Row, key: (string, string)) {
    r.country == key.0 && r.region == key.1
  }

  /** The (Country, Region) key of every row, in table order. */
  function GroupKeys(df: seq<Row>): (ks: seq<(string, string)>)
    ensures |ks| == |df|
    ensures forall i :: 0 <= i < |df| ==> InGroup(df[i], ks[i])
  {
    seq(|df|, i requires 0 <= i < |df| => (df[i].country, df[i].region))
  }

  /** Some row of `df` belongs to the group `key`. */
  ghost predicate HasGroup(df: seq<Row>, key: (string, string)) {
    exists i :: 0 <= i < |df| && InGroup(df[i], key)
  }

  /** Populations of the rows of one group, in table order. */
  function GroupPopulations(df: seq<Row>, key: (string, string)): (ps: seq<int>)
    ensures forall x :: x in ps <==> exists i :: 0 <= i < |df| && InGroup(df[i], key) && df[i].population == x
    ensures forall x :: x in ps ==> x > 0
  {
    if |df| == 0 then []
    else
      var rest := GroupPopulations(df[1..], key);
      assert forall i :: 1 <= i < |df| ==> df[i] == df[1..][i - 1];
      if InGroup(df[0], key) then [df[0].population] + rest else rest
  }

  /** `e` is the summary of its group in `df`: its two populations are the
      minimum and the maximum over the group's rows and its growth is the
      percentage between them. */
  ghost predicate SummarizesGroup(df: seq<Row>, e: CountrySummary) {
    var key := (e.country, e.region);
    && (exists i :: 0 <= i < |df| && InGroup(df[i], key) && df[i].population == e.population1950)
    && (exists i :: 0 <= i < |df| && InGroup(df[i], key) && df[i].population == e.population2023)
    && (forall i :: 0 <= i < |df| && InGroup(df[i], key) ==>
          e.population1950 <= df[i].population <= e.population2023)
    && e.growth == GrowthPercent(e.population1950, e.population2023)
  }

  /** The summary row of one group that has at least one row. */
  function SummaryFor(df: seq<Row>, key: (string, string)): (e: CountrySummary)
    requires HasGroup(df, key)
    ensures e.country == key.0 && e.region == key.1
    ensures SummarizesGroup(df, e)
  {
    var ps := GroupPopulations(df, key);
    assert forall i :: 0 <= i < |df| && InGroup(df[i], key) ==> df[i].population in ps;
    var low, high := MinOf(ps), MaxOf(ps);
    CountrySummary(key.0, key.1, low, high, GrowthPercent(low, high))
  }

  /** The distinct pairs of `ks` in ascending order. */
  function SortedPairs(ks: seq<(string, string)>): (keys: seq<(string, string)>)
    ensures StrictlySorted(keys, PairLess)
    ensures forall x :: x in keys <==> x in ks
  {
    PairLessIsStrictTotal();
    SortedKeys(ks, PairLess)
  }

  /** The distinct (Country, Region) keys of the table in ascending order,
      as a sorted `groupby` lists its groups. */
  function SortedGroupKeys(df: seq<Row>): (keys: seq<(string, string)>)
    ensures StrictlySorted(keys, PairLess)
    ensures forall k :: 0 <= k < |keys| ==> HasGroup(df, keys[k])
    ensures forall i :: 0 <= i < |df| ==> (df[i].country, df[i].region) in keys
  {
    var ks := GroupKeys(df);
    var keys := SortedPairs(ks);
    KeysHaveGroups(df, ks, keys);
    keys
  }

  lemma KeysHaveGroups(df: seq<Row>, ks: seq<(string, string)>, keys: seq<(string, string)>)
    requires ks == GroupKeys(df)
    requires forall x :: x in keys <==> x in ks
    ensures forall k :: 0 <= k < |keys| ==> HasGroup(df, keys[k])
    ensures forall i :: 0 <= i < |df| ==> (df[i].country, df[i].region) in keys
  {
    forall k | 0 <= k < |keys| ensures HasGroup(df, keys[k]) {
      assert keys[k] in ks;
      var i :| 0 <= i < |df| && ks[i] == keys[k];
      assert InGroup(df[i], keys[k]);
    }
    forall i | 0 <= i < |df| ensures (df[i].country, df[i].region) in keys {
      assert ks[i] == (df[i].country, df[i].region);
      assert ks[i] in ks;
    }
  }

  /** The (Country, Region) key of a summary row. */
  function KeyOf(e: CountrySummary): (string, string) {
    (e.country, e.region)
  }

  /** `summary_df`: one row per distinct (Country, Region) pair of the table,
      in ascending key order, each summarizing its group. */
  function Summarize(df: seq<Row>): (s: seq<CountrySummary>)
    ensures StrictlySorted(Map(s, KeyOf), PairLess)
    ensures forall i :: 0 <= i < |df| ==> (df[i].country, df[i].region) in Map(s, KeyOf)
    ensures forall k :: 0 <= k < |s| ==> SummarizesGroup(df, s[k])
    ensures forall k :: 0 <= k < |s| ==>
              && s[k].population1950 <= s[k].population2023
              && 0.0 <= s[k].growth
              && (s[k].growth == 0.0 <==> s[k].population1950 == s[k].population2023)
  {
    var keys := SortedGroupKeys(df);
    var s := seq(|keys|, k requires 0 <= k < |keys| => SummaryFor(df, keys[k]));
    assert Map(s, KeyOf) == keys;
    s
  }

  /** The country of a summary row. */
  function CountryOf(e: CountrySummary): string {
    e.country
  }

  /** Over `years`, the country's smallest and largest populations are the
      summary's two populations. */
  ghost predicate MinMaxOver(e: CountrySummary, years: seq<int>, pop: (string, int) -> Pop) {
    && (exists i :: 0 <= i < |years| && pop(e.country, years[i]) == e.population1950)
    && (exists i :: 0 <= i < |years| && pop(e.country, years[i]) == e.population2023)
    && (forall i :: 0 <= i < |years| ==> e.population1950 <= pop(e.country, years[i]) <= e.population2023)
  }

  /** On a table built from the inputs, every summary row is for one of
      the countries, with its looked-up region. */
  lemma SummaryRegions(df: seq<Row>, countries: seq<string>, years: seq<int>, regions: seq<RegionList>,
                       pop: (string, int) -> Pop)
    requires RowsFrom(df, countries, years, regions, pop)
    ensures forall k :: 0 <= k < |Summarize(df)| ==>
              Summarize(df)[k].country in countries && Summarize(df)[k].region == RegionOf(regions, Summarize(df)[k].country)
  {
    var s := Summarize(df);
    forall k | 0 <= k < |s| ensures s[k].country in countries && s[k].region == RegionOf(regions, s[k].country) {
      assert SummarizesGroup(df, s[k]);
      var i :| 0 <= i < |df| && InGroup(df[i], KeyOf(s[k])) && df[i].population == s[k].population1950;
    }
  }

  /** On a table that covers every (country, year) pair, every country has
      a summary row. */
  lemma SummaryCoversCountries(df: seq<Row>, countries: seq<string>, years: seq<int>)
    requires |years| > 0
    requires CoversAll(df, countries, years)
    ensures forall c :: c in countries ==> c in Map(Summarize(df), CountryOf)
  {
    forall c | c in countries ensures c in Map(Summarize(df), CountryOf) {
      assert HasRow(df, c, years[0]);
      RowHasSummary(df, c, years[0]);
    }
  }

  lemma RowHasSummary(df: seq<Row>, c: string, year: int)
    requires HasRow(df, c, year)
    ensures c in Map(Summarize(df), CountryOf)
  {
    var i :| 0 <= i < |df| && df[i].country == c && df[i].year == year;
    KeyGivesCountry(Summarize(df), (df[i].country, df[i].region));
  }

  lemma KeyGivesCountry(s: seq<CountrySummary>, key: (string, string))
    requires key in Map(s, KeyOf)
    ensures key.0 in Map(s, CountryOf)
  {
    var keys := Map(s, KeyOf);
    var k :| 0 <= k < |keys| && keys[k] == key;
    assert Map(s, CountryOf)[k] == key.0;
  }

  /** On a table built from the inputs and covering them, the summary's
      populations of a country are the minimum and the maximum of the
      oracle over the years, whichever years they fall in. */
  lemma SummaryMinMax(df: seq<Row>, countries: seq<string>, years: seq<int>, regions: seq<RegionList>,
                      pop: (string, int) -> Pop)
    requires RowsFrom(df, countries, years, regions, pop)
    requires CoversAll(df, countries, years)
    ensures forall k :: 0 <= k < |Summarize(df)| ==> MinMaxOver(Summarize(df)[k], years, pop)
  {
    var s := Summarize(df);
    SummaryRegions(df, countries, years, regions, pop);
    forall k | 0 <= k < |s| ensures MinMaxOver(s[k], years, pop) {
      var e := s[k];
      assert SummarizesGroup(df, e);
      var lo :| 0 <= lo < |df| && InGroup(df[lo], KeyOf(e)) && df[lo].population == e.population1950;
      var hi :| 0 <= hi < |df| && InGroup(df[hi], KeyOf(e)) && df[hi].population == e.population2023;
      assert df[lo].year in years && pop(e.country, df[lo].year) == e.population1950;
      assert df[hi].year in years && pop(e.country, df[hi].year) == e.population2023;
      forall i | 0 <= i < |years| ensures e.population1950 <= pop(e.country, years[i]) <= e.population2023 {
        assert HasRow(df, e.country, years[i]);
        var m :| 0 <= m < |df| && df[m].country == e.country && df[m].year == years[i];
        assert InGroup(df[m], KeyOf(e));
      }
    }
  }

  /** On a generated-style table with no repeated country, the summary has
      exactly one row per country. */
  lemma SummaryOnePerCountry(df: seq<Row>, countries: seq<string>, years: seq<int>, regions: seq<RegionList>,
                             pop: (string, int) -> Pop)
    requires |years| > 0 && Distinct(countries)
    requires RowsFrom(df, countries, years, regions, pop)
    requires CoversAll(df, countries, years)
    ensures Distinct(Map(Summarize(df), CountryOf))
    ensures |Summarize(df)| == |countries|
  {
    var s := Summarize(df);
    var names := Map(s, CountryOf);
    SummaryRegions(df, countries, years, regions, pop);
    SummaryCoversCountries(df, countries, years);
    var keys := Map(s, KeyOf);
    PairSortedIsDistinct(keys);
    forall a, b | 0 <= a < b < |names| ensures names[a] != names[b] {
      assert keys[a] != keys[b];
    }
    SameElementsSameLength(names, countries);
  }

  /** Only when a country's population never falls below its first-year value
      and never rises above its last-year value are the two columns the first
      and the last year's populations; for a non-decreasing series they are. */
  lemma MonotoneSummaryIsFirstAndLast(e: CountrySummary, years: seq<int>, pop: (string, int) -> Pop)
    requires |years| > 0 && MinMaxOver(e, years, pop)
    requires forall i, j :: 0 <= i < j < |years| ==> pop(e.country, years[i]) <= pop(e.country, years[j])
    ensures e.population1950 == pop(e.country, years[0])
    ensures e.population2023 == pop(e.country, years[|years| - 1])
  {
    var i :| 0 <= i < |years| && pop(e.country, years[i]) == e.population1950;
    var j :| 0 <= j < |years| && pop(e.country, years[j]) == e.population2023;
    var first, last := pop(e.country, years[0]), pop(e.country, years[|years| - 1]);
    assert first <= e.population1950 by {
      if i > 0 {
        assert first <= pop(e.country, years[i]);
      }
    }
    assert e.population2023 <= last by {
      if j < |years| - 1 {
        assert pop(e.country, years[j]) <= last;
      }
    }
  }

  /** A country whose population dips below its first-year value in a later
      year gets a `Population_1950` that is not its 1950 population. */
  lemma DipMisreportsFirstYear(e: CountrySummary, years: seq<int>, pop: (string, int) -> Pop, j: int)
    requires MinMaxOver(e, years, pop)
    requires 0 < j < |years| && pop(e.country, years[j]) < pop(e.country, years[0])
    ensures e.population1950 != pop(e.country, years[0])
  {
    assert e.population1950 <= pop(e.country, years[j]);
  }

  /** The dashboard's summary: twenty rows, one per country, none in region
      `Other`, each holding the minimum and maximum of its fifteen
      populations. */
  lemma DatasetSummary(pop: (string, int) -> Pop)
    ensures |Summarize(Dataset(pop))| == 20
    ensures Distinct(Map(Summarize(Dataset(pop)), CountryOf))
    ensures forall k :: 0 <= k < |Summarize(Dataset(pop))| ==>
              Summarize(Dataset(pop))[k].region != Other && MinMaxOver(Summarize(Dataset(pop))[k], Years, pop)
  {
    var df := Dataset(pop);
    DatasetIsTable(pop);
    YearsAreEveryFifthYear();
    ListedCountriesArePermutation();
    CatalogIsPartition();
    SummaryRegions(df, Countries, Years, Regions, pop);
    SummaryMinMax(df, Countries, Years, Regions, pop);
    SummaryOnePerCountry(df, Countries, Years, Regions, pop);
  }
}
