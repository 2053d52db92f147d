/** The aggregates behind the regional chart and the growth ranking:
    `df.groupby(['Region', 'Year'])['Population'].sum()` and
    `summary_df.nlargest(10, 'Growth')`. */
module Aggregation {
  import opened Collections
  import opened Ordering
  import opened Catalog
  import opened Series
  import opened Summaries

  /** Sum of the populations of the rows in `year`. */
  function YearTotal(df: seq<Row>, year: int): (t: int)
    ensures 0 <= t
    ensures t == 0 <==> forall i :: 0 <= i < |df| ==> df[i].year != year
  {
    if |df| == 0 then 0
    else
      var rest := YearTotal(df[1..], year);
      assert forall i :: 1 <= i < |df| ==> df[i] == df[1..][i - 1];
      (if df[0].year == year then df[0].population else 0) + rest
  }

  lemma {:induction false} YearTotalAppend(a: seq<Row>, b: seq<Row>, year: int)
    ensures YearTotal(a + b, year) == YearTotal(a, year) + YearTotal(b, year)
    decreases |a|
  {
    if |a| == 0 {
      assert a + b == b;
    } else {
      assert (a + b)[1..] == a[1..] + b;
      YearTotalAppend(a[1..], b, year);
    }
  }

  /** Sum of the oracle's populations of `countries` in `year`. */
  function OracleSum(countries: seq<string>, year: int, pop: (string, int) -> Pop): int {
    if |countries| == 0 then 0 else pop(countries[0], year) + OracleSum(countries[1..], year, pop)
  }

  /** With distinct years, one country contributes its population once to a
      generated year. */
  lemma {:induction false} CountryRowsYearTotal(country: string, years: seq<int>, region: string,
                                                pop: (string, int) -> Pop, year: int)
    requires Distinct(years)
    ensures YearTotal(CountryRows(country, years, region, pop), year) == if year in years then pop(country, year) else 0
    decreases |years|
  {
    if |years| > 0 {
      var rows := CountryRows(country, years, region, pop);
      var rest := years[1..];
      assert rows[1..] == CountryRows(country, rest, region, pop);
      DistinctTail(years);
      CountryRowsYearTotal(country, rest, region, pop, year);
      assert year in years <==> year == years[0] || year in rest by {
        assert years == [years[0]] + rest;
      }
    }
  }

  /** The world total of a generated year is the oracle's sum over the
      countries; a year that is not generated totals 0. */
  lemma {:induction false} GeneratedYearTotal(countries: seq<string>, years: seq<int>, regions: seq<RegionList>,
                                              pop: (string, int) -> Pop, year: int)
    requires Distinct(years)
    ensures YearTotal(Generate(countries, years, regions, pop), year) == if year in years then OracleSum(countries, year, pop) else 0
    decreases |countries|
  {
    if |countries| > 0 {
      var head := CountryRows(countries[0], years, RegionOf(regions, countries[0]), pop);
      var rest := Generate(countries[1..], years, regions, pop);
      YearTotalAppend(head, rest, year);
      CountryRowsYearTotal(countries[0], years, RegionOf(regions, countries[0]), pop, year);
      GeneratedYearTotal(countries[1..], years, regions, pop, year);
    }
  }

  /** Some row of `df` is in `region` and `year`. */
  ghost predicate HasRegionYear(df: seq<Row>, region: string, year: int) {
    exists i :: 0 <= i < |df| && df[i].region == region && df[i].year == year
  }

  /** Sum of the populations of the rows in `region` and `year`. */
  function RegionYearTotal(df: seq<Row>, region: string, year: int): (t: int)
    ensures 0 <= t
    ensures t > 0 <==> HasRegionYear(df, region, year)
  {
    if |df| == 0 then 0
    else
      var rest := RegionYearTotal(df[1..], region, year);
      assert forall i :: 1 <= i < |df| ==> df[i] == df[1..][i - 1];
      (if df[0].region == region && df[0].year == year then df[0].population else 0) + rest
  }

  /** One row of `region_data`. */
  datatype RegionTotal = RegionTotal(region: string, year: int, population: int)

  /** The (Region, Year) key of an aggregate row. */
  function TotalKey(t: RegionTotal): (string, int) {
    (t.region, t.year)
  }

  /** The (Region, Year) key of every row, in table order. */
  function RegionYearKeys(df: seq<Row>): (ks: seq<(string, int)>)
    ensures |ks| == |df|
    ensures forall i :: 0 <= i < |df| ==> ks[i] == (df[i].region, df[i].year)
  {
    seq(|df|, i requires 0 <= i < |df| => (df[i].region, df[i].year))
  }

  /** The distinct keys of `ks` in ascending (Region, Year) order. */
  function SortedRegionYears(ks: seq<(string, int)>): (keys: seq<(string, int)>)
    ensures StrictlySorted(keys, NameYearLess)
    ensures forall x :: x in keys <==> x in ks
  {
    NameYearLessIsStrictTotal();
    SortedKeys(ks, NameYearLess)
  }

  lemma KeysHaveRegionYears(df: seq<Row>, keys: seq<(string, int)>)
    requires forall x :: x in keys <==> x in RegionYearKeys(df)
    ensures forall k :: 0 <= k < |keys| ==> HasRegionYear(df, keys[k].0, keys[k].1)
    ensures forall i :: 0 <= i < |df| ==> (df[i].region, df[i].year) in keys
  {
    var ks := RegionYearKeys(df);
    forall k | 0 <= k < |keys| ensures HasRegionYear(df, keys[k].0, keys[k].1) {
      assert keys[k] in ks;
      var i :| 0 <= i < |ks| && ks[i] == keys[k];
    }
    forall i | 0 <= i < |df| ensures (df[i].region, df[i].year) in keys {
      assert ks[i] in ks;
    }
  }

  /** `region_data`: one row per (Region, Year) pair that occurs in the
      table, in ascending key order, holding the pair's population sum. */
  function RegionTotals(df: seq<Row>): (ts: seq<RegionTotal>)
    ensures forall i, j :: 0 <= i < j < |ts| ==> NameYearLess(TotalKey(ts[i]), TotalKey(ts[j]))
    ensures forall k :: 0 <= k < |ts| ==> HasRegionYear(df, ts[k].region, ts[k].year)
    ensures forall i :: 0 <= i < |df| ==> (df[i].region, df[i].year) in Map(ts, TotalKey)
    ensures forall k :: 0 <= k < |ts| ==>
              ts[k].population == RegionYearTotal(df, ts[k].region, ts[k].year) && ts[k].population > 0
  {
    var keys := SortedRegionYears(RegionYearKeys(df));
    KeysHaveRegionYears(df, keys);
    var ts := seq(|keys|, k requires 0 <= k < |keys| =>
                RegionTotal(keys[k].0, keys[k].1, RegionYearTotal(df, keys[k].0, keys[k].1)));
    assert Map(ts, TotalKey) == keys;
    ts
  }

  /** Sum of the aggregate rows of `year`. */
  function TotalsAt(ts: seq<RegionTotal>, year: int): int {
    if |ts| == 0 then 0
    else (if ts[0].year == year then ts[0].population else 0) + TotalsAt(ts[1..], year)
  }

  /** Regions of the aggregate rows of `year`, in order. */
  function RegionsAt(ts: seq<RegionTotal>, year: int): (rs: seq<string>)
    ensures forall r :: r in rs <==> exists k :: 0 <= k < |ts| && ts[k].region == r && ts[k].year == year
  {
    if |ts| == 0 then []
    else
      var rest := RegionsAt(ts[1..], year);
      assert forall k :: 1 <= k < |ts| ==> ts[k] == ts[1..][k - 1];
      if ts[0].year == year then [ts[0].region] + rest else rest
  }

  /** Sum over `regions` of the (region, year) totals. */
  function SumOverRegions(df: seq<Row>, regions: seq<string>, year: int): int {
    if |regions| == 0 then 0
    else RegionYearTotal(df, regions[0], year) + SumOverRegions(df, regions[1..], year)
  }

  /** Contribution of one row to the (region, year) totals of `regions`. */
  function RowShare(r: Row, regions: seq<string>, year: int): int {
    if |regions| == 0 then 0
    else (if r.region == regions[0] && r.year == year then r.population else 0) + RowShare(r, regions[1..], year)
  }

  lemma {:induction false} SumOverRegionsStep(df: seq<Row>, regions: seq<string>, year: int)
    requires |df| > 0
    ensures SumOverRegions(df, regions, year) == RowShare(df[0], regions, year) + SumOverRegions(df[1..], regions, year)
    decreases |regions|
  {
    if |regions| > 0 {
      SumOverRegionsStep(df, regions[1..], year);
    }
  }

  /** Over distinct regions a row is counted once, if its region is listed. */
  lemma {:induction false} RowShareOnce(r: Row, regions: seq<string>, year: int)
    requires Distinct(regions)
    ensures RowShare(r, regions, year) == if r.year == year && r.region in regions then r.population else 0
    decreases |regions|
  {
    if |regions| > 0 {
      var rest := regions[1..];
      DistinctTail(regions);
      assert regions == [regions[0]] + rest;
      RowShareOnce(r, rest, year);
    }
  }

  /** The (region, year) totals over distinct regions that include every
      region present in `year` add up to the year's total. */
  lemma {:induction false} RegionSumIsYearTotal(df: seq<Row>, regions: seq<string>, year: int)
    requires Distinct(regions)
    requires forall i :: 0 <= i < |df| && df[i].year == year ==> df[i].region in regions
    ensures SumOverRegions(df, regions, year) == YearTotal(df, year)
    decreases |df|
  {
    if |df| == 0 {
      NoRegionsNoTotal(df, regions, year);
    } else {
      SumOverRegionsStep(df, regions, year);
      RowShareOnce(df[0], regions, year);
      assert forall i :: 1 <= i < |df| ==> df[i] == df[1..][i - 1];
      RegionSumIsYearTotal(df[1..], regions, year);
    }
  }

  lemma {:induction false} NoRegionsNoTotal(df: seq<Row>, regions: seq<string>, year: int)
    requires |df| == 0
    ensures SumOverRegions(df, regions, year) == 0
    decreases |regions|
  {
    if |regions| > 0 {
      NoRegionsNoTotal(df, regions[1..], year);
    }
  }

  /** Aggregate rows that carry their pair's total add up, for one year, to
      the sum over their regions. */
  lemma {:induction false} TotalsAtIsSumOverRegions(df: seq<Row>, ts: seq<RegionTotal>, year: int)
    requires forall k :: 0 <= k < |ts| ==> ts[k].population == RegionYearTotal(df, ts[k].region, ts[k].year)
    ensures TotalsAt(ts, year) == SumOverRegions(df, RegionsAt(ts, year), year)
    decreases |ts|
  {
    if |ts| > 0 {
      assert forall k :: 1 <= k < |ts| ==> ts[k] == ts[1..][k - 1];
      TotalsAtIsSumOverRegions(df, ts[1..], year);
      if ts[0].year == year {
        assert ([ts[0].region] + RegionsAt(ts[1..], year))[1..] == RegionsAt(ts[1..], year);
      }
    }
  }

  /** Aggregate rows with pairwise distinct keys list each region at most
      once per year. */
  lemma {:induction false} RegionsAtDistinct(ts: seq<RegionTotal>, year: int)
    requires forall i, j :: 0 <= i < j < |ts| ==> TotalKey(ts[i]) != TotalKey(ts[j])
    ensures Distinct(RegionsAt(ts, year))
    decreases |ts|
  {
    if |ts| > 0 {
      var rest := ts[1..];
      assert forall k :: 1 <= k < |ts| ==> ts[k] == rest[k - 1];
      RegionsAtDistinct(rest, year);
      var rs := RegionsAt(rest, year);
      if ts[0].year == year {
        assert ts[0].region !in rs by {
          forall k | 0 <= k < |rest| && rest[k].year == year ensures rest[k].region != ts[0].region {
            assert TotalKey(ts[0]) != TotalKey(ts[k + 1]);
          }
        }
        var all := [ts[0].region] + rs;
        forall a, b | 0 <= a < b < |all| ensures all[a] != all[b] {
          if a > 0 {
            assert all[a] == rs[a - 1] && all[b] == rs[b - 1];
          } else {
            assert all[b] == rs[b - 1] && all[b] in rs;
          }
        }
      }
    }
  }

  /** For every year, the regional totals of `region_data` add up to the
      year's world population, the total shown in the header metric. */
  lemma RegionTotalsSumToYearTotal(df: seq<Row>, year: int)
    ensures TotalsAt(RegionTotals(df), year) == YearTotal(df, year)
  {
    var ts := RegionTotals(df);
    var keys := Map(ts, TotalKey);
    forall i, j | 0 <= i < j < |ts| ensures TotalKey(ts[i]) != TotalKey(ts[j]) {
      StrLessIrreflexive(ts[i].region);
      assert NameYearLess(TotalKey(ts[i]), TotalKey(ts[j]));
    }
    RegionsAtDistinct(ts, year);
    forall i | 0 <= i < |df| && df[i].year == year ensures df[i].region in RegionsAt(ts, year) {
      assert (df[i].region, df[i].year) in keys;
      var k :| 0 <= k < |keys| && keys[k] == (df[i].region, df[i].year);
      assert ts[k].region == df[i].region && ts[k].year == year;
    }
    TotalsAtIsSumOverRegions(df, ts, year);
    RegionSumIsYearTotal(df, RegionsAt(ts, year), year);
  }

  /** One bar of the growth ranking: `summary_df[['Country', 'Growth']]`. */
  datatype Ranked = Ranked(country: string, growth: real)

  function RankOf(e: CountrySummary): Ranked {
    Ranked(e.country, e.growth)
  }

  function GrowthOf(r: Ranked): real {
    r.growth
  }

  /** Number of bars in the growth ranking. */
  const RankingSize: nat := 10

  /** `nlargest(n, 'Growth')`: the `n` entries with the largest growth (all
      of them when there are fewer), largest first. Among entries with
      equal growth the earlier ones are kept (`TopGrowthKeepsFirstTies`). */
  function TopGrowth(s: seq<CountrySummary>, n: nat): (r: seq<Ranked>)
    ensures |r| == if n <= |s| then n else |s|
    ensures NonIncreasing(r, GrowthOf)
    ensures multiset(r) <= multiset(Map(s, RankOf))
    ensures forall x, z :: x in multiset(Map(s, RankOf)) - multiset(r) && z in r ==> x.growth <= z.growth
  {
    var sorted := SortDesc(Map(s, RankOf), GrowthOf);
    var m := if n <= |s| then n else |s|;
    PrefixDominates(sorted, GrowthOf, m);
    sorted[..m]
  }

  /** `create_growth_ranking`: the ten fastest-growing countries. */
  function GrowthRanking(s: seq<CountrySummary>): (r: seq<Ranked>)
    ensures |r| == if |s| < RankingSize then |s| else RankingSize
    ensures NonIncreasing(r, GrowthOf)
    ensures forall z :: z in r ==> exists k :: 0 <= k < |s| && s[k].country == z.country && s[k].growth == z.growth
    ensures multiset(r) <= multiset(Map(s, RankOf))
    ensures forall x, z :: x in multiset(Map(s, RankOf)) - multiset(r) && z in r ==> x.growth <= z.growth
  {
    var r := TopGrowth(s, RankingSize);
    forall z | z in r ensures exists k :: 0 <= k < |s| && s[k].country == z.country && s[k].growth == z.growth {
      assert z in multiset(Map(s, RankOf));
      var k :| 0 <= k < |s| && Map(s, RankOf)[k] == z;
    }
    r
  }

  /** `nlargest` keeps the first of tied rows (`keep='first'`): among
      entries with equal growth, the ranking lists them in summary order,
      and holds a later one only if it also holds every earlier one. */
  lemma TopGrowthKeepsFirstTies(s: seq<CountrySummary>, n: nat)
    requires Distinct(Map(s, RankOf))
    ensures Stable(Map(s, RankOf), TopGrowth(s, n), GrowthOf)
    ensures forall a, b :: 0 <= a < b < |s| && s[a].growth == s[b].growth && RankOf(s[b]) in TopGrowth(s, n)
                           ==> RankOf(s[a]) in TopGrowth(s, n)
  {
    var ranks := Map(s, RankOf);
    var sorted := SortDesc(ranks, GrowthOf);
    var m := if n <= |s| then n else |s|;
    assert TopGrowth(s, n) == sorted[..m];
    SortDescStable(ranks, GrowthOf);
    StableTake(ranks, sorted, GrowthOf, m);
    forall a, b | 0 <= a < b < |s| && s[a].growth == s[b].growth && RankOf(s[b]) in sorted[..m]
      ensures RankOf(s[a]) in sorted[..m]
    {
      assert ranks[a] == RankOf(s[a]) && ranks[b] == RankOf(s[b]);
      SortDescKeepsFirst(ranks, GrowthOf, a, b, m);
    }
  }

  /** Distinct countries give distinct (Country, Growth) pairs. */
  lemma DistinctRanks(s: seq<CountrySummary>)
    requires Distinct(Map(s, CountryOf))
    ensures Distinct(Map(s, RankOf))
  {
    forall i, j | 0 <= i < j < |s| ensures Map(s, RankOf)[i] != Map(s, RankOf)[j] {
      assert Map(s, CountryOf)[i] != Map(s, CountryOf)[j];
    }
  }

  /** The top-10 chart breaks growth ties by summary order, which is
      alphabetical by country: of two countries with equal growth, the
      chart shows the later one only if it shows the earlier one. */
  lemma GrowthRankingKeepsFirstTies(s: seq<CountrySummary>)
    requires Distinct(Map(s, CountryOf))
    ensures forall a, b :: 0 <= a < b < |s| && s[a].growth == s[b].growth && RankOf(s[b]) in GrowthRanking(s)
                           ==> RankOf(s[a]) in GrowthRanking(s)
  {
    DistinctRanks(s);
    TopGrowthKeepsFirstTies(s, RankingSize);
  }

  /** On the dashboard's table the ranking shows ten of the twenty countries. */
  lemma DatasetRankingSize(pop: (string, int) -> Pop)
    ensures |GrowthRanking(Summarize(Dataset(pop)))| == 10
  {
    DatasetSummary(pop);
  }
}
