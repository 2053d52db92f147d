/** The population table built by `load_data`: one row per (country, year),
    countries in the outer loop and years in the inner loop. The random growth
    rate, the noise and the float arithmetic that produce a population are
    replaced by an oracle `pop` from (country, year) to a positive count. */
module Series {
  import opened Collections
  import opened Catalog

  /** A population count; every generated population is positive. */
  type Pop = n: int | 0 < n witness 1

  /** One row of the table, with the columns Country, Year, Population, Region. */
  datatype Row = Row(country: string, year: int, population: Pop, region: string)

  /** `list(range(start, stop, step))` for a positive step: the values
      `start + i * step` below `stop`, and no more. */
  function Range(start: int, stop: int, step: int): (r: seq<int>)
    requires step > 0
    ensures |r| == 0 <==> stop <= start
    ensures forall i :: 0 <= i < |r| ==> r[i] == start + i * step && r[i] < stop
    ensures start + |r| * step >= stop
    decreases stop - start
  {
    if stop <= start then []
    else
      var rest := Range(start + step, stop, step);
      var r := [start] + rest;
      assert forall i :: 1 <= i < |r| ==> r[i] == start + i * step by {
        forall i | 1 <= i < |r| ensures r[i] == start + i * step {
          ShiftProduct(i, step);
        }
      }
      ShiftProduct(|r|, step);
      r
  }

  /** Distributivity step used to shift an index by one. */
  lemma ShiftProduct(i: int, m: int)
    ensures (i - 1) * m + m == i * m
  {
  }

  /** The generated years, written out; `YearsIsRange` shows they are
      `range(1950, 2024, 5)`. */
  const Years: seq<int> := [1950, 1955, 1960, 1965, 1970, 1975, 1980, 1985, 1990, 1995, 2000, 2005, 2010, 2015, 2020]

  /** The year list of `load_data` is `list(range(1950, 2024, 5))`. */
  lemma YearsIsRange()
    ensures Years == Range(1950, 2024, 5)
  {
    var r := Range(1950, 2024, 5);
    assert r[|r| - 1] == 1950 + (|r| - 1) * 5;
    assert |r| == 15;
    forall i | 0 <= i < 15 ensures r[i] == Years[i] {
      assert r[i] == 1950 + i * 5;
    }
  }

  /** The year axis has fifteen values, 1950, 1955, ..., 2020, in ascending
      order. */
  lemma YearsAreEveryFifthYear()
    ensures |Years| == 15
    ensures Years[0] == 1950 && Years[14] == 2020
    ensures forall i :: 0 <= i < |Years| ==> Years[i] == 1950 + 5 * i
    ensures forall i, j :: 0 <= i < j < |Years| ==> Years[i] < Years[j]
  {
    var n := |Years|;
    assert n > 0;
    assert Years[n - 1] == 1950 + (n - 1) * 5;
  }

  /** A year is generated exactly when it is a multiple of five years after
      1950, up to 2020; in particular 2023 is not generated, and neither is
      1945, the year before the first. */
  lemma YearsMembership()
    ensures forall y :: y in Years <==> 1950 <= y <= 2020 && (y - 1950) % 5 == 0
    ensures 1950 in Years && 1945 !in Years && 2023 !in Years
  {
    YearsAreEveryFifthYear();
    forall y | y in Years ensures 1950 <= y <= 2020 && (y - 1950) % 5 == 0 {
      var i :| 0 <= i < |Years| && Years[i] == y;
      assert y - 1950 == 5 * i;
    }
    forall y | 1950 <= y <= 2020 && (y - 1950) % 5 == 0 ensures y in Years {
      var k := (y - 1950) / 5;
      assert y - 1950 == 5 * k;
      assert Years[k] == y;
    }
  }

  lemma YearsDistinct()
    ensures Distinct(Years)
  {
    YearsAreEveryFifthYear();
  }

  /** The rows of one country, one per year, in the order of `years`. */
  function CountryRows(country: string, years: seq<int>, region: string, pop: (string, int) -> Pop): (rows: seq<Row>)
    ensures |rows| == |years|
    ensures forall j :: 0 <= j < |years| ==> rows[j] == Row(country, years[j], pop(country, years[j]), region)
  {
    if |years| == 0 then []
    else [Row(country, years[0], pop(country, years[0]), region)] + CountryRows(country, years[1..], region, pop)
  }

  /** The table of `load_data`: for each country in order, one row per year,
      carrying the country's looked-up region. */
  function Generate(countries: seq<string>, years: seq<int>, regions: seq<RegionList>,
                    pop: (string, int) -> Pop): (df: seq<Row>)
    ensures |df| == Offset(|countries|, |years|)
  {
    if |countries| == 0 then []
    else
      CountryRows(countries[0], years, RegionOf(regions, countries[0]), pop)
      + Generate(countries[1..], years, regions, pop)
  }

  /** One row per (country, year) pair of the inputs. */
  lemma GenerateSize(countries: seq<string>, years: seq<int>, regions: seq<RegionList>, pop: (string, int) -> Pop)
    ensures |Generate(countries, years, regions, pop)| == |countries| * |years|
  {
    OffsetIsProduct(|countries|, |years|);
  }

  /** Every row names a country and a year of the inputs, carries the
      country's looked-up region and the oracle's population. */
  lemma {:induction false} GenerateRows(countries: seq<string>, years: seq<int>, regions: seq<RegionList>,
                                        pop: (string, int) -> Pop)
    ensures forall k :: 0 <= k < |Generate(countries, years, regions, pop)| ==>
              && Generate(countries, years, regions, pop)[k].country in countries
              && Generate(countries, years, regions, pop)[k].year in years
              && Generate(countries, years, regions, pop)[k].region == RegionOf(regions, Generate(countries, years, regions, pop)[k].country)
              && Generate(countries, years, regions, pop)[k].population == pop(Generate(countries, years, regions, pop)[k].country, Generate(countries, years, regions, pop)[k].year)
    decreases |countries|
  {
    if |countries| > 0 {
      var df := Generate(countries, years, regions, pop);
      var head := CountryRows(countries[0], years, RegionOf(regions, countries[0]), pop);
      var rest := Generate(countries[1..], years, regions, pop);
      assert df == head + rest;
      GenerateRows(countries[1..], years, regions, pop);
      forall k | |head| <= k < |df| ensures df[k] == rest[k - |head|] && rest[k - |head|].country in countries {
      }
    }
  }

  /** `i * m` computed by repeated addition: the offset of the `i`-th block
      of `m` rows. */
  function Offset(i: nat, m: nat): nat {
    if i == 0 then 0 else Offset(i - 1, m) + m
  }

  lemma {:induction false} OffsetIsProduct(i: nat, m: nat)
    ensures Offset(i, m) == i * m
  {
    if i > 0 {
      OffsetIsProduct(i - 1, m);
      ShiftProduct(i, m);
    }
  }

  /** Row `Offset(i, |years|) + j`, that is row `i * |years| + j`, is
      country `i` in year `j`: countries vary in the outer loop and years in
      the inner loop. */
  lemma {:induction false} GenerateBlock(countries: seq<string>, years: seq<int>, regions: seq<RegionList>,
                                         pop: (string, int) -> Pop, i: nat, j: nat)
    requires i < |countries| && j < |years|
    ensures Offset(i, |years|) + j < |Generate(countries, years, regions, pop)|
    ensures Generate(countries, years, regions, pop)[Offset(i, |years|) + j]
            == Row(countries[i], years[j], pop(countries[i], years[j]), RegionOf(regions, countries[i]))
    decreases i
  {
    var df := Generate(countries, years, regions, pop);
    var head := CountryRows(countries[0], years, RegionOf(regions, countries[0]), pop);
    var rest := Generate(countries[1..], years, regions, pop);
    assert df == head + rest;
    if i == 0 {
      assert df[j] == head[j];
    } else {
      var k := Offset(i - 1, |years|) + j;
      GenerateBlock(countries[1..], years, regions, pop, i - 1, j);
      assert countries[1..][i - 1] == countries[i];
      assert Offset(i, |years|) + j == |head| + k;
      assert df[|head| + k] == rest[k];
    }
  }

  /** The first row is the first country in the first year. */
  lemma GenerateFirst(countries: seq<string>, years: seq<int>, regions: seq<RegionList>, pop: (string, int) -> Pop)
    requires 0 < |countries| && 0 < |years|
    ensures 0 < |Generate(countries, years, regions, pop)|
    ensures Generate(countries, years, regions, pop)[0].country == countries[0]
    ensures Generate(countries, years, regions, pop)[0].year == years[0]
  {
    GenerateBlock(countries, years, regions, pop, 0, 0);
  }

  /** Some row of `df` is for `country` in `year`. */
  predicate HasRow(df: seq<Row>, country: string, year: int) {
    exists k :: 0 <= k < |df| && df[k].country == country && df[k].year == year
  }

  /** Every (country, year) pair of the inputs has a row. */
  lemma GenerateCovers(countries: seq<string>, years: seq<int>, regions: seq<RegionList>, pop: (string, int) -> Pop)
    ensures forall c, y {:trigger HasRow(Generate(countries, years, regions, pop), c, y)} ::
              c in countries && y in years ==> HasRow(Generate(countries, years, regions, pop), c, y)
  {
    var df := Generate(countries, years, regions, pop);
    forall c, y | c in countries && y in years ensures HasRow(df, c, y) {
      var i :| 0 <= i < |countries| && countries[i] == c;
      var j :| 0 <= j < |years| && years[j] == y;
      GenerateBlock(countries, years, regions, pop, i, j);
      assert df[Offset(i, |years|) + j].country == c && df[Offset(i, |years|) + j].year == y;
    }
  }

  /** With no repeated country and no repeated year, no (country, year) pair
      has two rows. */
  lemma {:induction false} GenerateUnique(countries: seq<string>, years: seq<int>, regions: seq<RegionList>,
                                          pop: (string, int) -> Pop)
    requires Distinct(countries) && Distinct(years)
    ensures forall k1, k2 :: 0 <= k1 < k2 < |Generate(countries, years, regions, pop)| ==>
              Generate(countries, years, regions, pop)[k1].country != Generate(countries, years, regions, pop)[k2].country ||
              Generate(countries, years, regions, pop)[k1].year != Generate(countries, years, regions, pop)[k2].year
    decreases |countries|
  {
    if |countries| > 0 {
      var df := Generate(countries, years, regions, pop);
      var head := CountryRows(countries[0], years, RegionOf(regions, countries[0]), pop);
      var rest := Generate(countries[1..], years, regions, pop);
      assert df == head + rest;
      DistinctTail(countries);
      GenerateUnique(countries[1..], years, regions, pop);
      GenerateRows(countries[1..], years, regions, pop);
      forall k1, k2 | 0 <= k1 < k2 < |df|
        ensures df[k1].country != df[k2].country || df[k1].year != df[k2].year
      {
        if k2 < |head| {
          assert df[k1].year == years[k1] && df[k2].year == years[k2];
        } else if k1 < |head| {
          assert df[k1].country == countries[0];
          assert df[k2] == rest[k2 - |head|];
        } else {
          assert df[k1] == rest[k1 - |head|] && df[k2] == rest[k2 - |head|];
        }
      }
    }
  }

  /** Every row of `df` is for a country and a year of the inputs and carries
      the country's looked-up region and the oracle's population. */
  ghost predicate RowsFrom(df: seq<Row>, countries: seq<string>, years: seq<int>, regions: seq<RegionList>,
                           pop: (string, int) -> Pop) {
    forall k :: 0 <= k < |df| ==>
      && df[k].country in countries
      && df[k].year in years
      && df[k].region == RegionOf(regions, df[k].country)
      && df[k].population == pop(df[k].country, df[k].year)
  }

  /** Every (country, year) pair of the inputs has a row in `df`. */
  ghost predicate CoversAll(df: seq<Row>, countries: seq<string>, years: seq<int>) {
    forall c, y {:trigger HasRow(df, c, y)} :: c in countries && y in years ==> HasRow(df, c, y)
  }

  /** The generated table has exactly the rows the inputs describe. */
  lemma GenerateIsTable(countries: seq<string>, years: seq<int>, regions: seq<RegionList>, pop: (string, int) -> Pop)
    ensures RowsFrom(Generate(countries, years, regions, pop), countries, years, regions, pop)
    ensures CoversAll(Generate(countries, years, regions, pop), countries, years)
  {
    GenerateRows(countries, years, regions, pop);
    GenerateCovers(countries, years, regions, pop);
  }

  /** The dashboard's table for a population oracle. */
  function Dataset(pop: (string, int) -> Pop): seq<Row> {
    Generate(Countries, Years, Regions, pop)
  }

  /** The dashboard's table holds exactly the catalog's (country, year) rows. */
  lemma DatasetIsTable(pop: (string, int) -> Pop)
    ensures RowsFrom(Dataset(pop), Countries, Years, Regions, pop)
    ensures CoversAll(Dataset(pop), Countries, Years)
  {
    GenerateIsTable(Countries, Years, Regions, pop);
  }

  /** The dashboard's table starts with China in 1950, and all its years
      are generated years. */
  lemma DatasetFirstRow(pop: (string, int) -> Pop)
    ensures 0 < |Dataset(pop)| && Dataset(pop)[0].country == "China" && Dataset(pop)[0].year == 1950
    ensures forall k :: 0 <= k < |Dataset(pop)| ==> Dataset(pop)[k].year in Years
  {
    YearsAreEveryFifthYear();
    GenerateFirst(Countries, Years, Regions, pop);
    GenerateRows(Countries, Years, Regions, pop);
  }

  /** The dashboard's table has 20 x 15 = 300 rows. */
  lemma DatasetSize(pop: (string, int) -> Pop)
    ensures |Dataset(pop)| == 300
  {
    assert |Countries| == 20 && |Years| == 15;
    GenerateSize(Countries, Years, Regions, pop);
  }

  /** Each (country, year) pair of the catalog occurs in exactly one row. */
  lemma DatasetPairsOnce(pop: (string, int) -> Pop)
    ensures forall c, y {:trigger HasRow(Dataset(pop), c, y)} :: c in Countries && y in Years ==> HasRow(Dataset(pop), c, y)
    ensures forall k1, k2 :: 0 <= k1 < k2 < |Dataset(pop)| ==>
              Dataset(pop)[k1].country != Dataset(pop)[k2].country || Dataset(pop)[k1].year != Dataset(pop)[k2].year
  {
    ListedCountriesArePermutation();
    YearsDistinct();
    GenerateCovers(Countries, Years, Regions, pop);
    GenerateUnique(Countries, Years, Regions, pop);
  }

  /** No row of the dashboard's table has region `Other`. */
  lemma DatasetRegions(pop: (string, int) -> Pop)
    ensures forall k :: 0 <= k < |Dataset(pop)| ==> Dataset(pop)[k].region != Other
  {
    CatalogIsPartition();
    GenerateRows(Countries, Years, Regions, pop);
  }
}
