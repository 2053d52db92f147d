/** The fixed country list and the region-to-countries table of
    `PopulationDashboard.load_data`, and the region lookup done for every
    generated row. */
module Catalog {
  import opened Collections

  /** One entry of the region table: a region name and the countries listed under it. */
  datatype RegionList = RegionList(region: string, members: seq<string>)

  /** Region given to a country that no list contains. */
  const Other: string := "Other"

  /** `country` is listed under `regions[i]` and under no earlier entry. */
  ghost predicate FirstListing(regions: seq<RegionList>, country: string, i: int) {
    && 0 <= i < |regions|
    && country in regions[i].members
    && forall j :: 0 <= j < i ==> country !in regions[j].members
  }

  /** The first region, in table order, whose list contains `country`;
      `Other` when none does. */
  function RegionOf(regions: seq<RegionList>, country: string): (r: string)
    ensures (forall i :: 0 <= i < |regions| ==> country !in regions[i].members) ==> r == Other
    ensures forall i :: FirstListing(regions, country, i) ==> r == regions[i].region
  {
    if |regions| == 0 then Other
    else if country in regions[0].members then regions[0].region
    else
      var r := RegionOf(regions[1..], country);
      assert forall i :: 1 <= i < |regions| ==> regions[i] == regions[1..][i - 1];
      r
  }

  /** The twenty countries, in generation order. */
  const Countries: seq<string> := [
    "China", "India", "United States", "Indonesia", "Pakistan",
    "Brazil", "Nigeria", "Bangladesh", "Russia", "Mexico",
    "Japan", "Ethiopia", "Philippines", "Egypt", "Vietnam",
    "DR Congo", "Turkey", "Iran", "Germany", "Thailand"
  ]

  /** The region table, in insertion (iteration) order. */
  const Regions: seq<RegionList> := [
    RegionList("Asia", ["China", "India", "Indonesia", "Pakistan", "Bangladesh",
                        "Japan", "Philippines", "Vietnam", "Iran", "Thailand"]),
    RegionList("Europe", ["Russia", "Germany", "Turkey"]),
    RegionList("North America", ["United States", "Mexico"]),
    RegionList("South America", ["Brazil"]),
    RegionList("Africa", ["Nigeria", "Ethiopia", "Egypt", "DR Congo"])
  ]

  /** Number of region lists that contain `country`. */
  function Listings(regions: seq<RegionList>, country: string): nat {
    if |regions| == 0 then 0
    else (if country in regions[0].members then 1 else 0) + Listings(regions[1..], country)
  }

  /** All member lists, concatenated in table order. */
  function Flatten(regions: seq<RegionList>): (all: seq<string>)
    ensures forall c :: c in all <==> exists i :: 0 <= i < |regions| && c in regions[i].members
  {
    if |regions| == 0 then []
    else
      var rest := Flatten(regions[1..]);
      assert forall i :: 1 <= i < |regions| ==> regions[i] == regions[1..][i - 1];
      regions[0].members + rest
  }

  lemma {:induction false} NotListed(regions: seq<RegionList>, c: string)
    requires forall j :: 0 <= j < |regions| ==> c !in regions[j].members
    ensures Listings(regions, c) == 0
  {
    if |regions| > 0 {
      NotListed(regions[1..], c);
    }
  }

  /** When no country is listed twice across the table, a listed country is
      counted once and looked up to the region it is listed under. */
  lemma {:induction false} DisjointListsLookup(regions: seq<RegionList>, c: string, i: int)
    requires Distinct(Flatten(regions))
    requires 0 <= i < |regions| && c in regions[i].members
    ensures Listings(regions, c) == 1
    ensures RegionOf(regions, c) == regions[i].region
  {
    var head, rest := regions[0].members, Flatten(regions[1..]);
    assert Flatten(regions) == head + rest;
    assert Distinct(rest) by {
      forall a, b | 0 <= a < b < |rest| ensures rest[a] != rest[b] {
        assert rest[a] == Flatten(regions)[|head| + a] && rest[b] == Flatten(regions)[|head| + b];
      }
    }
    assert forall a, b :: 0 <= a < |head| && 0 <= b < |rest| ==> head[a] != rest[b] by {
      forall a, b | 0 <= a < |head| && 0 <= b < |rest| ensures head[a] != rest[b] {
        assert head[a] == Flatten(regions)[a] && rest[b] == Flatten(regions)[|head| + b];
      }
    }
    if i == 0 {
      var a :| 0 <= a < |head| && head[a] == c;
      assert c !in rest;
      assert forall j :: 0 <= j < |regions[1..]| ==> c !in regions[1..][j].members;
      NotListed(regions[1..], c);
    } else {
      assert c in regions[1..][i - 1].members;
      assert c in rest;
      DisjointListsLookup(regions[1..], c, i - 1);
    }
  }

  /** The listed countries in table order. */
  const ListedCountries: seq<string> := [
    "China", "India", "Indonesia", "Pakistan", "Bangladesh",
    "Japan", "Philippines", "Vietnam", "Iran", "Thailand",
    "Russia", "Germany", "Turkey", "United States", "Mexico",
    "Brazil", "Nigeria", "Ethiopia", "Egypt", "DR Congo"
  ]

  lemma FlattenRegions()
    ensures Flatten(Regions) == ListedCountries
  {
  }

  lemma ListedCountriesArePermutation()
    ensures Distinct(Countries)
    ensures Distinct(ListedCountries)
    ensures forall c :: c in Countries <==> c in ListedCountries
  {
  }

  /** With the table above, each of the twenty countries is listed under
      exactly one region and is looked up to that region, so none of them
      falls back to `Other`; the table lists no other country. */
  lemma CatalogIsPartition()
    ensures forall c :: c in Countries ==> Listings(Regions, c) == 1 && RegionOf(Regions, c) != Other
    ensures forall i, c :: 0 <= i < |Regions| && c in Regions[i].members ==>
              c in Countries && RegionOf(Regions, c) == Regions[i].region
  {
    FlattenRegions();
    ListedCountriesArePermutation();
    assert forall i :: 0 <= i < |Regions| ==> Regions[i].region != Other;
    forall i, c | 0 <= i < |Regions| && c in Regions[i].members
      ensures c in Countries && RegionOf(Regions, c) == Regions[i].region
    {
      DisjointListsLookup(Regions, c, i);
    }
    forall c | c in Countries ensures Listings(Regions, c) == 1 && RegionOf(Regions, c) != Other {
      var i :| 0 <= i < |Regions| && c in Regions[i].members;
      DisjointListsLookup(Regions, c, i);
    }
  }
}
