/**
 * The map side of the population page: the country shapes joined with the
 * ranked population table, narrowed by the population slider and the
 * country search, and joined once more with the ranks shown on hover.
 */
module World {
  import opened Wrappers
  import Frames
  import opened Ranking

  /** A country shape; the geometry itself plays no part in the logic. */
  datatype Feature<G> = Feature(name: Option<string>, geometry: G)

  /** A row of `world` after the merge and `fillna(0)`. */
  datatype WorldRow<G> = WorldRow(
    name: Option<string>,
    geometry: G,
    country: Option<string>,
    population: nat,
    rank: Option<nat>)

  /** A row of `population_df[["country", "rank"]]`. */
  datatype CountryRank = CountryRank(country: string, rank: nat)

  /** A row handed to the map: the filtered row plus the re-attached `country_y` and `rank_y`. */
  datatype MapRow<G> = MapRow(row: WorldRow<G>, countryY: Option<string>, rankY: Option<nat>)

  /** What the page shows: the map's rows and the top-30 table. */
  datatype Page<G> = Page(mapRows: seq<MapRow<G>>, topRankings: seq<RankedRow>)

  function FeatureName<G>(f: Feature<G>): Option<string> { f.name }

  function RowName<G>(w: WorldRow<G>): Option<string> { w.name }

  function CountryRankKey(c: CountryRank): string { c.country }

  /** One merged row; `fillna(0)` fills the population only, the rank stays missing. */
  function MergedRow<G>(p: (Feature<G>, Option<RankedRow>)): WorldRow<G>
  {
    match p.1
    case Some(m) => WorldRow(p.0.name, p.0.geometry, Some(m.country), m.population, Some(m.rank))
    case None => WorldRow(p.0.name, p.0.geometry, None, 0, None)
  }

  /**
   * `world.merge(population_df, left_on="NAME", right_on="country", how="left")`
   * followed by `world["population"].fillna(0)`.
   */
  function MergePopulation<G(!new)>(features: seq<Feature<G>>, ranked: seq<RankedRow>): (world: seq<WorldRow<G>>)
    ensures |world| >= |features|
    ensures forall w :: w in world ==> exists f :: f in features && w.name == f.name && w.geometry == f.geometry
    ensures forall w :: w in world && w.rank.Some? ==>
      exists m :: m in ranked && w.name == Some(m.country) && w.country == Some(m.country)
        && w.population == m.population && w.rank == Some(m.rank)
    ensures forall w :: w in world && w.rank.None? ==>
      w.country.None? && w.population == 0 && forall m :: m in ranked ==> w.name != Some(m.country)
  {
    var joined := Frames.LeftJoin(features, ranked, FeatureName, CountryOf);
    seq(|joined|, i requires 0 <= i < |joined| => MergedRow(joined[i]))
  }

  /** Smallest population in a non-empty table: `world["population"].min()`. */
  function MinPopulation<G(!new)>(world: seq<WorldRow<G>>): (lo: nat)
    requires world != []
    ensures forall w :: w in world ==> lo <= w.population
    ensures exists w :: w in world && w.population == lo
    decreases |world|
  {
    if |world| == 1 then world[0].population
    else
      var rest := MinPopulation(world[1..]);
      assert forall w :: w in world[1..] ==> w in world;
      if world[0].population <= rest then world[0].population else rest
  }

  /** Largest population in a non-empty table: `world["population"].max()`. */
  function MaxPopulation<G(!new)>(world: seq<WorldRow<G>>): (hi: nat)
    requires world != []
    ensures forall w :: w in world ==> w.population <= hi
    ensures exists w :: w in world && w.population == hi
    decreases |world|
  {
    if |world| == 1 then world[0].population
    else
      var rest := MaxPopulation(world[1..]);
      assert forall w :: w in world[1..] ==> w in world;
      if world[0].population >= rest then world[0].population else rest
  }

  /**
   * The slider's initial `(min_pop, max_pop)`: the column's own minimum and
   * maximum. On an empty table pandas gives NaN and `int(NaN)` fails, so there
   * is no default.
   */
  function SliderDefault<G(!new)>(world: seq<WorldRow<G>>): (range: Option<(int, int)>)
    ensures range.None? <==> world == []
    ensures range.Some? ==> range.value.0 <= range.value.1
    ensures range.Some? ==> forall w :: w in world ==> range.value.0 <= w.population <= range.value.1
    ensures range.Some? ==>
      (exists w :: w in world && w.population == range.value.0)
      && (exists w :: w in world && w.population == range.value.1)
  {
    if world == [] then None
    else Some((MinPopulation(world), MaxPopulation(world)))
  }

  /** The slider's mask: `(population >= min_pop) & (population <= max_pop)`. */
  function InRange<G>(lo: int, hi: int): WorldRow<G> -> bool
  {
    (w: WorldRow<G>) => lo <= w.population <= hi
  }

  /** The slider filter: rows whose population lies in `[lo, hi]`, both ends included. */
  function RangeFilter<G(!new)>(world: seq<WorldRow<G>>, lo: int, hi: int): (kept: seq<WorldRow<G>>)
    ensures |kept| <= |world|
    ensures forall w :: w in kept <==> w in world && lo <= w.population <= hi
    ensures lo > hi ==> kept == []
  {
    if lo > hi then Frames.WhereDropsAll(world, InRange(lo, hi)); Frames.Where(world, InRange(lo, hi))
    else Frames.Where(world, InRange(lo, hi))
  }

  /** `text` holds `sub` as a contiguous, case-sensitive substring. */
  function Contains(text: string, sub: string): bool
    decreases |text|
  {
    sub <= text || (text != [] && Contains(text[1..], sub))
  }

  /** `sub` sits in `text` at offset `i`. */
  ghost predicate OccursAt(text: string, sub: string, i: int)
  {
    0 <= i <= |text| - |sub| && text[i..i + |sub|] == sub
  }

  /** `str.contains(query, case=True, na=False)` on the `NAME` column. */
  predicate NameMatches(name: Option<string>, query: string)
  {
    name.Some? && Contains(name.value, query)
  }

  /** The search mask. */
  function MatchesQuery<G>(query: string): WorldRow<G> -> bool
  {
    (w: WorldRow<G>) => NameMatches(w.name, query)
  }

  /**
   * The country search: an empty query keeps every row (even rows without a
   * name); a non-empty one keeps the rows whose name contains it.
   */
  function SearchFilter<G(!new)>(rows: seq<WorldRow<G>>, query: string): (kept: seq<WorldRow<G>>)
    ensures |kept| <= |rows|
    ensures query == [] ==> kept == rows
    ensures query != [] ==> forall w :: w in kept <==> w in rows && NameMatches(w.name, query)
  {
    if query == [] then rows
    else Frames.Where(rows, MatchesQuery(query))
  }

  /** `population_df[["country", "rank"]]`. */
  function RankColumns(ranked: seq<RankedRow>): seq<CountryRank>
  {
    seq(|ranked|, i requires 0 <= i < |ranked| => CountryRank(ranked[i].country, ranked[i].rank))
  }

  /** One re-merged row; the rank stays missing when no country matches. */
  function RankedMapRow<G>(p: (WorldRow<G>, Option<CountryRank>)): MapRow<G>
  {
    match p.1
    case Some(c) => MapRow(p.0, Some(c.country), Some(c.rank))
    case None => MapRow(p.0, None, None)
  }

  function RankedMapRows<G>(joined: seq<(WorldRow<G>, Option<CountryRank>)>): seq<MapRow<G>>
  {
    seq(|joined|, i requires 0 <= i < |joined| => RankedMapRow(joined[i]))
  }

  /** What the re-merge tells about each row it emits, in terms of the ranked table. */
  lemma RankedMapRowsFacts<G(!new)>(filtered: seq<WorldRow<G>>, ranked: seq<RankedRow>)
    ensures forall d :: d in RankedMapRows(Frames.LeftJoin(filtered, RankColumns(ranked), RowName, CountryRankKey)) ==>
      && d.row in filtered
      && (d.rankY.Some? ==>
        exists k :: 0 <= k < |ranked| && d.row.name == Some(ranked[k].country)
          && d.countryY == Some(ranked[k].country) && d.rankY == Some(ranked[k].rank))
      && (d.rankY.None? ==>
        d.countryY.None? && forall k :: 0 <= k < |ranked| ==> d.row.name != Some(ranked[k].country))
  {
    var columns := RankColumns(ranked);
    var joined := Frames.LeftJoin(filtered, columns, RowName, CountryRankKey);
    var display := RankedMapRows(joined);
    forall d | d in display
      ensures d.row in filtered
      ensures d.rankY.Some? ==>
        exists k :: 0 <= k < |ranked| && d.row.name == Some(ranked[k].country)
          && d.countryY == Some(ranked[k].country) && d.rankY == Some(ranked[k].rank)
      ensures d.rankY.None? ==>
        d.countryY.None? && forall k :: 0 <= k < |ranked| ==> d.row.name != Some(ranked[k].country)
    {
      var i :| 0 <= i < |display| && display[i] == d;
      var p := joined[i];
      assert p in joined;
      match p.1
      case Some(c) =>
        var k :| 0 <= k < |columns| && columns[k] == c;
        assert d.row.name == Some(ranked[k].country);
      case None =>
        forall k | 0 <= k < |ranked| ensures d.row.name != Some(ranked[k].country) {
          assert columns[k] in columns;
        }
    }
  }

  /**
   * `filtered_world.merge(population_df[["country", "rank"]], left_on="NAME",
   * right_on="country", how="left")`: the rank shown on hover as `rank_y`.
   */
  function AttachRank<G(!new)>(filtered: seq<WorldRow<G>>, ranked: seq<RankedRow>): (display: seq<MapRow<G>>)
    ensures |display| >= |filtered|
    ensures forall d :: d in display ==> d.row in filtered
    ensures forall d :: d in display && d.rankY.Some? ==>
      exists k :: 0 <= k < |ranked| && d.row.name == Some(ranked[k].country)
        && d.countryY == Some(ranked[k].country) && d.rankY == Some(ranked[k].rank)
    ensures forall d :: d in display && d.rankY.None? ==>
      d.countryY.None? && forall k :: 0 <= k < |ranked| ==> d.row.name != Some(ranked[k].country)
  {
    RankedMapRowsFacts(filtered, ranked);
    RankedMapRows(Frames.LeftJoin(filtered, RankColumns(ranked), RowName, CountryRankKey))
  }

  /** The page for one setting of the slider and one search text. */
  function BuildPage<G(!new)>(population: seq<PopulationRow>, features: seq<Feature<G>>, lo: int, hi: int, query: string)
    : (page: Page<G>)
    ensures |page.topRankings| == if |population| < TopCount then |population| else TopCount
    ensures forall d :: d in page.mapRows ==> lo <= d.row.population <= hi
    ensures forall d :: d in page.mapRows && query != [] ==> NameMatches(d.row.name, query)
  {
    var ranked := LoadPopulationData(population);
    var world := MergePopulation(features, ranked);
    var filtered := SearchFilter(RangeFilter(world, lo, hi), query);
    Page(AttachRank(filtered, ranked), TopRankings(ranked))
  }
}

module WorldLemmas {
  import opened Wrappers
  import Frames
  import opened Ranking
  import opened RankingLemmas
  import opened World

  /**
   * When the population table names each country once, the merge gives one
   * row per country shape, in the shapes' order, with the shape's own name and
   * geometry; a matched shape carries its country's population and rank, any
   * other shape (a missing name included) population 0 and no rank.
   */
  lemma MergePopulationPerFeature<G(!new)>(features: seq<Feature<G>>, ranked: seq<RankedRow>)
    requires Frames.UniqueKeys(ranked, CountryOf)
    ensures |MergePopulation(features, ranked)| == |features|
    ensures forall i :: 0 <= i < |features| ==>
      MergePopulation(features, ranked)[i].name == features[i].name
      && MergePopulation(features, ranked)[i].geometry == features[i].geometry
    ensures forall i, j :: 0 <= i < |features| && 0 <= j < |ranked| && features[i].name == Some(ranked[j].country) ==>
      MergePopulation(features, ranked)[i].population == ranked[j].population
      && MergePopulation(features, ranked)[i].rank == Some(ranked[j].rank)
    ensures forall i :: 0 <= i < |features| && (forall j :: 0 <= j < |ranked| ==> features[i].name != Some(ranked[j].country)) ==>
      MergePopulation(features, ranked)[i].population == 0 && MergePopulation(features, ranked)[i].rank == None
  {
    var world := MergePopulation(features, ranked);
    Frames.LeftJoinUnique(features, ranked, FeatureName, CountryOf);
    var joined := Frames.LeftJoin(features, ranked, FeatureName, CountryOf);
    assert |world| == |joined| == |features|;
    forall i, j | 0 <= i < |features| && 0 <= j < |ranked| && features[i].name == Some(ranked[j].country)
      ensures world[i].population == ranked[j].population && world[i].rank == Some(ranked[j].rank)
    {
      var m := Frames.Lookup(features[i].name, ranked, CountryOf);
      assert joined[i] == (features[i], m);
      assert ranked[j] in ranked;
      var k :| 0 <= k < |ranked| && ranked[k] == m.value;
      assert k == j;
    }
    forall i | 0 <= i < |features| && (forall j :: 0 <= j < |ranked| ==> features[i].name != Some(ranked[j].country))
      ensures world[i].population == 0 && world[i].rank == None
    {
      assert joined[i] == (features[i], Frames.Lookup(features[i].name, ranked, CountryOf));
    }
  }

  /** Every country shape yields at least one merged row, with its own name and geometry. */
  lemma MergeKeepsEveryShape<G(!new)>(features: seq<Feature<G>>, ranked: seq<RankedRow>)
    ensures forall f :: f in features ==>
      exists w :: w in MergePopulation(features, ranked) && w.name == f.name && w.geometry == f.geometry
  {
    var joined := Frames.LeftJoin(features, ranked, FeatureName, CountryOf);
    var world := MergePopulation(features, ranked);
    Frames.LeftJoinComplete(features, ranked, FeatureName, CountryOf);
    forall f | f in features
      ensures exists w :: w in world && w.name == f.name && w.geometry == f.geometry
    {
      var p :| p in joined && p.0 == f;
      var i :| 0 <= i < |joined| && joined[i] == p;
      assert world[i] in world;
    }
  }

  /** With the slider left at its default, the range filter keeps every row. */
  lemma DefaultRangeKeepsAll<G(!new)>(world: seq<WorldRow<G>>)
    requires world != []
    ensures RangeFilter(world, SliderDefault(world).value.0, SliderDefault(world).value.1) == world
  {
    var range := SliderDefault(world).value;
    Frames.WhereKeepsAll(world, InRange(range.0, range.1));
  }

  /** The range filter keeps the rows' order: it distributes over concatenation. */
  lemma RangeFilterConcat<G(!new)>(a: seq<WorldRow<G>>, b: seq<WorldRow<G>>, lo: int, hi: int)
    ensures RangeFilter(a + b, lo, hi) == RangeFilter(a, lo, hi) + RangeFilter(b, lo, hi)
  {
    Frames.WhereConcat(a, b, InRange(lo, hi));
  }

  /** Filtering twice by the same range is filtering once. */
  lemma RangeFilterIdempotent<G(!new)>(world: seq<WorldRow<G>>, lo: int, hi: int)
    ensures RangeFilter(RangeFilter(world, lo, hi), lo, hi) == RangeFilter(world, lo, hi)
  {
    Frames.WhereIdempotent(world, InRange(lo, hi));
  }

  /** `Contains` is the literal substring test: `sub` occurs at some offset of `text`. */
  lemma {:induction false} ContainsIffOccurs(text: string, sub: string)
    ensures Contains(text, sub) <==> exists i :: OccursAt(text, sub, i)
    decreases |text|
  {
    if sub <= text {
      assert OccursAt(text, sub, 0);
    } else if text == [] {
    } else {
      ContainsIffOccurs(text[1..], sub);
      if i :| OccursAt(text, sub, i) {
        assert OccursAt(text[1..], sub, i - 1) by {
          assert text[1..][i - 1..i - 1 + |sub|] == text[i..i + |sub|];
        }
      }
      if i :| OccursAt(text[1..], sub, i) {
        assert OccursAt(text, sub, i + 1) by {
          assert text[1..][i..i + |sub|] == text[i + 1..i + 1 + |sub|];
        }
      }
    }
  }

  /** Searching twice for the same text is searching once. */
  lemma SearchFilterIdempotent<G(!new)>(rows: seq<WorldRow<G>>, query: string)
    ensures SearchFilter(SearchFilter(rows, query), query) == SearchFilter(rows, query)
  {
    if query != [] {
      Frames.WhereIdempotent(rows, MatchesQuery(query));
    }
  }

  /** The search keeps the rows' order: it distributes over concatenation. */
  lemma SearchFilterConcat<G(!new)>(a: seq<WorldRow<G>>, b: seq<WorldRow<G>>, query: string)
    ensures SearchFilter(a + b, query) == SearchFilter(a, query) + SearchFilter(b, query)
  {
    if query != [] {
      Frames.WhereConcat(a, b, MatchesQuery(query));
    }
  }

  /**
   * The rows shown on the map are exactly the merged rows inside the slider
   * range that pass the search, whichever order the two filters are applied in.
   */
  lemma FiltersCommute<G(!new)>(world: seq<WorldRow<G>>, lo: int, hi: int, query: string)
    ensures SearchFilter(RangeFilter(world, lo, hi), query) == RangeFilter(SearchFilter(world, query), lo, hi)
  {
    if query != [] {
      Frames.WhereCommute(world, InRange(lo, hi), MatchesQuery(query));
    }
  }

  /** With unique countries the re-merge's right table has unique keys too. */
  lemma RankColumnsUnique(ranked: seq<RankedRow>)
    requires Frames.UniqueKeys(ranked, CountryOf)
    ensures Frames.UniqueKeys(RankColumns(ranked), CountryRankKey)
  {
    var columns := RankColumns(ranked);
    forall i, j | 0 <= i < j < |columns| ensures CountryRankKey(columns[i]) != CountryRankKey(columns[j]) {
      assert CountryOf(ranked[i]) != CountryOf(ranked[j]);
    }
  }

  /**
   * When the population table names each country once, the re-merge gives
   * one map row per filtered row, in order, and a row whose name is a
   * country's gets that country's positional rank as `rank_y`.
   */
  lemma AttachRankPerRow<G(!new)>(filtered: seq<WorldRow<G>>, ranked: seq<RankedRow>)
    requires Frames.UniqueKeys(ranked, CountryOf)
    ensures |AttachRank(filtered, ranked)| == |filtered|
    ensures forall i :: 0 <= i < |filtered| ==> AttachRank(filtered, ranked)[i].row == filtered[i]
    ensures forall i, k :: 0 <= i < |filtered| && 0 <= k < |ranked| && filtered[i].name == Some(ranked[k].country) ==>
      AttachRank(filtered, ranked)[i].rankY == Some(ranked[k].rank)
  {
    var display := AttachRank(filtered, ranked);
    var columns := RankColumns(ranked);
    RankColumnsUnique(ranked);
    Frames.LeftJoinUnique(filtered, columns, RowName, CountryRankKey);
    var joined := Frames.LeftJoin(filtered, columns, RowName, CountryRankKey);
    assert |display| == |joined| == |filtered|;
    forall i | 0 <= i < |filtered| ensures display[i].row == filtered[i] {
      assert joined[i].0 == filtered[i];
    }
    forall i, k | 0 <= i < |filtered| && 0 <= k < |ranked| && filtered[i].name == Some(ranked[k].country)
      ensures display[i].rankY == Some(ranked[k].rank)
    {
      assert display[i] in display;
      if display[i].rankY.Some? {
        var k' :| 0 <= k' < |ranked| && display[i].row.name == Some(ranked[k'].country)
          && display[i].rankY == Some(ranked[k'].rank);
        assert k' == k;
      }
    }
  }

  /** One map row: its re-attached rank is the rank of the merged row it shows. */
  lemma RankYAgreesOnRow<G>(ranked: seq<RankedRow>, d: MapRow<G>)
    requires Frames.UniqueKeys(ranked, CountryOf)
    requires d.row.rank.Some? ==>
      exists m :: m in ranked && d.row.name == Some(m.country) && d.row.country == Some(m.country) && d.row.rank == Some(m.rank)
    requires d.row.rank.None? ==> d.row.country.None? && forall m :: m in ranked ==> d.row.name != Some(m.country)
    requires d.rankY.Some? ==>
      exists k :: 0 <= k < |ranked| && d.row.name == Some(ranked[k].country)
        && d.countryY == Some(ranked[k].country) && d.rankY == Some(ranked[k].rank)
    requires d.rankY.None? ==> d.countryY.None? && forall k :: 0 <= k < |ranked| ==> d.row.name != Some(ranked[k].country)
    ensures d.rankY == d.row.rank && d.countryY == d.row.country
  {
    if d.row.rank.Some? {
      var m :| m in ranked && d.row.name == Some(m.country) && d.row.country == Some(m.country) && d.row.rank == Some(m.rank);
      var j :| 0 <= j < |ranked| && ranked[j] == m;
      var k :| 0 <= k < |ranked| && d.row.name == Some(ranked[k].country)
        && d.countryY == Some(ranked[k].country) && d.rankY == Some(ranked[k].rank);
      assert k == j;
    }
  }

  /**
   * The rank re-attached for hover (`rank_y`) is the rank the first merge had
   * already attached (`rank_x`), and it is missing exactly where that one was.
   */
  lemma RankYAgreesWithMerge<G(!new)>(features: seq<Feature<G>>, ranked: seq<RankedRow>, filtered: seq<WorldRow<G>>)
    requires Frames.UniqueKeys(ranked, CountryOf)
    requires forall w :: w in filtered ==> w in MergePopulation(features, ranked)
    ensures forall d :: d in AttachRank(filtered, ranked) ==> d.rankY == d.row.rank && d.countryY == d.row.country
  {
    forall d | d in AttachRank(filtered, ranked) ensures d.rankY == d.row.rank && d.countryY == d.row.country {
      assert d.row in MergePopulation(features, ranked);
      RankYAgreesOnRow(ranked, d);
    }
  }

  /** The map's rows are the filtered rows, one each, in order. */
  lemma PageRowsAreFiltered<G(!new)>(population: seq<PopulationRow>, features: seq<Feature<G>>, lo: int, hi: int, query: string)
    requires UniqueCountries(population)
    ensures var filtered := SearchFilter(RangeFilter(MergePopulation(features, LoadPopulationData(population)), lo, hi), query);
      && |BuildPage(population, features, lo, hi, query).mapRows| == |filtered| <= |features|
      && forall i :: 0 <= i < |filtered| ==> BuildPage(population, features, lo, hi, query).mapRows[i].row == filtered[i]
  {
    var ranked := LoadPopulationData(population);
    RankingKeepsUnique(population, ranked);
    MergePopulationPerFeature(features, ranked);
    var filtered := SearchFilter(RangeFilter(MergePopulation(features, ranked), lo, hi), query);
    AttachRankPerRow(filtered, ranked);
  }

  /** Each row on the map is a merged row, and its hover rank is its country's position in the ranked table. */
  lemma PageHoverRanks<G(!new)>(population: seq<PopulationRow>, features: seq<Feature<G>>, lo: int, hi: int, query: string)
    requires UniqueCountries(population)
    ensures forall d :: d in BuildPage(population, features, lo, hi, query).mapRows ==>
      d.row in MergePopulation(features, LoadPopulationData(population)) && d.rankY == d.row.rank
    ensures forall d :: d in BuildPage(population, features, lo, hi, query).mapRows && d.rankY.Some? ==>
      0 < d.rankY.value <= |population|
      && d.row.name == Some(LoadPopulationData(population)[d.rankY.value - 1].country)
  {
    var ranked := LoadPopulationData(population);
    RankingKeepsUnique(population, ranked);
    var world := MergePopulation(features, ranked);
    var filtered := SearchFilter(RangeFilter(world, lo, hi), query);
    var display := AttachRank(filtered, ranked);
    assert BuildPage(population, features, lo, hi, query).mapRows == display;
    RankYAgreesWithMerge(features, ranked, filtered);
    forall d | d in display && d.rankY.Some?
      ensures 0 < d.rankY.value <= |population| && d.row.name == Some(ranked[d.rankY.value - 1].country)
    {
      var k :| 0 <= k < |ranked| && d.row.name == Some(ranked[k].country) && d.rankY == Some(ranked[k].rank);
      assert ranked[k].rank == k + 1;
    }
  }

  /** Every merged row inside the slider range that passes the search is on the map. */
  lemma PageComplete<G(!new)>(population: seq<PopulationRow>, features: seq<Feature<G>>, lo: int, hi: int, query: string)
    requires UniqueCountries(population)
    ensures forall w :: (w in MergePopulation(features, LoadPopulationData(population))
      && lo <= w.population <= hi && (query == [] || NameMatches(w.name, query))) ==>
      exists d :: d in BuildPage(population, features, lo, hi, query).mapRows && d.row == w
  {
    var ranked := LoadPopulationData(population);
    var world := MergePopulation(features, ranked);
    var filtered := SearchFilter(RangeFilter(world, lo, hi), query);
    var rows := BuildPage(population, features, lo, hi, query).mapRows;
    PageRowsAreFiltered(population, features, lo, hi, query);
    forall w | w in world && lo <= w.population <= hi && (query == [] || NameMatches(w.name, query))
      ensures exists d :: d in rows && d.row == w
    {
      assert w in filtered;
      var i :| 0 <= i < |filtered| && filtered[i] == w;
      assert rows[i] in rows;
    }
  }
}
