# World population map — data pipeline model

A Dafny model of the data preparation behind the "World Population Map"
Streamlit page (`population.py`). Between its widgets and its chart the
page runs a short pipeline over tables of country rows:

1. **Population ranking** (`load_population_data`): the population CSV is
   sorted by `population`, largest first, and numbered with a positional
   `rank` 1..n.
2. **Left merge with default**: every country shape of the Natural Earth
   table is joined to the ranked table by exact `NAME == country`; a shape
   with no match gets population 0 (`fillna(0)`), and its rank stays
   missing.
3. **Range filter**: the population slider keeps the rows whose population
   lies in `[min_pop, max_pop]`, both ends included; the slider starts at
   the column's own minimum and maximum.
4. **Name search**: a non-empty search text keeps the rows whose `NAME`
   contains it, case-sensitively; rows without a name never match. An empty
   text skips the search altogether.
5. **Rank re-attach**: a second left merge with `population_df[["country",
   "rank"]]` brings the positional rank back as `rank_y` for the hover label.
6. **Top-30 table**: the first 30 rows of the ranked population table.

Tables are sequences of records. A left merge is modelled as pandas does
it: one output row per matching right row, or one row with the right side
missing (`None` for NaN). The properties that speak of "one row per
shape" therefore assume the population table names each country once.
The sort is pandas' default, which is not stable. The pipeline uses one
concrete order, an insertion sort that keeps tied rows in CSV order. The
lemmas about the separate stages (the merges, the re-merge, the top table)
take any table satisfying `Ranking.IsPopulationRanking` (a reordering of the
CSV rows, population non-increasing, rank = position + 1), so they hold
whatever order pandas gives tied rows. The whole-page lemmas
(`WorldLemmas.PageRowsAreFiltered`, `WorldLemmas.PageHoverRanks`,
`WorldLemmas.PageComplete`) speak of `World.BuildPage`, and so of that one
concrete order. `RankingLemmas.RankingsAgree` shows that any two valid
rankings agree on the population and rank columns, and differ only in
which tied country comes first.

Files: `wrappers.dfy` (Option), `frames.dfy` (the pandas operations used:
boolean-mask selection, `head`, left merge), `ranking.dfy`
(`load_population_data` and the top table), `world.dfy` (merge, slider,
search, re-merge and the whole page).

## Model

| member | source | states |
|---|---|---|
| Frames.Where | population.py:47-49 | boolean-mask selection keeps exactly the rows the mask accepts and no more rows than it was given |
| Frames.WhereConcat | population.py:47-49 | selection distributes over concatenation, so it keeps the rows' relative order |
| Frames.WhereKeepsAll | population.py:47-49 | a mask true on every row returns the table unchanged |
| Frames.WhereDropsAll | population.py:47-49 | a mask false on every row returns the empty table |
| Frames.WhereIdempotent | population.py:54-57 | selecting twice with the same mask equals selecting once |
| Frames.WhereCommute | population.py:47-57 | two masks applied in sequence give the same rows in either order |
| Frames.Head | population.py:96 | `head(n)` has min(n, len) rows and is a prefix of the table |
| Frames.Lookup | population.py:35 | the row found has an equal key and belongs to the right table; nothing is found exactly when no right row's key equals the left key (a missing key never matches) |
| Frames.JoinRow | population.py:35 | one left row yields as many rows as it has matches, each pairing it with one of them, or a single row with the right side missing when there are none |
| Frames.JoinRowComplete | population.py:35 | every match of the left row appears paired with it in the output |
| Frames.LeftJoin | population.py:35 | a left merge has at least as many rows as the left table; every output row comes from a left row; a matched output row pairs keys that are equal; an unmatched one has no right row with that key |
| Frames.LeftJoinComplete | population.py:35 | no left row is dropped, and each left row is paired with every right row whose key equals its own, so a repeated country yields one row per copy |
| Frames.LeftJoinConcat | population.py:35 | the left merge follows the left table's order (distributes over concatenation) |
| Frames.MatchesUnique | population.py:35 | with unique right keys, a key matches at most one right row, the one Lookup returns |
| Frames.LeftJoinUnique | population.py:35 | with unique right keys, the merge has exactly one row per left row, in order, carrying the matching right row if any |
| Ranking.Insert | population.py:15 | inserting a row into a table ordered by population, largest first, keeps it ordered and adds exactly that row |
| Ranking.SortByPopulation | population.py:15 | the sorted table has the same rows (same multiset) and population never increases down it |
| Ranking.LoadPopulationData | population.py:13-17 | the ranked table is a reordering of the CSV rows with population non-increasing and rank = position + 1, so ranks are exactly 1..n |
| Ranking.TopRankings | population.py:96 | the top table has min(30, n) rows and is a prefix of the ranked table |
| RankingLemmas.SortedPermutationsAgree | population.py:15 | two population-ordered reorderings of the same rows have the same population at every position |
| RankingLemmas.RankingsAgree | population.py:15-16 | any two tables the non-stable sort may produce agree on length, population column and rank column |
| RankingLemmas.PermutationKeepsUnique | population.py:15 | reordering rows keeps country names unique |
| RankingLemmas.RankingKeepsUnique | population.py:15-16 | when the CSV names each country once, the ranked table is a valid unique-key right table for the merges |
| RankingLemmas.TopRankingsAreTop | population.py:96 | the top table has min(30, n) rows ranked 1..min(30, n), population non-increasing, and no row left out has a larger population than a row in it |
| World.MergePopulation | population.py:35-36 | every merged row comes from a shape with its name and geometry; a matched row carries its country's population and rank; an unmatched row has population 0, no rank, and no country with its name |
| World.MinPopulation | population.py:41 | the result is a lower bound of the population column and is attained |
| World.MaxPopulation | population.py:42 | the result is an upper bound of the population column and is attained |
| World.SliderDefault | population.py:39-44 | the default range exists exactly when the table is non-empty; its bounds are the smallest and largest population in the column, both attained by some row |
| World.RangeFilter | population.py:47-49 | a row is kept exactly when min_pop <= population <= max_pop; min_pop > max_pop gives the empty table |
| World.SearchFilter | population.py:54-57 | an empty text keeps the table unchanged; a non-empty one keeps exactly the rows with a name containing it |
| World.AttachRank | population.py:60-62 | every output row is a filtered row; `rank_y` is present exactly when some country has the row's name, and is then that country's rank |
| World.BuildPage | population.py:20-96 | the top table has min(30, n) rows; every map row is inside the slider range and, for a non-empty text, matches the search |
| WorldLemmas.MergePopulationPerFeature | population.py:35-36 | with unique countries: one merged row per shape, in order, same name and geometry; matched shapes carry their country's population and rank, all others population 0 and no rank |
| WorldLemmas.MergeKeepsEveryShape | population.py:35 | every country shape yields at least one merged row with its own name and geometry |
| WorldLemmas.DefaultRangeKeepsAll | population.py:41-49 | with the slider at its default range every row is kept |
| WorldLemmas.RangeFilterConcat | population.py:47-49 | the range filter preserves order |
| WorldLemmas.RangeFilterIdempotent | population.py:47-49 | filtering twice by the same range equals filtering once |
| WorldLemmas.ContainsIffOccurs | population.py:56 | the name test holds exactly when the text occurs at some offset of the name |
| WorldLemmas.SearchFilterIdempotent | population.py:54-57 | searching twice with the same text equals searching once |
| WorldLemmas.SearchFilterConcat | population.py:54-57 | the search preserves order |
| WorldLemmas.FiltersCommute | population.py:47-57 | range filter then search equals search then range filter |
| WorldLemmas.RankColumnsUnique | population.py:61 | the `country`/`rank` projection keeps country names unique |
| WorldLemmas.AttachRankPerRow | population.py:60-62 | with unique countries: one map row per filtered row, in order, and a row named after a country gets that country's rank as `rank_y` |
| WorldLemmas.RankYAgreesWithMerge | population.py:35-62 | with unique countries, `rank_y` and `country_y` equal the rank and country the first merge attached, missing exactly where those are |
| WorldLemmas.PageRowsAreFiltered | population.py:47-62 | the map rows are the range-and-search-filtered merged rows, one each, in order, at most one per shape |
| WorldLemmas.PageHoverRanks | population.py:60-71 | each map row is a merged row; its hover rank, when present, is k where its country is the k-th row of the ranked table |
| WorldLemmas.PageComplete | population.py:47-62 | every merged row inside the slider range that passes the search appears on the map |

## Left out

- Page setup, the slider and text-input widgets, `st.dataframe` and
  `st.plotly_chart` (population.py:7-8, 39-44, 52, 94-97): presentation. The
  slider bounds and the search text are plain parameters.
- The Plotly choropleth and its layout (population.py:65-91): rendering only.
- `pd.read_csv`, `gpd.read_file` and `@st.cache_data` (population.py:12-14,
  25-28): file I/O and caching. The loaded tables are input sequences.
- Geometry contents and projection: a type parameter `G` carried through unchanged.
- `print(world.columns)` (population.py:32): debug output.
- World.SearchFilter: `str.contains` uses regular expressions by default; the
  model is a literal substring test, which agrees only for search text without
  regular-expression metacharacters.
- Population as floating point after the merge: populations are `nat`, a NaN
  cell is `None` and `fillna(0)` is the 0 default; `int()` of the slider
  bounds is exact on whole numbers.
- A missing `country` in the population CSV: pandas would match it with a
  missing `NAME`; the model's CSV rows always carry a country.
- Area, population density and competition ("1, 1, 3") ranks: the page's code
  computes none of them, so nothing is modelled for them; the only rank is the
  positional one of `load_population_data`.
- A stable tie order for the top table: the code sorts with pandas' default,
  non-stable sort, so the model fixes no order among rows of equal population
  beyond what `Ranking.IsPopulationRanking` states.
