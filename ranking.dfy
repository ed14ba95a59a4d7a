/**
 * `load_population_data`: the population table sorted by population,
 * largest first, with a positional `rank` column 1..n; and the top-30
 * table shown beneath the map.
 */
module Ranking {
  import Frames

  /** A row of the population CSV. */
  datatype PopulationRow = PopulationRow(country: string, population: nat)

  /** A row of the ranked population table: the CSV row plus its `rank`. */
  datatype RankedRow = RankedRow(country: string, population: nat, rank: nat)

  /** Number of rows in the "Top Population Rankings" table. */
  const TopCount: nat := 30

  function CountryOf(r: RankedRow): string { r.country }

  /** The `country` and `population` columns of a ranked table. */
  function Unranked(ranked: seq<RankedRow>): seq<PopulationRow>
  {
    seq(|ranked|, i requires 0 <= i < |ranked| => PopulationRow(ranked[i].country, ranked[i].population))
  }

  /** Population never increases down the table. */
  predicate NonIncreasing(s: seq<PopulationRow>)
  {
    forall i, j :: 0 <= i < j < |s| ==> s[i].population >= s[j].population
  }

  /** No two rows name the same country. */
  predicate UniqueCountries(rows: seq<PopulationRow>)
  {
    forall i, j :: 0 <= i < j < |rows| ==> rows[i].country != rows[j].country
  }

  /**
   * What `load_population_data` promises of its result: a reordering of the
   * CSV rows, largest population first, ranked by position. The order among
   * rows of equal population is left open, as pandas' default sort is not stable.
   */
  ghost predicate IsPopulationRanking(rows: seq<PopulationRow>, ranked: seq<RankedRow>)
  {
    && multiset(Unranked(ranked)) == multiset(rows)
    && NonIncreasing(Unranked(ranked))
    && forall i :: 0 <= i < |ranked| ==> ranked[i].rank == i + 1
  }

  /** A row at least as large as the head of an ordered table may go in front of it. */
  lemma ConsNonIncreasing(a: PopulationRow, s: seq<PopulationRow>)
    requires NonIncreasing(s)
    requires s != [] ==> a.population >= s[0].population
    ensures NonIncreasing([a] + s)
  {
    var t := [a] + s;
    forall i, j | 0 <= i < j < |t| ensures t[i].population >= t[j].population {
      if i == 0 && j > 1 {
        assert t[j] == s[j - 1];
        assert s[0].population >= s[j - 1].population;
      }
    }
  }

  /** Places `x` into a table already ordered largest population first. */
  function Insert(x: PopulationRow, s: seq<PopulationRow>): (r: seq<PopulationRow>)
    requires NonIncreasing(s)
    ensures |r| == |s| + 1
    ensures r[0] == x || (s != [] && r[0] == s[0])
    ensures NonIncreasing(r)
    ensures multiset(r) == multiset(s) + multiset{x}
    decreases |s|
  {
    if s == [] || s[0].population <= x.population then
      ConsNonIncreasing(x, s);
      [x] + s
    else
      assert s == [s[0]] + s[1..];
      var rest := Insert(x, s[1..]);
      ConsNonIncreasing(s[0], rest);
      [s[0]] + rest
  }

  /** `sort_values(by="population", ascending=False)`: one of the orders pandas may produce. */
  function SortByPopulation(rows: seq<PopulationRow>): (r: seq<PopulationRow>)
    ensures |r| == |rows|
    ensures NonIncreasing(r)
    ensures multiset(r) == multiset(rows)
    decreases |rows|
  {
    if rows == [] then []
    else
      assert rows == [rows[0]] + rows[1..];
      Insert(rows[0], SortByPopulation(rows[1..]))
  }

  /** `load_population_data` without the CSV read: sort, then number the rows from 1. */
  function LoadPopulationData(rows: seq<PopulationRow>): (ranked: seq<RankedRow>)
    ensures |ranked| == |rows|
    ensures IsPopulationRanking(rows, ranked)
  {
    var sorted := SortByPopulation(rows);
    var ranked := seq(|sorted|, i requires 0 <= i < |sorted| => RankedRow(sorted[i].country, sorted[i].population, i + 1));
    assert Unranked(ranked) == sorted;
    ranked
  }

  /** `population_df.head(30)`: the first thirty rows of the ranked table. */
  function TopRankings(ranked: seq<RankedRow>): (top: seq<RankedRow>)
    ensures |top| == if |ranked| < TopCount then |ranked| else TopCount
    ensures top <= ranked
  {
    Frames.Head(ranked, TopCount)
  }
}

module RankingLemmas {
  import opened Ranking

  /** Deleting a row keeps a table ordered. */
  lemma RemoveNonIncreasing(s: seq<PopulationRow>, k: nat)
    requires NonIncreasing(s) && k < |s|
    ensures NonIncreasing(s[..k] + s[k + 1..])
  {
    var t := s[..k] + s[k + 1..];
    forall i, j | 0 <= i < j < |t| ensures t[i].population >= t[j].population {
      var i' := if i < k then i else i + 1;
      var j' := if j < k then j else j + 1;
      assert t[i] == s[i'] && t[j] == s[j'];
    }
  }

  /** Deleting the row at `k` removes exactly one copy of it. */
  lemma RemoveOneCopy(s: seq<PopulationRow>, k: nat)
    requires k < |s|
    ensures multiset(s[..k] + s[k + 1..]) == multiset(s) - multiset{s[k]}
  {
    assert s == s[..k] + [s[k]] + s[k + 1..];
  }

  /** A row of an ordered table is no larger than its head. */
  lemma HeadIsLargest(s: seq<PopulationRow>, x: PopulationRow)
    requires NonIncreasing(s) && x in multiset(s)
    ensures s[0].population >= x.population
  {
    var m :| 0 <= m < |s| && s[m] == x;
    if m > 0 {
      assert 0 < m < |s|;
    }
  }

  /** Taking the head of `a` and its copy at `k` in `b` leaves two reorderings of the same rows. */
  lemma RemoveMatchingCopies(a: seq<PopulationRow>, b: seq<PopulationRow>, k: nat)
    requires multiset(a) == multiset(b) && a != [] && k < |b| && b[k] == a[0]
    ensures multiset(a[1..]) == multiset(b[..k] + b[k + 1..])
  {
    RemoveOneCopy(b, k);
    RemoveOneCopy(a, 0);
    assert a[..0] + a[1..] == a[1..];
  }

  /**
   * Two orderings of the same rows, both largest population first, have the
   * same population column: they differ at most in the order of tied rows.
   */
  lemma {:induction false} SortedPermutationsAgree(a: seq<PopulationRow>, b: seq<PopulationRow>)
    requires multiset(a) == multiset(b)
    requires NonIncreasing(a) && NonIncreasing(b)
    ensures |a| == |b|
    ensures forall i :: 0 <= i < |a| ==> a[i].population == b[i].population
    decreases |a|
  {
    assert |a| == |multiset(a)| == |multiset(b)| == |b|;
    if a != [] {
      assert a[0] in multiset(b);
      var k :| 0 <= k < |b| && b[k] == a[0];
      HeadIsLargest(a, b[0]);
      HeadIsLargest(b, a[0]);
      RemoveMatchingCopies(a, b, k);
      RemoveNonIncreasing(b, k);
      RemoveNonIncreasing(a, 0);
      assert a[..0] + a[1..] == a[1..];
      SortedPermutationsAgree(a[1..], b[..k] + b[k + 1..]);
      ShiftedAgree(a, b, k);
    }
  }

  /** The step of SortedPermutationsAgree that puts the head back. */
  lemma ShiftedAgree(a: seq<PopulationRow>, b: seq<PopulationRow>, k: nat)
    requires |a| == |b| && k < |b| && NonIncreasing(b)
    requires a[0].population == b[0].population == b[k].population
    requires forall i :: 0 <= i < |a| - 1 ==> a[1..][i].population == (b[..k] + b[k + 1..])[i].population
    ensures forall i :: 0 <= i < |a| ==> a[i].population == b[i].population
  {
    var b' := b[..k] + b[k + 1..];
    forall i | 0 < i < |a| ensures a[i].population == b[i].population {
      assert a[i] == a[1..][i - 1];
      if i <= k {
        assert b'[i - 1] == b[i - 1];
      } else {
        assert b'[i - 1] == b[i];
      }
    }
  }

  /**
   * Whatever order pandas gives the tied rows, the ranked table has the same
   * length, the same population column and the same rank column.
   */
  lemma RankingsAgree(rows: seq<PopulationRow>, r1: seq<RankedRow>, r2: seq<RankedRow>)
    requires IsPopulationRanking(rows, r1) && IsPopulationRanking(rows, r2)
    ensures |r1| == |r2|
    ensures forall i :: 0 <= i < |r1| ==> r1[i].population == r2[i].population && r1[i].rank == r2[i].rank
  {
    SortedPermutationsAgree(Unranked(r1), Unranked(r2));
    forall i | 0 <= i < |r1| ensures r1[i].population == r2[i].population {
      assert Unranked(r1)[i].population == Unranked(r2)[i].population;
    }
  }

  /** Two equal rows at two positions make that row occur at least twice. */
  lemma RepeatedRowCount(s: seq<PopulationRow>, i: nat, j: nat)
    requires i < j < |s| && s[i] == s[j]
    ensures multiset(s)[s[i]] >= 2
  {
    assert s == s[..i] + [s[i]] + s[i + 1..j] + [s[j]] + s[j + 1..];
  }

  /** In a table with unique countries every row occurs at most once. */
  lemma {:induction false} UniqueRowsOnce(s: seq<PopulationRow>, x: PopulationRow)
    requires UniqueCountries(s)
    ensures multiset(s)[x] <= 1
    decreases |s|
  {
    if s != [] {
      assert s == [s[0]] + s[1..];
      assert UniqueCountries(s[1..]);
      UniqueRowsOnce(s[1..], x);
    }
  }

  /** Reordering the rows keeps country names unique. */
  lemma PermutationKeepsUnique(a: seq<PopulationRow>, b: seq<PopulationRow>)
    requires multiset(a) == multiset(b) && UniqueCountries(a)
    ensures UniqueCountries(b)
  {
    forall i, j | 0 <= i < j < |b| ensures b[i].country != b[j].country {
      if b[i] == b[j] {
        RepeatedRowCount(b, i, j);
        UniqueRowsOnce(a, b[i]);
      } else {
        assert b[i] in multiset(a) && b[j] in multiset(a);
        var p :| 0 <= p < |a| && a[p] == b[i];
        var q :| 0 <= q < |a| && a[q] == b[j];
      }
    }
  }

  /** When the CSV names each country once, so does any ranking of it. */
  lemma RankingKeepsUnique(rows: seq<PopulationRow>, ranked: seq<RankedRow>)
    requires UniqueCountries(rows) && IsPopulationRanking(rows, ranked)
    ensures Frames.UniqueKeys(ranked, CountryOf)
  {
    PermutationKeepsUnique(rows, Unranked(ranked));
    forall i, j | 0 <= i < j < |ranked| ensures CountryOf(ranked[i]) != CountryOf(ranked[j]) {
      assert Unranked(ranked)[i].country != Unranked(ranked)[j].country;
    }
  }

  /**
   * The top table: min(30, n) rows, ranked 1, 2, ... by position, largest
   * population first, and no row left out of it has a larger population
   * than a row in it.
   */
  lemma TopRankingsAreTop(rows: seq<PopulationRow>, ranked: seq<RankedRow>)
    requires IsPopulationRanking(rows, ranked)
    ensures |TopRankings(ranked)| == if |rows| < TopCount then |rows| else TopCount
    ensures forall i :: 0 <= i < |TopRankings(ranked)| ==> TopRankings(ranked)[i].rank == i + 1
    ensures forall i, j :: 0 <= i < j < |TopRankings(ranked)| ==>
      TopRankings(ranked)[i].population >= TopRankings(ranked)[j].population
    ensures forall i, j :: 0 <= i < |TopRankings(ranked)| <= j < |ranked| ==>
      TopRankings(ranked)[i].population >= ranked[j].population
  {
    var top := TopRankings(ranked);
    assert |ranked| == |Unranked(ranked)| == |multiset(rows)| == |rows|;
    forall i, j | 0 <= i < j < |ranked| ensures ranked[i].population >= ranked[j].population {
      assert Unranked(ranked)[i].population >= Unranked(ranked)[j].population;
    }
    forall i | 0 <= i < |top| ensures top[i] == ranked[i] {
    }
  }
}
