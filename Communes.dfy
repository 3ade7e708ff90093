/** The "top 10 most expensive communes" table: group the cleaned rows by
    commune, count the prices and take their median, keep communes with at
    least 30 sales, rank by median price per m², keep the first ten. */
module Communes {
  import opened Wrappers
  import opened Seqs
  import opened Sales
  import opened Stats

  /** Minimum number of sales for a commune to be ranked. */
  const MinSales: nat := 30
  /** Number of communes kept. */
  const TopN: nat := 10

  /** One row of the aggregate: the commune, its count `nb` and its
      `median_prix_m2`. */
  datatype CommuneStat = CommuneStat(commune: string, nb: nat, medianPrixM2: real)

  /** The non-null `prix_m2` values of the rows of commune `c`, in row order. */
  function Prices(rows: seq<Sale>, c: string): seq<real>
  {
    if rows == [] then []
    else
      var here := if rows[0].commune == Some(c) && rows[0].prixM2.Some? then [rows[0].prixM2.value] else [];
      here + Prices(rows[1..], c)
  }

  /** The non-null commune cells, in row order (null keys form no group). */
  function CommuneCells(rows: seq<Sale>): seq<string>
  {
    if rows == [] then []
    else (if rows[0].commune.Some? then [rows[0].commune.value] else []) + CommuneCells(rows[1..])
  }

  /** The group keys: each non-null commune once. */
  function Groups(rows: seq<Sale>): (g: seq<string>)
    ensures forall i :: 0 <= i < |g| ==> g[i] in CommuneCells(rows)
    ensures forall i :: 0 <= i < |CommuneCells(rows)| ==> CommuneCells(rows)[i] in g
    ensures NoDuplicates(g)
  {
    Distinct(CommuneCells(rows))
  }

  /** The aggregate of one group. A group without any price has no median
      (NaN); it is recorded as 0.0 and can never reach the ranking, since its
      count is 0. */
  function GroupStat(rows: seq<Sale>, c: string): (st: CommuneStat)
    ensures st.commune == c && st.nb == |Prices(rows, c)|
    ensures st.nb > 0 ==>
      && Count(Prices(rows, c), LessThan(st.medianPrixM2)) <= st.nb / 2
      && Count(Prices(rows, c), GreaterThan(st.medianPrixM2)) <= st.nb / 2
  {
    var ps := Prices(rows, c);
    CommuneStat(c, |ps|, if ps == [] then 0.0 else MedianSplitsHalves(ps); Median(ps))
  }

  /** One aggregate row per group. */
  function Aggregate(rows: seq<Sale>): (a: seq<CommuneStat>)
    ensures |a| == |Groups(rows)|
    ensures forall i :: 0 <= i < |a| ==> a[i].commune in Groups(rows) && a[i].nb == |Prices(rows, a[i].commune)|
    ensures forall i, j :: 0 <= i < j < |a| ==> a[i].commune != a[j].commune
  {
    var g := Groups(rows);
    seq(|g|, i requires 0 <= i < |g| => GroupStat(rows, g[i]))
  }

  /** The `nb >= 30` query. */
  predicate Frequent(st: CommuneStat) { st.nb >= MinSales }

  /** The sort key: the median price per m². */
  function MedianKey(st: CommuneStat): real { st.medianPrixM2 }

  /** The frequent communes, highest median first. Among equal medians the
      group order is kept. */
  function Ranking(rows: seq<Sale>): (ranked: seq<CommuneStat>)
    ensures |ranked| <= |Aggregate(rows)|
    ensures forall i :: 0 <= i < |ranked| ==> Frequent(ranked[i])
    ensures SortedDesc(ranked, MedianKey)
  {
    var frequent := Filter(Aggregate(rows), Frequent);
    SortByDescKeeps(frequent, MedianKey, Frequent);
    SortByDesc(frequent, MedianKey)
  }

  /** The ranked table: the first ten rows of the ranking. */
  function TopCommunes(rows: seq<Sale>): (top: seq<CommuneStat>)
    ensures |top| == if |Ranking(rows)| < TopN then |Ranking(rows)| else TopN
    ensures top == Ranking(rows)[..|top|]
    ensures forall i :: 0 <= i < |top| ==> Frequent(top[i])
    ensures SortedDesc(top, MedianKey)
  {
    var ranked := Ranking(rows);
    var n := if |ranked| < TopN then |ranked| else TopN;
    PrefixKeeps(ranked, n, MedianKey, Frequent);
    ranked[..n]
  }

  /** The test "the row belongs to commune `c`", as a value. */
  function InCommune(c: string): Sale -> bool { (r: Sale) => r.commune == Some(c) }

  /** A commune with a price has a non-null cell somewhere. */
  lemma {:induction false} PricedCommuneIsGroup(rows: seq<Sale>, c: string)
    requires |Prices(rows, c)| > 0
    ensures c in CommuneCells(rows) && c in Groups(rows)
  {
    var cells := CommuneCells(rows);
    if rows[0].commune == Some(c) && rows[0].prixM2.Some? {
      assert cells[0] == c;
    } else {
      PricedCommuneIsGroup(rows[1..], c);
      assert cells == (if rows[0].commune.Some? then [rows[0].commune.value] else []) + CommuneCells(rows[1..]);
      assert c in cells;
    }
    var k :| 0 <= k < |cells| && cells[k] == c;
  }

  /** When every row has its price, a commune's count is its number of rows. */
  lemma {:induction false} CountIsGroupSize(rows: seq<Sale>, c: string)
    requires forall r :: r in rows ==> r.prixM2.Some?
    ensures |Prices(rows, c)| == Count(rows, InCommune(c))
  {
    if rows != [] {
      CountIsGroupSize(rows[1..], c);
    }
  }

  /** Row `k` of the aggregate is the stat of group `k`. */
  lemma AggregateAt(rows: seq<Sale>, k: nat)
    requires k < |Groups(rows)|
    ensures |Aggregate(rows)| == |Groups(rows)|
    ensures Aggregate(rows)[k] == GroupStat(rows, Groups(rows)[k])
    ensures Aggregate(rows)[k].commune == Groups(rows)[k]
  {
  }

  /** The aggregate has one row per group, and each row is the group's stat. */
  lemma AggregateIsPerGroup(rows: seq<Sale>)
    ensures forall st :: st in Aggregate(rows) ==> st == GroupStat(rows, st.commune)
    ensures forall st :: st in Aggregate(rows) ==> st.commune in Groups(rows)
    ensures forall c :: c in Groups(rows) ==> GroupStat(rows, c) in Aggregate(rows)
    ensures NoDuplicates(Aggregate(rows))
  {
    var g, a := Groups(rows), Aggregate(rows);
    assert |a| == |g|;
    forall st | st in a ensures st == GroupStat(rows, st.commune) && st.commune in g {
      var k :| 0 <= k < |a| && a[k] == st;
      AggregateAt(rows, k);
    }
    forall c | c in g ensures GroupStat(rows, c) in a {
      var k :| 0 <= k < |g| && g[k] == c;
      AggregateAt(rows, k);
    }
    forall i, j | 0 <= i < j < |a| ensures a[i] != a[j] {
      AggregateAt(rows, i);
      AggregateAt(rows, j);
    }
  }

  /** Every row of the ranking is a frequent group's stat, and none occurs
      twice. */
  lemma RankingIsPerGroup(rows: seq<Sale>)
    ensures forall st :: st in Ranking(rows) ==> Frequent(st) && st == GroupStat(rows, st.commune)
    ensures NoDuplicates(Ranking(rows))
  {
    var frequent := Filter(Aggregate(rows), Frequent);
    var ranked := Ranking(rows);
    AggregateIsPerGroup(rows);
    forall st | st in ranked ensures Frequent(st) && st == GroupStat(rows, st.commune) {
      assert st in multiset(ranked);
      assert st in frequent;
    }
    FilterNoDuplicates(Aggregate(rows), Frequent);
    PermutationNoDuplicates(frequent, ranked);
  }

  /** No commune is ranked twice. */
  lemma RankedCommunesDistinct(rows: seq<Sale>)
    ensures forall i, j :: 0 <= i < j < |Ranking(rows)| ==> Ranking(rows)[i].commune != Ranking(rows)[j].commune
  {
    var ranked := Ranking(rows);
    RankingIsPerGroup(rows);
    forall i, j | 0 <= i < j < |ranked| ensures ranked[i].commune != ranked[j].commune {
      assert ranked[i] in ranked && ranked[j] in ranked;
    }
  }

  /** Every ranked commune has at least 30 prices; its `nb` is its number of
      prices and its median is the median of those prices. */
  lemma TopCommunesSound(rows: seq<Sale>)
    ensures forall st :: st in TopCommunes(rows) ==>
      && st.nb >= MinSales
      && st.nb == |Prices(rows, st.commune)|
      && st.medianPrixM2 == Median(Prices(rows, st.commune))
  {
    RankingIsPerGroup(rows);
    forall st | st in TopCommunes(rows)
      ensures st.nb >= MinSales && st == GroupStat(rows, st.commune)
    {
      assert st in Ranking(rows);
    }
  }

  /** The table has at most ten rows, in non-increasing order of median, and
      no commune twice. */
  lemma TopCommunesRanked(rows: seq<Sale>)
    ensures var top := TopCommunes(rows);
      && |top| <= TopN
      && SortedDesc(top, MedianKey)
      && forall i, j :: 0 <= i < j < |top| ==> top[i].commune != top[j].commune
  {
    var ranked := Ranking(rows);
    var top := TopCommunes(rows);
    assert top == ranked[..|top|];
    RankedCommunesDistinct(rows);
    forall i, j | 0 <= i < j < |top| ensures top[i].commune != top[j].commune {
      assert top[i] == ranked[i] && top[j] == ranked[j];
    }
  }

  /** An element of a ranking that did not make its first `TopN` entries
      ranks no higher than the last of them. */
  lemma {:induction false} LeftOutRanksLower(ranked: seq<CommuneStat>, st: CommuneStat)
    requires SortedDesc(ranked, MedianKey) && st in ranked
    requires var top := ranked[..if |ranked| < TopN then |ranked| else TopN];
      forall i :: 0 <= i < |top| ==> top[i] != st
    ensures |ranked| > TopN && st.medianPrixM2 <= ranked[TopN - 1].medianPrixM2
  {
    var j :| 0 <= j < |ranked| && ranked[j] == st;
    var top := ranked[..if |ranked| < TopN then |ranked| else TopN];
    assert top[..] == ranked[..|top|];
    assert j >= |top| by {
      forall i | 0 <= i < |top| ensures ranked[i] != st {
        assert top[i] == ranked[i];
      }
    }
    assert MedianKey(ranked[TopN - 1]) >= MedianKey(ranked[j]);
  }

  /** A commune with at least 30 prices is in the ranking. */
  lemma FrequentGroupIsRanked(rows: seq<Sale>, c: string)
    requires |Prices(rows, c)| >= MinSales
    ensures GroupStat(rows, c) in Ranking(rows)
  {
    var st := GroupStat(rows, c);
    var frequent := Filter(Aggregate(rows), Frequent);
    PricedCommuneIsGroup(rows, c);
    AggregateIsPerGroup(rows);
    assert st in Aggregate(rows) && Frequent(st);
    assert st in frequent;
    assert st in multiset(frequent);
    assert st in multiset(Ranking(rows));
  }

  /** A commune with at least 30 prices that is missing from the table was
      pushed out: the table is full and the commune's median is no higher
      than the last ranked one. */
  lemma TopCommunesComplete(rows: seq<Sale>, c: string)
    ensures var top := TopCommunes(rows);
      |Prices(rows, c)| >= MinSales && (forall i :: 0 <= i < |top| ==> top[i].commune != c) ==>
        |top| == TopN && Median(Prices(rows, c)) <= top[TopN - 1].medianPrixM2
  {
    var ranked := Ranking(rows);
    var top := TopCommunes(rows);
    if |Prices(rows, c)| >= MinSales && (forall i :: 0 <= i < |top| ==> top[i].commune != c) {
      var st := GroupStat(rows, c);
      FrequentGroupIsRanked(rows, c);
      assert forall i :: 0 <= i < |top| ==> top[i] != st;
      LeftOutRanksLower(ranked, st);
      assert top[TopN - 1] == ranked[TopN - 1];
    }
  }

  /** On the cleaned table, `nb` is the number of sales of the commune. */
  lemma TopCommunesCountSales(rows: seq<Sale>)
    requires forall r :: r in rows ==> r.prixM2.Some?
    ensures forall st :: st in TopCommunes(rows) ==> st.nb == Count(rows, InCommune(st.commune))
  {
    TopCommunesSound(rows);
    forall st | st in TopCommunes(rows) ensures st.nb == Count(rows, InCommune(st.commune)) {
      CountIsGroupSize(rows, st.commune);
    }
  }
}
