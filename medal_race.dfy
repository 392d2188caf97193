/** The yearly "top-n countries by medal count" table: the medal rows are
    grouped by (Year, NOC) and counted, sorted by year ascending and count
    descending, cut to the first n rows of each year, and ranked within the
    year by the "first" method (1, 2, 3, ... in row order, ties included). */
module MedalRace {
  import opened Frame
  import opened Counting
  import opened Series

  /** One row of the table: one country's medal count in one year and its
      place among that year's rows. */
  datatype Standing = Standing(year: int, noc: string, medals: nat, rank: nat)

  /** How many rows of the table belong to year `y`. */
  function RowsInYear(t: seq<Standing>, y: int): nat
  {
    if t == [] then 0 else RowsInYear(t[..|t| - 1], y) + (if t[|t| - 1].year == y then 1 else 0)
  }

  /** No row of year `y` in the table is country `noc`. */
  ghost predicate NotListed(t: seq<Standing>, y: int, noc: string)
  {
    forall j :: 0 <= j < |t| && t[j].year == y ==> t[j].noc != noc
  }

  /** Ordered by Year ascending, then Medals descending. */
  ghost predicate Ordered(t: seq<Standing>)
  {
    forall i, j :: 0 <= i < j < |t| ==>
      t[i].year < t[j].year || (t[i].year == t[j].year && t[i].medals >= t[j].medals)
  }

  /** Each (Year, NOC) pair at most once. */
  ghost predicate Unique(t: seq<Standing>)
  {
    forall i, j :: 0 <= i < j < |t| ==> t[i].year != t[j].year || t[i].noc != t[j].noc
  }

  /** Rank 1 opens each year, then counts up by one in row order. */
  ghost predicate RanksFollow(t: seq<Standing>)
  {
    && (|t| > 0 ==> t[0].rank == 1)
    && (forall i :: 0 < i < |t| ==>
          t[i].rank == if t[i - 1].year != t[i].year then 1 else t[i - 1].rank + 1)
  }

  /** Medals is the number of passing rows of that year and country. */
  ghost predicate Counted(t: seq<Standing>, rows: seq<Row>, cs: seq<Criterion>)
  {
    forall i :: 0 <= i < |t| ==>
      1 <= t[i].medals == |Where(rows, cs + [YearIs(t[i].year), Equals(NOC, t[i].noc)])|
  }

  /** A country left out of a year has no more medals than any country kept. */
  ghost predicate Dominant(t: seq<Standing>, rows: seq<Row>, cs: seq<Criterion>)
  {
    forall i, x :: 0 <= i < |t| && x in Where(rows, cs + [YearIs(t[i].year)]) && NotListed(t, t[i].year, x.noc) ==>
      t[i].medals >= |Where(rows, cs + [YearIs(t[i].year), Equals(NOC, x.noc)])|
  }

  /** `t` is the medal race of the rows passing `cs`, cut at n per year:
      each year has min(n, number of countries with a passing row) rows. */
  ghost predicate IsMedalRace(t: seq<Standing>, rows: seq<Row>, cs: seq<Criterion>, n: nat)
  {
    && Ordered(t)
    && Unique(t)
    && Counted(t, rows, cs)
    && RanksFollow(t)
    && (forall y :: RowsInYear(t, y) == Min(n, |DistinctValues(rows, cs + [YearIs(y)], NOC)|))
    && Dominant(t, rows, cs)
  }

  /** How many entries of `es` have more than `c`. */
  function Above<K>(es: seq<Entry<K>>, c: nat): nat
  {
    if es == [] then 0 else Above(es[..|es| - 1], c) + (if es[|es| - 1].count > c then 1 else 0)
  }

  /** How many entries of `es` have exactly `c`. */
  function Level<K>(es: seq<Entry<K>>, c: nat): nat
  {
    if es == [] then 0 else Level(es[..|es| - 1], c) + (if es[|es| - 1].count == c then 1 else 0)
  }

  /** The rank that `rank(method='first', ascending=False)` gives entry i:
      one for every entry with a larger count, plus its place among the
      entries with the same count, in order of appearance. */
  function FirstRank<K>(es: seq<Entry<K>>, i: nat): nat
    requires i < |es|
  {
    Above(es, es[i].count) + Level(es[..i + 1], es[i].count)
  }

  /** `rank(method='first', ascending=False)` on one year's rows, which
      are in descending order of medals. */
  function Ranked(y: int, es: seq<Entry<string>>): (b: seq<Standing>)
    requires NonIncreasing(es)
    ensures |b| == |es|
    ensures forall i :: 0 <= i < |es| ==> b[i] == Standing(y, es[i].key, es[i].count, FirstRank(es, i))
  {
    forall i | 0 <= i < |es| ensures FirstRank(es, i) == i + 1 {
      FirstRankIsPosition(es, i);
    }
    seq(|es|, i requires 0 <= i < |es| => Standing(y, es[i].key, es[i].count, i + 1))
  }

  /** Entries that all have at least `c` are either above it or level with it. */
  lemma {:induction false} AboveOrLevel<K>(es: seq<Entry<K>>, c: nat)
    requires forall j :: 0 <= j < |es| ==> es[j].count >= c
    ensures Above(es, c) + Level(es, c) == |es|
  {
    if es != [] {
      AboveOrLevel(es[..|es| - 1], c);
    }
  }

  /** Entries after position m with no more than `c` add nothing above `c`. */
  lemma {:induction false} AboveUpTo<K>(es: seq<Entry<K>>, m: nat, c: nat)
    requires m <= |es|
    requires forall j :: m <= j < |es| ==> es[j].count <= c
    ensures Above(es, c) == Above(es[..m], c)
  {
    if m < |es| {
      var init := es[..|es| - 1];
      assert init[..m] == es[..m];
      AboveUpTo(init, m, c);
    } else {
      assert es[..m] == es;
    }
  }

  /** On a series in descending order, the "first" rank is the position plus one. */
  lemma FirstRankIsPosition<K>(es: seq<Entry<K>>, i: nat)
    requires NonIncreasing(es) && i < |es|
    ensures FirstRank(es, i) == i + 1
  {
    var c := es[i].count;
    AboveUpTo(es, i + 1, c);
    AboveOrLevel(es[..i + 1], c);
  }

  /** A year's ranked rows all carry the year, keep the descending order
      and the distinct countries of the series, and are ranked 1, 2, ... */
  lemma RankedShape(y: int, es: seq<Entry<string>>)
    requires NonIncreasing(es) && DistinctKeys(es)
    ensures var b := Ranked(y, es);
      (forall i :: 0 <= i < |b| ==> b[i].year == y) && RanksFollow(b) && Ordered(b) && Unique(b)
  {
    var b := Ranked(y, es);
    forall i | 0 <= i < |es| ensures b[i].rank == i + 1 {
      FirstRankIsPosition(es, i);
    }
  }

  /** The first n rows of year `y`, ranked. */
  function YearTop(rows: seq<Row>, cs: seq<Criterion>, y: int, n: nat): (b: seq<Standing>)
    ensures |b| == Min(n, |DistinctValues(rows, cs + [YearIs(y)], NOC)|)
  {
    Ranked(y, TopColumnCounts(rows, cs + [YearIs(y)], NOC, n))
  }

  /** The tables of the given years, one after the other. */
  function Standings(rows: seq<Row>, cs: seq<Criterion>, years: seq<int>, n: nat): (t: seq<Standing>)
    ensures forall i :: 0 <= i < |t| ==> t[i].year in years
  {
    BlocksFacts(rows, cs, years, n);
    FlattenYears(Blocks(rows, cs, years, n), years);
    Flatten(Blocks(rows, cs, years, n))
  }

  /** One table per year. */
  function Blocks(rows: seq<Row>, cs: seq<Criterion>, years: seq<int>, n: nat): seq<seq<Standing>>
  {
    seq(|years|, k requires 0 <= k < |years| => YearTop(rows, cs, years[k], n))
  }

  /** The blocks one after the other. */
  function Flatten(bs: seq<seq<Standing>>): seq<Standing>
  {
    if bs == [] then [] else Flatten(bs[..|bs| - 1]) + bs[|bs| - 1]
  }

  /** The medal race of the rows passing `cs`: every year that has a
      passing row, ascending. */
  function Race(rows: seq<Row>, cs: seq<Criterion>, n: nat): (t: seq<Standing>)
    ensures IsMedalRace(t, rows, cs, n)
  {
    var sizes := YearSizes(rows, cs);
    RaceFacts(rows, cs, sizes, n);
    Standings(rows, cs, KeysOf(sizes), n)
  }

  // ---------------------------------------------------------------------
  // One year

  lemma YearTopShape(rows: seq<Row>, cs: seq<Criterion>, y: int, n: nat)
    ensures var b := YearTop(rows, cs, y, n);
      (forall i :: 0 <= i < |b| ==> b[i].year == y) && RanksFollow(b) && Ordered(b) && Unique(b)
  {
    var es := TopColumnCounts(rows, cs + [YearIs(y)], NOC, n);
    RankedShape(y, es);
  }

  /** Ranking keeps each entry's country and count. */
  lemma RankedCounted(y: int, es: seq<Entry<string>>, rows: seq<Row>, cs: seq<Criterion>)
    requires NonIncreasing(es)
    requires forall i :: 0 <= i < |es| ==> 1 <= es[i].count == |Where(rows, cs + [YearIs(y), Equals(NOC, es[i].key)])|
    ensures Counted(Ranked(y, es), rows, cs)
  {
    var b := Ranked(y, es);
    forall i | 0 <= i < |b|
      ensures 1 <= b[i].medals == |Where(rows, cs + [YearIs(b[i].year), Equals(NOC, b[i].noc)])|
    {
      assert b[i].year == y && b[i].noc == es[i].key && b[i].medals == es[i].count;
    }
  }

  lemma YearTopCounted(rows: seq<Row>, cs: seq<Criterion>, y: int, n: nat)
    ensures Counted(YearTop(rows, cs, y, n), rows, cs)
  {
    var cy := cs + [YearIs(y)];
    var es := TopColumnCounts(rows, cy, NOC, n);
    forall i | 0 <= i < |es|
      ensures 1 <= es[i].count == |Where(rows, cs + [YearIs(y), Equals(NOC, es[i].key)])|
    {
      assert cy + [Equals(NOC, es[i].key)] == cs + [YearIs(y), Equals(NOC, es[i].key)];
    }
    RankedCounted(y, es, rows, cs);
  }

  /** Ranking keeps a series' dominance over the countries it leaves out. */
  lemma RankedDominant(y: int, es: seq<Entry<string>>, rows: seq<Row>, cs: seq<Criterion>)
    requires NonIncreasing(es)
    requires forall v :: v in DistinctValues(rows, cs + [YearIs(y)], NOC) && v !in KeysOf(es) ==>
      forall i :: 0 <= i < |es| ==> es[i].count >= |Where(rows, cs + [YearIs(y), Equals(NOC, v)])|
    ensures Dominant(Ranked(y, es), rows, cs)
  {
    var b := Ranked(y, es);
    forall i, x | 0 <= i < |b| && x in Where(rows, cs + [YearIs(b[i].year)]) && NotListed(b, b[i].year, x.noc)
      ensures b[i].medals >= |Where(rows, cs + [YearIs(b[i].year), Equals(NOC, x.noc)])|
    {
      assert b[i].year == y && b[i].medals == es[i].count;
      assert x.noc in DistinctValues(rows, cs + [YearIs(y)], NOC) by {
        assert Text(x, NOC) == Some(x.noc);
      }
      assert x.noc !in KeysOf(es) by {
        forall j | 0 <= j < |es| ensures KeysOf(es)[j] != x.noc {
          assert b[j].year == y;
        }
      }
    }
  }

  lemma YearTopDominant(rows: seq<Row>, cs: seq<Criterion>, y: int, n: nat)
    ensures Dominant(YearTop(rows, cs, y, n), rows, cs)
  {
    var cy := cs + [YearIs(y)];
    var es := TopColumnCounts(rows, cy, NOC, n);
    forall v | v in DistinctValues(rows, cy, NOC) && v !in KeysOf(es)
      ensures forall i :: 0 <= i < |es| ==> es[i].count >= |Where(rows, cs + [YearIs(y), Equals(NOC, v)])|
    {
      assert cy + [Equals(NOC, v)] == cs + [YearIs(y), Equals(NOC, v)];
    }
    RankedDominant(y, es, rows, cs);
  }

  // ---------------------------------------------------------------------
  // Appending one year's rows to the table of the years before it

  /** Every row of `a` has an earlier year than every row of `b`. */
  ghost predicate Before(a: seq<Standing>, b: seq<Standing>)
  {
    forall i, j :: 0 <= i < |a| && 0 <= j < |b| ==> a[i].year < b[j].year
  }

  lemma AppendOrdered(a: seq<Standing>, b: seq<Standing>)
    requires Ordered(a) && Ordered(b) && Before(a, b)
    ensures Ordered(a + b)
  {
    var t := a + b;
    forall i, j | 0 <= i < j < |t|
      ensures t[i].year < t[j].year || (t[i].year == t[j].year && t[i].medals >= t[j].medals)
    {
      if j < |a| {
        assert t[i] == a[i] && t[j] == a[j];
      } else if i < |a| {
        assert t[i] == a[i] && t[j] == b[j - |a|];
      } else {
        assert t[i] == b[i - |a|] && t[j] == b[j - |a|];
      }
    }
  }

  lemma AppendUnique(a: seq<Standing>, b: seq<Standing>)
    requires Unique(a) && Unique(b) && Before(a, b)
    ensures Unique(a + b)
  {
    var t := a + b;
    forall i, j | 0 <= i < j < |t| ensures t[i].year != t[j].year || t[i].noc != t[j].noc {
      if j < |a| {
        assert t[i] == a[i] && t[j] == a[j];
      } else if i < |a| {
        assert t[i] == a[i] && t[j] == b[j - |a|];
      } else {
        assert t[i] == b[i - |a|] && t[j] == b[j - |a|];
      }
    }
  }

  lemma AppendRanks(a: seq<Standing>, b: seq<Standing>)
    requires RanksFollow(a) && RanksFollow(b) && Before(a, b)
    ensures RanksFollow(a + b)
  {
    var t := a + b;
    forall i | 0 < i < |t|
      ensures t[i].rank == if t[i - 1].year != t[i].year then 1 else t[i - 1].rank + 1
    {
      if i < |a| {
        assert t[i] == a[i] && t[i - 1] == a[i - 1];
      } else if i == |a| {
        assert t[i] == b[0] && t[i - 1] == a[i - 1];
        assert a[i - 1].year < b[0].year;
      } else {
        assert t[i] == b[i - |a|] && t[i - 1] == b[i - 1 - |a|];
      }
    }
  }

  lemma AppendCounted(a: seq<Standing>, b: seq<Standing>, rows: seq<Row>, cs: seq<Criterion>)
    requires Counted(a, rows, cs) && Counted(b, rows, cs)
    ensures Counted(a + b, rows, cs)
  {
    var t := a + b;
    forall i | 0 <= i < |t|
      ensures 1 <= t[i].medals == |Where(rows, cs + [YearIs(t[i].year), Equals(NOC, t[i].noc)])|
    {
      if i < |a| {
        assert t[i] == a[i];
      } else {
        assert t[i] == b[i - |a|];
      }
    }
  }

  lemma AppendDominant(a: seq<Standing>, b: seq<Standing>, rows: seq<Row>, cs: seq<Criterion>)
    requires Dominant(a, rows, cs) && Dominant(b, rows, cs)
    ensures Dominant(a + b, rows, cs)
  {
    var t := a + b;
    forall i, x | 0 <= i < |t| && x in Where(rows, cs + [YearIs(t[i].year)]) && NotListed(t, t[i].year, x.noc)
      ensures t[i].medals >= |Where(rows, cs + [YearIs(t[i].year), Equals(NOC, x.noc)])|
    {
      var y := t[i].year;
      if i < |a| {
        assert t[i] == a[i];
        assert NotListed(a, y, x.noc) by {
          forall j | 0 <= j < |a| && a[j].year == y ensures a[j].noc != x.noc {
            assert t[j] == a[j];
          }
        }
      } else {
        assert t[i] == b[i - |a|];
        assert NotListed(b, y, x.noc) by {
          forall j | 0 <= j < |b| && b[j].year == y ensures b[j].noc != x.noc {
            assert t[|a| + j] == b[j];
          }
        }
      }
    }
  }

  lemma {:induction false} RowsInYearConcat(a: seq<Standing>, b: seq<Standing>, y: int)
    ensures RowsInYear(a + b, y) == RowsInYear(a, y) + RowsInYear(b, y)
  {
    if b == [] {
      assert a + b == a;
    } else {
      RowsInYearConcat(a, b[..|b| - 1], y);
      assert (a + b)[..|a + b| - 1] == a + b[..|b| - 1];
    }
  }

  lemma {:induction false} RowsInOneYear(b: seq<Standing>, y0: int, y: int)
    requires forall i :: 0 <= i < |b| ==> b[i].year == y0
    ensures RowsInYear(b, y) == if y == y0 then |b| else 0
  {
    if b != [] {
      RowsInOneYear(b[..|b| - 1], y0, y);
    }
  }

  // ---------------------------------------------------------------------
  // All the years, by induction on the list of blocks

  /** Block k holds only rows of year ys[k]. */
  ghost predicate OfYears(bs: seq<seq<Standing>>, ys: seq<int>)
  {
    |bs| == |ys| && forall k, i :: 0 <= k < |bs| && 0 <= i < |bs[k]| ==> bs[k][i].year == ys[k]
  }

  lemma {:induction false} FlattenYears(bs: seq<seq<Standing>>, ys: seq<int>)
    requires OfYears(bs, ys)
    ensures forall i :: 0 <= i < |Flatten(bs)| ==> Flatten(bs)[i].year in ys
  {
    if bs != [] {
      var m := |bs| - 1;
      var a: seq<Standing>, b: seq<Standing> := Flatten(bs[..m]), bs[m];
      assert OfYears(bs[..m], ys[..m]);
      FlattenYears(bs[..m], ys[..m]);
      forall i | 0 <= i < |a + b| ensures (a + b)[i].year in ys {
        if i < |a| {
          assert (a + b)[i] == a[i];
          assert a[i].year in ys[..m];
        } else {
          assert (a + b)[i] == b[i - |a|];
        }
      }
    }
  }

  lemma {:induction false} FlattenShape(bs: seq<seq<Standing>>, ys: seq<int>)
    requires StrictlyIncreasing(ys) && OfYears(bs, ys)
    requires forall k :: 0 <= k < |bs| ==> Ordered(bs[k]) && Unique(bs[k]) && RanksFollow(bs[k])
    ensures Ordered(Flatten(bs)) && Unique(Flatten(bs)) && RanksFollow(Flatten(bs))
  {
    if bs != [] {
      var m := |bs| - 1;
      var a: seq<Standing>, b: seq<Standing> := Flatten(bs[..m]), bs[m];
      assert OfYears(bs[..m], ys[..m]);
      FlattenShape(bs[..m], ys[..m]);
      FlattenYears(bs[..m], ys[..m]);
      assert forall y :: y in ys[..m] ==> y < ys[m];
      assert Before(a, b);
      AppendOrdered(a, b);
      AppendUnique(a, b);
      AppendRanks(a, b);
    }
  }

  lemma {:induction false} FlattenCounted(bs: seq<seq<Standing>>, rows: seq<Row>, cs: seq<Criterion>)
    requires forall k :: 0 <= k < |bs| ==> Counted(bs[k], rows, cs)
    ensures Counted(Flatten(bs), rows, cs)
  {
    if bs != [] {
      var m := |bs| - 1;
      FlattenCounted(bs[..m], rows, cs);
      AppendCounted(Flatten(bs[..m]), bs[m], rows, cs);
    }
  }

  lemma {:induction false} FlattenDominant(bs: seq<seq<Standing>>, rows: seq<Row>, cs: seq<Criterion>)
    requires forall k :: 0 <= k < |bs| ==> Dominant(bs[k], rows, cs)
    ensures Dominant(Flatten(bs), rows, cs)
  {
    if bs != [] {
      var m := |bs| - 1;
      FlattenDominant(bs[..m], rows, cs);
      AppendDominant(Flatten(bs[..m]), bs[m], rows, cs);
    }
  }

  lemma {:induction false} FlattenRows(bs: seq<seq<Standing>>, ys: seq<int>)
    requires StrictlyIncreasing(ys) && OfYears(bs, ys)
    ensures forall k :: 0 <= k < |ys| ==> RowsInYear(Flatten(bs), ys[k]) == |bs[k]|
    ensures forall y :: y !in ys ==> RowsInYear(Flatten(bs), y) == 0
  {
    if bs != [] {
      var m := |bs| - 1;
      var init, last := ys[..m], ys[m];
      var a: seq<Standing>, b: seq<Standing> := Flatten(bs[..m]), bs[m];
      assert OfYears(bs[..m], init);
      FlattenRows(bs[..m], init);
      assert ys == init + [last];
      assert last !in init;
      forall y ensures RowsInYear(a + b, y) == RowsInYear(a, y) + (if y == last then |b| else 0) {
        RowsInYearConcat(a, b, y);
        RowsInOneYear(b, last, y);
      }
      forall k | 0 <= k < m ensures RowsInYear(a + b, ys[k]) == |bs[k]| {
        assert ys[k] == init[k] && bs[k] == bs[..m][k];
      }
    }
  }

  lemma BlocksFacts(rows: seq<Row>, cs: seq<Criterion>, years: seq<int>, n: nat)
    ensures var bs := Blocks(rows, cs, years, n);
      && OfYears(bs, years)
      && (forall k :: 0 <= k < |bs| ==> Ordered(bs[k]) && Unique(bs[k]) && RanksFollow(bs[k]))
      && (forall k :: 0 <= k < |bs| ==> Counted(bs[k], rows, cs) && Dominant(bs[k], rows, cs))
      && (forall k :: 0 <= k < |bs| ==> |bs[k]| == Min(n, |DistinctValues(rows, cs + [YearIs(years[k])], NOC)|))
  {
    var bs: seq<seq<Standing>> := Blocks(rows, cs, years, n);
    forall k | 0 <= k < |bs|
      ensures (forall i :: 0 <= i < |bs[k]| ==> bs[k][i].year == years[k])
      ensures Ordered(bs[k]) && Unique(bs[k]) && RanksFollow(bs[k])
      ensures Counted(bs[k], rows, cs) && Dominant(bs[k], rows, cs)
      ensures |bs[k]| == Min(n, |DistinctValues(rows, cs + [YearIs(years[k])], NOC)|)
    {
      YearTopShape(rows, cs, years[k], n);
      YearTopCounted(rows, cs, years[k], n);
      YearTopDominant(rows, cs, years[k], n);
    }
  }

  /** A year with no passing row has no country to list. */
  lemma YearAbsent(rows: seq<Row>, cs: seq<Criterion>, y: int)
    requires forall x :: x in Where(rows, cs) ==> x.year != y
    ensures DistinctValues(rows, cs + [YearIs(y)], NOC) == {}
  {
    WhereSubset(rows, cs);
    forall x | x in rows ensures !HoldsAll(cs + [YearIs(y)], x) {
      assert YearIs(y) in cs + [YearIs(y)];
    }
    WhereNone(rows, cs + [YearIs(y)]);
  }

  /** Each year of the table has as many rows as the cut allows. */
  lemma RaceRows(rows: seq<Row>, cs: seq<Criterion>, r: seq<Entry<int>>, n: nat)
    requires IsYearSizes(r, rows, cs)
    ensures forall y ::
      RowsInYear(Standings(rows, cs, KeysOf(r), n), y) == Min(n, |DistinctValues(rows, cs + [YearIs(y)], NOC)|)
  {
    var years := KeysOf(r);
    var bs: seq<seq<Standing>> := Blocks(rows, cs, years, n);
    BlocksFacts(rows, cs, years, n);
    FlattenRows(bs, years);
    forall y ensures RowsInYear(Flatten(bs), y) == Min(n, |DistinctValues(rows, cs + [YearIs(y)], NOC)|) {
      if y in years {
        var k :| 0 <= k < |years| && years[k] == y;
      } else {
        YearAbsent(rows, cs, y);
      }
    }
  }

  /** The table built over the years that have passing rows is the race. */
  lemma RaceFacts(rows: seq<Row>, cs: seq<Criterion>, r: seq<Entry<int>>, n: nat)
    requires IsYearSizes(r, rows, cs)
    ensures IsMedalRace(Standings(rows, cs, KeysOf(r), n), rows, cs, n)
  {
    var years := KeysOf(r);
    var bs: seq<seq<Standing>> := Blocks(rows, cs, years, n);
    BlocksFacts(rows, cs, years, n);
    FlattenShape(bs, years);
    FlattenCounted(bs, rows, cs);
    FlattenDominant(bs, rows, cs);
    RaceRows(rows, cs, r, n);
  }

  // ---------------------------------------------------------------------
  // What follows from the table's invariants

  lemma {:induction false} RowsBeforeYear(t: seq<Standing>, y: int)
    requires forall j :: 0 <= j < |t| ==> t[j].year < y
    ensures RowsInYear(t, y) == 0
  {
    if t != [] {
      RowsBeforeYear(t[..|t| - 1], y);
    }
  }

  /** Within a year the ranks are 1, 2, ..., k in row order: the rank of a
      row is the number of rows of its year up to and including it. */
  lemma {:induction false} RankIsPosition(t: seq<Standing>, i: nat)
    requires Ordered(t) && RanksFollow(t)
    requires i < |t|
    ensures t[i].rank == RowsInYear(t[..i + 1], t[i].year)
  {
    var y := t[i].year;
    assert t[..i + 1][..i] == t[..i];
    if i == 0 {
      assert t[..0] == [];
    } else {
      if t[i - 1].year != y {
        forall j | 0 <= j < |t[..i]| ensures t[..i][j].year < y {
          assert t[..i][j] == t[j];
          if j < i - 1 {
            assert t[j].year <= t[i - 1].year;
          }
        }
        RowsBeforeYear(t[..i], y);
      } else {
        RankIsPosition(t, i - 1);
        assert t[..i] == t[..i - 1 + 1];
      }
    }
  }

  /** With a positive cut, every year that has a passing row is in the table. */
  lemma EveryYearListed(t: seq<Standing>, rows: seq<Row>, cs: seq<Criterion>, n: nat, x: Row)
    requires IsMedalRace(t, rows, cs, n)
    requires n > 0 && x in Where(rows, cs)
    ensures RowsInYear(t, x.year) >= 1
  {
    WhereSubset(rows, cs);
    WhereSubset(rows, cs + [YearIs(x.year)]);
    assert HoldsAll(cs + [YearIs(x.year)], x);
    assert Text(x, NOC) == Some(x.noc);
    assert x.noc in DistinctValues(rows, cs + [YearIs(x.year)], NOC);
  }
}
