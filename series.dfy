/** Counts over one column of the rows that pass a mask: the building
    blocks `df[mask][col].value_counts()`, `.head(n)`,
    `df[mask].groupby('Year').size()` and `df[mask][col]` of the analyzer,
    each specified directly in terms of the rows of the table. */
module Series {
  import opened Frame
  import opened Counting

  /** The distinct non-missing values of `col` among the rows that pass `cs`. */
  ghost function DistinctValues(rows: seq<Row>, cs: seq<Criterion>, col: TextColumn): set<string>
  {
    set x | x in Where(rows, cs) && Text(x, col).Some? :: Text(x, col).value
  }

  /** `r` is `rows[cs][col].value_counts()`: each distinct value once, with
      the number of passing rows holding it, most frequent first; the
      counts add up to the number of passing rows that have a value. */
  ghost predicate IsColumnCounts(r: seq<Entry<string>>, rows: seq<Row>, cs: seq<Criterion>, col: TextColumn)
  {
    && |r| == |DistinctValues(rows, cs, col)|
    && DistinctKeys(r)
    && NonIncreasing(r)
    && (forall i :: 0 <= i < |r| ==> 1 <= r[i].count == |Where(rows, cs + [Equals(col, r[i].key)])|)
    && (forall v :: v in KeysOf(r) <==> v in DistinctValues(rows, cs, col))
    && Sum(r) == |Where(rows, cs + [Present(col)])|
  }

  /** `r` is `rows[cs][col].value_counts().head(n)`: min(n, #values)
      distinct values that occur, with exact, non-increasing counts, and no
      value left out is held by more rows than a value kept. */
  ghost predicate IsTopColumnCounts(r: seq<Entry<string>>, rows: seq<Row>, cs: seq<Criterion>, col: TextColumn, n: nat)
  {
    && |r| == Min(n, |DistinctValues(rows, cs, col)|)
    && DistinctKeys(r)
    && NonIncreasing(r)
    && (forall i :: 0 <= i < |r| ==> 1 <= r[i].count == |Where(rows, cs + [Equals(col, r[i].key)])|)
    && (forall v :: v in KeysOf(r) ==> v in DistinctValues(rows, cs, col))
    && (forall v :: v in DistinctValues(rows, cs, col) && v !in KeysOf(r) ==>
          forall i :: 0 <= i < |r| ==> r[i].count >= |Where(rows, cs + [Equals(col, v)])|)
  }

  /** `r` is `rows[cs].groupby('Year').size()`: the years of the passing
      rows, ascending, each with its number of passing rows. */
  ghost predicate IsYearSizes(r: seq<Entry<int>>, rows: seq<Row>, cs: seq<Criterion>)
  {
    && KeysAscending(r)
    && (forall i :: 0 <= i < |r| ==> 1 <= r[i].count == |Where(rows, cs + [YearIs(r[i].key)])|)
    && (forall x :: x in Where(rows, cs) ==> x.year in KeysOf(r))
    && Sum(r) == |Where(rows, cs)|
  }

  /** `r` is `rows[cs & col.notna()][col]`: the values of `col` of the
      passing rows that have one, position by position, duplicates kept. */
  ghost predicate IsSample(r: seq<int>, rows: seq<Row>, cs: seq<Criterion>, col: NumColumn)
  {
    var w := Where(rows, cs + [Measured(col)]);
    && |r| == |w|
    && (forall i :: 0 <= i < |r| ==> Number(w[i], col) == Some(r[i]))
    && (forall a :: a in r <==> exists x :: x in rows && HoldsAll(cs, x) && Number(x, col) == Some(a))
  }

  // ---------------------------------------------------------------------
  // From the projected column back to the rows

  lemma ColumnCount(rows: seq<Row>, cs: seq<Criterion>, col: TextColumn, v: string)
    ensures multiset(Values(Where(rows, cs), col))[v] == |Where(rows, cs + [Equals(col, v)])|
  {
    ValuesCount(Where(rows, cs), col, v);
    WhereWhere(rows, cs, [Equals(col, v)]);
  }

  lemma ColumnValues(rows: seq<Row>, cs: seq<Criterion>, col: TextColumn)
    ensures (set v | v in Values(Where(rows, cs), col)) == DistinctValues(rows, cs, col)
  {
    ValuesMembers(Where(rows, cs), col);
  }

  lemma ColumnLength(rows: seq<Row>, cs: seq<Criterion>, col: TextColumn)
    ensures |Values(Where(rows, cs), col)| == |Where(rows, cs + [Present(col)])|
  {
    ValuesLength(Where(rows, cs), col);
    WhereWhere(rows, cs, [Present(col)]);
  }

  // ---------------------------------------------------------------------
  // The building blocks

  /** `rows[cs][col].value_counts()`. */
  function ColumnCounts(rows: seq<Row>, cs: seq<Criterion>, col: TextColumn): (r: seq<Entry<string>>)
    ensures IsColumnCounts(r, rows, cs, col)
  {
    var xs := Values(Where(rows, cs), col);
    forall v ensures multiset(xs)[v] == |Where(rows, cs + [Equals(col, v)])| {
      ColumnCount(rows, cs, col, v);
    }
    ColumnValues(rows, cs, col);
    ColumnLength(rows, cs, col);
    ValueCounts(xs)
  }

  /** `rows[cs][col].value_counts().head(n)`. */
  function TopColumnCounts(rows: seq<Row>, cs: seq<Criterion>, col: TextColumn, n: nat): (r: seq<Entry<string>>)
    ensures IsTopColumnCounts(r, rows, cs, col, n)
  {
    var xs := Values(Where(rows, cs), col);
    forall v ensures multiset(xs)[v] == |Where(rows, cs + [Equals(col, v)])| {
      ColumnCount(rows, cs, col, v);
    }
    ColumnValues(rows, cs, col);
    MostCommon(xs, n)
  }

  /** `rows[cs].groupby('Year').size()`. */
  function YearSizes(rows: seq<Row>, cs: seq<Criterion>): (r: seq<Entry<int>>)
    ensures IsYearSizes(r, rows, cs)
  {
    var w := Where(rows, cs);
    var ys := Years(w);
    forall y ensures multiset(ys)[y] == |Where(rows, cs + [YearIs(y)])| {
      YearsCount(w, y);
      WhereWhere(rows, cs, [YearIs(y)]);
    }
    YearsMembers(w);
    YearsLength(w);
    GroupSizes(ys)
  }

  /** `rows[cs & col.notna()][col]`. */
  function Sample(rows: seq<Row>, cs: seq<Criterion>, col: NumColumn): (r: seq<int>)
    ensures IsSample(r, rows, cs, col)
  {
    var w := Where(rows, cs + [Measured(col)]);
    assert Measured(col) in cs + [Measured(col)];
    NumbersOfMeasured(w, col);
    NumbersMembers(w, col);
    WhereContents(rows, cs + [Measured(col)]);
    assert forall x :: x in rows && HoldsAll(cs, x) && Number(x, col).Some? ==> multiset(w)[x] > 0;
    Numbers(w, col)
  }

  /** A mask that no row passes gives empty counts. */
  lemma NothingToCount(rows: seq<Row>, cs: seq<Criterion>, col: TextColumn, r: seq<Entry<string>>)
    requires forall x :: x in rows ==> !HoldsAll(cs, x)
    requires IsColumnCounts(r, rows, cs, col)
    ensures r == []
  {
    WhereNone(rows, cs);
    assert DistinctValues(rows, cs, col) == {};
  }
}
