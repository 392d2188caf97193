/** The participation table and the row filters the analyzer builds its
    queries from: a conjunction of column tests (a boolean mask) applied to
    a sequence of rows, plus the column projections that the counting
    operations consume. */
module Frame {

  datatype Option<T> = None | Some(value: T)

  /** One participation of one athlete in one event at one Games.
      A missing Age, Height, Weight or Medal is `None`; a missing Medal
      means "no medal". */
  datatype Row = Row(
    noc: string,
    sport: string,
    sex: string,
    age: Option<int>,
    height: Option<int>,
    weight: Option<int>,
    year: int,
    season: string,
    medal: Option<string>,
    nameHash: string)

  /** The text-valued columns of the table (Medal is the nullable one). */
  datatype TextColumn = NOC | Sport | Sex | Season | NameHash | Medal

  /** The numeric, nullable columns of the table. */
  datatype NumColumn = Age | Height | Weight

  function Text(r: Row, col: TextColumn): Option<string>
  {
    match col
    case NOC => Some(r.noc)
    case Sport => Some(r.sport)
    case Sex => Some(r.sex)
    case Season => Some(r.season)
    case NameHash => Some(r.nameHash)
    case Medal => r.medal
  }

  function Number(r: Row, col: NumColumn): Option<int>
  {
    match col
    case Age => r.age
    case Height => r.height
    case Weight => r.weight
  }

  /** One column test of a boolean mask: `df[col] == value` (false on a
      missing value), `df['Year'] == year`, or `df[col].notna()`. */
  datatype Criterion =
    | Equals(col: TextColumn, value: string)
    | YearIs(year: int)
    | Present(col: TextColumn)
    | Measured(num: NumColumn)

  predicate Holds(c: Criterion, r: Row)
  {
    match c
    case Equals(col, v) => Text(r, col) == Some(v)
    case YearIs(y) => r.year == y
    case Present(col) => Text(r, col).Some?
    case Measured(col) => Number(r, col).Some?
  }

  /** The mask `c1 & c2 & ...`. */
  predicate HoldsAll(cs: seq<Criterion>, r: Row)
  {
    forall c :: c in cs ==> Holds(c, r)
  }

  /** A mask of one test is that test; masks joined are both tests. */
  lemma HoldsAllOne(c: Criterion, x: Row)
    ensures HoldsAll([c], x) <==> Holds(c, x)
  {
    assert c in [c];
  }

  lemma HoldsAllAppend(a: seq<Criterion>, b: seq<Criterion>, x: Row)
    ensures HoldsAll(a + b, x) <==> HoldsAll(a, x) && HoldsAll(b, x)
  {
    assert forall c :: c in a + b <==> c in a || c in b;
  }

  /** `w` can be obtained from `s` by deleting elements, keeping the order
      of the rest (matched greedily from the back). */
  predicate IsSubsequence<T(==)>(w: seq<T>, s: seq<T>)
    decreases |s|
  {
    if w == [] then true
    else if s == [] then false
    else if w[|w| - 1] == s[|s| - 1] then IsSubsequence(w[..|w| - 1], s[..|s| - 1])
    else IsSubsequence(w, s[..|s| - 1])
  }

  /** A subsequence is no longer than the sequence it is taken from. */
  lemma {:induction false} SubsequenceLength<T>(w: seq<T>, s: seq<T>)
    requires IsSubsequence(w, s)
    ensures |w| <= |s|
    decreases |s|
  {
    if w != [] {
      if w[|w| - 1] == s[|s| - 1] {
        SubsequenceLength(w[..|w| - 1], s[..|s| - 1]);
      } else {
        SubsequenceLength(w, s[..|s| - 1]);
      }
    }
  }

  /** Boolean indexing `df[mask]`: the rows that pass every criterion, in
      table order. Each passing row is kept as often as it occurs; every
      other row is dropped. */
  function Where(rows: seq<Row>, cs: seq<Criterion>): (w: seq<Row>)
    ensures |w| <= |rows|
    ensures forall x :: x in w ==> HoldsAll(cs, x)
  {
    if rows == [] then []
    else
      var last := rows[|rows| - 1];
      Where(rows[..|rows| - 1], cs) + (if HoldsAll(cs, last) then [last] else [])
  }

  /** The non-missing values of a text column, in row order: what
      `value_counts` counts (it drops missing values). */
  function Values(rows: seq<Row>, col: TextColumn): seq<string>
  {
    if rows == [] then []
    else
      var last := rows[|rows| - 1];
      Values(rows[..|rows| - 1], col) + (if Text(last, col).Some? then [Text(last, col).value] else [])
  }

  /** The non-missing values of a numeric column, in row order. */
  function Numbers(rows: seq<Row>, col: NumColumn): seq<int>
  {
    if rows == [] then []
    else
      var last := rows[|rows| - 1];
      Numbers(rows[..|rows| - 1], col) + (if Number(last, col).Some? then [Number(last, col).value] else [])
  }

  /** The Year column, in row order. */
  function Years(rows: seq<Row>): seq<int>
  {
    if rows == [] then [] else Years(rows[..|rows| - 1]) + [rows[|rows| - 1].year]
  }

  // ---------------------------------------------------------------------
  // Filters

  lemma {:induction false} WhereIsSubsequence(rows: seq<Row>, cs: seq<Criterion>)
    ensures IsSubsequence(Where(rows, cs), rows)
  {
    if rows != [] {
      var init, last := rows[..|rows| - 1], rows[|rows| - 1];
      var w0 := Where(init, cs);
      WhereIsSubsequence(init, cs);
      if HoldsAll(cs, last) {
        assert Where(rows, cs) == w0 + [last];
        assert (w0 + [last])[..|w0|] == w0;
      } else {
        assert Where(rows, cs) == w0;
        if w0 != [] {
          assert w0[|w0| - 1] in w0;
        }
      }
    }
  }

  /** Filtering twice is filtering once with both masks. */
  lemma {:induction false} WhereWhere(rows: seq<Row>, a: seq<Criterion>, b: seq<Criterion>)
    ensures Where(Where(rows, a), b) == Where(rows, a + b)
  {
    if rows != [] {
      var init, last := rows[..|rows| - 1], rows[|rows| - 1];
      WhereWhere(init, a, b);
      var w := Where(init, a);
      assert HoldsAll(a + b, last) <==> HoldsAll(a, last) && HoldsAll(b, last);
      assert Where(rows, a + b) == Where(init, a + b) + (if HoldsAll(a + b, last) then [last] else []);
      if HoldsAll(a, last) {
        assert Where(rows, a) == w + [last];
        assert (w + [last])[..|w|] == w;
        assert Where(w + [last], b) == Where(w, b) + (if HoldsAll(b, last) then [last] else []);
      } else {
        assert Where(rows, a) == w;
      }
    }
  }

  /** One more row at the end is kept at the end if it passes. */
  lemma WhereAppendOne(rows: seq<Row>, x: Row, cs: seq<Criterion>)
    ensures Where(rows + [x], cs) == Where(rows, cs) + (if HoldsAll(cs, x) then [x] else [])
  {
    assert (rows + [x])[..|rows|] == rows;
  }

  /** Two masks that accept the same rows select the same rows. */
  lemma {:induction false} WhereSame(rows: seq<Row>, a: seq<Criterion>, b: seq<Criterion>)
    requires forall x :: HoldsAll(a, x) <==> HoldsAll(b, x)
    ensures Where(rows, a) == Where(rows, b)
  {
    if rows != [] {
      WhereSame(rows[..|rows| - 1], a, b);
    }
  }

  /** Filtering the result again with the same mask changes nothing. */
  lemma WhereIdempotent(rows: seq<Row>, cs: seq<Criterion>)
    ensures Where(Where(rows, cs), cs) == Where(rows, cs)
  {
    WhereWhere(rows, cs, cs);
    WhereSame(rows, cs + cs, cs);
  }

  /** The positions of the rows that pass a mask. */
  ghost function PassingIndices(rows: seq<Row>, cs: seq<Criterion>): set<int>
  {
    set i | 0 <= i < |rows| && HoldsAll(cs, rows[i])
  }

  /** The passing positions of a table with one more row. */
  lemma PassingIndicesStep(rows: seq<Row>, cs: seq<Criterion>)
    requires rows != []
    ensures var n := |rows| - 1;
      PassingIndices(rows, cs) == PassingIndices(rows[..n], cs) + (if HoldsAll(cs, rows[n]) then {n} else {})
  {
    var n := |rows| - 1;
    var init := rows[..n];
    forall i ensures i in PassingIndices(rows, cs) <==> i in PassingIndices(init, cs) + (if HoldsAll(cs, rows[n]) then {n} else {}) {
      if 0 <= i < n {
        assert rows[i] == init[i];
      }
    }
  }

  /** The number of rows kept is the number of row positions that pass. */
  lemma {:induction false} WhereCount(rows: seq<Row>, cs: seq<Criterion>)
    ensures |Where(rows, cs)| == |PassingIndices(rows, cs)|
  {
    if rows == [] {
      assert PassingIndices(rows, cs) == {};
    } else {
      var n := |rows| - 1;
      var init, last := rows[..n], rows[n];
      WhereCount(init, cs);
      assert rows == init + [last];
      assert Where(rows, cs) == Where(init, cs) + (if HoldsAll(cs, last) then [last] else []);
      PassingIndicesStep(rows, cs);
      assert n !in PassingIndices(init, cs);
    }
  }

  /** A filter that no row passes gives an empty result. */
  lemma {:induction false} WhereNone(rows: seq<Row>, cs: seq<Criterion>)
    requires forall x :: x in rows ==> !HoldsAll(cs, x)
    ensures Where(rows, cs) == []
  {
    if rows != [] {
      var init := rows[..|rows| - 1];
      assert forall x :: x in init ==> x in rows;
      WhereNone(init, cs);
    }
  }

  /** Exactly the passing rows are kept, each as often as it occurs. */
  lemma {:induction false} WhereContents(rows: seq<Row>, cs: seq<Criterion>)
    ensures forall x :: multiset(Where(rows, cs))[x] == if HoldsAll(cs, x) then multiset(rows)[x] else 0
  {
    if rows != [] {
      var init, last := rows[..|rows| - 1], rows[|rows| - 1];
      WhereContents(init, cs);
      assert rows == init + [last];
    }
  }

  /** A row is among the kept rows exactly when it is a row that passes. */
  lemma WhereSubset(rows: seq<Row>, cs: seq<Criterion>)
    ensures forall x :: x in Where(rows, cs) <==> x in rows && HoldsAll(cs, x)
  {
    WhereContents(rows, cs);
    assert forall x :: x in Where(rows, cs) <==> multiset(Where(rows, cs))[x] > 0;
    assert forall x :: x in rows <==> multiset(rows)[x] > 0;
  }

  // ---------------------------------------------------------------------
  // Projections

  lemma {:induction false} ValuesConcat(a: seq<Row>, b: seq<Row>, col: TextColumn)
    ensures Values(a + b, col) == Values(a, col) + Values(b, col)
  {
    if b != [] {
      var init := b[..|b| - 1];
      ValuesConcat(a, init, col);
      assert (a + b)[..|a + b| - 1] == a + init;
    } else {
      assert a + b == a;
    }
  }

  /** How often `v` occurs among a column's values is the number of rows
      with that value. */
  lemma {:induction false} ValuesCount(rows: seq<Row>, col: TextColumn, v: string)
    ensures multiset(Values(rows, col))[v] == |Where(rows, [Equals(col, v)])|
  {
    if rows != [] {
      var init, last := rows[..|rows| - 1], rows[|rows| - 1];
      ValuesCount(init, col, v);
      var c := Equals(col, v);
      assert HoldsAll([c], last) == Holds(c, last);
      assert Where(rows, [c]) == Where(init, [c]) + (if Holds(c, last) then [last] else []);
    }
  }

  lemma {:induction false} ValuesLength(rows: seq<Row>, col: TextColumn)
    ensures |Values(rows, col)| == |Where(rows, [Present(col)])|
  {
    if rows != [] {
      var init, last := rows[..|rows| - 1], rows[|rows| - 1];
      ValuesLength(init, col);
      var c := Present(col);
      assert HoldsAll([c], last) == Holds(c, last);
      assert Where(rows, [c]) == Where(init, [c]) + (if Holds(c, last) then [last] else []);
    }
  }

  lemma {:induction false} ValuesMembers(rows: seq<Row>, col: TextColumn)
    ensures forall v :: v in Values(rows, col) <==> exists x :: x in rows && Text(x, col) == Some(v)
  {
    if rows != [] {
      var init, last := rows[..|rows| - 1], rows[|rows| - 1];
      ValuesMembers(init, col);
      assert rows == init + [last];
    }
  }

  lemma {:induction false} YearsCount(rows: seq<Row>, y: int)
    ensures multiset(Years(rows))[y] == |Where(rows, [YearIs(y)])|
  {
    if rows != [] {
      var init, last := rows[..|rows| - 1], rows[|rows| - 1];
      YearsCount(init, y);
      var c := YearIs(y);
      assert HoldsAll([c], last) == Holds(c, last);
      assert Where(rows, [c]) == Where(init, [c]) + (if Holds(c, last) then [last] else []);
    }
  }

  lemma {:induction false} YearsLength(rows: seq<Row>)
    ensures |Years(rows)| == |rows|
  {
    if rows != [] {
      YearsLength(rows[..|rows| - 1]);
    }
  }

  lemma {:induction false} YearsMembers(rows: seq<Row>)
    ensures forall y :: y in Years(rows) <==> exists x :: x in rows && x.year == y
  {
    if rows != [] {
      var init, last := rows[..|rows| - 1], rows[|rows| - 1];
      YearsMembers(init);
      assert rows == init + [last];
    }
  }

  /** On rows that all have the value, the column's values are exactly
      those rows' values, position by position. */
  lemma {:induction false} NumbersOfMeasured(rows: seq<Row>, col: NumColumn)
    requires forall x :: x in rows ==> Number(x, col).Some?
    ensures |Numbers(rows, col)| == |rows|
    ensures forall i :: 0 <= i < |rows| ==> Number(rows[i], col) == Some(Numbers(rows, col)[i])
  {
    if rows != [] {
      var init := rows[..|rows| - 1];
      assert forall x :: x in init ==> x in rows;
      NumbersOfMeasured(init, col);
    }
  }

  lemma {:induction false} NumbersMembers(rows: seq<Row>, col: NumColumn)
    ensures forall a :: a in Numbers(rows, col) <==> exists x :: x in rows && Number(x, col) == Some(a)
  {
    if rows != [] {
      var init, last := rows[..|rows| - 1], rows[|rows| - 1];
      NumbersMembers(init, col);
      assert rows == init + [last];
    }
  }
}
