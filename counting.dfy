/** Counting the values of a column, as pandas does it:
    `value_counts()` gives each distinct value with its number of
    occurrences, most frequent first; `groupby(key).size()` gives each
    distinct key with its group size, keys ascending; `head(n)` keeps the
    first n entries. Ties among equal counts are resolved by first
    occurrence here, but no contract below depends on the tie order. */
module Counting {

  /** One entry of a counts series: a value and how often it occurs. */
  datatype Entry<K> = Entry(key: K, count: nat)

  function Min(a: nat, b: nat): nat
  {
    if a <= b then a else b
  }

  function Sum<K>(es: seq<Entry<K>>): nat
  {
    if es == [] then 0 else Sum(es[..|es| - 1]) + es[|es| - 1].count
  }

  /** Counts of at least one add up to at least the number of entries. */
  lemma {:induction false} SumAtLeastLength<K>(es: seq<Entry<K>>)
    requires forall i :: 0 <= i < |es| ==> es[i].count >= 1
    ensures Sum(es) >= |es|
  {
    if es != [] {
      SumAtLeastLength(es[..|es| - 1]);
    }
  }

  /** The index of a series. */
  function KeysOf<K>(es: seq<Entry<K>>): (ks: seq<K>)
    ensures |ks| == |es|
    ensures forall i :: 0 <= i < |es| ==> ks[i] == es[i].key
  {
    seq(|es|, i requires 0 <= i < |es| => es[i].key)
  }

  ghost predicate NoDups<K(!new)>(xs: seq<K>)
  {
    forall i, j :: 0 <= i < j < |xs| ==> xs[i] != xs[j]
  }

  /** No key of the series occurs twice. */
  ghost predicate DistinctKeys<K(!new)>(es: seq<Entry<K>>)
  {
    forall i, j :: 0 <= i < j < |es| ==> es[i].key != es[j].key
  }

  predicate NonIncreasing<K>(es: seq<Entry<K>>)
  {
    forall i, j :: 0 <= i < j < |es| ==> es[i].count >= es[j].count
  }

  predicate StrictlyIncreasing(xs: seq<int>)
  {
    forall i, j :: 0 <= i < j < |xs| ==> xs[i] < xs[j]
  }

  predicate KeysAscending(es: seq<Entry<int>>)
  {
    forall i, j :: 0 <= i < j < |es| ==> es[i].key < es[j].key
  }

  // ---------------------------------------------------------------------
  // Distinct values

  /** The distinct values of `xs`, in order of first occurrence. */
  function Distinct<K(==,!new)>(xs: seq<K>): (d: seq<K>)
    ensures NoDups(d)
    ensures forall k :: k in d <==> k in xs
  {
    if xs == [] then []
    else
      var d0 := Distinct(xs[..|xs| - 1]);
      var last := xs[|xs| - 1];
      assert xs == xs[..|xs| - 1] + [last];
      if last in d0 then d0 else d0 + [last]
  }

  /** A sequence without repetitions has as many elements as its set. */
  lemma {:induction false} NoDupsCard<K(!new)>(xs: seq<K>)
    requires NoDups(xs)
    ensures |xs| == |set k | k in xs|
  {
    if xs != [] {
      var init, last := xs[..|xs| - 1], xs[|xs| - 1];
      NoDupsCard(init);
      assert xs == init + [last];
      assert (set k | k in xs) == (set k | k in init) + {last};
    }
  }

  lemma DistinctCard<K(!new)>(xs: seq<K>)
    ensures |Distinct(xs)| == |set k | k in xs|
  {
    var d := Distinct(xs);
    NoDupsCard(d);
    assert (set k | k in d) == (set k | k in xs);
  }

  // ---------------------------------------------------------------------
  // Tallies

  /** Each key with its number of occurrences in `xs`. */
  function Tally<K(==,!new)>(keys: seq<K>, xs: seq<K>): seq<Entry<K>>
  {
    seq(|keys|, i requires 0 <= i < |keys| => Entry(keys[i], multiset(xs)[keys[i]]))
  }

  /** One more element adds one to the tally of distinct keys that contain it. */
  lemma {:induction false} TallySumStep<K(!new)>(keys: seq<K>, xs: seq<K>, x: K)
    requires NoDups(keys)
    ensures Sum(Tally(keys, xs + [x])) == Sum(Tally(keys, xs)) + (if x in keys then 1 else 0)
  {
    if keys != [] {
      var ks, k := keys[..|keys| - 1], keys[|keys| - 1];
      assert keys == ks + [k];
      TallySumStep(ks, xs, x);
      assert Tally(keys, xs + [x])[..|ks|] == Tally(ks, xs + [x]);
      assert Tally(keys, xs)[..|ks|] == Tally(ks, xs);
      assert multiset(xs + [x])[k] == multiset(xs)[k] + (if x == k then 1 else 0);
    }
  }

  /** The counts of distinct keys covering `xs` add up to `|xs|`. */
  lemma {:induction false} TallySum<K(!new)>(keys: seq<K>, xs: seq<K>)
    requires NoDups(keys)
    requires forall x :: x in xs ==> x in keys
    ensures Sum(Tally(keys, xs)) == |xs|
  {
    if xs == [] {
      TallyOfNothing(keys);
    } else {
      var init, last := xs[..|xs| - 1], xs[|xs| - 1];
      assert xs == init + [last];
      TallySum(keys, init);
      TallySumStep(keys, init, last);
    }
  }

  lemma {:induction false} TallyOfNothing<K(!new)>(keys: seq<K>)
    ensures Sum(Tally(keys, [])) == 0
  {
    if keys != [] {
      var ks := keys[..|keys| - 1];
      TallyOfNothing(ks);
      assert Tally(keys, [])[..|ks|] == Tally(ks, []);
    }
  }

  // ---------------------------------------------------------------------
  // Stable sort by count, descending

  /** Inserts `e` after every entry whose count is at least e's. */
  function InsertByCount<K>(e: Entry<K>, s: seq<Entry<K>>): (r: seq<Entry<K>>)
    ensures |r| == |s| + 1
  {
    if s == [] || s[|s| - 1].count >= e.count then s + [e]
    else InsertByCount(e, s[..|s| - 1]) + [s[|s| - 1]]
  }

  /** Stable insertion sort so that counts are non-increasing. */
  function SortByCount<K>(es: seq<Entry<K>>): (r: seq<Entry<K>>)
    ensures |r| == |es|
  {
    if es == [] then [] else InsertByCount(es[|es| - 1], SortByCount(es[..|es| - 1]))
  }

  /** Inserting adds the one entry and keeps all the others. */
  lemma {:induction false} InsertMultiset<K>(e: Entry<K>, s: seq<Entry<K>>)
    ensures multiset(InsertByCount(e, s)) == multiset(s) + multiset{e}
  {
    if !(s == [] || s[|s| - 1].count >= e.count) {
      var init, last := s[..|s| - 1], s[|s| - 1];
      assert s == init + [last];
      InsertMultiset(e, init);
    }
  }

  /** Sorting reorders the entries: each occurs as often as before. */
  lemma {:induction false} SortMultiset<K>(es: seq<Entry<K>>)
    ensures multiset(SortByCount(es)) == multiset(es)
  {
    if es != [] {
      var init, last := es[..|es| - 1], es[|es| - 1];
      assert es == init + [last];
      SortMultiset(init);
      InsertMultiset(last, SortByCount(init));
    }
  }

  lemma {:induction false} InsertMembers<K(!new)>(e: Entry<K>, s: seq<Entry<K>>)
    ensures forall y :: y in InsertByCount(e, s) <==> y == e || y in s
  {
    if !(s == [] || s[|s| - 1].count >= e.count) {
      var init, last := s[..|s| - 1], s[|s| - 1];
      assert s == init + [last];
      InsertMembers(e, init);
    }
  }

  lemma {:induction false} InsertSorted<K(!new)>(e: Entry<K>, s: seq<Entry<K>>)
    requires NonIncreasing(s)
    ensures NonIncreasing(InsertByCount(e, s))
  {
    var r := InsertByCount(e, s);
    if s == [] || s[|s| - 1].count >= e.count {
      assert r == s + [e];
    } else {
      var init, last := s[..|s| - 1], s[|s| - 1];
      assert s == init + [last];
      InsertSorted(e, init);
      InsertMembers(e, init);
      var r0 := InsertByCount(e, init);
      assert r == r0 + [last];
      forall i | 0 <= i < |r0| ensures r0[i].count >= last.count {
        assert r0[i] in r0;
        if r0[i] != e {
          var k :| 0 <= k < |init| && init[k] == r0[i];
          assert s[k] == init[k];
        }
      }
    }
  }

  lemma {:induction false} InsertSum<K>(e: Entry<K>, s: seq<Entry<K>>)
    ensures Sum(InsertByCount(e, s)) == Sum(s) + e.count
  {
    var r := InsertByCount(e, s);
    if s == [] || s[|s| - 1].count >= e.count {
      assert r[..|s|] == s;
    } else {
      var init, last := s[..|s| - 1], s[|s| - 1];
      InsertSum(e, init);
      var r0 := InsertByCount(e, init);
      assert r[..|r0|] == r0;
    }
  }

  lemma {:induction false} InsertDistinct<K(!new)>(e: Entry<K>, s: seq<Entry<K>>)
    requires DistinctKeys(s)
    requires forall y :: y in s ==> y.key != e.key
    ensures DistinctKeys(InsertByCount(e, s))
  {
    var r := InsertByCount(e, s);
    if s == [] || s[|s| - 1].count >= e.count {
      assert r == s + [e];
    } else {
      var init, last := s[..|s| - 1], s[|s| - 1];
      assert s == init + [last];
      InsertDistinct(e, init);
      InsertMembers(e, init);
      var r0 := InsertByCount(e, init);
      assert r == r0 + [last];
      forall i | 0 <= i < |r0| ensures r0[i].key != last.key {
        assert r0[i] in r0;
        if r0[i] != e {
          var k :| 0 <= k < |init| && init[k] == r0[i];
          assert s[k] == init[k];
        }
      }
    }
  }

  lemma {:induction false} SortMembers<K(!new)>(es: seq<Entry<K>>)
    ensures forall y :: y in SortByCount(es) <==> y in es
  {
    if es != [] {
      var init, last := es[..|es| - 1], es[|es| - 1];
      assert es == init + [last];
      SortMembers(init);
      InsertMembers(last, SortByCount(init));
    }
  }

  lemma {:induction false} SortSorted<K(!new)>(es: seq<Entry<K>>)
    ensures NonIncreasing(SortByCount(es))
  {
    if es != [] {
      SortSorted(es[..|es| - 1]);
      InsertSorted(es[|es| - 1], SortByCount(es[..|es| - 1]));
    }
  }

  lemma {:induction false} SortSum<K>(es: seq<Entry<K>>)
    ensures Sum(SortByCount(es)) == Sum(es)
  {
    if es != [] {
      SortSum(es[..|es| - 1]);
      InsertSum(es[|es| - 1], SortByCount(es[..|es| - 1]));
    }
  }

  lemma {:induction false} SortDistinct<K(!new)>(es: seq<Entry<K>>)
    requires DistinctKeys(es)
    ensures DistinctKeys(SortByCount(es))
  {
    if es != [] {
      var init, last := es[..|es| - 1], es[|es| - 1];
      assert es == init + [last];
      SortDistinct(init);
      SortMembers(init);
      forall y | y in SortByCount(init) ensures y.key != last.key {
        var k :| 0 <= k < |init| && init[k] == y;
        assert es[k] == init[k];
      }
      InsertDistinct(last, SortByCount(init));
    }
  }

  /** Two series holding the same entries have the same keys. */
  lemma SameKeys<K(!new)>(a: seq<Entry<K>>, b: seq<Entry<K>>)
    requires forall y :: y in a ==> y in b
    ensures forall k :: k in KeysOf(a) ==> k in KeysOf(b)
  {
    forall k | k in KeysOf(a) ensures k in KeysOf(b) {
      var i :| 0 <= i < |a| && KeysOf(a)[i] == k;
      assert a[i] in b;
      var j :| 0 <= j < |b| && b[j] == a[i];
      assert KeysOf(b)[j] == k;
    }
  }

  // ---------------------------------------------------------------------
  // value_counts, head, groupby-size

  /** Every entry of a tally of keys drawn from `xs` is exact. */
  lemma TallyFacts<K(!new)>(keys: seq<K>, xs: seq<K>)
    requires NoDups(keys)
    requires forall k :: k in keys ==> k in xs
    ensures DistinctKeys(Tally(keys, xs))
    ensures KeysOf(Tally(keys, xs)) == keys
    ensures forall y :: y in Tally(keys, xs) ==> 1 <= y.count == multiset(xs)[y.key]
  {
    var t := Tally(keys, xs);
    forall y | y in t ensures 1 <= y.count == multiset(xs)[y.key] {
      var i :| 0 <= i < |t| && t[i] == y;
      assert keys[i] in keys;
    }
  }

  /** `value_counts()`: every distinct value of `xs` once, with its number
      of occurrences, most frequent first. */
  function ValueCounts<K(==,!new)>(xs: seq<K>): (r: seq<Entry<K>>)
    ensures DistinctKeys(r)
    ensures NonIncreasing(r)
    ensures forall i :: 0 <= i < |r| ==> 1 <= r[i].count == multiset(xs)[r[i].key]
    ensures forall k :: k in KeysOf(r) <==> k in xs
    ensures |r| == |set k | k in xs|
    ensures Sum(r) == |xs|
  {
    var d := Distinct(xs);
    var t := Tally(d, xs);
    TallyFacts(d, xs);
    TallySum(d, xs);
    DistinctCard(xs);
    SortFacts(t);
    SortByCount(t)
  }

  /** What sorting keeps of a series: its entries, sum and distinctness. */
  lemma SortFacts<K(!new)>(t: seq<Entry<K>>)
    ensures NonIncreasing(SortByCount(t))
    ensures multiset(SortByCount(t)) == multiset(t)
    ensures Sum(SortByCount(t)) == Sum(t)
    ensures DistinctKeys(t) ==> DistinctKeys(SortByCount(t))
    ensures forall k :: k in KeysOf(SortByCount(t)) <==> k in KeysOf(t)
    ensures forall i :: 0 <= i < |t| ==> SortByCount(t)[i] in t
  {
    var r := SortByCount(t);
    SortMembers(t);
    SortSorted(t);
    SortMultiset(t);
    SortSum(t);
    if DistinctKeys(t) {
      SortDistinct(t);
    }
    SortKeys(t);
  }

  /** Sorting neither adds nor drops a key. */
  lemma SortKeys<K(!new)>(t: seq<Entry<K>>)
    ensures forall k :: k in KeysOf(SortByCount(t)) <==> k in KeysOf(t)
    ensures forall i :: 0 <= i < |t| ==> SortByCount(t)[i] in t
  {
    SortMembers(t);
    SameKeys(SortByCount(t), t);
    SameKeys(t, SortByCount(t));
  }

  /** `head(n)`: the first min(n, |es|) entries, unchanged and in order. */
  function Take<K>(es: seq<Entry<K>>, n: nat): (r: seq<Entry<K>>)
    ensures |r| == Min(n, |es|)
    ensures forall i :: 0 <= i < |r| ==> r[i] == es[i]
  {
    if n < |es| then es[..n] else es
  }

  /** `r` is a `value_counts().head(n)` of `xs`: at most n distinct values,
      counts exact and non-increasing, and every value left out occurs no
      more often than any value kept. */
  ghost predicate IsTopCounts<K(!new)>(r: seq<Entry<K>>, xs: seq<K>, n: nat)
  {
    && |r| == Min(n, |set k | k in xs|)
    && DistinctKeys(r)
    && NonIncreasing(r)
    && (forall i :: 0 <= i < |r| ==> 1 <= r[i].count == multiset(xs)[r[i].key])
    && (forall k :: k in xs && k !in KeysOf(r) ==>
          forall i :: 0 <= i < |r| ==> r[i].count >= multiset(xs)[k])
  }

  /** A prefix of `value_counts()` is a top-n table. */
  lemma TakeTop<K(!new)>(xs: seq<K>, n: nat)
    ensures IsTopCounts(Take(ValueCounts(xs), n), xs, n)
    ensures forall k :: k in KeysOf(Take(ValueCounts(xs), n)) ==> k in xs
  {
    var all := ValueCounts(xs);
    var r := Take(all, n);
    forall k | k in KeysOf(r) ensures k in xs {
      var i :| 0 <= i < |r| && KeysOf(r)[i] == k;
      assert KeysOf(all)[i] == k;
    }
    TakeDominates(all, xs, n);
  }

  /** A prefix of a non-increasing tally of `xs` counts every value left out
      of it no more often than any value it keeps. */
  lemma TakeDominates<K(!new)>(all: seq<Entry<K>>, xs: seq<K>, n: nat)
    requires NonIncreasing(all)
    requires forall i :: 0 <= i < |all| ==> all[i].count == multiset(xs)[all[i].key]
    requires forall k :: k in xs ==> k in KeysOf(all)
    ensures forall k :: k in xs && k !in KeysOf(Take(all, n)) ==>
      forall i :: 0 <= i < |Take(all, n)| ==> Take(all, n)[i].count >= multiset(xs)[k]
  {
    var r := Take(all, n);
    forall k | k in xs && k !in KeysOf(r)
      ensures forall i :: 0 <= i < |r| ==> r[i].count >= multiset(xs)[k]
    {
      var j :| 0 <= j < |all| && KeysOf(all)[j] == k;
      assert forall m :: 0 <= m < |r| ==> KeysOf(r)[m] == KeysOf(all)[m];
      assert |r| <= j;
      PrefixDominates(all, n, j);
    }
  }

  /** In a non-increasing series, every entry of the first n is at least
      any entry after them. */
  lemma PrefixDominates<K>(all: seq<Entry<K>>, n: nat, j: nat)
    requires NonIncreasing(all) && |Take(all, n)| <= j < |all|
    ensures forall i :: 0 <= i < |Take(all, n)| ==> Take(all, n)[i].count >= all[j].count
  {
  }

  /** `value_counts().head(n)`. */
  function MostCommon<K(==,!new)>(xs: seq<K>, n: nat): (r: seq<Entry<K>>)
    ensures IsTopCounts(r, xs, n)
    ensures forall k :: k in KeysOf(r) ==> k in xs
  {
    TakeTop(xs, n);
    Take(ValueCounts(xs), n)
  }

  /** Inserts a new value into a strictly increasing sequence. */
  function InsertAscending(x: int, s: seq<int>): (r: seq<int>)
  {
    if s == [] || s[|s| - 1] < x then s + [x]
    else InsertAscending(x, s[..|s| - 1]) + [s[|s| - 1]]
  }

  lemma {:induction false} InsertAscendingMembers(x: int, s: seq<int>)
    ensures forall y :: y in InsertAscending(x, s) <==> y == x || y in s
  {
    if !(s == [] || s[|s| - 1] < x) {
      var init, last := s[..|s| - 1], s[|s| - 1];
      assert s == init + [last];
      InsertAscendingMembers(x, init);
    }
  }

  lemma {:induction false} InsertAscendingSorted(x: int, s: seq<int>)
    requires StrictlyIncreasing(s)
    requires x !in s
    ensures StrictlyIncreasing(InsertAscending(x, s))
  {
    var r := InsertAscending(x, s);
    if s == [] || s[|s| - 1] < x {
      assert r == s + [x];
    } else {
      var init, last := s[..|s| - 1], s[|s| - 1];
      assert s == init + [last];
      InsertAscendingSorted(x, init);
      InsertAscendingMembers(x, init);
      var r0 := InsertAscending(x, init);
      assert r == r0 + [last];
      forall i | 0 <= i < |r0| ensures r0[i] < last {
        assert r0[i] in r0;
        if r0[i] != x {
          var k :| 0 <= k < |init| && init[k] == r0[i];
          assert s[k] == init[k];
        }
      }
    }
  }

  /** The distinct values of `xs`, ascending. */
  function SortedDistinct(xs: seq<int>): (r: seq<int>)
    ensures StrictlyIncreasing(r)
    ensures forall y :: y in r <==> y in xs
  {
    if xs == [] then []
    else
      var r0 := SortedDistinct(xs[..|xs| - 1]);
      var last := xs[|xs| - 1];
      assert xs == xs[..|xs| - 1] + [last];
      InsertAscendingMembers(last, r0);
      if last in r0 then r0
      else
        InsertAscendingSorted(last, r0);
        InsertAscending(last, r0)
  }

  /** `groupby(key).size()`: every distinct key once, ascending, with its
      number of occurrences. */
  function GroupSizes(xs: seq<int>): (r: seq<Entry<int>>)
    ensures KeysAscending(r)
    ensures forall i :: 0 <= i < |r| ==> 1 <= r[i].count == multiset(xs)[r[i].key]
    ensures forall k :: k in KeysOf(r) <==> k in xs
    ensures Sum(r) == |xs|
  {
    var keys := SortedDistinct(xs);
    TallyFacts(keys, xs);
    TallySum(keys, xs);
    var r := Tally(keys, xs);
    assert forall i :: 0 <= i < |r| ==> r[i] in r;
    r
  }
}
