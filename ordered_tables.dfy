/**
 * A frequency table put in order by LINQ's stable sort:
 * `s.GroupBy(x => x).Select(...).OrderBy(key)`. Because GroupBy hands its
 * rows over in first-occurrence order, rows with equal keys come out in the
 * order in which their symbols first occur in s.
 */
module OrderedTables {
  import opened Frequency
  import opened StableSort

  /** GroupBy, Select, then OrderBy(key): the table both programs print. */
  function OrderedTable<T(==)>(s: seq<T>, key: Entry<T> -> int): seq<Entry<T>>
  {
    SortBy(GroupCounts(s), key)
  }

  lemma {:induction false} SumCountsCons<T>(e: Entry<T>, t: seq<Entry<T>>)
    ensures SumCounts([e] + t) == e.1 + SumCounts(t)
  {
    if t != [] {
      var t' := t[..|t| - 1];
      assert ([e] + t)[..|t|] == [e] + t';
      SumCountsCons(e, t');
    }
  }

  lemma {:induction false} SumCountsInsert<T>(x: Entry<T>, r: seq<Entry<T>>, key: Entry<T> -> int)
    ensures SumCounts(Insert(x, r, key)) == x.1 + SumCounts(r)
  {
    if r == [] {
      SumCountsCons(x, r);
    } else if key(x) <= key(r[0]) {
      SumCountsCons(x, r);
    } else {
      SumCountsInsert(x, r[1..], key);
      SumCountsCons(r[0], Insert(x, r[1..], key));
      SumCountsCons(r[0], r[1..]);
      assert [r[0]] + r[1..] == r;
    }
  }

  /** Sorting keeps the total of the frequencies. */
  lemma {:induction false} SumCountsSortBy<T>(t: seq<Entry<T>>, key: Entry<T> -> int)
    ensures SumCounts(SortBy(t, key)) == SumCounts(t)
  {
    if t != [] {
      SumCountsSortBy(t[1..], key);
      SumCountsInsert(t[0], SortBy(t[1..], key), key);
      SumCountsCons(t[0], t[1..]);
      assert [t[0]] + t[1..] == t;
    }
  }

  /** A strictly ordered rearrangement of a frequency table is a frequency table. */
  lemma PermutedTable<T>(s: seq<T>, t: seq<Entry<T>>, r: seq<Entry<T>>, key: Entry<T> -> int, tie: Entry<T> -> int)
    requires IsFrequencyTable(s, t)
    requires multiset(r) == multiset(t)
    requires LexSorted(r, key, tie)
    ensures IsFrequencyTable(s, r)
  {
    assert forall e :: e in r <==> e in t by {
      assert forall e :: e in r <==> e in multiset(t);
    }
    forall i | 0 <= i < |r| ensures r[i].0 in s && r[i].1 == Occurrences(s, r[i].0) {
      assert r[i] in t;
    }
    forall x | x in s ensures exists i :: 0 <= i < |r| && r[i].0 == x {
      var k :| 0 <= k < |t| && t[k].0 == x;
      assert t[k] in r;
      var i :| 0 <= i < |r| && r[i] == t[k];
    }
    forall i, j | 0 <= i < j < |r| ensures r[i].0 != r[j].0 {
      if r[i].0 == r[j].0 {
        assert false;
      }
    }
  }

  /**
   * OrderedTable(s, key) is a frequency table of s whose counts sum to |s|,
   * sorted by key and, among equal keys, by first occurrence in s.
   */
  lemma OrderedTableIsTable<T>(s: seq<T>, key: Entry<T> -> int)
    ensures IsFrequencyTable(s, OrderedTable(s, key))
    ensures SumCounts(OrderedTable(s, key)) == |s|
    ensures LexSorted(OrderedTable(s, key), key, (e: Entry<T>) => IndexOf(s, e.0))
  {
    var t := GroupCounts(s);
    var tie := (e: Entry<T>) => IndexOf(s, e.0);
    GroupCountsIsTable(s);
    SortByStable(t, key, tie);
    SumCountsSortBy(t, key);
    PermutedTable(s, t, SortBy(t, key), key, tie);
  }
}
