/**
 * Frequency tables as LINQ builds them with `GroupBy(x => x)` followed by
 * `Select(g => (g.Key, g.Count()))`: one row per distinct symbol, the rows in
 * the order in which each symbol first occurs in the input.
 */
module Frequency {

  /** A table row: a symbol and its frequency. */
  type Entry<T> = (T, nat)

  /** How many times x occurs in s. */
  function Occurrences<T(==)>(s: seq<T>, x: T): nat
  {
    multiset(s)[x]
  }

  /** Position of the first occurrence of x in s, or |s| when x does not occur. */
  function IndexOf<T(==)>(s: seq<T>, x: T): (i: nat)
    ensures i <= |s|
    ensures i < |s| <==> x in s
    ensures i < |s| ==> s[i] == x && x !in s[..i]
  {
    if s == [] then 0
    else if s[0] == x then 0
    else
      var i' := IndexOf(s[1..], x);
      assert s[..1 + i'] == [s[0]] + s[1..][..i'];
      1 + i'
  }

  /** The distinct symbols of s, each once, in order of first occurrence: the keys of GroupBy. */
  function Distinct<T(==)>(s: seq<T>): seq<T>
  {
    if s == [] then []
    else
      var p, x := s[..|s| - 1], s[|s| - 1];
      var d := Distinct(p);
      if x in d then d else d + [x]
  }

  /** Distinct(s) holds exactly the symbols of s. */
  lemma {:induction false} DistinctMembers<T>(s: seq<T>)
    ensures forall i :: 0 <= i < |Distinct(s)| ==> Distinct(s)[i] in s
    ensures forall i :: 0 <= i < |s| ==> s[i] in Distinct(s)
  {
    if s != [] {
      var p, x := s[..|s| - 1], s[|s| - 1];
      assert s == p + [x];
      DistinctMembers(p);
      var d := Distinct(p);
      forall i | 0 <= i < |Distinct(s)| ensures Distinct(s)[i] in s {
        if i < |d| {
          assert d[i] in p;
        }
      }
      forall i | 0 <= i < |s| ensures s[i] in Distinct(s) {
        if i < |p| {
          assert s[i] == p[i];
        }
      }
    }
  }

  /** The row (symbol, count in m) for each symbol of d, in the order of d. */
  function Rows<T(==)>(d: seq<T>, m: multiset<T>): (t: seq<Entry<T>>)
    ensures |t| == |d|
    ensures forall i :: 0 <= i < |d| ==> t[i] == (d[i], m[d[i]])
  {
    if d == [] then [] else Rows(d[..|d| - 1], m) + [(d[|d| - 1], m[d[|d| - 1]])]
  }

  /** GroupBy(x => x).Select(g => (g.Key, g.Count())) over s. */
  function GroupCounts<T(==)>(s: seq<T>): seq<Entry<T>>
  {
    Rows(Distinct(s), multiset(s))
  }

  /** The sum of the frequencies of a table. */
  function SumCounts<T>(t: seq<Entry<T>>): nat
  {
    if t == [] then 0 else SumCounts(t[..|t| - 1]) + t[|t| - 1].1
  }

  /**
   * t is a frequency table of s: every row names a symbol of s with its exact
   * number of occurrences, every symbol of s has a row, and no symbol has two.
   */
  ghost predicate IsFrequencyTable<T>(s: seq<T>, t: seq<Entry<T>>)
  {
    && (forall i :: 0 <= i < |t| ==> t[i].0 in s && t[i].1 == Occurrences(s, t[i].0))
    && (forall x :: x in s ==> exists i :: 0 <= i < |t| && t[i].0 == x)
    && (forall i, j :: 0 <= i < j < |t| ==> t[i].0 != t[j].0)
  }

  /** The rows of t are strictly ordered by the first occurrence of their symbols in s. */
  ghost predicate InFirstSeenOrder<T>(s: seq<T>, t: seq<Entry<T>>)
  {
    forall i, j :: 0 <= i < j < |t| ==> IndexOf(s, t[i].0) < IndexOf(s, t[j].0)
  }

  lemma {:induction false} IndexOfSnoc<T>(p: seq<T>, x: T, y: T)
    requires y in p
    ensures IndexOf(p + [x], y) == IndexOf(p, y)
  {
    if p[0] != y {
      assert (p + [x])[1..] == p[1..] + [x];
      IndexOfSnoc(p[1..], x, y);
    }
  }

  /** GroupBy lists its keys in order of first occurrence. */
  lemma {:induction false} DistinctFirstSeenOrder<T>(s: seq<T>)
    ensures forall i, j :: 0 <= i < j < |Distinct(s)| ==> IndexOf(s, Distinct(s)[i]) < IndexOf(s, Distinct(s)[j])
  {
    if s != [] {
      var p, x := s[..|s| - 1], s[|s| - 1];
      assert s == p + [x];
      var d := Distinct(p);
      DistinctFirstSeenOrder(p);
      DistinctMembers(p);
      DistinctSnoc(p, x);
      forall y | y in p ensures IndexOf(s, y) == IndexOf(p, y) {
        IndexOfSnoc(p, x, y);
      }
      if x !in d {
        assert IndexOf(s, x) == |p| by {
          assert s[|p|] == x && x !in s[..|p|];
        }
      }
    }
  }

  lemma SumCountsSnoc<T>(t: seq<Entry<T>>, e: Entry<T>)
    ensures SumCounts(t + [e]) == SumCounts(t) + e.1
  {
    assert (t + [e])[..|t|] == t;
  }

  lemma {:induction false} RowsAddOne<T>(d: seq<T>, m: multiset<T>, x: T)
    requires forall i, j :: 0 <= i < j < |d| ==> d[i] != d[j]
    ensures SumCounts(Rows(d, m + multiset{x})) == SumCounts(Rows(d, m)) + (if x in d then 1 else 0)
  {
    if d != [] {
      var d', y := d[..|d| - 1], d[|d| - 1];
      var m' := m + multiset{x};
      assert d == d' + [y];
      RowsAddOne(d', m, x);
      SumCountsSnoc(Rows(d', m), (y, m[y]));
      SumCountsSnoc(Rows(d', m'), (y, m'[y]));
      assert x in d' ==> x != y by {
        if x in d' {
          var i :| 0 <= i < |d'| && d'[i] == x;
          assert d[i] == x;
        }
      }
    }
  }

  /** The frequencies of GroupCounts(s) add up to the length of s. */
  lemma {:induction false} GroupCountsSum<T>(s: seq<T>)
    ensures SumCounts(GroupCounts(s)) == |s|
  {
    if s != [] {
      var p, x := s[..|s| - 1], s[|s| - 1];
      assert s == p + [x];
      var d := Distinct(p);
      DistinctFirstSeenOrder(p);
      DistinctSnoc(p, x);
      GroupCountsSum(p);
      RowsAddOne(d, multiset(p), x);
      assert multiset(s) == multiset(p) + multiset{x};
      if x !in d {
        assert Rows(d + [x], multiset(s)) == Rows(d, multiset(s)) + [(x, multiset(s)[x])] by {
          assert (d + [x])[..|d|] == d;
        }
      }
    }
  }

  /** GroupCounts(s) is a frequency table of s, in first-occurrence order, whose counts sum to |s|. */
  lemma GroupCountsIsTable<T>(s: seq<T>)
    ensures IsFrequencyTable(s, GroupCounts(s))
    ensures InFirstSeenOrder(s, GroupCounts(s))
    ensures SumCounts(GroupCounts(s)) == |s|
  {
    var d := Distinct(s);
    DistinctMembers(s);
    DistinctFirstSeenOrder(s);
    GroupCountsSum(s);
    var t := GroupCounts(s);
    forall x | x in s ensures exists i :: 0 <= i < |t| && t[i].0 == x {
      var i :| 0 <= i < |d| && d[i] == x;
      assert t[i].0 == x;
    }
  }

  lemma DistinctSnoc<T>(p: seq<T>, x: T)
    ensures x in Distinct(p) <==> x in p
    ensures Distinct(p + [x]) == if x in p then Distinct(p) else Distinct(p) + [x]
  {
    assert (p + [x])[..|p|] == p;
    DistinctMembers(p);
    if x in Distinct(p) {
      var i :| 0 <= i < |Distinct(p)| && Distinct(p)[i] == x;
    }
    if x in p {
      var i :| 0 <= i < |p| && p[i] == x;
    }
  }

  /** keys and counts are what the GroupBy pass holds after reading p. */
  ghost predicate Counted<T>(p: seq<T>, keys: seq<T>, counts: map<T, nat>)
  {
    && keys == Distinct(p)
    && (forall x :: x in counts ==> x in p)
    && (forall i :: 0 <= i < |p| ==> p[i] in counts)
    && (forall x :: x in counts ==> counts[x] == multiset(p)[x])
  }

  /** Reading one more symbol x: a new key is appended with count 1, a known key's count goes up by one. */
  lemma CountStep<T>(p: seq<T>, x: T, keys: seq<T>, counts: map<T, nat>)
    requires Counted(p, keys, counts)
    ensures x in counts ==> Counted(p + [x], keys, counts[x := counts[x] + 1])
    ensures x !in counts ==> Counted(p + [x], keys + [x], counts[x := 1])
  {
    DistinctSnoc(p, x);
    if x in counts {
      CountStepWith(p, x, counts, keys, counts[x := counts[x] + 1]);
    } else {
      CountStepWith(p, x, counts, keys + [x], counts[x := 1]);
    }
  }

  lemma CountStepWith<T>(p: seq<T>, x: T, counts: map<T, nat>, keys': seq<T>, c: map<T, nat>)
    requires forall y :: y in counts ==> y in p
    requires forall i :: 0 <= i < |p| ==> p[i] in counts
    requires forall y :: y in counts ==> counts[y] == multiset(p)[y]
    requires keys' == Distinct(p + [x])
    requires c.Keys == counts.Keys + {x}
    requires c[x] == multiset(p)[x] + 1
    requires forall y :: y in counts && y != x ==> c[y] == counts[y]
    ensures Counted(p + [x], keys', c)
  {
    var q := p + [x];
    var m := multiset(q);
    assert m == multiset(p) + multiset{x};
    assert x in q by {
      assert q[|p|] == x;
    }
    forall i | 0 <= i < |q| ensures q[i] in c {
      if i < |p| {
        assert q[i] == p[i];
      }
    }
    forall y | y in c ensures y in q && c[y] == m[y] {
      if y != x {
        var i :| 0 <= i < |p| && p[i] == y;
        assert q[i] == y;
        assert m[y] == multiset(p)[y];
      }
    }
  }

  /**
   * The single pass GroupBy makes over its input: a dictionary of counts and
   * the list of keys in first-occurrence order.
   */
  method CountGroups<T(==)>(s: seq<T>) returns (keys: seq<T>, counts: map<T, nat>)
    ensures keys == Distinct(s)
    ensures forall x :: x in counts <==> x in s
    ensures forall x :: x in counts ==> counts[x] == Occurrences(s, x)
    ensures forall i :: 0 <= i < |keys| ==> keys[i] in counts
    ensures |GroupCounts(s)| == |keys|
    ensures forall i :: 0 <= i < |keys| ==> GroupCounts(s)[i] == (keys[i], counts[keys[i]])
  {
    keys, counts := [], map[];
    for i := 0 to |s|
      invariant Counted(s[..i], keys, counts)
    {
      var x := s[i];
      assert s[..i + 1] == s[..i] + [x];
      CountStep(s[..i], x, keys, counts);
      if x in counts {
        counts := counts[x := counts[x] + 1];
      } else {
        keys := keys + [x];
        counts := counts[x := 1];
      }
    }
    assert s[..|s|] == s;
    DistinctMembers(s);
  }
}
