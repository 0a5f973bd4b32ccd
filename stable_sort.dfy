/**
 * The stable sort behind LINQ's `OrderBy(key)`: elements with equal keys keep
 * their relative input order. `OrderByDescending(key)` is `OrderBy` on the
 * negated key.
 */
module StableSort {

  /** Puts x in front of the first element of r whose key is not smaller than x's. */
  function Insert<E>(x: E, r: seq<E>, key: E -> int): (q: seq<E>)
    ensures multiset(q) == multiset(r) + multiset{x}
  {
    if r == [] then [x]
    else if key(x) <= key(r[0]) then [x] + r
    else
      assert r == [r[0]] + r[1..];
      [r[0]] + Insert(x, r[1..], key)
  }

  /** Insertion sort by key; each element goes in front of the later elements with the same key. */
  function SortBy<E>(t: seq<E>, key: E -> int): (r: seq<E>)
    ensures multiset(r) == multiset(t)
  {
    if t == [] then []
    else
      assert t == [t[0]] + t[1..];
      Insert(t[0], SortBy(t[1..], key), key)
  }

  /** r is sorted by key, and by tie among elements with equal keys, strictly. */
  ghost predicate LexSorted<E>(r: seq<E>, key: E -> int, tie: E -> int)
  {
    forall i, j :: 0 <= i < j < |r| ==>
      key(r[i]) < key(r[j]) || (key(r[i]) == key(r[j]) && tie(r[i]) < tie(r[j]))
  }

  lemma {:induction false} InsertLexSorted<E>(x: E, r: seq<E>, key: E -> int, tie: E -> int)
    requires LexSorted(r, key, tie)
    requires forall e :: e in r ==> tie(x) < tie(e)
    ensures LexSorted(Insert(x, r, key), key, tie)
  {
    if r == [] {
    } else if key(x) <= key(r[0]) {
      PrependLexSorted(x, r, key, tie);
    } else {
      var rest := Insert(x, r[1..], key);
      assert LexSorted(r[1..], key, tie) by {
        forall i, j | 0 <= i < j < |r[1..]|
          ensures key(r[1..][i]) < key(r[1..][j]) || (key(r[1..][i]) == key(r[1..][j]) && tie(r[1..][i]) < tie(r[1..][j]))
        {
          assert r[1..][i] == r[i + 1] && r[1..][j] == r[j + 1];
        }
      }
      InsertLexSorted(x, r[1..], key, tie);
      forall e | e in rest ensures key(r[0]) < key(e) || (key(r[0]) == key(e) && tie(r[0]) < tie(e)) {
        assert e in multiset(r[1..]) + multiset{x};
        if e != x {
          assert e in r[1..];
          var k :| 0 <= k < |r[1..]| && r[1..][k] == e;
          assert r[k + 1] == e;
        }
      }
      PrependLexSorted(r[0], rest, key, tie);
    }
  }

  /** x may go in front of a sorted r whose every element comes after x. */
  lemma PrependLexSorted<E>(x: E, r: seq<E>, key: E -> int, tie: E -> int)
    requires LexSorted(r, key, tie)
    requires forall e :: e in r ==> key(x) < key(e) || (key(x) == key(e) && tie(x) < tie(e))
    ensures LexSorted([x] + r, key, tie)
  {
    var q := [x] + r;
    forall i, j | 0 <= i < j < |q|
      ensures key(q[i]) < key(q[j]) || (key(q[i]) == key(q[j]) && tie(q[i]) < tie(q[j]))
    {
      if i == 0 {
        assert q[j] == r[j - 1] && q[j] in r;
      } else {
        assert q[i] == r[i - 1] && q[j] == r[j - 1];
      }
    }
  }

  /**
   * Stability: when the input is strictly increasing in tie, the output is
   * sorted by key and, among equal keys, still increasing in tie.
   */
  lemma {:induction false} SortByStable<E>(t: seq<E>, key: E -> int, tie: E -> int)
    requires forall i, j :: 0 <= i < j < |t| ==> tie(t[i]) < tie(t[j])
    ensures LexSorted(SortBy(t, key), key, tie)
  {
    if t != [] {
      var rest := SortBy(t[1..], key);
      SortByStable(t[1..], key, tie);
      forall e | e in rest ensures tie(t[0]) < tie(e) {
        assert e in multiset(t[1..]);
        var j :| 0 <= j < |t[1..]| && t[1..][j] == e;
        assert t[j + 1] == e;
      }
      InsertLexSorted(t[0], rest, key, tie);
    }
  }
}
