/**
 * Ordering of query results. SQL's ORDER BY leaves the order of ties to the
 * database; this model fixes one: a stable sort, so that rows with equal keys
 * keep the order in which they were stored.
 */
module Sorting {

  /** `le` is total and transitive: the shape of every ORDER BY key. */
  ghost predicate TotalPreorder<T(!new)>(le: (T, T) -> bool) {
    (forall a, b :: le(a, b) || le(b, a)) &&
    (forall a, b, c :: le(a, b) && le(b, c) ==> le(a, c))
  }

  /** Every element is `le` every later one. */
  predicate SortedBy<T>(s: seq<T>, le: (T, T) -> bool) {
    forall i, j :: 0 <= i < j < |s| ==> le(s[i], s[j])
  }

  /** Puts `x` in front of the first element it is `le` to. */
  function Insert<T>(x: T, s: seq<T>, le: (T, T) -> bool): (r: seq<T>)
    ensures |r| == |s| + 1
  {
    if s == [] || le(x, s[0]) then [x] + s else [s[0]] + Insert(x, s[1..], le)
  }

  /** Insertion sort: sorts the tail, then inserts the head in front of its equals (hence stable). */
  function SortBy<T>(s: seq<T>, le: (T, T) -> bool): (r: seq<T>)
    ensures |r| == |s|
  {
    if s == [] then [] else Insert(s[0], SortBy(s[1..], le), le)
  }

  lemma {:induction false} InsertPermutes<T>(x: T, s: seq<T>, le: (T, T) -> bool)
    ensures multiset(Insert(x, s, le)) == multiset{x} + multiset(s)
  {
    if s != [] && !le(x, s[0]) {
      InsertPermutes(x, s[1..], le);
      assert s == [s[0]] + s[1..];
    }
  }

  lemma {:induction false} InsertSorted<T(!new)>(x: T, s: seq<T>, le: (T, T) -> bool)
    requires TotalPreorder(le) && SortedBy(s, le)
    ensures SortedBy(Insert(x, s, le), le)
  {
    if s != [] && !le(x, s[0]) {
      InsertSorted(x, s[1..], le);
      InsertPermutes(x, s[1..], le);
      var r := Insert(x, s[1..], le);
      forall k | 0 <= k < |r|
        ensures le(s[0], r[k])
      {
        assert r[k] in multiset(r);
        if r[k] != x {
          assert r[k] in multiset(s[1..]);
          var m :| 0 <= m < |s[1..]| && s[1..][m] == r[k];
          assert s[m + 1] == r[k];
        }
      }
    }
  }

  /** The sorted rows are the same rows, in order. */
  lemma {:induction false} SortByCorrect<T(!new)>(s: seq<T>, le: (T, T) -> bool)
    requires TotalPreorder(le)
    ensures SortedBy(SortBy(s, le), le)
    ensures multiset(SortBy(s, le)) == multiset(s)
  {
    if s != [] {
      SortByCorrect(s[1..], le);
      InsertSorted(s[0], SortBy(s[1..], le), le);
      InsertPermutes(s[0], SortBy(s[1..], le), le);
      assert s == [s[0]] + s[1..];
    }
  }

  /** SQL's LIMIT on a sorted list: its first `limit` rows, all of them when there are fewer. */
  function Take<T>(s: seq<T>, limit: nat): (r: seq<T>)
    ensures |r| <= limit && |r| <= |s|
    ensures |s| <= limit ==> r == s
    ensures r == s[..|r|]
  {
    if |s| <= limit then s else s[..limit]
  }

  /**
   * The first `limit` rows of a sorted permutation are the best ones: every
   * row returned is `le` every row of the input that was cut off.
   */
  lemma TopRows<T(!new)>(s: seq<T>, le: (T, T) -> bool, limit: nat)
    requires TotalPreorder(le)
    ensures SortedBy(Take(SortBy(s, le), limit), le)
    ensures multiset(Take(SortBy(s, le), limit)) <= multiset(s)
    ensures |Take(SortBy(s, le), limit)| == if |s| <= limit then |s| else limit
    ensures forall i, j :: 0 <= i < |Take(SortBy(s, le), limit)| <= j < |s| ==>
              le(Take(SortBy(s, le), limit)[i], SortBy(s, le)[j])
  {
    var sorted := SortBy(s, le);
    SortByCorrect(s, le);
    var r := Take(sorted, limit);
    assert sorted == r + sorted[|r|..];
    assert multiset(sorted) == multiset(r) + multiset(sorted[|r|..]);
  }

  /** No row cut off by the limit comes strictly before a row that was kept. */
  lemma TopRowsBeatOmitted<T(!new)>(s: seq<T>, le: (T, T) -> bool, limit: nat)
    requires TotalPreorder(le)
    ensures forall h, o :: h in Take(SortBy(s, le), limit) && o in s && o !in Take(SortBy(s, le), limit) ==> le(h, o)
  {
    var sorted := SortBy(s, le);
    var r := Take(sorted, limit);
    SortByCorrect(s, le);
    forall h, o | h in r && o in s && o !in r
      ensures le(h, o)
    {
      assert o in multiset(sorted);
      var j :| 0 <= j < |sorted| && sorted[j] == o;
      var i :| 0 <= i < |r| && r[i] == h;
      if j < |r| {
        assert false;
      }
    }
  }
}
