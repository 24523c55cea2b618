/**
 Sorting as the library promises it: the result is a permutation of the input
 ordered by a comparator.  The comparator is given in its "less or equal" form
 `le(a, b) == !less(b, a)`, which is a total preorder whenever the strict
 comparator is a strict weak ordering.
 */
module Sorting {

  ghost predicate Total<T(!new)>(le: (T, T) -> bool) {
    forall a, b :: le(a, b) || le(b, a)
  }

  ghost predicate Transitive<T(!new)>(le: (T, T) -> bool) {
    forall a, b, c :: le(a, b) && le(b, c) ==> le(a, c)
  }

  ghost predicate TotalPreorder<T(!new)>(le: (T, T) -> bool) {
    Total(le) && Transitive(le)
  }

  /** Every earlier element is `le` every later one. */
  predicate SortedBy<T>(s: seq<T>, le: (T, T) -> bool) {
    forall i, j :: 0 <= i < j < |s| ==> le(s[i], s[j])
  }

  function IntLe(a: int, b: int): bool { a <= b }

  function IntGe(a: int, b: int): bool { a >= b }

  /** Non-decreasing order: what `sort` with the default `less` produces. */
  predicate Ascending(s: seq<int>) {
    forall i, j :: 0 <= i < j < |s| ==> s[i] <= s[j]
  }

  /** Non-increasing order: what `sort` with `greater` produces. */
  predicate Descending(s: seq<int>) {
    forall i, j :: 0 <= i < j < |s| ==> s[i] >= s[j]
  }

  /** Increasing order without repetitions: the iteration order of an ordered set. */
  predicate StrictlyAscending(s: seq<int>) {
    forall i, j :: 0 <= i < j < |s| ==> s[i] < s[j]
  }

  /** Neighbour-by-neighbour increase, checked one step at a time. */
  predicate Increasing(s: seq<int>) {
    |s| < 2 || (s[0] < s[1] && Increasing(s[1..]))
  }

  /** Neighbour-by-neighbour non-decrease, checked one step at a time. */
  predicate NonDecreasing(s: seq<int>) {
    |s| < 2 || (s[0] <= s[1] && NonDecreasing(s[1..]))
  }

  /** Increase between neighbours is increase between any two positions. */
  lemma {:induction false} IncreasingIsStrictlyAscending(s: seq<int>)
    requires Increasing(s)
    ensures StrictlyAscending(s)
  {
    if |s| >= 2 {
      IncreasingIsStrictlyAscending(s[1..]);
      forall i, j | 0 <= i < j < |s|
        ensures s[i] < s[j]
      {
        if i > 0 {
          assert s[i] == s[1..][i - 1] && s[j] == s[1..][j - 1];
        } else if j > 1 {
          assert s[1] == s[1..][0] && s[j] == s[1..][j - 1];
        }
      }
    }
  }

  /** Non-decrease between neighbours is non-decrease between any two positions. */
  lemma {:induction false} NonDecreasingIsAscending(s: seq<int>)
    requires NonDecreasing(s)
    ensures Ascending(s)
  {
    if |s| >= 2 {
      NonDecreasingIsAscending(s[1..]);
      forall i, j | 0 <= i < j < |s|
        ensures s[i] <= s[j]
      {
        if i > 0 {
          assert s[i] == s[1..][i - 1] && s[j] == s[1..][j - 1];
        } else if j > 1 {
          assert s[1] == s[1..][0] && s[j] == s[1..][j - 1];
        }
      }
    }
  }

  predicate NonIncreasing(s: seq<int>) {
    |s| < 2 || (s[0] >= s[1] && NonIncreasing(s[1..]))
  }

  /** Non-increase between neighbours is non-increase between any two positions. */
  lemma {:induction false} NonIncreasingIsDescending(s: seq<int>)
    requires NonIncreasing(s)
    ensures Descending(s)
  {
    if |s| >= 2 {
      NonIncreasingIsDescending(s[1..]);
      forall i, j | 0 <= i < j < |s|
        ensures s[i] >= s[j]
      {
        if i > 0 {
          assert s[i] == s[1..][i - 1] && s[j] == s[1..][j - 1];
        } else if j > 1 {
          assert s[1] == s[1..][0] && s[j] == s[1..][j - 1];
        }
      }
    }
  }

  /** The set of values a sequence holds. */
  function Elems<T>(s: seq<T>): set<T> {
    set x | x in s
  }

  lemma {:induction false} IntOrdersArePreorders()
    ensures TotalPreorder(IntLe) && TotalPreorder(IntGe)
  {
  }

  /** Insert `x` after every element that is not `le` it, keeping `s` sorted. */
  function InsertSorted<T(!new)>(x: T, s: seq<T>, le: (T, T) -> bool): (r: seq<T>)
    requires TotalPreorder(le)
    requires SortedBy(s, le)
    ensures SortedBy(r, le)
    ensures multiset(r) == multiset(s) + multiset{x}
  {
    if |s| == 0 then [x]
    else if le(x, s[0]) then [x] + s
    else
      var rest := InsertSorted(x, s[1..], le);
      assert s == [s[0]] + s[1..];
      assert forall k :: 0 <= k < |rest| ==> le(s[0], rest[k]) by {
        forall k | 0 <= k < |rest|
          ensures le(s[0], rest[k])
        {
          assert rest[k] in multiset(rest);
          if rest[k] != x {
            assert rest[k] in multiset(s[1..]);
            var j :| 0 <= j < |s[1..]| && s[1..][j] == rest[k];
            assert s[j + 1] == rest[k];
          }
        }
      }
      [s[0]] + rest
  }

  /** Insertion sort: a sorted permutation of `s` under `le`. */
  function Sort<T(!new)>(s: seq<T>, le: (T, T) -> bool): (r: seq<T>)
    requires TotalPreorder(le)
    ensures SortedBy(r, le)
    ensures multiset(r) == multiset(s)
    ensures |r| == |s|
  {
    if |s| == 0 then []
    else
      assert s == [s[0]] + s[1..];
      InsertSorted(s[0], Sort(s[1..], le), le)
  }

  /** `sort(v.begin(), v.end())` on integers. */
  function SortAscending(s: seq<int>): (r: seq<int>)
    ensures Ascending(r)
    ensures multiset(r) == multiset(s)
  {
    IntOrdersArePreorders();
    var r := Sort(s, IntLe);
    assert forall i, j :: 0 <= i < j < |r| ==> IntLe(r[i], r[j]);
    r
  }

  /** `sort(v.begin(), v.end(), greater<int>())` on integers. */
  function SortDescending(s: seq<int>): (r: seq<int>)
    ensures Descending(r)
    ensures multiset(r) == multiset(s)
  {
    IntOrdersArePreorders();
    var r := Sort(s, IntGe);
    assert forall i, j :: 0 <= i < j < |r| ==> IntGe(r[i], r[j]);
    r
  }

  lemma {:induction false} AscendingHeadIsMinimum(a: seq<int>, x: int)
    requires Ascending(a) && |a| > 0
    requires x in multiset(a)
    ensures a[0] <= x
  {
    var i :| 0 <= i < |a| && a[i] == x;
  }

  /**
   Two ascending sequences holding the same multiset of values are equal:
   a sorted permutation is unique, so every correct sort agrees.
   */
  lemma {:induction false} AscendingPermutationUnique(a: seq<int>, b: seq<int>)
    requires Ascending(a) && Ascending(b)
    requires multiset(a) == multiset(b)
    ensures a == b
    decreases |a|
  {
    if |a| == 0 {
      assert |b| == |multiset(b)| == 0;
    } else {
      assert |b| == |multiset(b)|;
      assert |b| > 0;
      assert a[0] in multiset(a);
      assert b[0] in multiset(b);
      AscendingHeadIsMinimum(a, b[0]);
      AscendingHeadIsMinimum(b, a[0]);
      var h := a[0];
      assert b[0] == h;
      var ta, tb := a[1..], b[1..];
      assert a == [h] + ta;
      assert b == [h] + tb;
      assert multiset(ta) == multiset(a) - multiset{h};
      assert multiset(tb) == multiset(b) - multiset{h};
      assert Ascending(ta) && Ascending(tb);
      AscendingPermutationUnique(ta, tb);
    }
  }

  /** A strictly ascending sequence holds no value twice, so it has as many distinct values as elements. */
  lemma {:induction false} StrictlyAscendingCardinality(s: seq<int>)
    requires StrictlyAscending(s)
    ensures |Elems(s)| == |s|
    ensures forall x :: x in s ==> multiset(s)[x] == 1
  {
    if |s| > 0 {
      assert s == [s[0]] + s[1..];
      StrictlyAscendingCardinality(s[1..]);
      assert s[0] !in s[1..];
      assert Elems(s) == {s[0]} + Elems(s[1..]);
    }
  }

  /**
   Two strictly ascending sequences holding the same values are equal: the
   iteration order of an ordered set depends only on its contents.
   */
  lemma {:induction false} StrictlyAscendingUnique(a: seq<int>, b: seq<int>)
    requires StrictlyAscending(a) && StrictlyAscending(b)
    requires Elems(a) == Elems(b)
    ensures a == b
  {
    StrictlyAscendingCardinality(a);
    StrictlyAscendingCardinality(b);
    forall x
      ensures multiset(a)[x] == multiset(b)[x]
    {
      assert x in a <==> x in Elems(a);
      assert x in b <==> x in Elems(b);
    }
    assert multiset(a) == multiset(b);
    AscendingPermutationUnique(a, b);
  }
}
