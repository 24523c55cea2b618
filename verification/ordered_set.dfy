/**
 `std::set<int>` and `std::multiset<int>`, modelled by their iteration
 order.  A set is a strictly ascending sequence and a multiset an ascending
 one, so "the container is always sorted" holds by representation.  Each
 operation is stated against the mathematical set or bag it stands for.
 */
module OrderedSet {
  import opened Wrappers
  import opened Sorting
  import opened SortedSearch
  import ListOps
  import Algorithms

  /** Every element of `s` lies strictly above `h`. */
  predicate Above(h: int, s: seq<int>) {
    forall x :: x in s ==> h < x
  }

  /** The values of `s` strictly below `v`. */
  function Below(s: seq<int>, v: int): set<int> {
    set x | x in s && x < v
  }

  /** Taking a strictly ascending sequence apart at its head. */
  lemma {:induction false} Uncons(s: seq<int>)
    requires StrictlyAscending(s) && |s| > 0
    ensures StrictlyAscending(s[1..])
    ensures Above(s[0], s[1..])
    ensures s[0] !in s[1..]
    ensures Elems(s) == {s[0]} + Elems(s[1..])
    ensures forall x :: x in s ==> s[0] <= x
  {
    assert s == [s[0]] + s[1..];
    forall x | x in s[1..]
      ensures s[0] < x
    {
      var j :| 0 <= j < |s[1..]| && s[1..][j] == x;
      assert s[j + 1] == x;
    }
  }

  /** Putting a strictly ascending sequence together from a head below all of its tail. */
  lemma {:induction false} Cons(h: int, s: seq<int>)
    requires StrictlyAscending(s) && Above(h, s)
    ensures StrictlyAscending([h] + s)
    ensures Elems([h] + s) == {h} + Elems(s)
  {
    var r := [h] + s;
    forall i, j | 0 <= i < j < |r|
      ensures r[i] < r[j]
    {
      if i > 0 {
        assert r[i] == s[i - 1] && r[j] == s[j - 1];
      } else {
        assert r[j] == s[j - 1];
        assert r[j] in s;
      }
    }
  }

  /** A value below the head of a strictly ascending sequence is below all of it. */
  lemma {:induction false} AboveHead(h: int, s: seq<int>)
    requires StrictlyAscending(s) && |s| > 0 && h < s[0]
    ensures Above(h, s)
  {
    Uncons(s);
  }

  /** A merge result drawn from two sequences above `h` is itself above `h`. */
  lemma {:induction false} AboveMerge(h: int, r: seq<int>, a: seq<int>, b: seq<int>)
    requires Elems(r) <= Elems(a) + Elems(b)
    requires Above(h, a) && Above(h, b)
    ensures Above(h, r)
  {
    forall x | x in r
      ensures h < x
    {
      assert x in Elems(r);
    }
  }

  /** Dropping index `i` shifts the later elements down by one and removes one copy of `s[i]`. */
  lemma {:induction false} DropAt(s: seq<int>, i: nat)
    requires i < |s|
    ensures |s[..i] + s[i + 1..]| == |s| - 1
    ensures forall j :: 0 <= j < |s| - 1 ==> (s[..i] + s[i + 1..])[j] == if j < i then s[j] else s[j + 1]
    ensures multiset(s[..i] + s[i + 1..]) == multiset(s) - multiset{s[i]}
  {
    assert s == s[..i] + [s[i]] + s[i + 1..];
  }

  /** Dropping an index keeps an ascending sequence ascending and a strictly ascending one strictly so. */
  lemma {:induction false} DropAtOrdered(s: seq<int>, i: nat)
    requires i < |s|
    ensures Ascending(s) ==> Ascending(s[..i] + s[i + 1..])
    ensures StrictlyAscending(s) ==> StrictlyAscending(s[..i] + s[i + 1..])
  {
    DropAt(s, i);
    var t := s[..i] + s[i + 1..];
    forall a, b | 0 <= a < b < |t|
      ensures Ascending(s) ==> t[a] <= t[b]
      ensures StrictlyAscending(s) ==> t[a] < t[b]
    {
      var a', b' := if a < i then a else a + 1, if b < i then b else b + 1;
      assert t[a] == s[a'] && t[b] == s[b'] && a' < b';
    }
  }

  /** Cutting the slice `s[i..j]` out of an ascending sequence keeps it ascending and removes that slice's values. */
  lemma {:induction false} CutOut(s: seq<int>, i: nat, j: nat)
    requires Ascending(s) && i <= j <= |s|
    ensures Ascending(s[..i] + s[j..])
    ensures multiset(s[..i] + s[j..]) == multiset(s) - multiset(s[i..j])
  {
    var t := s[..i] + s[j..];
    assert s == s[..i] + s[i..j] + s[j..];
    forall a, b | 0 <= a < b < |t|
      ensures t[a] <= t[b]
    {
      var a', b' := if a < i then a else a - i + j, if b < i then b else b - i + j;
      assert t[a] == s[a'] && t[b] == s[b'] && a' < b';
    }
  }

  /** Erasing one position of a strictly ascending sequence removes exactly that value. */
  lemma {:induction false} EraseIndex(s: seq<int>, i: nat)
    requires StrictlyAscending(s) && i < |s|
    ensures StrictlyAscending(s[..i] + s[i + 1..])
    ensures Elems(s[..i] + s[i + 1..]) == Elems(s) - {s[i]}
    ensures |s[..i] + s[i + 1..]| == |s| - 1
  {
    DropAtOrdered(s, i);
    DropAtElems(s, i);
  }

  /** In a strictly ascending sequence the value at `i` occurs nowhere else. */
  lemma {:induction false} DropAtElems(s: seq<int>, i: nat)
    requires StrictlyAscending(s) && i < |s|
    ensures Elems(s[..i] + s[i + 1..]) == Elems(s) - {s[i]}
  {
    var t := s[..i] + s[i + 1..];
    DropAt(s, i);
    forall x | x in t ensures x in s && x != s[i] {
      var j :| 0 <= j < |t| && t[j] == x;
      var j' := if j < i then j else j + 1;
      assert s[j'] == x;
    }
    forall x | x in s && x != s[i] ensures x in t {
      var j :| 0 <= j < |s| && s[j] == x;
      assert t[if j < i then j else j - 1] == x;
    }
  }

  // ---------------------------------------------------------------- set

  /** `insert(v)`: adds `v`; the flag reports whether it was absent, and a present value leaves the set as it was. */
  function Insert(s: seq<int>, v: int): (r: (seq<int>, bool))
    requires StrictlyAscending(s)
    ensures StrictlyAscending(r.0)
    ensures Elems(r.0) == Elems(s) + {v}
    ensures r.1 <==> v !in s
    ensures !r.1 ==> r.0 == s
    ensures r.1 ==> |r.0| == |s| + 1
  {
    var i := LowerBoundIndex(s, v);
    LowerBoundFinds(s, v);
    if i < |s| && s[i] == v then (s, false)
    else
      InsertIndex(s, i, v);
      (s[..i] + [v] + s[i..], true)
  }

  /** Placing `v` between the values below it and the values above it keeps the sequence strictly ascending. */
  lemma {:induction false} InsertIndex(s: seq<int>, i: nat, v: int)
    requires StrictlyAscending(s) && i <= |s|
    requires forall j :: 0 <= j < i ==> s[j] < v
    requires forall j :: i <= j < |s| ==> s[j] > v
    ensures StrictlyAscending(s[..i] + [v] + s[i..])
    ensures Elems(s[..i] + [v] + s[i..]) == Elems(s) + {v}
    ensures |s[..i] + [v] + s[i..]| == |s| + 1
  {
    var t := s[..i] + [v] + s[i..];
    forall p, q | 0 <= p < q < |t| ensures t[p] < t[q] {
      if q < i {
        assert t[p] == s[p] && t[q] == s[q];
      } else if q == i {
        assert t[p] == s[p];
      } else if p < i {
        assert t[p] == s[p] && t[q] == s[q - 1];
      } else if p == i {
        assert t[q] == s[q - 1];
      } else {
        assert t[p] == s[p - 1] && t[q] == s[q - 1];
      }
    }
    assert s == s[..i] + s[i..];
    assert Elems(t) == Elems(s[..i]) + {v} + Elems(s[i..]);
  }

  /** The set built by inserting the elements of `xs` one after another (the range constructor). */
  function FromList(xs: seq<int>): (r: seq<int>)
    ensures StrictlyAscending(r)
    ensures Elems(r) == Elems(xs)
  {
    if |xs| == 0 then []
    else
      assert xs == xs[..|xs| - 1] + [xs[|xs| - 1]];
      Insert(FromList(xs[..|xs| - 1]), xs[|xs| - 1]).0
  }

  /** The iteration order of a set depends only on which values went in, not on their order or repetition. */
  lemma {:induction false} FromListDependsOnlyOnValues(xs: seq<int>, ys: seq<int>)
    requires Elems(xs) == Elems(ys)
    ensures FromList(xs) == FromList(ys)
  {
    StrictlyAscendingUnique(FromList(xs), FromList(ys));
  }

  /** `set<int> s2 = {5, 2, 8, 1, 9}` iterates as 1 2 5 8 9. */
  lemma {:induction false} DemoInitializerList(xs: seq<int>)
    requires xs == [5, 2, 8, 1, 9]
    ensures FromList(xs) == [1, 2, 5, 8, 9]
  {
    assert Elems(xs) == {1, 2, 5, 8, 9};
    assert Elems([1, 2, 5, 8, 9]) == {1, 2, 5, 8, 9};
    IncreasingIsStrictlyAscending([1, 2, 5, 8, 9]);
    StrictlyAscendingUnique(FromList(xs), [1, 2, 5, 8, 9]);
  }

  /** Inserting 10 into an empty set succeeds; inserting it again fails and changes nothing. */
  lemma {:induction false} DemoInsertTwice()
    ensures Insert([], 10) == ([10], true)
    ensures Insert([10], 10) == ([10], false)
  {
    var r := Insert([], 10).0;
    assert r[0] in Elems(r);
    assert r == [r[0]];
  }

  /** `count(v)`: 1 when `v` is present and 0 otherwise. */
  function Count(s: seq<int>, v: int): (n: nat)
    requires StrictlyAscending(s)
    ensures n <= 1
    ensures n == 1 <==> v in s
  {
    var i := LowerBoundIndex(s, v);
    LowerBoundFinds(s, v);
    if i < |s| && s[i] == v then 1 else 0
  }

  /** `find(v)`: the position of `v`, or `None` for `end()`. */
  function Find(s: seq<int>, v: int): (r: Option<nat>)
    requires StrictlyAscending(s)
    ensures r.Some? <==> v in s
    ensures r.Some? ==> r.value < |s| && s[r.value] == v
  {
    var i := LowerBoundIndex(s, v);
    LowerBoundFinds(s, v);
    if i < |s| && s[i] == v then Some(i) else None
  }

  /** `erase(v)`: removes `v` and only `v`, returning how many elements went (0 or 1). */
  function Erase(s: seq<int>, v: int): (r: (seq<int>, nat))
    requires StrictlyAscending(s)
    ensures StrictlyAscending(r.0)
    ensures Elems(r.0) == Elems(s) - {v}
    ensures r.1 == 1 <==> v in s
    ensures r.1 <= 1 && |r.0| == |s| - r.1
  {
    var i := LowerBoundIndex(s, v);
    LowerBoundFinds(s, v);
    if i < |s| && s[i] == v then
      EraseIndex(s, i);
      (s[..i] + s[i + 1..], 1)
    else (s, 0)
  }

  /** Inserting a fresh value and erasing it again restores the set. */
  lemma {:induction false} InsertEraseRoundTrip(s: seq<int>, v: int)
    requires StrictlyAscending(s) && v !in s
    ensures Erase(Insert(s, v).0, v) == (s, 1)
  {
    StrictlyAscendingUnique(Erase(Insert(s, v).0, v).0, s);
  }

  /** `lower_bound(v)`: the least element not below `v`, or `None` for `end()`. */
  function LowerBound(s: seq<int>, v: int): (r: Option<int>)
    requires StrictlyAscending(s)
    ensures r.Some? ==> r.value in s && r.value >= v
    ensures r.Some? ==> forall x :: x in s && x >= v ==> r.value <= x
    ensures r.None? <==> forall x :: x in s ==> x < v
  {
    var i := LowerBoundIndex(s, v);
    if i < |s| then Some(s[i]) else None
  }

  /** `upper_bound(v)`: the least element above `v`, or `None` for `end()`. */
  function UpperBound(s: seq<int>, v: int): (r: Option<int>)
    requires StrictlyAscending(s)
    ensures r.Some? ==> r.value in s && r.value > v
    ensures r.Some? ==> forall x :: x in s && x > v ==> r.value <= x
    ensures r.None? <==> forall x :: x in s ==> x <= v
  {
    var i := UpperBoundIndex(s, v);
    if i < |s| then Some(s[i]) else None
  }

  /** `equal_range(v)`: the elements between the two bounds, which in a set are `v` alone or nothing. */
  function EqualRange(s: seq<int>, v: int): (r: seq<int>)
    requires StrictlyAscending(s)
    ensures r == if v in s then [v] else []
  {
    var lb, ub := LowerBoundIndex(s, v), UpperBoundIndex(s, v);
    EqualRangeIsCopies(s, v);
    StrictlyAscendingCardinality(s);
    if v in s then
      assert multiset(s)[v] == 1;
      assert s[lb..ub] == [v];
      s[lb..ub]
    else
      s[lb..ub]
  }

  /** Iterating from `lower_bound(lo)` up to `upper_bound(hi)`: exactly the elements in `[lo, hi]`, in order. */
  function RangeQuery(s: seq<int>, lo: int, hi: int): (r: seq<int>)
    requires StrictlyAscending(s)
    requires lo <= hi
    ensures StrictlyAscending(r)
    ensures Elems(r) == set x | x in s && lo <= x <= hi
  {
    var i, j := LowerBoundIndex(s, lo), UpperBoundIndex(s, hi);
    assert i <= j by {
      if j < |s| {
        assert s[j] > hi;
      }
    }
    var r := s[i..j];
    assert forall x :: x in r <==> x in s && lo <= x <= hi by {
      forall x | x in s && lo <= x <= hi
        ensures x in r
      {
        var k :| 0 <= k < |s| && s[k] == x;
        assert r[k - i] == x;
      }
    }
    r
  }

  /** `nums = {1, 3, ..., 15}`: lower_bound(6) is 7, upper_bound(7) is 9 and equal_range(7) is {7}. */
  lemma {:induction false} DemoBounds(nums: seq<int>)
    requires nums == [1, 3, 5, 7, 9, 11, 13, 15]
    ensures StrictlyAscending(nums)
    ensures LowerBound(nums, 6) == Some(7)
    ensures UpperBound(nums, 7) == Some(9)
    ensures EqualRange(nums, 7) == [7]
  {
    IncreasingIsStrictlyAscending([1, 3, 5, 7, 9, 11, 13, 15]);
    assert nums[3] == 7 && nums[4] == 9;
  }

  /** In the set `{1, 3, ..., 15}`, iterating from lower_bound(5) to upper_bound(11) prints 5 7 9 11. */
  lemma {:induction false} DemoRangeQuery(nums: seq<int>)
    requires StrictlyAscending(nums) && Elems(nums) == {1, 3, 5, 7, 9, 11, 13, 15}
    ensures RangeQuery(nums, 5, 11) == [5, 7, 9, 11]
  {
    LiteralSet([5, 7, 9, 11], {5, 7, 9, 11});
    var r := RangeQuery(nums, 5, 11);
    assert Elems(r) == {5, 7, 9, 11} by {
      forall x
        ensures x in nums <==> x in {1, 3, 5, 7, 9, 11, 13, 15}
      {
        assert x in nums <==> x in Elems(nums);
      }
    }
    StrictlyAscendingUnique(r, [5, 7, 9, 11]);
  }

  /** Iterating `s` from `rbegin()` to `rend()`, which is also the order of a `set<int, greater<int>>`. */
  function Descending(s: seq<int>): (r: seq<int>)
    requires StrictlyAscending(s)
    ensures forall i, j :: 0 <= i < j < |r| ==> r[i] > r[j]
    ensures Elems(r) == Elems(s)
  {
    var r := ListOps.Reverse(s);
    assert forall x :: x in r <==> x in s by {
      forall x | x in s
        ensures x in r
      {
        var k :| 0 <= k < |s| && s[k] == x;
        assert r[|s| - 1 - k] == x;
      }
    }
    r
  }

  /** `set<int, greater<int>> descSet = {5, 2, 8, 1, 9}` iterates as 9 8 5 2 1. */
  lemma {:induction false} DemoDescending(s: seq<int>)
    requires StrictlyAscending(s) && Elems(s) == {5, 2, 8, 1, 9}
    ensures Descending(s) == [9, 8, 5, 2, 1]
  {
    IncreasingIsStrictlyAscending([1, 2, 5, 8, 9]);
    assert Elems([1, 2, 5, 8, 9]) == {5, 2, 8, 1, 9};
    StrictlyAscendingUnique(s, [1, 2, 5, 8, 9]);
    assert ListOps.Reverse([1, 2, 5, 8, 9]) == [9, 8, 5, 2, 1];
  }

  // ------------------------------------------------------- set algebra

  /** `set_union`: one merge pass over both sets. */
  function Union(a: seq<int>, b: seq<int>): (r: seq<int>)
    requires StrictlyAscending(a) && StrictlyAscending(b)
    ensures StrictlyAscending(r)
    ensures Elems(r) == Elems(a) + Elems(b)
    decreases |a| + |b|
  {
    if |a| == 0 then b
    else if |b| == 0 then a
    else
      Uncons(a);
      Uncons(b);
      if a[0] < b[0] then
        var rest := Union(a[1..], b);
        AboveHead(a[0], b);
        UnionCons(a[0], rest, a[1..], b, a, b);
        [a[0]] + rest
      else if b[0] < a[0] then
        var rest := Union(a, b[1..]);
        AboveHead(b[0], a);
        UnionCons(b[0], rest, a, b[1..], a, b);
        [b[0]] + rest
      else
        var rest := Union(a[1..], b[1..]);
        UnionCons(a[0], rest, a[1..], b[1..], a, b);
        [a[0]] + rest
  }

  /** One step of `set_union`: the smallest head goes in front of the union of what is left. */
  lemma {:induction false} UnionCons(h: int, rest: seq<int>, a': seq<int>, b': seq<int>, a: seq<int>, b: seq<int>)
    requires StrictlyAscending(rest) && Elems(rest) == Elems(a') + Elems(b')
    requires Above(h, a') && Above(h, b')
    requires Elems(a) + Elems(b) == {h} + Elems(a') + Elems(b')
    ensures StrictlyAscending([h] + rest)
    ensures Elems([h] + rest) == Elems(a) + Elems(b)
  {
    AboveMerge(h, rest, a', b');
    Cons(h, rest);
  }

  /** `set_intersection`: the values present in both sets. */
  function Intersection(a: seq<int>, b: seq<int>): (r: seq<int>)
    requires StrictlyAscending(a) && StrictlyAscending(b)
    ensures StrictlyAscending(r)
    ensures Elems(r) == Elems(a) * Elems(b)
    decreases |a| + |b|
  {
    if |a| == 0 || |b| == 0 then []
    else
      Uncons(a);
      Uncons(b);
      if a[0] < b[0] then
        Intersection(a[1..], b)
      else if b[0] < a[0] then
        Intersection(a, b[1..])
      else
        var rest := Intersection(a[1..], b[1..]);
        AboveMerge(a[0], rest, a[1..], b[1..]);
        Cons(a[0], rest);
        [a[0]] + rest
  }

  /** `set_difference`: the values of `a` absent from `b`. */
  function Difference(a: seq<int>, b: seq<int>): (r: seq<int>)
    requires StrictlyAscending(a) && StrictlyAscending(b)
    ensures StrictlyAscending(r)
    ensures Elems(r) == Elems(a) - Elems(b)
    decreases |a| + |b|
  {
    if |a| == 0 then []
    else if |b| == 0 then a
    else
      Uncons(a);
      Uncons(b);
      if a[0] < b[0] then
        var rest := Difference(a[1..], b);
        AboveMerge(a[0], rest, a[1..], b);
        Cons(a[0], rest);
        [a[0]] + rest
      else if b[0] < a[0] then
        Difference(a, b[1..])
      else
        Difference(a[1..], b[1..])
  }

  /** `set_symmetric_difference`: the values in exactly one of the two sets. */
  function SymmetricDifference(a: seq<int>, b: seq<int>): (r: seq<int>)
    requires StrictlyAscending(a) && StrictlyAscending(b)
    ensures StrictlyAscending(r)
    ensures Elems(r) == (Elems(a) - Elems(b)) + (Elems(b) - Elems(a))
    decreases |a| + |b|
  {
    if |a| == 0 then b
    else if |b| == 0 then a
    else
      Uncons(a);
      Uncons(b);
      if a[0] < b[0] then
        var rest := SymmetricDifference(a[1..], b);
        AboveHead(a[0], b);
        AboveMerge(a[0], rest, a[1..], b);
        Cons(a[0], rest);
        SymmetricDifferenceHead(a[0], Elems(a[1..]), Elems(b));
        [a[0]] + rest
      else if b[0] < a[0] then
        var rest := SymmetricDifference(a, b[1..]);
        AboveHead(b[0], a);
        AboveMerge(b[0], rest, a, b[1..]);
        Cons(b[0], rest);
        SymmetricDifferenceHead(b[0], Elems(b[1..]), Elems(a));
        [b[0]] + rest
      else
        SymmetricDifferenceDrop(a[0], Elems(a[1..]), Elems(b[1..]));
        SymmetricDifference(a[1..], b[1..])
  }

  /** A value only in the first set is in the symmetric difference. */
  lemma {:induction false} SymmetricDifferenceHead(h: int, a: set<int>, b: set<int>)
    requires h !in a && h !in b
    ensures {h} + ((a - b) + (b - a)) == (({h} + a) - b) + (b - ({h} + a))
    ensures {h} + ((b - a) + (a - b)) == (b - ({h} + a)) + (({h} + a) - b)
  {
  }

  /** A value in both sets is not in the symmetric difference. */
  lemma {:induction false} SymmetricDifferenceDrop(h: int, a: set<int>, b: set<int>)
    requires h !in a && h !in b
    ensures (a - b) + (b - a) == (({h} + a) - ({h} + b)) + (({h} + b) - ({h} + a))
  {
  }

  /** `includes(a, b)`: every value of `b` is in `a`. */
  function Includes(a: seq<int>, b: seq<int>): (r: bool)
    requires StrictlyAscending(a) && StrictlyAscending(b)
    ensures r <==> Elems(b) <= Elems(a)
    decreases |a| + |b|
  {
    if |b| == 0 then true
    else if |a| == 0 then
      assert b[0] in Elems(b);
      false
    else
      Uncons(a);
      Uncons(b);
      if a[0] < b[0] then Includes(a[1..], b)
      else if a[0] == b[0] then Includes(a[1..], b[1..])
      else
        assert b[0] !in Elems(a);
        false
  }

  /** The symmetric difference is the union of the two one-sided differences. */
  lemma {:induction false} SymmetricDifferenceIsUnionOfDifferences(a: seq<int>, b: seq<int>)
    requires StrictlyAscending(a) && StrictlyAscending(b)
    ensures SymmetricDifference(a, b) == Union(Difference(a, b), Difference(b, a))
  {
    StrictlyAscendingUnique(SymmetricDifference(a, b), Union(Difference(a, b), Difference(b, a)));
  }

  /** `a` includes `b` exactly when intersecting with `a` leaves `b` whole. */
  lemma {:induction false} IncludesIffIntersectionIsWhole(a: seq<int>, b: seq<int>)
    requires StrictlyAscending(a) && StrictlyAscending(b)
    ensures Includes(a, b) <==> Intersection(a, b) == b
  {
    if Includes(a, b) {
      StrictlyAscendingUnique(Intersection(a, b), b);
    }
  }

  /** `{1, 2, 3, 4, 5}` union `{4, 5, 6, 7, 8}` is 1 2 3 4 5 6 7 8. */
  lemma {:induction false} DemoUnion(a: seq<int>, b: seq<int>)
    requires StrictlyAscending(a) && Elems(a) == {1, 2, 3, 4, 5}
    requires StrictlyAscending(b) && Elems(b) == {4, 5, 6, 7, 8}
    ensures Union(a, b) == [1, 2, 3, 4, 5, 6, 7, 8]
  {
    var expected := [1, 2, 3, 4, 5, 6, 7, 8];
    LiteralSet(expected, {1, 2, 3, 4, 5, 6, 7, 8});
    DemoSetAlgebra();
    StrictlyAscendingUnique(Union(a, b), expected);
  }

  /** The set algebra of the two demo sets, kept apart from the sequence reasoning. */
  lemma {:induction false} DemoSetAlgebra()
    ensures {1, 2, 3, 4, 5} + {4, 5, 6, 7, 8} == {1, 2, 3, 4, 5, 6, 7, 8}
    ensures {1, 2, 3, 4, 5} * {4, 5, 6, 7, 8} == {4, 5}
    ensures {1, 2, 3, 4, 5} - {4, 5, 6, 7, 8} == {1, 2, 3}
    ensures {4, 5, 6, 7, 8} - {1, 2, 3, 4, 5} == {6, 7, 8}
  {
  }

  /** An increasing sequence listing exactly the members of `e` is the ascending enumeration of `e`. */
  lemma {:induction false} LiteralSet(expected: seq<int>, e: set<int>)
    requires Increasing(expected) && e == Elems(expected)
    ensures StrictlyAscending(expected) && Elems(expected) == e
  {
    IncreasingIsStrictlyAscending(expected);
  }

  /** Their intersection is 4 5. */
  lemma {:induction false} DemoIntersection(a: seq<int>, b: seq<int>)
    requires StrictlyAscending(a) && Elems(a) == {1, 2, 3, 4, 5}
    requires StrictlyAscending(b) && Elems(b) == {4, 5, 6, 7, 8}
    ensures Intersection(a, b) == [4, 5]
  {
    assert Elems([4, 5]) == {4, 5};
    DemoSetAlgebra();
    StrictlyAscendingUnique(Intersection(a, b), [4, 5]);
  }

  /** Their difference A - B is 1 2 3. */
  lemma {:induction false} DemoDifference(a: seq<int>, b: seq<int>)
    requires StrictlyAscending(a) && Elems(a) == {1, 2, 3, 4, 5}
    requires StrictlyAscending(b) && Elems(b) == {4, 5, 6, 7, 8}
    ensures Difference(a, b) == [1, 2, 3]
  {
    IncreasingIsStrictlyAscending([1, 2, 3]);
    assert Elems([1, 2, 3]) == {1, 2, 3};
    DemoSetAlgebra();
    StrictlyAscendingUnique(Difference(a, b), [1, 2, 3]);
  }

  /** Their symmetric difference is 1 2 3 6 7 8. */
  lemma {:induction false} DemoSymmetricDifference(a: seq<int>, b: seq<int>)
    requires StrictlyAscending(a) && Elems(a) == {1, 2, 3, 4, 5}
    requires StrictlyAscending(b) && Elems(b) == {4, 5, 6, 7, 8}
    ensures SymmetricDifference(a, b) == [1, 2, 3, 6, 7, 8]
  {
    var expected := [1, 2, 3, 6, 7, 8];
    LiteralSet(expected, {1, 2, 3} + {6, 7, 8});
    DemoSetAlgebra();
    StrictlyAscendingUnique(SymmetricDifference(a, b), expected);
  }

  /** `{2, 3}` is included in `{1, 2, 3, 4, 5}`. */
  lemma {:induction false} DemoIncludes(superset: seq<int>, subset: seq<int>)
    requires StrictlyAscending(superset) && Elems(superset) == {1, 2, 3, 4, 5}
    requires StrictlyAscending(subset) && Elems(subset) == {2, 3}
    ensures Includes(superset, subset)
  {
  }

  // ------------------------------------------------------------ idioms

  /** `advance(begin(), k)`: the element with exactly `k` smaller elements in the set. */
  function KthSmallest(s: seq<int>, k: nat): (r: int)
    requires StrictlyAscending(s)
    requires k < |s|
    ensures r in s
    ensures |Below(s, r)| == k
  {
    assert Below(s, s[k]) == Elems(s[..k]) by {
      forall x | x in s && x < s[k]
        ensures x in s[..k]
      {
        var j :| 0 <= j < |s| && s[j] == x;
        assert s[..k][j] == x;
      }
    }
    StrictlyAscendingCardinality(s[..k]);
    s[k]
  }

  /** Two elements with the same number of smaller elements are the same element: the k-th smallest is well defined. */
  lemma {:induction false} KthSmallestUnique(s: seq<int>, x: int, y: int)
    requires x in s && y in s && |Below(s, x)| == |Below(s, y)|
    ensures x == y
  {
    if x < y {
      BelowGrows(s, x, y);
    } else if y < x {
      BelowGrows(s, y, x);
    }
  }

  /** A larger element of `s` has strictly more elements below it. */
  lemma {:induction false} BelowGrows(s: seq<int>, x: int, y: int)
    requires x in s && x < y
    ensures |Below(s, x)| < |Below(s, y)|
  {
    var small, big := Below(s, x), Below(s, y);
    assert small <= big;
    assert x in big - small;
    assert big == small + (big - small);
    assert |big - small| >= 1 by {
      assert big - small == {x} + (big - small - {x});
    }
  }

  /** `data = {10, 5, 15, 3, 20}`, `k = 2`: the element reached is 10. */
  lemma {:induction false} DemoKthSmallest(data: seq<int>)
    requires data == [10, 5, 15, 3, 20]
    ensures |FromList(data)| == 5 && KthSmallest(FromList(data), 2) == 10
  {
    assert Elems(data) == {3, 5, 10, 15, 20};
    assert Elems([3, 5, 10, 15, 20]) == {3, 5, 10, 15, 20};
    IncreasingIsStrictlyAscending([3, 5, 10, 15, 20]);
    StrictlyAscendingUnique(FromList(data), [3, 5, 10, 15, 20]);
  }

  /** `set<int> uniqueSet(vec.begin(), vec.end())` then `vec.assign(...)`: the distinct values in ascending order. */
  function DedupViaSet(xs: seq<int>): (r: seq<int>)
    ensures StrictlyAscending(r)
    ensures Elems(r) == Elems(xs)
    ensures |r| == |Elems(xs)|
  {
    StrictlyAscendingCardinality(FromList(xs));
    FromList(xs)
  }

  /** De-duplicating through a set agrees with sorting then `unique` + `erase` on a vector. */
  lemma {:induction false} DedupViaSetIsSortUnique(xs: seq<int>)
    ensures DedupViaSet(xs) == Algorithms.DedupSorted(SortAscending(xs))
  {
    var sorted := SortAscending(xs);
    assert Elems(sorted) == Elems(xs) by {
      assert forall x :: x in sorted <==> x in multiset(sorted);
      assert forall x :: x in xs <==> x in multiset(xs);
    }
    StrictlyAscendingUnique(DedupViaSet(xs), Algorithms.DedupSorted(sorted));
  }

  /** `vec = {5, 2, 8, 2, 9, 5, 1}` becomes `1 2 5 8 9`. */
  lemma {:induction false} DemoDedupViaSet(vec: seq<int>)
    requires vec == [5, 2, 8, 2, 9, 5, 1]
    ensures DedupViaSet(vec) == [1, 2, 5, 8, 9]
  {
    assert Elems(vec) == {1, 2, 5, 8, 9};
    assert Elems([1, 2, 5, 8, 9]) == {1, 2, 5, 8, 9};
    IncreasingIsStrictlyAscending([1, 2, 5, 8, 9]);
    StrictlyAscendingUnique(DedupViaSet(vec), [1, 2, 5, 8, 9]);
  }

  // ----------------------------------------------------------- multiset

  /** `multiset::insert(v)`: adds one copy of `v`, after the copies already there. */
  function MsInsert(s: seq<int>, v: int): (r: seq<int>)
    requires Ascending(s)
    ensures Ascending(r)
    ensures |r| == |s| + 1
    ensures multiset(r) == multiset(s) + multiset{v}
    ensures r[UpperBoundIndex(s, v)] == v
  {
    var i := UpperBoundIndex(s, v);
    InsertAtSplit(s, v, i);
    s[..i] + [v] + s[i..]
  }

  /** Putting `v` between everything at most `v` and everything above it keeps the order and adds one copy. */
  lemma {:induction false} InsertAtSplit(s: seq<int>, v: int, i: nat)
    requires Ascending(s) && i <= |s|
    requires forall j :: 0 <= j < i ==> s[j] <= v
    requires forall j :: i <= j < |s| ==> s[j] > v
    ensures Ascending(s[..i] + [v] + s[i..])
    ensures multiset(s[..i] + [v] + s[i..]) == multiset(s) + multiset{v}
    ensures (s[..i] + [v] + s[i..])[i] == v
  {
    var r := s[..i] + [v] + s[i..];
    forall p, q | 0 <= p < q < |r| ensures r[p] <= r[q] {
      if q < i {
        assert r[p] == s[p] && r[q] == s[q];
      } else if q == i {
        assert r[p] == s[p];
      } else if p < i {
        assert r[p] == s[p] && r[q] == s[q - 1];
      } else if p == i {
        assert r[q] == s[q - 1];
      } else {
        assert r[p] == s[p - 1] && r[q] == s[q - 1];
      }
    }
    assert s == s[..i] + s[i..];
  }

  /** `multiset<int> ms = {...}`: the values sorted, repeats kept. */
  function MsFromList(xs: seq<int>): (r: seq<int>)
    ensures Ascending(r)
    ensures multiset(r) == multiset(xs)
  {
    SortAscending(xs)
  }

  /** `multiset::count(v)`: the multiplicity of `v`, read off as the width of its equal range. */
  function MsCount(s: seq<int>, v: int): (n: nat)
    requires Ascending(s)
    ensures n == multiset(s)[v]
  {
    EqualRangeIsCopies(s, v);
    UpperBoundIndex(s, v) - LowerBoundIndex(s, v)
  }

  /** `multiset::erase(v)`: removes every copy of `v`, returning how many there were. */
  function MsEraseAll(s: seq<int>, v: int): (r: (seq<int>, nat))
    requires Ascending(s)
    ensures Ascending(r.0)
    ensures multiset(r.0) == multiset(s)[v := 0]
    ensures r.1 == multiset(s)[v]
  {
    var lb, ub := LowerBoundIndex(s, v), UpperBoundIndex(s, v);
    EraseEqualRange(s, v);
    (s[..lb] + s[ub..], ub - lb)
  }

  /** Cutting out the equal range of `v` removes every copy of `v` and nothing else. */
  lemma {:induction false} EraseEqualRange(s: seq<int>, v: int)
    requires Ascending(s)
    ensures LowerBoundIndex(s, v) <= UpperBoundIndex(s, v)
    ensures var t := s[..LowerBoundIndex(s, v)] + s[UpperBoundIndex(s, v)..];
      Ascending(t) && multiset(t) == multiset(s)[v := 0]
    ensures UpperBoundIndex(s, v) - LowerBoundIndex(s, v) == multiset(s)[v]
  {
    var lb, ub := LowerBoundIndex(s, v), UpperBoundIndex(s, v);
    EqualRangeIsCopies(s, v);
    CutOut(s, lb, ub);
    CopiesOnly(s[lb..ub], v);
  }

  /** A slice holding nothing but `v` is `|slice|` copies of `v` as a bag. */
  lemma {:induction false} CopiesOnly(s: seq<int>, v: int)
    requires forall j :: 0 <= j < |s| ==> s[j] == v
    ensures forall x :: multiset(s)[x] == if x == v then |s| else 0
  {
    if |s| > 0 {
      assert s == s[..|s| - 1] + [s[|s| - 1]];
      CopiesOnly(s[..|s| - 1], v);
    }
  }

  /** `multiset::erase(find(v))`: removes a single copy of `v`; when there is none, nothing happens. */
  function MsEraseOne(s: seq<int>, v: int): (r: seq<int>)
    requires Ascending(s)
    ensures Ascending(r)
    ensures multiset(r) == multiset(s) - multiset{v}
  {
    var i := LowerBoundIndex(s, v);
    LowerBoundFinds(s, v);
    if i < |s| && s[i] == v then
      DropAt(s, i);
      DropAtOrdered(s, i);
      s[..i] + s[i + 1..]
    else
      s
  }

  /** `multiset<int> ms = {5, 2, 8, 2, 9, 5, 1}` holds two 5s. */
  lemma {:induction false} DemoMultisetCount(xs: seq<int>)
    requires xs == [5, 2, 8, 2, 9, 5, 1]
    ensures MsCount(MsFromList(xs), 5) == 2
  {
    assert multiset(xs)[5] == 2;
  }

  /** Erasing all 5s from it leaves 1 2 2 8 9. */
  lemma {:induction false} DemoMultisetEraseAll(ms: seq<int>)
    requires Ascending(ms) && multiset(ms) == multiset{5, 2, 8, 2, 9, 5, 1}
    ensures MsEraseAll(ms, 5).0 == [1, 2, 2, 8, 9]
  {
    var expected := [1, 2, 2, 8, 9];
    FivesErased(expected);
    NonDecreasingIsAscending(expected);
    AscendingPermutationUnique(MsEraseAll(ms, 5).0, expected);
  }

  lemma {:induction false} FivesErased(expected: seq<int>)
    requires expected == [1, 2, 2, 8, 9]
    ensures multiset(expected) == multiset{5, 2, 8, 2, 9, 5, 1}[5 := 0]
  {
  }

  /** Inserting two more 2s and erasing one through `find` leaves three 2s. */
  lemma {:induction false} DemoMultisetEraseOne(ms: seq<int>)
    requires ms == [1, 2, 2, 8, 9]
    ensures Ascending(ms)
    ensures MsCount(MsEraseOne(MsInsert(MsInsert(ms, 2), 2), 2), 2) == 3
  {
    NonDecreasingIsAscending([1, 2, 2, 8, 9]);
    assert multiset(ms)[2] == 2;
  }
}
