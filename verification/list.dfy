/**
 The members particular to `list`: value removal, consecutive de-duplication,
 reversal, sorting, `splice` and `merge`.  `unique` and `reverse` are also the
 `<algorithm>` functions the vector demonstration uses.
 */
module ListOps {
  import opened Sorting
  import opened Sequence

  /** The survivors of `s` under the predicate `p`, scanned from the front. */
  function Survivors<T>(s: seq<T>, p: T -> bool): seq<T> {
    if |s| == 0 then []
    else (if p(s[0]) then [] else [s[0]]) + Survivors(s[1..], p)
  }

  /** What the scan keeps: exactly the elements failing `p`, each as often as in `s`. */
  lemma {:induction false} SurvivorsFacts<T(!new)>(s: seq<T>, p: T -> bool)
    ensures |Survivors(s, p)| <= |s|
    ensures forall x :: multiset(Survivors(s, p))[x] == if p(x) then 0 else multiset(s)[x]
  {
    if |s| > 0 {
      assert s == [s[0]] + s[1..];
      SurvivorsFacts(s[1..], p);
    }
  }

  /** Filtering a concatenation filters each part in place. */
  lemma {:induction false} SurvivorsConcat<T>(a: seq<T>, b: seq<T>, p: T -> bool)
    ensures Survivors(a + b, p) == Survivors(a, p) + Survivors(b, p)
  {
    if |a| == 0 {
      assert a + b == b;
    } else {
      assert (a + b)[0] == a[0];
      assert (a + b)[1..] == a[1..] + b;
      SurvivorsConcat(a[1..], b, p);
    }
  }

  /** `remove_if(p)`: drops every element satisfying `p`; the survivors keep their order. */
  function RemoveIf<T(!new)>(s: seq<T>, p: T -> bool): (r: seq<T>)
    ensures |r| <= |s|
    ensures forall i :: 0 <= i < |r| ==> !p(r[i])
    ensures forall x :: x in r <==> x in s && !p(x)
    ensures forall x :: multiset(r)[x] == if p(x) then 0 else multiset(s)[x]
  {
    SurvivorsFacts(s, p);
    var r := Survivors(s, p);
    assert forall i :: 0 <= i < |r| ==> r[i] in multiset(r);
    r
  }

  /** Removal works piecewise, so the relative order of the survivors is the order they had. */
  lemma {:induction false} RemoveIfConcat<T(!new)>(a: seq<T>, b: seq<T>, p: T -> bool)
    ensures RemoveIf(a + b, p) == RemoveIf(a, p) + RemoveIf(b, p)
  {
    SurvivorsConcat(a, b, p);
  }

  /** `remove(v)`: drops every occurrence of `v` and nothing else. */
  function Remove<T(==,!new)>(s: seq<T>, v: T): (r: seq<T>)
    ensures v !in r
    ensures multiset(r) == multiset(s)[v := 0]
  {
    RemoveIf(s, x => x == v)
  }

  /** `unique()`: collapses each run of equal neighbours to its first element. */
  function Unique<T(==)>(s: seq<T>): (r: seq<T>)
    ensures |r| <= |s|
    ensures forall i :: 0 <= i < |r| - 1 ==> r[i] != r[i + 1]
    ensures Elems(r) == Elems(s)
    ensures |s| > 0 ==> |r| > 0 && r[0] == s[0]
  {
    if |s| <= 1 then s
    else
      assert s == [s[0]] + s[1..];
      assert Elems(s) == {s[0]} + Elems(s[1..]);
      assert s[1] in Elems(s[1..]);
      if s[0] == s[1] then Unique(s[1..])
      else [s[0]] + Unique(s[1..])
  }

  /**
   Reference for `unique()`: position `i` survives exactly when it starts a
   run, that is when `i == 0` or `s[i] != s[i - 1]`.  `RunHeadsFrom(s, i)`
   lists the survivors among positions `i` onwards.
   */
  ghost function RunHeads<T>(s: seq<T>): seq<T> {
    RunHeadsFrom(s, 0)
  }

  ghost function RunHeadsFrom<T>(s: seq<T>, i: nat): seq<T>
    decreases |s| - i
  {
    if i >= |s| then []
    else (if i == 0 || s[i] != s[i - 1] then [s[i]] else []) + RunHeadsFrom(s, i + 1)
  }

  /** Past position 0, which positions start a run does not depend on the first element. */
  lemma {:induction false} RunHeadsFromShift<T>(s: seq<T>, i: nat)
    requires 1 <= i && |s| > 0
    ensures RunHeadsFrom(s, i + 1) == RunHeadsFrom(s[1..], i)
    decreases |s| - i
  {
    var t := s[1..];
    if i + 1 < |s| {
      RunHeadsFromShift(s, i + 1);
      assert t[i] == s[i + 1] && t[i - 1] == s[i];
      var head := if s[i + 1] != s[i] then [s[i + 1]] else [];
      assert RunHeadsFrom(s, i + 1) == head + RunHeadsFrom(s, i + 2);
      assert RunHeadsFrom(t, i) == head + RunHeadsFrom(t, i + 1);
    } else {
      assert RunHeadsFrom(t, i) == [];
    }
  }

  /** `unique()` keeps exactly the first element of every run, in order. */
  lemma {:induction false} UniqueIsRunHeads<T>(s: seq<T>)
    ensures Unique(s) == RunHeads(s)
  {
    if |s| == 1 {
      assert RunHeadsFrom(s, 1) == [];
    } else if |s| > 1 {
      var t := s[1..];
      UniqueIsRunHeads(t);
      RunHeadsFromShift(s, 1);
      assert RunHeadsFrom(t, 0) == [t[0]] + RunHeadsFrom(t, 1);
      assert RunHeadsFrom(s, 0) == [s[0]] + RunHeadsFrom(s, 1);
      assert RunHeadsFrom(s, 1) == (if s[1] != s[0] then [s[1]] else []) + RunHeadsFrom(s, 2);
    }
  }

  /** On a sorted sequence `unique` leaves each value once, in strictly ascending order. */
  lemma {:induction false} UniqueOfAscending(s: seq<int>)
    requires Ascending(s)
    ensures StrictlyAscending(Unique(s))
  {
    if |s| > 1 {
      UniqueOfAscending(s[1..]);
      var rest := Unique(s[1..]);
      forall k | 0 <= k < |rest|
        ensures s[0] <= rest[k]
      {
        assert rest[k] in Elems(s[1..]);
      }
    }
  }

  /** Removing neighbouring duplicates twice removes nothing more. */
  lemma {:induction false} UniqueIdempotent<T>(s: seq<T>)
    ensures Unique(Unique(s)) == Unique(s)
  {
    if |s| > 1 {
      UniqueIdempotent(s[1..]);
      var rest := Unique(s[1..]);
      if s[0] != s[1] {
        assert rest[0] == s[1];
        assert [s[0]] + rest == [s[0]] + rest[..];
        if |rest| > 1 {
          assert ([s[0]] + rest)[1..] == rest;
        }
      }
    }
  }

  /** `reverse()`: the element at `i` moves to `size() - 1 - i`. */
  function Reverse<T>(s: seq<T>): (r: seq<T>)
    ensures |r| == |s|
    ensures forall i :: 0 <= i < |s| ==> r[i] == s[|s| - 1 - i]
  {
    if |s| == 0 then [] else Reverse(s[1..]) + [s[0]]
  }

  /** Reversing twice restores the sequence, keeps the elements, and turns descending order into ascending. */
  lemma {:induction false} ReverseFacts(s: seq<int>)
    ensures Reverse(Reverse(s)) == s
    ensures multiset(Reverse(s)) == multiset(s)
    ensures Descending(s) ==> Ascending(Reverse(s))
    ensures Ascending(s) ==> Descending(Reverse(s))
  {
    ReverseKeepsMultiset(s);
  }

  lemma {:induction false} ReverseKeepsMultiset<T>(s: seq<T>)
    ensures multiset(Reverse(s)) == multiset(s)
  {
    if |s| > 0 {
      assert s == [s[0]] + s[1..];
      ReverseKeepsMultiset(s[1..]);
    }
  }

  /**
   `sort(greater<int>())` followed by `reverse()` gives what `sort()` gives:
   both are the unique ascending arrangement of the elements.
   */
  lemma {:induction false} SortDescendingReversed(s: seq<int>)
    ensures Reverse(SortDescending(s)) == SortAscending(s)
  {
    var d := SortDescending(s);
    ReverseFacts(d);
    AscendingPermutationUnique(Reverse(d), SortAscending(s));
  }

  /** A descending arrangement of given values is unique too. */
  lemma {:induction false} DescendingPermutationUnique(a: seq<int>, b: seq<int>)
    requires Descending(a) && Descending(b)
    requires multiset(a) == multiset(b)
    ensures a == b
  {
    ReverseFacts(a);
    ReverseFacts(b);
    AscendingPermutationUnique(Reverse(a), Reverse(b));
  }

  /**
   `splice(pos, other)`: every element of `other` moves, in order, in front of
   index `pos`; `other` is left empty and no element is lost or gained.
   */
  function Splice<T>(s: seq<T>, pos: nat, other: seq<T>): (r: (seq<T>, seq<T>))
    requires pos <= |s|
    ensures r.1 == []
    ensures |r.0| == |s| + |other|
    ensures r.0[..pos] == s[..pos]
    ensures r.0[pos..pos + |other|] == other
    ensures r.0[pos + |other|..] == s[pos..]
    ensures multiset(r.0) == multiset(s) + multiset(other)
  {
    var spliced := s[..pos] + other + s[pos..];
    assert s == s[..pos] + s[pos..];
    (spliced, [])
  }

  /** `merge(other)` on two sorted lists: one sorted list holding both lists' elements; `other` is left empty. */
  function Merge(a: seq<int>, b: seq<int>): (r: (seq<int>, seq<int>))
    requires Ascending(a) && Ascending(b)
    ensures Ascending(r.0)
    ensures multiset(r.0) == multiset(a) + multiset(b)
    ensures r.1 == []
  {
    (MergeSorted(a, b), [])
  }

  /** The merge step: take from `b` only when its head is smaller, so equal elements of `a` come first. */
  function MergeSorted(a: seq<int>, b: seq<int>): (r: seq<int>)
    requires Ascending(a) && Ascending(b)
    ensures Ascending(r)
    ensures multiset(r) == multiset(a) + multiset(b)
    decreases |a| + |b|
  {
    if |a| == 0 then b
    else if |b| == 0 then a
    else if b[0] < a[0] then
      assert b == [b[0]] + b[1..];
      var rest := MergeSorted(a, b[1..]);
      HeadBelowAll(b[0], rest, a, b[1..]);
      [b[0]] + rest
    else
      assert a == [a[0]] + a[1..];
      var rest := MergeSorted(a[1..], b);
      HeadBelowAll(a[0], rest, a[1..], b);
      [a[0]] + rest
  }

  /** A value no larger than every element of two sources is no larger than anything drawn from them. */
  lemma {:induction false} HeadBelowAll(h: int, rest: seq<int>, a: seq<int>, b: seq<int>)
    requires Ascending(rest)
    requires multiset(rest) == multiset(a) + multiset(b)
    requires forall i :: 0 <= i < |a| ==> h <= a[i]
    requires forall i :: 0 <= i < |b| ==> h <= b[i]
    ensures Ascending([h] + rest)
  {
    forall k | 0 <= k < |rest|
      ensures h <= rest[k]
    {
      assert rest[k] in multiset(rest);
      if rest[k] in multiset(a) {
        var i :| 0 <= i < |a| && a[i] == rest[k];
      } else {
        assert rest[k] in multiset(b);
        var i :| 0 <= i < |b| && b[i] == rest[k];
      }
    }
  }

  /** Merging agrees with sorting the concatenation. */
  lemma {:induction false} MergeIsSortedConcatenation(a: seq<int>, b: seq<int>)
    requires Ascending(a) && Ascending(b)
    ensures Merge(a, b).0 == SortAscending(a + b)
  {
    AscendingPermutationUnique(Merge(a, b).0, SortAscending(a + b));
  }
}
