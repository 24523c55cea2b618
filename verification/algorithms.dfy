/**
 The `<algorithm>` calls of the vector demonstration that are not container
 members: `find`, `min_element`, `max_element`, de-duplication of a sorted
 vector with `unique` + `erase`, `rotate` and `partition`.  `count` is
 `Frequency.Occurrences`; the sorted searches are in `SortedSearch`.
 */
module Algorithms {
  import opened Wrappers
  import opened Sorting
  import ListOps

  /** `find(first, last, v) - first`: the first index holding `v`, or none. */
  function Find<T(==)>(s: seq<T>, v: T): (r: Option<nat>)
    ensures r.None? <==> v !in s
    ensures r.Some? ==> r.value < |s| && s[r.value] == v
    ensures r.Some? ==> forall j :: 0 <= j < r.value ==> s[j] != v
  {
    if |s| == 0 then None
    else if s[0] == v then Some(0)
    else match Find(s[1..], v)
      case None => None
      case Some(i) => Some(i + 1)
  }

  /** `min_element`: the first index of a smallest element; dereferencing needs a non-empty range. */
  function MinElement(s: seq<int>): (k: nat)
    requires |s| > 0
    ensures k < |s|
    ensures forall j :: 0 <= j < |s| ==> s[k] <= s[j]
    ensures forall j :: 0 <= j < k ==> s[j] > s[k]
  {
    if |s| == 1 then 0
    else
      var k := MinElement(s[..|s| - 1]);
      if s[|s| - 1] < s[k] then |s| - 1 else k
  }

  /** `max_element`: the first index of a largest element. */
  function MaxElement(s: seq<int>): (k: nat)
    requires |s| > 0
    ensures k < |s|
    ensures forall j :: 0 <= j < |s| ==> s[k] >= s[j]
    ensures forall j :: 0 <= j < k ==> s[j] < s[k]
  {
    if |s| == 1 then 0
    else
      var k := MaxElement(s[..|s| - 1]);
      if s[|s| - 1] > s[k] then |s| - 1 else k
  }

  /** `dup.erase(unique(dup.begin(), dup.end()), dup.end())` on a sorted vector. */
  function DedupSorted(s: seq<int>): (r: seq<int>)
    requires Ascending(s)
    ensures StrictlyAscending(r)
    ensures Elems(r) == Elems(s)
  {
    ListOps.UniqueOfAscending(s);
    ListOps.Unique(s)
  }

  /** `{1, 1, 2, 2, 3, 4, 4, 5}` de-duplicates to `{1, 2, 3, 4, 5}`. */
  lemma {:induction false} DemoDedupSorted()
    ensures DedupSorted([1, 1, 2, 2, 3, 4, 4, 5]) == [1, 2, 3, 4, 5]
  {
    assert ListOps.Unique([1, 1, 2, 2, 3, 4, 4, 5]) == [1, 2, 3, 4, 5];
  }

  /** `rotate(begin(), begin() + k, end())`: a left rotation by `k`. */
  function Rotate<T>(s: seq<T>, k: nat): (r: seq<T>)
    requires k <= |s|
    ensures |r| == |s|
    ensures forall i :: 0 <= i < |s| ==> r[i] == s[(i + k) % |s|]
    ensures multiset(r) == multiset(s)
  {
    assert s == s[..k] + s[k..];
    var r := s[k..] + s[..k];
    forall i | 0 <= i < |s|
      ensures r[i] == s[(i + k) % |s|]
    {
      ModOnce(i + k, |s|);
    }
    r
  }

  /** An index past the end wraps around once. */
  lemma {:induction false} ModOnce(x: int, n: int)
    requires n > 0 && 0 <= x < 2 * n
    ensures x % n == (if x < n then x else x - n)
  {
    var q, r := x / n, x % n;
    assert x == q * n + r && 0 <= r < n;
    if x < n {
      assert q == 0;
    } else {
      assert (q - 1) * n == x - n - r;
      assert q == 1;
    }
  }

  /** Rotating left by `k` and then by the rest of the length restores the sequence. */
  lemma {:induction false} RotateInverse<T>(s: seq<T>, k: nat)
    requires k <= |s|
    ensures Rotate(Rotate(s, k), |s| - k) == s
  {
    var r := Rotate(s, k);
    RotateIsConcat(s, k);
    RotateIsConcat(r, |s| - k);
    assert r[..|s| - k] == s[k..];
    assert r[|s| - k..] == s[..k];
    assert s[..k] + s[k..] == s;
  }

  /** A left rotation by `k` moves the first `k` elements behind the rest. */
  lemma {:induction false} RotateIsConcat<T>(s: seq<T>, k: nat)
    requires k <= |s|
    ensures Rotate(s, k) == s[k..] + s[..k]
  {
  }

  /** `{1, 2, 3, 4, 5}` rotated left by 2 is `{3, 4, 5, 1, 2}`. */
  lemma {:induction false} DemoRotate()
    ensures Rotate([1, 2, 3, 4, 5], 2) == [3, 4, 5, 1, 2]
  {
  }

  /**
   `partition(first, last, p)`: a rearrangement in which every element
   satisfying `p` precedes every element that does not; `m` is the returned
   partition point.  The library leaves the order inside each group open; this
   model keeps it.
   */
  function Partition<T(!new)>(s: seq<T>, p: T -> bool): (r: (seq<T>, nat))
    ensures r.1 <= |r.0|
    ensures multiset(r.0) == multiset(s)
    ensures forall i :: 0 <= i < r.1 ==> p(r.0[i])
    ensures forall i :: r.1 <= i < |r.0| ==> !p(r.0[i])
  {
    var yes, no := Select(s, p), ListOps.RemoveIf(s, p);
    PartitionContents(s, p, yes, no);
    var split: nat := |yes|;
    (yes + no, split)
  }

  /** The elements satisfying `p`, in their original order. */
  function Select<T(!new)>(s: seq<T>, p: T -> bool): (r: seq<T>)
    ensures forall i :: 0 <= i < |r| ==> p(r[i])
    ensures forall x :: multiset(r)[x] == if p(x) then multiset(s)[x] else 0
  {
    ListOps.RemoveIf(s, x => !p(x))
  }

  lemma {:induction false} PartitionContents<T>(s: seq<T>, p: T -> bool, yes: seq<T>, no: seq<T>)
    requires forall i :: 0 <= i < |yes| ==> p(yes[i])
    requires forall i :: 0 <= i < |no| ==> !p(no[i])
    requires forall x :: multiset(yes)[x] == if p(x) then multiset(s)[x] else 0
    requires forall x :: multiset(no)[x] == if p(x) then 0 else multiset(s)[x]
    ensures var r := (yes + no, |yes|);
      && r.1 <= |r.0|
      && multiset(r.0) == multiset(s)
      && (forall i :: 0 <= i < r.1 ==> p(r.0[i]))
      && (forall i :: r.1 <= i < |r.0| ==> !p(r.0[i]))
  {
    assert multiset(yes + no) == multiset(yes) + multiset(no);
    forall x
      ensures multiset(yes + no)[x] == multiset(s)[x]
    {
    }
    forall i | |yes| <= i < |yes + no|
      ensures !p((yes + no)[i])
    {
      assert (yes + no)[i] == no[i - |yes|];
    }
  }
}
