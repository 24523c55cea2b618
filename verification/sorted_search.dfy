/**
 Searching a sorted range: `lower_bound`, `upper_bound` and `binary_search`
 over an ascending sequence.  The recursive functions are the reference
 meaning of each bound; the methods are the logarithmic searches the library
 performs, proved to return the same index.
 */
module SortedSearch {
  import opened Sorting

  /** Index of the first element that is not less than `v` (`|a|` when none is). */
  function LowerBoundIndex(a: seq<int>, v: int): (i: nat)
    requires Ascending(a)
    ensures i <= |a|
    ensures forall j :: 0 <= j < i ==> a[j] < v
    ensures forall j :: i <= j < |a| ==> a[j] >= v
  {
    if |a| == 0 || a[0] >= v then 0 else 1 + LowerBoundIndex(a[1..], v)
  }

  /** Index of the first element greater than `v` (`|a|` when none is). */
  function UpperBoundIndex(a: seq<int>, v: int): (i: nat)
    requires Ascending(a)
    ensures i <= |a|
    ensures forall j :: 0 <= j < i ==> a[j] <= v
    ensures forall j :: i <= j < |a| ==> a[j] > v
  {
    if |a| == 0 || a[0] > v then 0 else 1 + UpperBoundIndex(a[1..], v)
  }

  /** The characterising inequalities pin a bound down: at most one index satisfies them. */
  lemma {:induction false} BoundIndexUnique(a: seq<int>, v: int, i: nat, k: nat)
    requires Ascending(a)
    requires i <= |a| && k <= |a|
    requires forall j :: 0 <= j < i ==> a[j] < v
    requires forall j :: i <= j < |a| ==> a[j] >= v
    requires forall j :: 0 <= j < k ==> a[j] < v
    requires forall j :: k <= j < |a| ==> a[j] >= v
    ensures i == k
  {
    if i < |a| {
      assert a[i] >= v;
    }
    if k < |a| {
      assert a[k] >= v;
    }
  }

  /** `lower_bound` never lies past `upper_bound`; the range between them holds exactly the copies of `v`. */
  lemma {:induction false} EqualRangeIsCopies(a: seq<int>, v: int)
    requires Ascending(a)
    ensures LowerBoundIndex(a, v) <= UpperBoundIndex(a, v)
    ensures forall j :: LowerBoundIndex(a, v) <= j < UpperBoundIndex(a, v) ==> a[j] == v
    ensures multiset(a)[v] == UpperBoundIndex(a, v) - LowerBoundIndex(a, v)
  {
    var lb, ub := LowerBoundIndex(a, v), UpperBoundIndex(a, v);
    if ub < |a| {
      assert a[ub] > v;
    }
    RunMultiplicity(a, lb, ub, v);
  }

  /** A value found exactly on the index range `[lb, ub)` occurs `ub - lb` times. */
  lemma {:induction false} RunMultiplicity(a: seq<int>, lb: nat, ub: nat, v: int)
    requires lb <= ub <= |a|
    requires forall j :: 0 <= j < lb ==> a[j] != v
    requires forall j :: lb <= j < ub ==> a[j] == v
    requires forall j :: ub <= j < |a| ==> a[j] != v
    ensures multiset(a)[v] == ub - lb
  {
    var lo, mid, hi := a[..lb], a[lb..ub], a[ub..];
    assert a == lo + mid + hi;
    assert v !in lo by {
      forall j | 0 <= j < |lo| ensures lo[j] != v {
        assert lo[j] == a[j];
      }
    }
    assert v !in hi by {
      forall j | 0 <= j < |hi| ensures hi[j] != v {
        assert hi[j] == a[ub + j];
      }
    }
    forall j | 0 <= j < |mid| ensures mid[j] == v {
      assert mid[j] == a[lb + j];
    }
    AllCopies(mid, v);
  }

  lemma {:induction false} AllCopies(s: seq<int>, v: int)
    requires forall j :: 0 <= j < |s| ==> s[j] == v
    ensures multiset(s)[v] == |s|
  {
    if |s| > 0 {
      assert s == s[..|s| - 1] + [s[|s| - 1]];
      AllCopies(s[..|s| - 1], v);
    }
  }

  /** `v` is present exactly when the lower bound is in range and holds `v`. */
  lemma {:induction false} LowerBoundFinds(a: seq<int>, v: int)
    requires Ascending(a)
    ensures (LowerBoundIndex(a, v) < |a| && a[LowerBoundIndex(a, v)] == v) <==> v in a
  {
    var i := LowerBoundIndex(a, v);
    if v in a {
      var k :| 0 <= k < |a| && a[k] == v;
      assert i <= k;
      assert a[i] <= a[k];
    }
  }

  /** `lower_bound(a.begin(), a.end(), v) - a.begin()`, by bisection. */
  method LowerBound(a: seq<int>, v: int) returns (lo: nat)
    requires Ascending(a)
    ensures lo == LowerBoundIndex(a, v)
    ensures lo <= |a|
    ensures forall j :: 0 <= j < lo ==> a[j] < v
    ensures forall j :: lo <= j < |a| ==> a[j] >= v
  {
    lo := 0;
    var hi := |a|;
    while lo < hi
      invariant 0 <= lo <= hi <= |a|
      invariant forall j :: 0 <= j < lo ==> a[j] < v
      invariant forall j :: hi <= j < |a| ==> a[j] >= v
      decreases hi - lo
    {
      var mid := lo + (hi - lo) / 2;
      if a[mid] < v {
        lo := mid + 1;
      } else {
        hi := mid;
      }
    }
    BoundIndexUnique(a, v, lo, LowerBoundIndex(a, v));
  }

  /** `upper_bound(a.begin(), a.end(), v) - a.begin()`, by bisection. */
  method UpperBound(a: seq<int>, v: int) returns (lo: nat)
    requires Ascending(a)
    ensures lo == UpperBoundIndex(a, v)
    ensures lo <= |a|
    ensures forall j :: 0 <= j < lo ==> a[j] <= v
    ensures forall j :: lo <= j < |a| ==> a[j] > v
  {
    lo := 0;
    var hi := |a|;
    while lo < hi
      invariant 0 <= lo <= hi <= |a|
      invariant forall j :: 0 <= j < lo ==> a[j] <= v
      invariant forall j :: hi <= j < |a| ==> a[j] > v
      decreases hi - lo
    {
      var mid := lo + (hi - lo) / 2;
      if a[mid] <= v {
        lo := mid + 1;
      } else {
        hi := mid;
      }
    }
    BoundIndexUnique(a, v + 1, lo, UpperBoundIndex(a, v));
  }

  /** `binary_search(a.begin(), a.end(), v)`: the lower bound is in range and holds `v`. */
  method BinarySearch(a: seq<int>, v: int) returns (found: bool)
    requires Ascending(a)
    ensures found <==> v in a
  {
    var i := LowerBound(a, v);
    found := i < |a| && a[i] == v;
  }
}
