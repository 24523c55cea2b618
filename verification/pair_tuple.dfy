/**
 The pair and tuple demonstrations: lexicographic comparison, `swap`, the
 `divMod` lambda, interval merging and the two-key employee ordering.
 */
module PairTuple {
  import opened Sorting

  /** `pair<int, int>` (also `tuple<int, int>`, which compares the same way). */
  datatype Pair = Pair(first: int, second: int)

  /** `a < b` on pairs: first components decide, second components break a tie. */
  predicate PairLess(a: Pair, b: Pair) {
    a.first < b.first || (a.first == b.first && a.second < b.second)
  }

  /** The comparator in "less or equal" form, `!(b < a)`, used when sorting pairs. */
  predicate PairLe(a: Pair, b: Pair) {
    !PairLess(b, a)
  }

  /** Lexicographic order on equal-length integer tuples, the meaning of `<` for any `tuple<int, ...>`. */
  predicate LexLess(a: seq<int>, b: seq<int>)
    requires |a| == |b|
  {
    |a| > 0 && (a[0] < b[0] || (a[0] == b[0] && LexLess(a[1..], b[1..])))
  }

  /** Pair comparison is the two-component case of tuple comparison. */
  lemma {:induction false} PairLessIsLexicographic(a: Pair, b: Pair)
    ensures PairLess(a, b) <==> LexLess([a.first, a.second], [b.first, b.second])
  {
    assert [a.first, a.second][1..] == [a.second];
    assert [b.first, b.second][1..] == [b.second];
    assert [a.second][1..] == [] && [b.second][1..] == [];
    assert !LexLess([], []);
    assert LexLess([a.second], [b.second]) <==> a.second < b.second;
  }

  /** `<` on pairs is a strict total order: irreflexive, transitive and trichotomous. */
  lemma {:induction false} PairLessIsStrictTotalOrder(a: Pair, b: Pair, c: Pair)
    ensures !PairLess(a, a)
    ensures PairLess(a, b) && PairLess(b, c) ==> PairLess(a, c)
    ensures PairLess(a, b) || PairLess(b, a) || a == b
    ensures !(PairLess(a, b) && PairLess(b, a))
  {
  }

  lemma {:induction false} PairLeIsPreorder()
    ensures TotalPreorder(PairLe)
  {
  }

  /** `{1, 2} < {1, 3}`: equal first components, so the second decides. */
  lemma {:induction false} DemoPairComparison()
    ensures PairLess(Pair(1, 2), Pair(1, 3))
    ensures !PairLess(Pair(1, 3), Pair(1, 2))
  {
  }

  /** `x.swap(y)`: the new `x` is the old `y` and the new `y` the old `x`. */
  function Swap<T>(x: T, y: T): (r: (T, T))
    ensures r.0 == y && r.1 == x
  {
    (y, x)
  }

  /** Swapping twice restores both values. */
  lemma {:induction false} SwapInvolution<T>(x: T, y: T)
    ensures Swap(Swap(x, y).0, Swap(x, y).1) == (x, y)
  {
  }

  // ---------------------------------------------------------------------
  // divMod: C++ `/` and `%` on 32-bit `int`
  // ---------------------------------------------------------------------

  const INT_MIN: int := -0x8000_0000
  const INT_MAX: int := 0x7FFF_FFFF

  predicate IsInt32(x: int) { INT_MIN <= x <= INT_MAX }

  function Abs(x: int): nat { if x < 0 then -x else x }

  /** C++ integer division, which truncates toward zero. */
  function TruncDiv(a: int, b: int): int
    requires b != 0
  {
    var q := Abs(a) / Abs(b);
    if (a < 0) == (b < 0) then q else -q
  }

  /** C++ `%`, which takes the sign of the dividend. */
  function TruncMod(a: int, b: int): int
    requires b != 0
  {
    a - TruncDiv(a, b) * b
  }

  /**
   Given the quotient `q` and remainder `m` of the magnitudes, the truncated
   quotient (`q` with the combined sign) leaves the remainder `m` with the
   dividend's sign.
   */
  lemma {:induction false} SignedRemainder(a: int, b: int, q: int, m: int)
    requires b != 0
    requires q >= 0 && 0 <= m < Abs(b)
    requires Abs(a) == q * Abs(b) + m
    ensures var qd: int := if (a < 0) == (b < 0) then q else -q;
            a - qd * b == (if a < 0 then -m else m)
  {
    var qd: int := if (a < 0) == (b < 0) then q else -q;
    if a < 0 && b < 0 {
      assert qd * b == -(q * Abs(b));
    } else if a < 0 {
      assert qd * b == -(q * Abs(b));
    } else if b < 0 {
      assert qd * b == q * Abs(b);
    } else {
      assert qd * b == q * Abs(b);
    }
  }

  /**
   The defining facts of truncating division: quotient times divisor plus
   remainder restores the dividend, the remainder is smaller than the divisor
   in magnitude and carries the dividend's sign, and the quotient's magnitude
   is the magnitudes' quotient.
   */
  lemma {:induction false} TruncDivModFacts(a: int, b: int)
    requires b != 0
    ensures TruncDiv(a, b) * b + TruncMod(a, b) == a
    ensures TruncMod(a, b) == (if a < 0 then -(Abs(a) % Abs(b)) else Abs(a) % Abs(b))
    ensures Abs(TruncDiv(a, b)) == Abs(a) / Abs(b)
    ensures Abs(TruncDiv(a, b)) * Abs(b) <= Abs(a)
  {
    var A, B := Abs(a), Abs(b);
    var q, m := A / B, A % B;
    assert A == q * B + m;
    SignedRemainder(a, b, q, m);
  }

  /** On non-negative dividends and positive divisors truncation and Euclidean division agree. */
  lemma {:induction false} TruncDivNonNegative(a: int, b: int)
    requires a >= 0 && b > 0
    ensures TruncDiv(a, b) == a / b && TruncMod(a, b) == a % b
  {
    TruncDivModFacts(a, b);
  }

  lemma {:induction false} ProductAtLeastFactor(q: int, B: int)
    requires q >= 0 && B >= 1
    ensures q <= q * B
    ensures B >= 2 ==> 2 * q <= q * B
  {
    assert q * B == q + q * (B - 1);
    assert q * (B - 1) >= 0;
    if B >= 2 {
      assert q * (B - 1) == q + q * (B - 2);
      assert q * (B - 2) >= 0;
    }
  }

  /** A quotient of 32-bit operands fits in 32 bits unless it is `INT_MIN / -1`. */
  lemma {:induction false} TruncDivInRange(a: int, b: int)
    requires IsInt32(a) && IsInt32(b)
    requires b != 0
    requires !(a == INT_MIN && b == -1)
    ensures IsInt32(TruncDiv(a, b)) && IsInt32(TruncMod(a, b))
  {
    TruncDivModFacts(a, b);
    var A, B := Abs(a), Abs(b);
    var q: int := Abs(TruncDiv(a, b));
    ProductAtLeastFactor(q, B);
    assert q <= A <= 0x8000_0000;
    if q == 0x8000_0000 {
      assert A == q;
      assert B == 1;
      assert a == INT_MIN && b == 1;
      assert TruncDiv(a, b) == -q;
    }
    assert Abs(a) % Abs(b) < B <= 0x8000_0000;
  }

  /**
   `divMod(a, b)` returns `{a / b, a % b}`.  Division by zero and `INT_MIN / -1`
   are undefined in C++, so the caller must avoid them.
   */
  function DivMod(a: int, b: int): (r: Pair)
    requires IsInt32(a) && IsInt32(b)
    requires b != 0
    requires !(a == INT_MIN && b == -1)
    ensures r.first * b + r.second == a
    ensures Abs(r.second) < Abs(b)
    ensures r.second == 0 || (r.second < 0 <==> a < 0)
    ensures Abs(r.first) * Abs(b) <= Abs(a)
    ensures IsInt32(r.first) && IsInt32(r.second)
    ensures a >= 0 && b > 0 ==> 0 <= r.second < b && r.first == a / b && r.second == a % b
  {
    TruncDivModFacts(a, b);
    TruncDivInRange(a, b);
    if a >= 0 && b > 0 then
      TruncDivNonNegative(a, b);
      Pair(TruncDiv(a, b), TruncMod(a, b))
    else
      Pair(TruncDiv(a, b), TruncMod(a, b))
  }

  /** `divMod(17, 5)` is `{3, 2}`. */
  lemma {:induction false} DemoDivMod()
    ensures DivMod(17, 5) == Pair(3, 2)
  {
  }

  /** For negative operands the quotient truncates toward zero: `-7 / 2 == -3`, `-7 % 2 == -1`. */
  lemma {:induction false} DemoDivModNegative()
    ensures DivMod(-7, 2) == Pair(-3, -1)
  {
  }

  // ---------------------------------------------------------------------
  // Interval merging
  // ---------------------------------------------------------------------

  /** `inner` lies inside `outer`. */
  predicate Within(inner: Pair, outer: Pair) {
    outer.first <= inner.first && inner.second <= outer.second
  }

  /** The integer `x` lies in the closed interval `iv`. */
  predicate InInterval(iv: Pair, x: int) {
    iv.first <= x <= iv.second
  }

  predicate WellFormed(iv: Pair) {
    iv.first <= iv.second
  }

  /** Some interval of `ivs` contains `x`. */
  ghost predicate Covered(ivs: seq<Pair>, x: int) {
    exists i :: 0 <= i < |ivs| && InInterval(ivs[i], x)
  }

  /**
   The unit segment from `x` to `x + 1` lies inside some interval of `ivs`.
   With integer endpoints this is what rules out bridging a gap: `[1, 3]` and
   `[4, 6]` cover every integer of `[1, 6]`, but not the segment from 3 to 4.
   */
  ghost predicate SegmentCovered(ivs: seq<Pair>, x: int) {
    exists i :: 0 <= i < |ivs| && ivs[i].first <= x && x + 1 <= ivs[i].second
  }

  /** Some interval of `ivs` contains all of `iv`. */
  ghost predicate Absorbed(ivs: seq<Pair>, iv: Pair) {
    exists j :: 0 <= j < |ivs| && Within(iv, ivs[j])
  }

  /** Consecutive intervals are separated: each ends strictly before the next begins. */
  predicate Separated(ivs: seq<Pair>) {
    forall j :: 0 <= j < |ivs| - 1 ==> ivs[j].second < ivs[j + 1].first
  }

  /** Appending a fresh interval keeps every earlier interval absorbed and every merged point covered. */
  lemma {:induction false} PushPreserves(merged: seq<Pair>, done: seq<Pair>, iv: Pair, intervals: seq<Pair>)
    requires forall i :: 0 <= i < |done| ==> Absorbed(merged, done[i])
    requires forall j, x :: 0 <= j < |merged| && InInterval(merged[j], x) ==> Covered(intervals, x)
    requires forall j, x :: 0 <= j < |merged| && merged[j].first <= x < merged[j].second ==> SegmentCovered(intervals, x)
    requires iv in intervals
    ensures forall i :: 0 <= i < |done + [iv]| ==> Absorbed(merged + [iv], (done + [iv])[i])
    ensures forall j, x :: 0 <= j < |merged + [iv]| && InInterval((merged + [iv])[j], x) ==> Covered(intervals, x)
    ensures forall j, x :: 0 <= j < |merged + [iv]| && (merged + [iv])[j].first <= x < (merged + [iv])[j].second ==>
              SegmentCovered(intervals, x)
  {
    var m' := merged + [iv];
    forall i | 0 <= i < |done + [iv]|
      ensures Absorbed(m', (done + [iv])[i])
    {
      if i < |done| {
        assert Absorbed(merged, done[i]);
        var j :| 0 <= j < |merged| && Within(done[i], merged[j]);
        assert m'[j] == merged[j];
      } else {
        assert Within(iv, m'[|merged|]);
      }
    }
    forall j, x | 0 <= j < |m'| && InInterval(m'[j], x)
      ensures Covered(intervals, x)
    {
      if j == |merged| {
        var i :| 0 <= i < |intervals| && intervals[i] == iv;
        assert InInterval(intervals[i], x);
      } else {
        assert m'[j] == merged[j];
      }
    }
    forall j, x | 0 <= j < |m'| && m'[j].first <= x < m'[j].second
      ensures SegmentCovered(intervals, x)
    {
      if j == |merged| {
        var i :| 0 <= i < |intervals| && intervals[i] == iv;
        assert intervals[i].first <= x && x + 1 <= intervals[i].second;
      } else {
        assert m'[j] == merged[j];
      }
    }
  }

  /** Stretching the last merged interval over an overlapping one keeps absorption and coverage. */
  lemma {:induction false} StretchPreserves(merged: seq<Pair>, done: seq<Pair>, iv: Pair, intervals: seq<Pair>)
    requires |merged| > 0
    requires merged[|merged| - 1].first <= iv.first <= merged[|merged| - 1].second
    requires forall i :: 0 <= i < |done| ==> Absorbed(merged, done[i])
    requires forall j, x :: 0 <= j < |merged| && InInterval(merged[j], x) ==> Covered(intervals, x)
    requires forall j, x :: 0 <= j < |merged| && merged[j].first <= x < merged[j].second ==> SegmentCovered(intervals, x)
    requires iv in intervals
    ensures var last := merged[|merged| - 1];
            var m' := merged[|merged| - 1 := Pair(last.first, if last.second >= iv.second then last.second else iv.second)];
            (forall i :: 0 <= i < |done + [iv]| ==> Absorbed(m', (done + [iv])[i]))
            && (forall j, x :: 0 <= j < |m'| && InInterval(m'[j], x) ==> Covered(intervals, x))
            && (forall j, x :: 0 <= j < |m'| && m'[j].first <= x < m'[j].second ==> SegmentCovered(intervals, x))
  {
    var last := merged[|merged| - 1];
    var m' := merged[|merged| - 1 := Pair(last.first, if last.second >= iv.second then last.second else iv.second)];
    forall i | 0 <= i < |done + [iv]|
      ensures Absorbed(m', (done + [iv])[i])
    {
      if i < |done| {
        assert Absorbed(merged, done[i]);
        var j :| 0 <= j < |merged| && Within(done[i], merged[j]);
        assert Within(done[i], m'[j]);
      } else {
        assert Within(iv, m'[|merged| - 1]);
      }
    }
    forall j, x | 0 <= j < |m'| && InInterval(m'[j], x)
      ensures Covered(intervals, x)
    {
      if j == |merged| - 1 && x > last.second {
        var i :| 0 <= i < |intervals| && intervals[i] == iv;
        assert InInterval(intervals[i], x);
      } else {
        assert InInterval(merged[j], x);
      }
    }
    forall j, x | 0 <= j < |m'| && m'[j].first <= x < m'[j].second
      ensures SegmentCovered(intervals, x)
    {
      if j == |merged| - 1 && x >= last.second {
        var i :| 0 <= i < |intervals| && intervals[i] == iv;
        assert intervals[i].first <= x && x + 1 <= intervals[i].second;
      } else {
        assert merged[j].first <= x < merged[j].second;
      }
    }
  }

  /**
   One step of the sweep: open a new merged interval when the last one ends
   before `iv` starts, otherwise stretch the last one's end over `iv`.
   */
  method SweepStep(merged: seq<Pair>, done: seq<Pair>, iv: Pair, intervals: seq<Pair>, ghost wellFormed: bool)
    returns (m': seq<Pair>)
    requires |done| > 0 ==> |merged| > 0
    requires Separated(merged)
    requires forall j :: 0 <= j < |merged| - 1 ==> merged[j].first <= merged[j + 1].first
    requires forall j :: 0 <= j < |merged| ==> merged[j].first <= iv.first
    requires wellFormed ==> WellFormed(iv) && forall j :: 0 <= j < |merged| ==> WellFormed(merged[j])
    requires forall i :: 0 <= i < |done| ==> Absorbed(merged, done[i])
    requires forall j, x :: 0 <= j < |merged| && InInterval(merged[j], x) ==> Covered(intervals, x)
    requires forall j, x :: 0 <= j < |merged| && merged[j].first <= x < merged[j].second ==> SegmentCovered(intervals, x)
    requires iv in intervals
    ensures (|merged| == 0 || merged[|merged| - 1].second < iv.first) ==> m' == merged + [iv]
    ensures !(|merged| == 0 || merged[|merged| - 1].second < iv.first) ==>
              && |m'| == |merged|
              && m'[..|merged| - 1] == merged[..|merged| - 1]
              && m'[|merged| - 1].first == merged[|merged| - 1].first
              && m'[|merged| - 1].second >= merged[|merged| - 1].second
              && m'[|merged| - 1].second >= iv.second
              && (m'[|merged| - 1].second == merged[|merged| - 1].second || m'[|merged| - 1].second == iv.second)
    ensures |merged| <= |m'| <= |merged| + 1 && |m'| > 0
    ensures Separated(m')
    ensures forall j :: 0 <= j < |m'| - 1 ==> m'[j].first <= m'[j + 1].first
    ensures forall j :: 0 <= j < |m'| ==> m'[j].first <= iv.first
    ensures wellFormed ==> forall j :: 0 <= j < |m'| ==> WellFormed(m'[j])
    ensures forall i :: 0 <= i < |done| ==> Absorbed(m', done[i])
    ensures Absorbed(m', iv)
    ensures forall j, x :: 0 <= j < |m'| && InInterval(m'[j], x) ==> Covered(intervals, x)
    ensures forall j, x :: 0 <= j < |m'| && m'[j].first <= x < m'[j].second ==> SegmentCovered(intervals, x)
  {
    if |merged| == 0 || merged[|merged| - 1].second < iv.first {
      PushPreserves(merged, done, iv, intervals);
      m' := merged + [iv];
    } else {
      var last := merged[|merged| - 1];
      StretchPreserves(merged, done, iv, intervals);
      m' := merged[|merged| - 1 := Pair(last.first, if last.second >= iv.second then last.second else iv.second)];
    }
    assert forall i :: 0 <= i < |done| ==> (done + [iv])[i] == done[i];
    assert (done + [iv])[|done|] == iv;
  }

  /**
   Sort the intervals, then sweep them: open a new merged interval when the
   last one ends before the current one starts, otherwise stretch the last
   one's end to cover the current interval.
   */
  method MergeIntervals(intervals: seq<Pair>) returns (merged: seq<Pair>)
    ensures |merged| <= |intervals|
    ensures |merged| == 0 <==> |intervals| == 0
    ensures Separated(merged)
    ensures forall j :: 0 <= j < |merged| - 1 ==> merged[j].first <= merged[j + 1].first
    ensures (forall i :: 0 <= i < |intervals| ==> WellFormed(intervals[i])) ==>
              (forall j :: 0 <= j < |merged| ==> WellFormed(merged[j]))
              && (forall j :: 0 <= j < |merged| - 1 ==> merged[j].first < merged[j + 1].first)
    ensures forall i :: 0 <= i < |intervals| ==> Absorbed(merged, intervals[i])
    ensures forall j, x :: 0 <= j < |merged| && InInterval(merged[j], x) ==> Covered(intervals, x)
    ensures forall j, x :: 0 <= j < |merged| && merged[j].first <= x < merged[j].second ==> SegmentCovered(intervals, x)
  {
    PairLeIsPreorder();
    var sorted := Sort(intervals, PairLe);
    StartsAscend(sorted);
    ghost var allWellFormed := forall i :: 0 <= i < |intervals| ==> WellFormed(intervals[i]);
    PermutationKeepsMembers(intervals, sorted);
    merged := Sweep(sorted, intervals, allWellFormed);
    AbsorbedPermutation(merged, sorted, intervals);
    SeparatedWellFormedAscends(merged);
  }

  /** The sweep over intervals already ordered by start. */
  method Sweep(sorted: seq<Pair>, intervals: seq<Pair>, ghost wellFormed: bool) returns (merged: seq<Pair>)
    requires forall k :: 0 < k < |sorted| ==> sorted[k - 1].first <= sorted[k].first
    requires forall k :: 0 <= k < |sorted| ==> sorted[k] in intervals
    requires wellFormed ==> forall k :: 0 <= k < |sorted| ==> WellFormed(sorted[k])
    ensures |merged| <= |sorted|
    ensures |sorted| > 0 ==> |merged| > 0
    ensures Separated(merged)
    ensures forall j :: 0 <= j < |merged| - 1 ==> merged[j].first <= merged[j + 1].first
    ensures wellFormed ==> forall j :: 0 <= j < |merged| ==> WellFormed(merged[j])
    ensures forall i :: 0 <= i < |sorted| ==> Absorbed(merged, sorted[i])
    ensures forall j, x :: 0 <= j < |merged| && InInterval(merged[j], x) ==> Covered(intervals, x)
    ensures forall j, x :: 0 <= j < |merged| && merged[j].first <= x < merged[j].second ==> SegmentCovered(intervals, x)
  {
    merged := [];
    var n := 0;
    while n < |sorted|
      invariant 0 <= n <= |sorted|
      invariant |merged| <= n
      invariant n > 0 ==> |merged| > 0
      invariant Separated(merged)
      invariant forall j :: 0 <= j < |merged| - 1 ==> merged[j].first <= merged[j + 1].first
      invariant n > 0 ==> forall j :: 0 <= j < |merged| ==> merged[j].first <= sorted[n - 1].first
      invariant wellFormed ==> forall j :: 0 <= j < |merged| ==> WellFormed(merged[j])
      invariant forall i :: 0 <= i < n ==> Absorbed(merged, sorted[i])
      invariant forall j, x :: 0 <= j < |merged| && InInterval(merged[j], x) ==> Covered(intervals, x)
      invariant forall j, x :: 0 <= j < |merged| && merged[j].first <= x < merged[j].second ==> SegmentCovered(intervals, x)
    {
      var iv, done := sorted[n], sorted[..n];
      assert forall i :: 0 <= i < n ==> Absorbed(merged, done[i]);
      merged := SweepStep(merged, done, iv, intervals, wellFormed);
      assert forall i :: 0 <= i < n + 1 ==> Absorbed(merged, sorted[i]) by {
        forall i | 0 <= i < n + 1 ensures Absorbed(merged, sorted[i]) {
          if i < n {
            assert done[i] == sorted[i];
          }
        }
      }
      n := n + 1;
    }
  }

  /** What absorbs every interval of `sorted` absorbs every interval of any permutation of it. */
  lemma {:induction false} AbsorbedPermutation(merged: seq<Pair>, sorted: seq<Pair>, intervals: seq<Pair>)
    requires multiset(sorted) == multiset(intervals)
    requires forall i :: 0 <= i < |sorted| ==> Absorbed(merged, sorted[i])
    ensures forall i :: 0 <= i < |intervals| ==> Absorbed(merged, intervals[i])
  {
    forall i | 0 <= i < |intervals|
      ensures Absorbed(merged, intervals[i])
    {
      assert intervals[i] in multiset(sorted);
      var k :| 0 <= k < |sorted| && sorted[k] == intervals[i];
    }
  }

  /** Intervals sorted by `PairLe` have non-decreasing starts. */
  lemma {:induction false} StartsAscend(sorted: seq<Pair>)
    requires SortedBy(sorted, PairLe)
    ensures forall k :: 0 < k < |sorted| ==> sorted[k - 1].first <= sorted[k].first
  {
    forall k | 0 < k < |sorted|
      ensures sorted[k - 1].first <= sorted[k].first
    {
      assert PairLe(sorted[k - 1], sorted[k]);
    }
  }

  /** Every element of a permutation of `a` is an element of `a`. */
  lemma {:induction false} PermutationKeepsMembers(a: seq<Pair>, b: seq<Pair>)
    requires multiset(a) == multiset(b)
    ensures forall k :: 0 <= k < |b| ==> b[k] in a
  {
    forall k | 0 <= k < |b|
      ensures b[k] in a
    {
      assert b[k] in multiset(b);
    }
  }

  /** Separated well-formed intervals have strictly ascending starts. */
  lemma {:induction false} SeparatedWellFormedAscends(ivs: seq<Pair>)
    requires Separated(ivs)
    ensures (forall j :: 0 <= j < |ivs| ==> WellFormed(ivs[j])) ==>
              forall j :: 0 <= j < |ivs| - 1 ==> ivs[j].first < ivs[j + 1].first
  {
  }

  /** Separated well-formed intervals are pairwise disjoint: an earlier one ends before any later one starts. */
  lemma {:induction false} SeparatedOrdered(ivs: seq<Pair>, i: nat, j: nat)
    requires Separated(ivs) && forall k :: 0 <= k < |ivs| ==> WellFormed(ivs[k])
    requires i < j < |ivs|
    ensures ivs[i].second < ivs[j].first
    decreases j - i
  {
    if i + 1 < j {
      SeparatedOrdered(ivs, i, j - 1);
      assert WellFormed(ivs[j - 1]);
    }
  }

  /** An interval containing `[lo, hi]` whose points are all covered, while `lo - 1` and `hi + 1` are not, is `[lo, hi]`. */
  lemma {:induction false} Tight(iv: Pair, lo: int, hi: int, ivs: seq<Pair>)
    requires Within(Pair(lo, hi), iv) && lo <= hi
    requires forall x :: InInterval(iv, x) ==> Covered(ivs, x)
    requires !Covered(ivs, lo - 1) && !Covered(ivs, hi + 1)
    ensures iv == Pair(lo, hi)
  {
    assert InInterval(iv, lo - 1) ==> Covered(ivs, lo - 1);
    assert InInterval(iv, hi + 1) ==> Covered(ivs, hi + 1);
  }

  /** The points the demo intervals `[1,3] [2,6] [8,10] [15,18]` cover. */
  lemma {:induction false} DemoCoverage(input: seq<Pair>)
    requires input == [Pair(1, 3), Pair(2, 6), Pair(8, 10), Pair(15, 18)]
    ensures forall x :: Covered(input, x) <==> 1 <= x <= 6 || 8 <= x <= 10 || 15 <= x <= 18
  {
    forall x
      ensures Covered(input, x) <==> 1 <= x <= 6 || 8 <= x <= 10 || 15 <= x <= 18
    {
      if 1 <= x <= 3 {
        assert InInterval(input[0], x);
      } else if 2 <= x <= 6 {
        assert InInterval(input[1], x);
      } else if 8 <= x <= 10 {
        assert InInterval(input[2], x);
      } else if 15 <= x <= 18 {
        assert InInterval(input[3], x);
      }
    }
  }

  /**
   Whatever satisfies the merge's guarantees on `[1,3] [2,6] [8,10] [15,18]`
   is `[1,6] [8,10] [15,18]`: the guarantees determine the merge completely.
   */
  lemma {:induction false} DemoMergeDetermined(input: seq<Pair>, merged: seq<Pair>)
    requires input == [Pair(1, 3), Pair(2, 6), Pair(8, 10), Pair(15, 18)]
    requires Separated(merged) && forall j :: 0 <= j < |merged| ==> WellFormed(merged[j])
    requires forall i :: 0 <= i < |input| ==> Absorbed(merged, input[i])
    requires forall j, x :: 0 <= j < |merged| && InInterval(merged[j], x) ==> Covered(input, x)
    ensures merged == [Pair(1, 6), Pair(8, 10), Pair(15, 18)]
  {
    SeparatedOrder(merged);
    var a, b, c := DemoComponents(input, merged);
    forall j | 0 <= j < |merged|
      ensures merged[j] == Pair(1, 6) || merged[j] == Pair(8, 10) || merged[j] == Pair(15, 18)
    {
      var x := merged[j].first;
      assert InInterval(merged[j], x) && Covered(input, x);
      if x <= 6 {
        SameInterval(merged, j, a, x);
      } else if x <= 10 {
        SameInterval(merged, j, b, x);
      } else {
        SameInterval(merged, j, c, x);
      }
    }
    OnlyThree(merged, a, b, c);
  }

  /** Each covered stretch of the demo input is exactly one merged interval. */
  lemma {:induction false} DemoComponents(input: seq<Pair>, merged: seq<Pair>) returns (a: nat, b: nat, c: nat)
    requires input == [Pair(1, 3), Pair(2, 6), Pair(8, 10), Pair(15, 18)]
    requires forall i, j :: 0 <= i < j < |merged| ==> merged[i].second < merged[j].first
    requires forall i :: 0 <= i < |input| ==> Absorbed(merged, input[i])
    requires forall j, x :: 0 <= j < |merged| && InInterval(merged[j], x) ==> Covered(input, x)
    ensures a < |merged| && b < |merged| && c < |merged|
    ensures merged[a] == Pair(1, 6) && merged[b] == Pair(8, 10) && merged[c] == Pair(15, 18)
    ensures forall x :: Covered(input, x) <==> 1 <= x <= 6 || 8 <= x <= 10 || 15 <= x <= 18
  {
    DemoCoverage(input);
    assert Absorbed(merged, input[0]) && Absorbed(merged, input[1]);
    assert Absorbed(merged, input[2]) && Absorbed(merged, input[3]);
    a :| 0 <= a < |merged| && Within(Pair(1, 3), merged[a]);
    var a' :| 0 <= a' < |merged| && Within(Pair(2, 6), merged[a']);
    b :| 0 <= b < |merged| && Within(Pair(8, 10), merged[b]);
    c :| 0 <= c < |merged| && Within(Pair(15, 18), merged[c]);
    SameInterval(merged, a, a', 2);
    Tight(merged[a], 1, 6, input);
    Tight(merged[b], 8, 10, input);
    Tight(merged[c], 15, 18, input);
  }

  /** A pairwise ordered sequence holding `[1,6]`, `[8,10]` and `[15,18]` and nothing else is those three in order. */
  lemma {:induction false} OnlyThree(merged: seq<Pair>, a: nat, b: nat, c: nat)
    requires forall i, j :: 0 <= i < j < |merged| ==> merged[i].second < merged[j].first
    requires a < |merged| && b < |merged| && c < |merged|
    requires merged[a] == Pair(1, 6) && merged[b] == Pair(8, 10) && merged[c] == Pair(15, 18)
    requires forall j :: 0 <= j < |merged| ==> merged[j] == Pair(1, 6) || merged[j] == Pair(8, 10) || merged[j] == Pair(15, 18)
    ensures merged == [Pair(1, 6), Pair(8, 10), Pair(15, 18)]
  {
    assert a < b < c;
    assert merged[0] == Pair(1, 6);
    assert merged[1] == Pair(8, 10);
    assert merged[2] == Pair(15, 18);
    assert merged[|merged| - 1] == Pair(15, 18);
  }

  /** Two intervals of a pairwise ordered sequence that share a point are the same interval. */
  lemma {:induction false} SameInterval(ivs: seq<Pair>, i: nat, j: nat, x: int)
    requires forall i, j :: 0 <= i < j < |ivs| ==> ivs[i].second < ivs[j].first
    requires i < |ivs| && j < |ivs| && InInterval(ivs[i], x) && InInterval(ivs[j], x)
    ensures i == j
  {
  }

  /** Separated well-formed intervals are pairwise disjoint and ordered. */
  lemma {:induction false} SeparatedOrder(ivs: seq<Pair>)
    requires Separated(ivs) && forall k :: 0 <= k < |ivs| ==> WellFormed(ivs[k])
    ensures forall i, j :: 0 <= i < j < |ivs| ==> ivs[i].second < ivs[j].first
  {
    forall i, j | 0 <= i < j < |ivs|
      ensures ivs[i].second < ivs[j].first
    {
      SeparatedOrdered(ivs, i, j);
    }
  }

  /** The interval demonstration: `{1,3} {2,6} {8,10} {15,18}` merges to `[1,6] [8,10] [15,18]`. */
  method DemoMergeIntervals() returns (merged: seq<Pair>)
    ensures merged == [Pair(1, 6), Pair(8, 10), Pair(15, 18)]
  {
    var input := [Pair(1, 3), Pair(2, 6), Pair(8, 10), Pair(15, 18)];
    assert forall i :: 0 <= i < |input| ==> WellFormed(input[i]);
    merged := MergeIntervals(input);
    DemoMergeDetermined(input, merged);
  }

  // ---------------------------------------------------------------------
  // Two-key ordering of employees
  // ---------------------------------------------------------------------

  /** `tuple<string, int, double>` of name, age and salary; the salary is kept as an integer. */
  datatype Employee = Employee(name: string, age: int, salary: int)

  /** The comparator: younger first; for equal ages, the higher salary first. */
  predicate EmployeeBefore(a: Employee, b: Employee) {
    if a.age != b.age then a.age < b.age else a.salary > b.salary
  }

  predicate EmployeeLe(a: Employee, b: Employee) {
    !EmployeeBefore(b, a)
  }

  lemma {:induction false} EmployeeLeIsPreorder()
    ensures TotalPreorder(EmployeeLe)
  {
  }

  /** `sort(employees.begin(), employees.end(), comparator)`. */
  function SortEmployees(employees: seq<Employee>): (r: seq<Employee>)
    ensures multiset(r) == multiset(employees)
    ensures forall i, j :: 0 <= i < j < |r| ==> !EmployeeBefore(r[j], r[i])
    ensures forall i, j :: 0 <= i < j < |r| ==>
              r[i].age < r[j].age || (r[i].age == r[j].age && r[i].salary >= r[j].salary)
  {
    EmployeeLeIsPreorder();
    var r := Sort(employees, EmployeeLe);
    assert forall i, j :: 0 <= i < j < |r| ==> EmployeeLe(r[i], r[j]);
    r
  }

  /**
   Alice (30, 50000), Bob (25, 60000) and Charlie (30, 55000), listed in any
   order: Bob first, then Charlie before Alice.
   */
  lemma {:induction false} DemoEmployeeOrder(input: seq<Employee>)
    requires multiset(input)
          == multiset{Employee("Bob", 25, 60000), Employee("Charlie", 30, 55000), Employee("Alice", 30, 50000)}
    ensures SortEmployees(input)
         == [Employee("Bob", 25, 60000), Employee("Charlie", 30, 55000), Employee("Alice", 30, 50000)]
  {
    var alice, bob, charlie := Employee("Alice", 30, 50000), Employee("Bob", 25, 60000), Employee("Charlie", 30, 55000);
    Ranked(bob, charlie, alice);
    SortedThree(input, SortEmployees(input), bob, charlie, alice);
  }

  /** Bob is youngest; Charlie and Alice share an age and Charlie earns more. */
  lemma {:induction false} Ranked(bob: Employee, charlie: Employee, alice: Employee)
    requires bob == Employee("Bob", 25, 60000)
    requires charlie == Employee("Charlie", 30, 55000)
    requires alice == Employee("Alice", 30, 50000)
    ensures EmployeeBefore(bob, charlie) && EmployeeBefore(charlie, alice) && EmployeeBefore(bob, alice)
  {
  }

  /**
   A sorted permutation of three employees each strictly before the next is
   those three in that order.
   */
  lemma {:induction false} SortedThree(input: seq<Employee>, r: seq<Employee>, a: Employee, b: Employee, c: Employee)
    requires multiset(input) == multiset{a, b, c} && multiset(r) == multiset(input)
    requires forall i, j :: 0 <= i < j < |r| ==> !EmployeeBefore(r[j], r[i])
    requires EmployeeBefore(a, b) && EmployeeBefore(b, c) && EmployeeBefore(a, c)
    ensures r == [a, b, c]
  {
    assert |r| == 3 by {
      assert |multiset(r)| == |multiset(input)|;
    }
    forall k | 0 <= k < 3
      ensures r[k] == a || r[k] == b || r[k] == c
    {
      assert r[k] in multiset(r);
    }
    assert a in multiset(r) && b in multiset(r) && c in multiset(r);
    assert r[0] == a;
    assert r[1] == b;
    assert r[2] == c;
  }
}
