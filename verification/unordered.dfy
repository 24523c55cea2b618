/**
 The hash containers `std::unordered_set`, `unordered_map`,
 `unordered_multimap` and `unordered_multiset`, modelled without buckets.
 Their iteration order is unspecified, so a model may pick any order; here a
 set is a duplicate-free sequence and a map a sequence of entries with
 duplicate-free keys, both in insertion order (new elements go at the end).
 A multimap is a bag of entries and a multiset a Dafny `multiset`.  Every
 operation is stated on the order-free reading (`Elems`, `View`, `multiset`),
 which is all the library promises.
 */
module Unordered {
  import opened Wrappers
  import opened Sorting
  import opened Entries
  import Frequency
  import Algorithms
  import OrderedSet

  /** No element occurs twice. */
  ghost predicate Distinct<T>(s: seq<T>) {
    forall i, j :: 0 <= i < j < |s| ==> s[i] != s[j]
  }

  /** A sequence is duplicate-free exactly when every element occurs once. */
  lemma {:induction false} DistinctIffSingleCopies<T>(s: seq<T>)
    ensures Distinct(s) <==> forall x :: x in s ==> multiset(s)[x] == 1
  {
    if |s| > 0 {
      var t := s[1..];
      assert s == [s[0]] + t;
      DistinctIffSingleCopies(t);
      assert Distinct(s) <==> s[0] !in t && Distinct(t) by {
        if s[0] in t {
          var k :| 0 <= k < |t| && t[k] == s[0];
          assert s[k + 1] == s[0];
        }
        if Distinct(s) {
          forall i, j | 0 <= i < j < |t| ensures t[i] != t[j] {
            assert t[i] == s[i + 1] && t[j] == s[j + 1];
          }
        }
        if s[0] !in t && Distinct(t) {
          forall i, j | 0 <= i < j < |s| ensures s[i] != s[j] {
            if i == 0 {
              assert s[j] == t[j - 1];
            } else {
              assert s[i] == t[i - 1] && s[j] == t[j - 1];
            }
          }
        }
      }
      if s[0] in t {
        assert multiset(s)[s[0]] >= 2;
      } else if !Distinct(t) {
        var x :| x in t && multiset(t)[x] != 1;
        assert multiset(s)[x] != 1;
      }
    }
  }

  /** A duplicate-free sequence has as many elements as its element set. */
  lemma {:induction false} DistinctCardinality<T>(s: seq<T>)
    requires Distinct(s)
    ensures |Elems(s)| == |s|
  {
    if |s| > 0 {
      var init := s[..|s| - 1];
      var last := s[|s| - 1];
      assert Distinct(init);
      DistinctCardinality(init);
      assert last !in init;
      assert Elems(s) == Elems(init) + {last};
    }
  }

  // ---------------------------------------------------------------------------
  // unordered_set
  // ---------------------------------------------------------------------------

  /** `us.insert(x)` / `us.emplace(x)`: a duplicate is ignored and reported as such. */
  function SetInsert<T(==)>(s: seq<T>, x: T): (r: (seq<T>, bool))
    requires Distinct(s)
    ensures Distinct(r.0)
    ensures Elems(r.0) == Elems(s) + {x}
    ensures r.1 <==> x !in s
    ensures !r.1 ==> r.0 == s
    ensures |r.0| == |Elems(r.0)|
  {
    var r := if x in s then (s, false) else (s + [x], true);
    DistinctCardinality(r.0);
    r
  }

  /** `us.count(x)`: the number of stored elements equal to `x`, never more than one. */
  function SetCount<T(==)>(s: seq<T>, x: T): (n: nat)
    requires Distinct(s)
    ensures n <= 1
    ensures n == 1 <==> x in s
  {
    Frequency.OccurrencesIsMultiplicity(s, x);
    DistinctIffSingleCopies(s);
    Frequency.Occurrences(s, x)
  }

  /** `us.erase(x)`: removes `x` if present and returns how many elements went. */
  function SetErase<T(==)>(s: seq<T>, x: T): (r: (seq<T>, nat))
    requires Distinct(s)
    ensures Distinct(r.0)
    ensures Elems(r.0) == Elems(s) - {x}
    ensures r.1 == SetCount(s, x)
    ensures |r.0| == |s| - r.1
  {
    match Algorithms.Find(s, x)
    case None => (s, 0)
    case Some(i) =>
      var t := s[..i] + s[i + 1..];
      DropDistinct(s, i);
      (t, 1)
  }

  lemma {:induction false} DropDistinct<T>(s: seq<T>, i: nat)
    requires Distinct(s) && i < |s|
    ensures Distinct(s[..i] + s[i + 1..])
    ensures Elems(s[..i] + s[i + 1..]) == Elems(s) - {s[i]}
  {
    var t := s[..i] + s[i + 1..];
    forall a, b | 0 <= a < b < |t| ensures t[a] != t[b] {
      var a' := if a < i then a else a + 1;
      var b' := if b < i then b else b + 1;
      assert t[a] == s[a'] && t[b] == s[b'];
    }
    forall y | y in Elems(s) - {s[i]} ensures y in Elems(t) {
      var k :| 0 <= k < |s| && s[k] == y;
      if k < i {
        assert t[k] == y;
      } else {
        assert t[k - 1] == y;
      }
    }
    forall y | y in Elems(t) ensures y in Elems(s) - {s[i]} {
      var k :| 0 <= k < |t| && t[k] == y;
      var k' := if k < i then k else k + 1;
      assert s[k'] == y && k' != i;
    }
  }

  /** Inserting an absent element and erasing it again restores the element set. */
  lemma {:induction false} SetInsertEraseRoundTrip<T>(s: seq<T>, x: T)
    requires Distinct(s) && x !in s
    ensures SetCount(SetInsert(s, x).0, x) == 1
    ensures Elems(SetErase(SetInsert(s, x).0, x).0) == Elems(s)
  {
  }

  /** `unordered_set<int> u(first, last)`: the elements inserted one by one, in order. */
  function SetFromList<T(==)>(xs: seq<T>): (r: seq<T>)
    ensures Distinct(r)
    ensures Elems(r) == Elems(xs)
    ensures |r| == |Elems(xs)|
  {
    if |xs| == 0 then []
    else
      var init := xs[..|xs| - 1];
      assert Elems(xs) == Elems(init) + {xs[|xs| - 1]};
      SetInsert(SetFromList(init), xs[|xs| - 1]).0
  }

  /**
   Insert 10, 20, 30, a second 10 and 40: the duplicate is ignored, so the
   size is 4; after erasing 40 it is 3 and 20 and 30 are still found.
   */
  lemma {:induction false} DemoUnorderedSet()
    ensures |SetFromList([10, 20, 30, 10, 40])| == 4
    ensures var s := SetErase(SetFromList([10, 20, 30, 10, 40]), 40).0;
      |s| == 3 && 20 in s && SetCount(s, 30) == 1 && 40 !in s
  {
    var xs := [10, 20, 30, 10, 40];
    assert Elems(xs) == {10, 20, 30, 40};
    assert |Elems(xs)| == 4;
  }

  /** De-duplication through a hash set keeps one copy of each element, in some order. */
  lemma {:induction false} DedupViaHashSetSorted(xs: seq<int>)
    ensures SortAscending(SetFromList(xs)) == OrderedSet.DedupViaSet(xs)
  {
    var u := SetFromList(xs);
    var s := SortAscending(u);
    DistinctIffSingleCopies(u);
    assert forall x :: x in s ==> x in multiset(s);
    DistinctIffSingleCopies(s);
    assert StrictlyAscending(s) by {
      forall i, j | 0 <= i < j < |s| ensures s[i] < s[j] {
        assert s[i] <= s[j];
      }
    }
    assert Elems(s) == Elems(u) by {
      assert forall x :: x in s <==> x in multiset(s);
      assert forall x :: x in u <==> x in multiset(u);
    }
    StrictlyAscendingUnique(s, OrderedSet.DedupViaSet(xs));
  }

  // ---------------------------------------------------------------------------
  // unordered_map
  // ---------------------------------------------------------------------------

  /** An unordered map holds each key at most once. */
  ghost predicate MapWellFormed<K, V>(m: seq<(K, V)>) {
    Distinct(Keys(m))
  }

  /** With duplicate-free keys the view binds each entry's key to that entry's value. */
  lemma {:induction false} MapViewAt<K, V>(m: seq<(K, V)>, i: nat)
    requires MapWellFormed(m) && i < |m|
    ensures m[i].0 in View(m) && View(m)[m[i].0] == m[i].1
    ensures m[i].0 !in View(m[..i]) && m[i].0 !in View(m[i + 1..])
  {
    ViewSplit(m, i);
    ViewKeys(m[..i]);
    ViewKeys(m[i + 1..]);
    assert Keys(m)[i] == m[i].0;
    forall j | 0 <= j < i ensures Keys(m[..i])[j] != m[i].0 {
      assert Keys(m[..i])[j] == Keys(m)[j];
    }
    var hi := m[i + 1..];
    forall j | 0 <= j < |hi| ensures Keys(hi)[j] != m[i].0 {
      assert Keys(hi)[j] == Keys(m)[i + 1 + j];
    }
  }

  /** The position of `k` among the entries, if it is bound. */
  function MapIndex<K(==), V>(m: seq<(K, V)>, k: K): (r: Option<nat>)
    ensures r.None? <==> k !in View(m)
    ensures r.Some? ==> r.value < |m| && m[r.value].0 == k
  {
    ViewKeys(m);
    Algorithms.Find(Keys(m), k)
  }

  /** `um.count(k)`: the number of entries with key `k`, never more than one. */
  function MapCount<K(==), V>(m: seq<(K, V)>, k: K): (n: nat)
    requires MapWellFormed(m)
    ensures n <= 1
    ensures n == 1 <==> k in View(m)
  {
    ViewKeys(m);
    SetCount(Keys(m), k)
  }

  /** `um.find(k)`: the stored value, or nothing when `k` is unbound. */
  function MapFind<K(==), V>(m: seq<(K, V)>, k: K): (r: Option<V>)
    requires MapWellFormed(m)
    ensures r.Some? <==> k in View(m)
    ensures r.Some? ==> r.value == View(m)[k]
  {
    match MapIndex(m, k)
    case None => None
    case Some(i) => MapViewAt(m, i); Some(m[i].1)
  }

  /** `um[k] = v`: overwrites the value of a bound key or appends a new entry. */
  function MapAssign<K(==), V>(m: seq<(K, V)>, k: K, v: V): (r: seq<(K, V)>)
    requires MapWellFormed(m)
    ensures MapWellFormed(r)
    ensures View(r) == View(m)[k := v]
    ensures |r| == if k in View(m) then |m| else |m| + 1
  {
    match MapIndex(m, k)
    case None =>
      MapAppend(m, k, v);
      m + [(k, v)]
    case Some(i) =>
      MapOverwrite(m, i, v);
      m[i := (k, v)]
  }

  lemma {:induction false} MapAppend<K, V>(m: seq<(K, V)>, k: K, v: V)
    requires MapWellFormed(m) && k !in View(m)
    ensures MapWellFormed(m + [(k, v)])
    ensures View(m + [(k, v)]) == View(m)[k := v]
  {
    ViewKeys(m);
    var r := m + [(k, v)];
    assert Keys(r) == Keys(m) + [k];
    assert r[..|r| - 1] == m;
  }

  lemma {:induction false} MapOverwrite<K, V>(m: seq<(K, V)>, i: nat, v: V)
    requires MapWellFormed(m) && i < |m|
    ensures MapWellFormed(m[i := (m[i].0, v)])
    ensures View(m[i := (m[i].0, v)]) == View(m)[m[i].0 := v]
  {
    MapViewAt(m, i);
    ViewOverwrite(m, i, v);
  }

  /** `um.insert({k, v})` / `um.emplace(k, v)`: adds the entry only when `k` is unbound. */
  function MapInsert<K(==), V>(m: seq<(K, V)>, k: K, v: V): (r: (seq<(K, V)>, bool))
    requires MapWellFormed(m)
    ensures MapWellFormed(r.0)
    ensures r.1 <==> k !in View(m)
    ensures View(r.0) == if r.1 then View(m)[k := v] else View(m)
  {
    if MapCount(m, k) == 1 then (m, false) else (MapAssign(m, k, v), true)
  }

  /** `um[k]` read: binds `k` to the default value first when it is unbound. */
  function MapSubscript<K(==), V>(m: seq<(K, V)>, k: K, dflt: V): (r: (seq<(K, V)>, V))
    requires MapWellFormed(m)
    ensures MapWellFormed(r.0)
    ensures k in View(r.0) && View(r.0)[k] == r.1
    ensures k in View(m) ==> r.0 == m
    ensures k !in View(m) ==> View(r.0) == View(m)[k := dflt]
  {
    match MapFind(m, k)
    case Some(v) => (m, v)
    case None => (MapAssign(m, k, dflt), dflt)
  }

  /** `um.erase(k)`: unbinds `k` and returns how many entries went. */
  function MapErase<K(==), V>(m: seq<(K, V)>, k: K): (r: (seq<(K, V)>, nat))
    requires MapWellFormed(m)
    ensures MapWellFormed(r.0)
    ensures View(r.0) == View(m) - {k}
    ensures r.1 == MapCount(m, k)
  {
    match MapIndex(m, k)
    case None => (m, 0)
    case Some(i) =>
      MapDrop(m, i);
      (m[..i] + m[i + 1..], 1)
  }

  lemma {:induction false} MapDrop<K, V>(m: seq<(K, V)>, i: nat)
    requires MapWellFormed(m) && i < |m|
    ensures MapWellFormed(m[..i] + m[i + 1..])
    ensures View(m[..i] + m[i + 1..]) == View(m) - {m[i].0}
  {
    KeysErase(m, i);
    DropDistinct(Keys(m), i);
    MapViewAt(m, i);
    ViewSplit(m, i);
    ViewConcat(m[..i], m[i + 1..]);
    RemoveBetweenDisjoint(View(m[..i]), View(m[i + 1..]), m[i].0, m[i].1);
  }

  /**
   `um[1] = "one"; um[2] = "two"; insert {3, "three"}; emplace(4, "four")`;
   then `um[2]` reads "two", key 1 is counted once, and erasing 4 leaves three entries.
   */
  lemma {:induction false} DemoUnorderedMap(empty: seq<(int, string)>)
    requires |empty| == 0
    ensures MapWellFormed(empty)
    ensures var m := MapInsert(MapInsert(MapAssign(MapAssign(empty, 1, "one"), 2, "two"), 3, "three").0, 4, "four").0;
      MapSubscript(m, 2, "").1 == "two" && MapCount(m, 1) == 1 && MapFind(m, 3) == Some("three")
      && |MapErase(m, 4).0| == 3 && View(MapErase(m, 4).0) == map[1 := "one", 2 := "two", 3 := "three"]
  {
    assert Keys(empty) == [];
    var m := MapInsert(MapInsert(MapAssign(MapAssign(empty, 1, "one"), 2, "two"), 3, "three").0, 4, "four").0;
    assert View(m) == map[1 := "one", 2 := "two", 3 := "three", 4 := "four"];
    DemoMapQueries(m);
  }

  /** The queries of the demo, on any well-formed map holding 1..4 spelled out. */
  lemma {:induction false} DemoMapQueries(m: seq<(int, string)>)
    requires MapWellFormed(m) && View(m) == map[1 := "one", 2 := "two", 3 := "three", 4 := "four"]
    ensures MapSubscript(m, 2, "").1 == "two" && MapCount(m, 1) == 1 && MapFind(m, 3) == Some("three")
    ensures |MapErase(m, 4).0| == 3 && View(MapErase(m, 4).0) == map[1 := "one", 2 := "two", 3 := "three"]
  {
    var r := MapErase(m, 4).0;
    assert View(r) == map[1 := "one", 2 := "two", 3 := "three"];
    MapSizeIsKeyCount(r);
    assert View(r).Keys == {1, 2, 3};
  }

  /** `size()`: a well-formed map has one entry per key of its view. */
  lemma {:induction false} MapSizeIsKeyCount<K, V>(m: seq<(K, V)>)
    requires MapWellFormed(m)
    ensures |View(m).Keys| == |m|
  {
    ViewKeySet(m);
    DistinctCardinality(Keys(m));
  }

  // ---------------------------------------------------------------------------
  // unordered_multimap and unordered_multiset
  // ---------------------------------------------------------------------------

  /** `umm.insert({k, v})`: one more entry; the entries already stored stay. */
  function MultimapInsert<K(==,!new), V>(mm: seq<(K, V)>, k: K, v: V): (r: seq<(K, V)>)
    ensures multiset(r) == multiset(mm) + multiset{(k, v)}
    ensures forall key :: ValuesFor(r, key) == ValuesFor(mm, key) + (if key == k then [v] else [])
  {
    var r := mm + [(k, v)];
    forall key ensures ValuesFor(r, key) == ValuesFor(mm, key) + (if key == k then [v] else []) {
      ValuesForConcat(mm, [(k, v)], key);
      assert ValuesFor([(k, v)], key) == (if key == k then [v] else []) + ValuesFor([(k, v)][1..], key);
    }
    r
  }

  /** `umm.count(k)`: a scan of the keys for `k`. */
  function MultimapCount<K(==), V>(mm: seq<(K, V)>, k: K): (n: nat)
    ensures n == |ValuesFor(mm, k)|
    ensures n == multiset(Keys(mm))[k]
  {
    Frequency.OccurrencesIsMultiplicity(Keys(mm), k);
    KeyScanCountsValues(mm, k);
    Frequency.Occurrences(Keys(mm), k)
  }

  lemma {:induction false} KeyScanCountsValues<K, V>(mm: seq<(K, V)>, k: K)
    ensures Frequency.Occurrences(Keys(mm), k) == |ValuesFor(mm, k)|
  {
    if |mm| > 0 {
      assert Keys(mm)[1..] == Keys(mm[1..]);
      KeyScanCountsValues(mm[1..], k);
    }
  }

  /** `umm.equal_range(k)`: the values stored under `k`, in no particular order. */
  function MultimapEqualRange<K(==), V(!new)>(mm: seq<(K, V)>, k: K): (r: multiset<V>)
    ensures forall v :: r[v] == multiset(mm)[(k, v)]
    ensures |r| == MultimapCount(mm, k)
  {
    forall v ensures multiset(ValuesFor(mm, k))[v] == multiset(mm)[(k, v)] {
      ValuesForMultiplicity(mm, k, v);
    }
    multiset(ValuesFor(mm, k))
  }

  lemma {:induction false} ValuesForMultiplicity<K, V>(mm: seq<(K, V)>, k: K, v: V)
    ensures multiset(ValuesFor(mm, k))[v] == multiset(mm)[(k, v)]
  {
    if |mm| > 0 {
      assert mm == [mm[0]] + mm[1..];
      ValuesForMultiplicity(mm[1..], k, v);
      var h := if mm[0].0 == k then [mm[0].1] else [];
      assert ValuesFor(mm, k) == h + ValuesFor(mm[1..], k);
    }
  }

  /** {1:"one"}, {1:"uno"}, {2:"two"}, {2:"dos"}: key 1 is counted twice, with values "one" and "uno". */
  lemma {:induction false} DemoUnorderedMultimap(empty: seq<(int, string)>)
    requires |empty| == 0
    ensures var mm := MultimapInsert(MultimapInsert(MultimapInsert(MultimapInsert(empty, 1, "one"), 1, "uno"), 2, "two"), 2, "dos");
      MultimapCount(mm, 1) == 2 && MultimapEqualRange(mm, 1) == multiset{"one", "uno"}
  {
    var mm := MultimapInsert(MultimapInsert(MultimapInsert(MultimapInsert(empty, 1, "one"), 1, "uno"), 2, "two"), 2, "dos");
    assert ValuesFor(empty, 1) == [];
    assert ValuesFor(mm, 1) == ["one", "uno"];
  }

  /** `ums.erase(x)`: removes every copy of `x` and returns how many there were. */
  function MultisetEraseAll<T(==,!new)>(ms: multiset<T>, x: T): (r: (multiset<T>, nat))
    ensures x !in r.0
    ensures forall y :: y != x ==> r.0[y] == ms[y]
    ensures r.1 == ms[x]
    ensures |r.0| + r.1 == |ms|
  {
    var rest := ms[x := 0];
    assert ms == rest + multiset{}[x := ms[x]];
    (rest, ms[x])
  }

  /** The hash multiset and the ordered multiset erase the same copies. */
  lemma {:induction false} MultisetEraseAllAgrees(s: seq<int>, x: int)
    requires Ascending(s)
    ensures multiset(OrderedSet.MsEraseAll(s, x).0) == MultisetEraseAll(multiset(s), x).0
    ensures OrderedSet.MsEraseAll(s, x).1 == MultisetEraseAll(multiset(s), x).1
  {
  }

  /** {5, 2, 8, 2, 9, 5, 1}: 5 occurs twice; erasing it leaves {2, 8, 2, 9, 1}. */
  lemma {:induction false} DemoUnorderedMultiset()
    ensures var ms := multiset{5, 2, 8, 2, 9, 5, 1};
      ms[5] == 2 && MultisetEraseAll(ms, 5) == (multiset{2, 8, 2, 9, 1}, 2)
  {
    var ms := multiset{5, 2, 8, 2, 9, 5, 1};
    assert ms == multiset{2, 8, 2, 9, 1} + multiset{5, 5};
    assert ms[5 := 0] == multiset{2, 8, 2, 9, 1};
  }

  // ---------------------------------------------------------------------------
  // Hash-container idioms
  // ---------------------------------------------------------------------------

  /** Some earlier element completes `nums[i]` to `target`. */
  ghost predicate HasEarlierComplement(nums: seq<int>, target: int, i: nat)
    requires i < |nums|
  {
    exists j :: 0 <= j < i && nums[j] + nums[i] == target
  }

  /**
   Two-sum with a seen-map: scanning left to right, look the complement of
   `nums[i]` up among the values already seen, then record `nums[i]` at
   index `i` (a repeated value keeps its latest index).  The scan stops at
   the first `i` whose complement was seen and reports `(seen[complement], i)`.
   */
  method TwoSum(nums: seq<int>, target: int) returns (r: Option<(nat, nat)>)
    ensures r.Some? ==> r.value.0 < r.value.1 < |nums|
    ensures r.Some? ==> nums[r.value.0] + nums[r.value.1] == target
    ensures r.Some? ==> forall i :: 0 <= i < r.value.1 ==> !HasEarlierComplement(nums, target, i)
    ensures r.Some? ==> forall j :: r.value.0 < j < r.value.1 ==> nums[j] + nums[r.value.1] != target
    ensures r.None? <==> forall i :: 0 <= i < |nums| ==> !HasEarlierComplement(nums, target, i)
  {
    var seen: map<int, nat> := map[];
    var i := 0;
    while i < |nums|
      invariant i <= |nums|
      invariant SeenLatest(nums, seen, i)
      invariant forall i' :: 0 <= i' < i ==> !HasEarlierComplement(nums, target, i')
    {
      var complement := target - nums[i];
      if complement in seen {
        LatestComplement(nums, target, seen, i);
        return Some((seen[complement], i));
      }
      NoComplementSeen(nums, target, seen, i);
      SeenStep(nums, seen, i);
      seen := seen[nums[i] := i];
      i := i + 1;
    }
    return None;
  }

  /** The loop's map: exactly the values of `nums[..i]`, each with the latest index holding it. */
  ghost predicate SeenLatest(nums: seq<int>, seen: map<int, nat>, i: nat)
    requires i <= |nums|
  {
    && (forall v :: v in seen <==> v in nums[..i])
    && (forall v :: v in seen ==> seen[v] < i && nums[seen[v]] == v)
    && (forall v, j :: v in seen && seen[v] < j < i ==> nums[j] != v)
  }

  /** `seen[nums[i]] = i` records `nums[i]` at its latest index. */
  lemma {:induction false} SeenStep(nums: seq<int>, seen: map<int, nat>, i: nat)
    requires i < |nums| && SeenLatest(nums, seen, i)
    ensures SeenLatest(nums, seen[nums[i] := i], i + 1)
  {
    assert nums[..i + 1] == nums[..i] + [nums[i]];
  }

  /** A complement missing from the map occurs nowhere before `i`. */
  lemma {:induction false} NoComplementSeen(nums: seq<int>, target: int, seen: map<int, nat>, i: nat)
    requires i < |nums| && SeenLatest(nums, seen, i) && target - nums[i] !in seen
    ensures !HasEarlierComplement(nums, target, i)
  {
    forall j | 0 <= j < i ensures nums[j] + nums[i] != target {
      assert nums[j] == nums[..i][j];
    }
  }

  /** A complement in the map completes `nums[i]`, and no later index before `i` does. */
  lemma {:induction false} LatestComplement(nums: seq<int>, target: int, seen: map<int, nat>, i: nat)
    requires i < |nums| && SeenLatest(nums, seen, i) && target - nums[i] in seen
    ensures seen[target - nums[i]] < i
    ensures nums[seen[target - nums[i]]] + nums[i] == target
    ensures HasEarlierComplement(nums, target, i)
    ensures forall j :: seen[target - nums[i]] < j < i ==> nums[j] + nums[i] != target
  {
    var j := seen[target - nums[i]];
    assert nums[j] + nums[i] == target;
  }

  /** nums = {2, 7, 11, 15}, target 9: indices 0 and 1. */
  method DemoTwoSum() returns (r: Option<(nat, nat)>)
    ensures r == Some((0, 1))
  {
    var nums := [2, 7, 11, 15];
    r := TwoSum(nums, 9);
    assert HasEarlierComplement(nums, 9, 1) by {
      assert nums[0] + nums[1] == 9;
    }
  }

  /**
   Common-element check: put `a1` into a hash set and scan `a2`, stopping at
   the first element the set contains.
   */
  method HasCommon(a1: seq<int>, a2: seq<int>) returns (found: bool)
    ensures found <==> exists x :: x in a2 && x in a1
  {
    var set1 := SetFromList(a1);
    found := false;
    var k := 0;
    while k < |a2|
      invariant k <= |a2|
      invariant forall j :: 0 <= j < k ==> a2[j] !in a1
    {
      if SetCount(set1, a2[k]) == 1 {
        assert a2[k] in Elems(set1);
        found := true;
        return;
      }
      assert a2[k] !in Elems(set1);
      k := k + 1;
    }
  }

  /** {1, 2, 3} and {4, 5, 3} share 3. */
  method DemoHasCommon() returns (found: bool)
    ensures found
  {
    found := HasCommon([1, 2, 3], [4, 5, 3]);
    assert [4, 5, 3][2] == 3 && [1, 2, 3][2] == 3;
    assert 3 in [4, 5, 3] && 3 in [1, 2, 3];
  }
}
