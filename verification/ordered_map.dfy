/**
 `std::map<int, V>` and `std::multimap<int, V>`, modelled by their iteration
 order: a sequence of key/value entries ascending by key, strictly for a
 map.  `View` reads a map as the mathematical finite map it stands for, and
 every map operation is stated as the corresponding operation on that view.
 */
module OrderedMap {
  import opened Wrappers
  import opened Sorting
  import opened SortedSearch
  import opened Entries
  import OrderedSet
  import ListOps

  /** A map iterates in strictly ascending key order, so no key occurs twice. */
  predicate WellFormed<V>(m: seq<(int, V)>) {
    StrictlyAscending(Keys(m))
  }

  /** In a well-formed map the view binds each entry's key to that entry's value. */
  lemma {:induction false} ViewAt<V>(m: seq<(int, V)>, i: nat)
    requires WellFormed(m) && i < |m|
    ensures m[i].0 in View(m) && View(m)[m[i].0] == m[i].1
  {
    ViewSplit(m, i);
    KeysAbove(m, i);
  }

  /** In a well-formed map the key at `i` is bound neither before nor after `i`. */
  lemma {:induction false} KeysAbove<V>(m: seq<(int, V)>, i: nat)
    requires WellFormed(m) && i < |m|
    ensures m[i].0 !in View(m[i + 1..]) && m[i].0 !in View(m[..i])
  {
    var lo, hi := m[..i], m[i + 1..];
    ViewKeys(hi);
    ViewKeys(lo);
    forall j | 0 <= j < |hi|
      ensures Keys(hi)[j] != m[i].0
    {
      assert hi[j] == m[i + 1 + j];
    }
    forall j | 0 <= j < |lo|
      ensures Keys(lo)[j] != m[i].0
    {
      assert lo[j] == m[j];
    }
  }

  /** The view of a well-formed map binds exactly its keys, each to the value stored with it. */
  lemma {:induction false} ViewFacts<V>(m: seq<(int, V)>)
    requires WellFormed(m)
    ensures forall k :: k in View(m) <==> k in Keys(m)
    ensures forall i :: 0 <= i < |m| ==> View(m)[m[i].0] == m[i].1
  {
    ViewKeys(m);
    forall i | 0 <= i < |m|
      ensures View(m)[m[i].0] == m[i].1
    {
      ViewAt(m, i);
    }
  }

  // --------------------------------------------------- entry sequences

  /** Adding an entry for an absent key at its sorted place extends the view by that key. */
  lemma {:induction false} InsertEntry<V>(m: seq<(int, V)>, i: nat, k: int, v: V)
    requires WellFormed(m) && i <= |m|
    requires forall j :: 0 <= j < i ==> m[j].0 < k
    requires forall j :: i <= j < |m| ==> m[j].0 > k
    ensures WellFormed(m[..i] + [(k, v)] + m[i..])
    ensures View(m[..i] + [(k, v)] + m[i..]) == View(m)[k := v]
  {
    KeysInsert(m, i, (k, v));
    OrderedSet.InsertIndex(Keys(m), i, k);
    InsertEntryView(m, i, k, v);
  }

  lemma {:induction false} InsertEntryView<V>(m: seq<(int, V)>, i: nat, k: int, v: V)
    requires i <= |m|
    requires forall j :: i <= j < |m| ==> m[j].0 > k
    ensures View(m[..i] + [(k, v)] + m[i..]) == View(m)[k := v]
  {
    var lo, hi := m[..i], m[i..];
    assert m == lo + hi;
    ViewConcat(lo, hi);
    ViewConcat(lo + [(k, v)], hi);
    ViewConcat(lo, [(k, v)]);
    assert View([(k, v)]) == map[k := v];
    KeyAbsentAbove(m, i, k);
    UpdateBeforeDisjoint(View(lo), View(hi), k, v);
  }

  lemma {:induction false} KeyAbsentAbove<V>(m: seq<(int, V)>, i: nat, k: int)
    requires i <= |m|
    requires forall j :: i <= j < |m| ==> m[j].0 > k
    ensures k !in View(m[i..])
  {
    var hi := m[i..];
    ViewKeys(hi);
    forall j | 0 <= j < |hi|
      ensures Keys(hi)[j] != k
    {
      assert hi[j] == m[i + j];
    }
  }

  /** Removing the entry at `i` removes that key, and only it, from the view. */
  lemma {:induction false} EraseEntry<V>(m: seq<(int, V)>, i: nat)
    requires WellFormed(m) && i < |m|
    ensures WellFormed(m[..i] + m[i + 1..])
    ensures View(m[..i] + m[i + 1..]) == View(m) - {m[i].0}
  {
    KeysErase(m, i);
    OrderedSet.EraseIndex(Keys(m), i);
    ViewSplit(m, i);
    KeysAbove(m, i);
    ViewConcat(m[..i], m[i + 1..]);
    RemoveBetweenDisjoint(View(m[..i]), View(m[i + 1..]), m[i].0, m[i].1);
  }

  /** Overwriting the value at `i` rebinds that key and keeps every other binding. */
  lemma {:induction false} UpdateEntry<V>(m: seq<(int, V)>, i: nat, v: V)
    requires WellFormed(m) && i < |m|
    ensures WellFormed(m[i := (m[i].0, v)])
    ensures View(m[i := (m[i].0, v)]) == View(m)[m[i].0 := v]
  {
    KeysAbove(m, i);
    ViewOverwrite(m, i, v);
  }

  // ------------------------------------------------------------- map

  /** `find(k)`: the position of the entry for `k`, or `None` for `end()`. */
  function Find<V>(m: seq<(int, V)>, k: int): (r: Option<nat>)
    requires WellFormed(m)
    ensures r.Some? <==> k in View(m)
    ensures r.Some? ==> r.value < |m| && m[r.value] == (k, View(m)[k])
  {
    var i := LowerBoundIndex(Keys(m), k);
    LowerBoundFinds(Keys(m), k);
    ViewFacts(m);
    if i < |m| && m[i].0 == k then Some(i) else None
  }

  /** `count(k)`: 1 when `k` is bound and 0 otherwise. */
  function Count<V>(m: seq<(int, V)>, k: int): (n: nat)
    requires WellFormed(m)
    ensures n <= 1
    ensures n == 1 <==> k in View(m)
  {
    if Find(m, k).Some? then 1 else 0
  }

  /** `at(k)`: the bound value, or `out_of_range` when `k` is unbound; the map itself is never changed. */
  function At<V>(m: seq<(int, V)>, k: int): (r: Result<V>)
    requires WellFormed(m)
    ensures r.Ok? <==> k in View(m)
    ensures r.Ok? ==> r.value == View(m)[k]
    ensures r.Err? ==> r.error == OutOfRange
  {
    match Find(m, k)
    case Some(i) => Ok(m[i].1)
    case None => Err(OutOfRange)
  }

  /**
   `m[k]` as an rvalue: a bound key yields its value and leaves the map
   alone; an unbound key is first inserted with the default value `dflt`,
   which is then returned.
   */
  function Subscript<V>(m: seq<(int, V)>, k: int, dflt: V): (r: (seq<(int, V)>, V))
    requires WellFormed(m)
    ensures WellFormed(r.0)
    ensures k in View(m) ==> r.0 == m && r.1 == View(m)[k]
    ensures k !in View(m) ==> View(r.0) == View(m)[k := dflt] && r.1 == dflt
    ensures |r.0| == if k in View(m) then |m| else |m| + 1
  {
    match Find(m, k)
    case Some(i) => (m, m[i].1)
    case None =>
      var i := LowerBoundIndex(Keys(m), k);
      InsertEntry(m, i, k, dflt);
      KeysInsert(m, i, (k, dflt));
      (m[..i] + [(k, dflt)] + m[i..], dflt)
  }

  /** `m[k] = v`: binds `k` to `v`, whether or not it was bound, and leaves every other key alone. */
  function Assign<V>(m: seq<(int, V)>, k: int, v: V): (r: seq<(int, V)>)
    requires WellFormed(m)
    ensures WellFormed(r)
    ensures View(r) == View(m)[k := v]
  {
    match Find(m, k)
    case Some(i) =>
      UpdateEntry(m, i, v);
      m[i := (k, v)]
    case None =>
      var i := LowerBoundIndex(Keys(m), k);
      InsertEntry(m, i, k, v);
      m[..i] + [(k, v)] + m[i..]
  }

  /** `insert({k, v})`: adds the binding only when `k` is unbound; the flag says whether it did. */
  function Insert<V>(m: seq<(int, V)>, k: int, v: V): (r: (seq<(int, V)>, bool))
    requires WellFormed(m)
    ensures WellFormed(r.0)
    ensures r.1 <==> k !in View(m)
    ensures View(r.0) == if r.1 then View(m)[k := v] else View(m)
  {
    if Find(m, k).Some? then (m, false) else (Assign(m, k, v), true)
  }

  /** `erase(k)`: unbinds `k` and nothing else, returning how many entries went (0 or 1). */
  function Erase<V>(m: seq<(int, V)>, k: int): (r: (seq<(int, V)>, nat))
    requires WellFormed(m)
    ensures WellFormed(r.0)
    ensures View(r.0) == View(m) - {k}
    ensures r.1 == 1 <==> k in View(m)
    ensures r.1 <= 1
  {
    match Find(m, k)
    case Some(i) =>
      EraseEntry(m, i);
      (m[..i] + m[i + 1..], 1)
    case None => (m, 0)
  }

  /** Check-then-insert: write `v` under `k` only when `find(k) == end()`. */
  function InsertIfAbsent<V>(m: seq<(int, V)>, k: int, v: V): (r: seq<(int, V)>)
    requires WellFormed(m)
    ensures WellFormed(r)
    ensures View(r) == if k in View(m) then View(m) else View(m)[k := v]
  {
    if Find(m, k).None? then Assign(m, k, v) else m
  }

  /** Check-then-insert agrees with `insert`, which also never overwrites. */
  lemma {:induction false} InsertIfAbsentIsInsert<V>(m: seq<(int, V)>, k: int, v: V)
    requires WellFormed(m)
    ensures View(InsertIfAbsent(m, k, v)) == View(Insert(m, k, v).0)
  {
  }

  /** The `cache` walk: check-then-insert 100 under 5, then `cache[5] = 200`, leaves 5 bound to 200. */
  lemma {:induction false} DemoCache()
    ensures View(Assign(InsertIfAbsent([], 5, 100), 5, 200)) == map[5 := 200]
  {
  }

  /** `m[10]` on a map without 10 inserts the default (the empty string) and grows the map by one. */
  lemma {:induction false} DemoSubscriptDefault(m: seq<(int, string)>)
    requires WellFormed(m) && 10 !in View(m)
    ensures Subscript(m, 10, "").1 == ""
    ensures |Subscript(m, 10, "").0| == |m| + 1
    ensures View(Subscript(m, 10, "").0)[10] == ""
  {
  }

  // ----------------------------------------------------------- bounds

  /** `lower_bound(k)`: the entry with the least key not below `k`, or `None` for `end()`. */
  function LowerBound<V>(m: seq<(int, V)>, k: int): (r: Option<(int, V)>)
    requires WellFormed(m)
    ensures r.Some? ==> r.value.0 in View(m) && r.value.0 >= k && r.value.1 == View(m)[r.value.0]
    ensures r.Some? ==> forall x :: x in View(m) && x >= k ==> r.value.0 <= x
    ensures r.None? <==> forall x :: x in View(m) ==> x < k
  {
    var i := LowerBoundIndex(Keys(m), k);
    ViewFacts(m);
    if i < |m| then Some(m[i]) else None
  }

  /** `upper_bound(k)`: the entry with the least key above `k`, or `None` for `end()`. */
  function UpperBound<V>(m: seq<(int, V)>, k: int): (r: Option<(int, V)>)
    requires WellFormed(m)
    ensures r.Some? ==> r.value.0 in View(m) && r.value.0 > k && r.value.1 == View(m)[r.value.0]
    ensures r.Some? ==> forall x :: x in View(m) && x > k ==> r.value.0 <= x
    ensures r.None? <==> forall x :: x in View(m) ==> x <= k
  {
    var i := UpperBoundIndex(Keys(m), k);
    ViewFacts(m);
    if i < |m| then Some(m[i]) else None
  }

  /** `equal_range(k)`: the entries between the two bounds, which in a map is the one binding of `k` or nothing. */
  function EqualRange<V>(m: seq<(int, V)>, k: int): (r: seq<(int, V)>)
    requires WellFormed(m)
    ensures r == if k in View(m) then [(k, View(m)[k])] else []
  {
    var lb, ub := LowerBoundIndex(Keys(m), k), UpperBoundIndex(Keys(m), k);
    EqualRangeIsCopies(Keys(m), k);
    var ks := OrderedSet.EqualRange(Keys(m), k);
    assert ks == Keys(m)[lb..ub] == Keys(m[lb..ub]);
    ViewFacts(m);
    m[lb..ub]
  }

  /** `nums = {1:a, 3:b, 5:c, 7:d, 9:e}`: lower_bound(4) is 5:c, upper_bound(5) is 7:d, equal_range(5) is 5:c. */
  lemma {:induction false} DemoBounds(nums: seq<(int, string)>)
    requires nums == [(1, "a"), (3, "b"), (5, "c"), (7, "d"), (9, "e")]
    ensures WellFormed(nums)
    ensures LowerBound(nums, 4) == Some((5, "c"))
    ensures UpperBound(nums, 5) == Some((7, "d"))
    ensures EqualRange(nums, 5) == [(5, "c")]
  {
    assert Keys(nums) == [1, 3, 5, 7, 9];
    IncreasingIsStrictlyAscending([1, 3, 5, 7, 9]);
    assert nums[2] == (5, "c");
  }

  /** Iterating from `rbegin()` to `rend()`, the order a `map<int, V, greater<int>>` also uses: keys strictly descending. */
  function Descending<V>(m: seq<(int, V)>): (r: seq<(int, V)>)
    requires WellFormed(m)
    ensures |r| == |m|
    ensures forall i, j :: 0 <= i < j < |r| ==> r[i].0 > r[j].0
    ensures forall i :: 0 <= i < |r| ==> r[i] == m[|m| - 1 - i]
  {
    ListOps.Reverse(m)
  }

  /** `map<int, string, greater<int>> descMap = {{1, "one"}, {2, "two"}, {3, "three"}}` iterates 3, 2, 1. */
  lemma {:induction false} DemoDescending()
    ensures WellFormed([(1, "one"), (2, "two"), (3, "three")])
    ensures Descending([(1, "one"), (2, "two"), (3, "three")]) == [(3, "three"), (2, "two"), (1, "one")]
  {
    assert Keys([(1, "one"), (2, "two"), (3, "three")]) == [1, 2, 3];
    IncreasingIsStrictlyAscending([1, 2, 3]);
  }

  // -------------------------------------------------------- multimap

  /** A multimap iterates in ascending key order, equal keys allowed. */
  predicate MultiWellFormed<V>(mm: seq<(int, V)>) {
    Ascending(Keys(mm))
  }

  /** `multimap::insert({k, v})`: the new entry goes after every entry whose key is not above `k`. */
  function MmInsert<V>(mm: seq<(int, V)>, k: int, v: V): (r: seq<(int, V)>)
    requires MultiWellFormed(mm)
    ensures MultiWellFormed(r)
    ensures |r| == |mm| + 1
    ensures multiset(r) == multiset(mm) + multiset{(k, v)}
    ensures forall key :: ValuesFor(r, key) == ValuesFor(mm, key) + if key == k then [v] else []
  {
    var i := UpperBoundIndex(Keys(mm), k);
    MmInsertFacts(mm, i, k, v);
    mm[..i] + [(k, v)] + mm[i..]
  }

  lemma {:induction false} MmInsertFacts<V>(mm: seq<(int, V)>, i: nat, k: int, v: V)
    requires MultiWellFormed(mm) && i == UpperBoundIndex(Keys(mm), k)
    ensures MultiWellFormed(mm[..i] + [(k, v)] + mm[i..])
    ensures multiset(mm[..i] + [(k, v)] + mm[i..]) == multiset(mm) + multiset{(k, v)}
    ensures forall key :: ValuesFor(mm[..i] + [(k, v)] + mm[i..], key) == ValuesFor(mm, key) + if key == k then [v] else []
  {
    KeysInsert(mm, i, (k, v));
    assert mm == mm[..i] + mm[i..];
    assert Keys(mm[..i] + [(k, v)] + mm[i..]) == OrderedSet.MsInsert(Keys(mm), k);
    forall key
      ensures ValuesFor(mm[..i] + [(k, v)] + mm[i..], key) == ValuesFor(mm, key) + if key == k then [v] else []
    {
      ValuesForInsert(mm, i, k, v, key);
    }
  }

  lemma {:induction false} ValuesForInsert<V>(mm: seq<(int, V)>, i: nat, k: int, v: V, key: int)
    requires MultiWellFormed(mm) && i == UpperBoundIndex(Keys(mm), k)
    ensures ValuesFor(mm[..i] + [(k, v)] + mm[i..], key) == ValuesFor(mm, key) + if key == k then [v] else []
  {
    forall j | i <= j < |mm|
      ensures mm[j].0 != k
    {
      assert Keys(mm)[j] > k;
    }
    ValuesForInsertBeforeOthers(mm, i, (k, v), key);
  }

  /** `multimap::equal_range(k)`: the values of the entries between the bounds of `k`, which are all the values bound to `k`. */
  function MmEqualRange<V>(mm: seq<(int, V)>, k: int): (r: seq<V>)
    requires MultiWellFormed(mm)
    ensures r == ValuesFor(mm, k)
  {
    var lb, ub := LowerBoundIndex(Keys(mm), k), UpperBoundIndex(Keys(mm), k);
    EqualRangeSplit(mm, k);
    AllKeyed(mm[lb..ub], k);
    ValuesOf(mm[lb..ub])
  }

  /** Outside its equal range no entry has key `k`; inside, every entry has. */
  lemma {:induction false} EqualRangeSplit<V>(mm: seq<(int, V)>, k: int)
    requires MultiWellFormed(mm)
    ensures LowerBoundIndex(Keys(mm), k) <= UpperBoundIndex(Keys(mm), k)
    ensures var lb, ub := LowerBoundIndex(Keys(mm), k), UpperBoundIndex(Keys(mm), k);
      && ValuesFor(mm, k) == ValuesFor(mm[lb..ub], k)
      && forall j :: 0 <= j < ub - lb ==> mm[lb..ub][j].0 == k
  {
    var ks := Keys(mm);
    var lb, ub := LowerBoundIndex(ks, k), UpperBoundIndex(ks, k);
    EqualRangeIsCopies(ks, k);
    assert forall j :: 0 <= j < lb ==> mm[j].0 != k by {
      forall j | 0 <= j < lb ensures mm[j].0 != k {
        assert ks[j] < k;
      }
    }
    assert forall j :: ub <= j < |mm| ==> mm[j].0 != k by {
      forall j | ub <= j < |mm| ensures mm[j].0 != k {
        assert ks[j] > k;
      }
    }
    assert forall j :: lb <= j < ub ==> mm[j].0 == k by {
      forall j | lb <= j < ub ensures mm[j].0 == k {
        assert ks[j] == k;
      }
    }
    ValuesForRun(mm, lb, ub, k);
  }

  /** `multimap::count(k)`: the number of entries with key `k`. */
  function MmCount<V>(mm: seq<(int, V)>, k: int): (n: nat)
    requires MultiWellFormed(mm)
    ensures n == |ValuesFor(mm, k)|
    ensures n == multiset(Keys(mm))[k]
  {
    EqualRangeIsCopies(Keys(mm), k);
    |MmEqualRange(mm, k)|
  }

  /** The multimap built by inserting `ops` one after another. */
  function FromInserts<V>(ops: seq<(int, V)>): (r: seq<(int, V)>)
    ensures MultiWellFormed(r)
    ensures multiset(r) == multiset(ops)
  {
    if |ops| == 0 then []
    else
      assert ops == ops[..|ops| - 1] + [ops[|ops| - 1]];
      MmInsert(FromInserts(ops[..|ops| - 1]), ops[|ops| - 1].0, ops[|ops| - 1].1)
  }

  /** `equal_range(k)` yields every value inserted under `k`, in insertion order. */
  lemma {:induction false} EqualRangeKeepsInsertionOrder<V>(ops: seq<(int, V)>, k: int)
    ensures MmEqualRange(FromInserts(ops), k) == ValuesFor(ops, k)
  {
    if |ops| > 0 {
      var init, last := ops[..|ops| - 1], ops[|ops| - 1];
      EqualRangeKeepsInsertionOrder(init, k);
      assert ops == init + [last];
      ValuesForConcat(init, [last], k);
      assert ValuesFor([last], k) == (if last.0 == k then [last.1] else []) + ValuesFor([], k);
    }
  }

  /** Inserting one:"one", one:"uno", two:"two", two:"dos" gives key 1 the values "one" then "uno". */
  lemma {:induction false} DemoMultimap(ops: seq<(int, string)>)
    requires ops == [(1, "one"), (1, "uno"), (2, "two"), (2, "dos")]
    ensures MmEqualRange(FromInserts(ops), 1) == ["one", "uno"]
    ensures MmCount(FromInserts(ops), 2) == 2
  {
    EqualRangeKeepsInsertionOrder(ops, 1);
    EqualRangeKeepsInsertionOrder(ops, 2);
    DemoValuesFor(ops);
  }

  lemma {:induction false} DemoValuesFor(ops: seq<(int, string)>)
    requires ops == [(1, "one"), (1, "uno"), (2, "two"), (2, "dos")]
    ensures ValuesFor(ops, 1) == ["one", "uno"]
    ensures ValuesFor(ops, 2) == ["two", "dos"]
  {
    var t1, t2, t3 := ops[1..], ops[2..], ops[3..];
    assert t3[1..] == [];
    assert ValuesFor(t3, 1) == [] && ValuesFor(t3, 2) == ["dos"];
    assert t2[1..] == t3;
    assert ValuesFor(t2, 1) == [] && ValuesFor(t2, 2) == ["two", "dos"];
    assert t1[1..] == t2;
    assert ValuesFor(t1, 1) == ["uno"] && ValuesFor(t1, 2) == ["two", "dos"];
  }
}
