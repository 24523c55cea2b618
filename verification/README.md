# STL containers and algorithms, modelled in Dafny

This project models the behaviour the C++ standard library shows in seven walkthrough programs:

- `pair_tuple.cpp`
- `set.cpp`
- `map.cpp`
- `list.cpp`
- `vector.cpp`
- `adapters.cpp` (deque, stack, queue, priority_queue)
- `unordered_containers.cpp`

Each container is an immutable Dafny value, and each member function it calls is a pure function of that value:

- **Sequence containers** (`vector`, `list`, `deque`) are a `seq<T>` in iteration order (module `Sequence`). List-specific operations are in `ListOps`. The `<algorithm>` calls (`find`, `min_element`, `unique`, `rotate`, `partition`, `sort`, `lower_bound`, …) are in `Algorithms`, `Sorting` and `SortedSearch`.
- **`set<int>`** is a strictly ascending `seq<int>`, which is exactly its iteration order. **`multiset<int>`** is an ascending `seq<int>`.
- **`map<int, V>`** is a `seq<(int, V)>` with strictly ascending keys. **`multimap`** is an ascending-by-key sequence in which equal keys keep insertion order. `Entries.View` reads a sequence of entries as a Dafny `map`, and the contracts of `OrderedMap` are stated against that abstract map.
- **Unordered containers** are stored in insertion order, and nothing is promised about that order:
  - `unordered_set` is a duplicate-free `seq`;
  - `unordered_map` is a sequence of entries with distinct keys;
  - `unordered_multimap` is a sequence of entries;
  - `unordered_multiset` is a Dafny `multiset`.
- **`priority_queue<T, C, Cmp>`** is a bag `seq<T>` plus a priority function. `top()` is an element of greatest priority, and `pop()` removes one copy of it. Three priorities cover the programs:
  - `Largest` for the default max-heap;
  - `Smallest` for `greater<int>`;
  - `SmallestSecond` and `LeastFirst(Count)` for the `a.second > b.second` comparators.
- **Frequency counting** (`freq[c]++` over a text or array) is shared by `map.cpp`, `unordered_containers.cpp` and `adapters.cpp`. It lives in `Frequency`.
- **C++ integer division** truncates toward zero, and it is modelled explicitly (`PairTuple.TruncDiv`, `PairTuple.TruncMod`).

Where a program prints a result, a `Demo…` member proves that result for any container holding the same values. For example, `OrderedSet.DemoUnion` proves the union is `1 2 3 4 5 6 7 8` for every representation of the two input sets.

## Model

| member | source | states |
|---|---|---|
| Sequence.PushBack | stl/vector.cpp:36-42 | `push_back`/`emplace_back` appends exactly one element at the end and keeps every earlier element in place |
| Sequence.PushFront | stl/list.cpp:41-49 | `push_front`/`emplace_front` puts the element first and shifts every old element one place later |
| Sequence.PopBack | stl/vector.cpp:79-80 | `pop_back` on a non-empty container drops only the last element |
| Sequence.PopFront | stl/list.cpp:82-83 | `pop_front` on a non-empty container drops only the first element |
| Sequence.PushPopEnds | stl/adapters.cpp:22-40 | pushing at either end and then reading or popping that same end gives back the pushed value and the original container |
| Sequence.InsertAt | stl/vector.cpp:44-47 | `insert(begin()+i, x)` puts `x` at index `i`, keeps the prefix and shifts the suffix up by one |
| Sequence.EraseAt | stl/vector.cpp:82-83 | `erase(begin()+i)` removes index `i` only and shifts the suffix down by one |
| Sequence.InsertEraseRoundTrip | stl/list.cpp:51-54 | erase at `i` undoes insert at `i`, and re-inserting the erased element undoes the erase |
| Sequence.At | stl/vector.cpp:59-63 | `at(i)` returns element `i` exactly when `i < size()`, and otherwise the `out_of_range` error |
| Sequence.Fill | stl/vector.cpp:20-21 | the `(n, v)` constructor and `assign(n, v)` give exactly `n` copies of `v` |
| Sequence.Resize | stl/vector.cpp:121-122 | `resize(n, v)` has size `n`, keeps the first `min(n, size)` elements and pads with `v` |
| Sequence.ResizeFacts | stl/list.cpp:120-121 | resizing to the current size is the identity; growing then shrinking back restores the container; `assign(n, v)` is `resize` of an empty container |
| ListOps.RemoveIf | stl/list.cpp:98-99 | `remove_if(p)` keeps exactly the elements failing `p`, with their multiplicities |
| ListOps.RemoveIfConcat | stl/list.cpp:98-99 | removal distributes over concatenation, so the survivors keep their relative order |
| ListOps.Remove | stl/list.cpp:93-96 | `remove(v)` drops every copy of `v` and no other element |
| ListOps.Unique | stl/list.cpp:192-195 | `unique()` leaves no equal neighbours, the same set of values, and the original first element |
| ListOps.UniqueIsRunHeads | stl/list.cpp:192-195 | `unique()` keeps exactly the positions that start a run (the first position, and every element that differs from its predecessor), in order |
| ListOps.UniqueOfAscending | stl/list.cpp:192-195 | on a sorted list, `unique()` leaves each value once, strictly ascending |
| ListOps.UniqueIdempotent | stl/list.cpp:192-195 | a second `unique()` removes nothing |
| ListOps.Reverse | stl/list.cpp:186-187 | `reverse()` moves element `i` to position `size()-1-i` |
| ListOps.ReverseFacts | stl/vector.cpp:181-182 | reversing twice is the identity; it keeps the elements; it turns descending order into ascending and back |
| ListOps.SortDescendingReversed | stl/list.cpp:180-187 | reversing the `greater<int>` sort gives the ascending sort |
| ListOps.DescendingPermutationUnique | stl/list.cpp:180-181 | the descending arrangement of a bag of integers is unique, so `sort(greater<int>())` is determined |
| ListOps.Splice | stl/list.cpp:209-212 | `splice(pos, other)` puts all of `other` before `pos`, keeps both surrounding parts, and leaves `other` empty |
| ListOps.Merge | stl/list.cpp:231-232 | `merge` of two sorted lists is one sorted list holding both bags, and it empties the argument |
| ListOps.MergeIsSortedConcatenation | stl/list.cpp:226-232 | merging equals sorting the concatenation of both lists |
| Algorithms.Find | stl/vector.cpp:200-202 | `find` returns the first index holding `v`, or `end()` exactly when `v` is absent |
| Algorithms.MinElement | stl/vector.cpp:210-211 | `min_element` returns an index of a least element, and no earlier index holds that value |
| Algorithms.MaxElement | stl/vector.cpp:210-212 | `max_element` returns an index of a greatest element, and no earlier index holds that value |
| Algorithms.DedupSorted | stl/vector.cpp:252-255 | `erase(unique(...), end())` on a sorted vector leaves each value once, strictly ascending |
| Algorithms.DemoDedupSorted | stl/vector.cpp:253-255 | `{1,1,2,2,3,4,4,5}` becomes `1 2 3 4 5` |
| Algorithms.Rotate | stl/vector.cpp:260-262 | `rotate(begin, begin+k, end)` moves element `(i+k) mod n` to position `i` and keeps the bag |
| Algorithms.RotateInverse | stl/vector.cpp:260-262 | a rotation by `k` followed by one by `n-k` restores the vector |
| Algorithms.DemoRotate | stl/vector.cpp:261-262 | `{1,2,3,4,5}` rotated left by 2 is `3 4 5 1 2` |
| Algorithms.Partition | stl/vector.cpp:267-269 | `partition` is a permutation with every element satisfying the predicate before the split point and none after |
| Algorithms.Select | stl/vector.cpp:267-269 | the front part holds exactly the satisfying elements, with their multiplicities |
| Sorting.Sort | stl/pair_tuple.cpp:61-62 | sorting under a total preorder yields a sorted permutation of the input |
| Sorting.SortAscending | stl/vector.cpp:175-176 | `sort` yields the non-decreasing permutation |
| Sorting.SortDescending | stl/list.cpp:180-181 | `sort(greater<int>())` yields the non-increasing permutation |
| Sorting.AscendingPermutationUnique | stl/vector.cpp:175-176 | two sorted permutations of the same bag are equal, so the sort's output is determined |
| Sorting.StrictlyAscendingUnique | stl/set.cpp:21-27 | two strictly ascending sequences over the same values are equal, so a set's iteration order is determined |
| SortedSearch.LowerBoundIndex | stl/vector.cpp:192-193 | `lower_bound` splits a sorted range into the elements `< v` and the elements `>= v` |
| SortedSearch.UpperBoundIndex | stl/vector.cpp:196-197 | `upper_bound` splits a sorted range into the elements `<= v` and the elements `> v` |
| SortedSearch.BoundIndexUnique | stl/vector.cpp:192-197 | only one index satisfies that split, so each bound is well defined |
| SortedSearch.EqualRangeIsCopies | stl/vector.cpp:192-207 | between the two bounds lie exactly the copies of `v`, and `count(v)` is their distance |
| SortedSearch.LowerBoundFinds | stl/vector.cpp:187-193 | `v` is present iff the lower bound is in range and holds `v` |
| SortedSearch.LowerBound | stl/vector.cpp:192-193 | bisection computes the lower-bound index |
| SortedSearch.UpperBound | stl/vector.cpp:196-197 | bisection computes the upper-bound index |
| SortedSearch.BinarySearch | stl/vector.cpp:187-189 | `binary_search` on a sorted range answers membership |
| Frequency.Increment | stl/map.cpp:226-229 | `freq[x]++` adds `x` with count 1 when missing, else adds one to its count; every other count is unchanged |
| Frequency.CountAll | stl/map.cpp:224-229 | after the counting loop the keys are the values present, and each count is that value's multiplicity |
| Frequency.OccurrencesIsMultiplicity | stl/vector.cpp:206-207 | `count(first, last, v)` is the multiplicity of `v` |
| Frequency.CountAllAgreesWithScan | stl/unordered_containers.cpp:183-188 | the counter holds `x` iff a scan finds it, and then with the scan's count |
| Frequency.DemoHelloWorld | stl/map.cpp:225-229 | in "hello world", `l` occurs 3 times, `o` twice and the space once |
| PairTuple.PairLessIsLexicographic | stl/pair_tuple.cpp:35-37 | pair `<` is lexicographic comparison of the two components |
| PairTuple.PairLessIsStrictTotalOrder | stl/pair_tuple.cpp:147-149 | pair and tuple `<` is irreflexive, transitive, asymmetric and trichotomous |
| PairTuple.DemoPairComparison | stl/pair_tuple.cpp:36-37 | `{1,2} < {1,3}` holds and `{1,3} < {1,2}` does not |
| PairTuple.Swap | stl/pair_tuple.cpp:40-43 | `x.swap(y)` exchanges the two values |
| PairTuple.SwapInvolution | stl/pair_tuple.cpp:152-155 | swapping twice restores both values |
| PairTuple.TruncDivModFacts | stl/pair_tuple.cpp:76-78 | C++ `a / b` and `a % b` satisfy `q*b + r == a`, the remainder takes the sign of `a`, and `abs(q)` is `abs(a)/abs(b)` |
| PairTuple.TruncDivInRange | stl/pair_tuple.cpp:76-78 | for 32-bit operands other than `INT_MIN / -1`, both results fit in 32 bits |
| PairTuple.DivMod | stl/pair_tuple.cpp:76-78 | `divMod` returns quotient and remainder reconstructing `a`, with `abs(r) < abs(b)` and `r` carrying `a`'s sign; both fit in 32 bits |
| PairTuple.DemoDivMod | stl/pair_tuple.cpp:80 | `divMod(17, 5)` is `{3, 2}` |
| PairTuple.DemoDivModNegative | stl/pair_tuple.cpp:76-78 | `divMod(-7, 2)` is `{-3, -1}`: truncation, not flooring |
| PairTuple.MergeIntervals | stl/pair_tuple.cpp:259-270 | interval merging gives separated intervals ordered by start and absorbs every input interval; every integer point it covers, and every unit segment from `x` to `x + 1` inside a merged interval, lies inside one input interval, so no gap between inputs is bridged |
| PairTuple.Sweep | stl/pair_tuple.cpp:263-270 | the loop over start-sorted intervals keeps the result separated and absorbing, and covers no integer point and no unit segment beyond the inputs |
| PairTuple.SweepStep | stl/pair_tuple.cpp:265-268 | when the last merged interval ends before the current one starts (or there is none), the step appends the current interval; otherwise it keeps every earlier interval and the last one's start, and sets its end to the larger of the two ends; either way the sweep's invariant (separation, absorption, point and segment coverage) is kept |
| PairTuple.SeparatedOrdered | stl/pair_tuple.cpp:265-266 | in the merged output every earlier interval ends before any later one starts |
| PairTuple.DemoMergeDetermined | stl/pair_tuple.cpp:260-270 | any separated result that absorbs `{1,3} {2,6} {8,10} {15,18}` and covers nothing more is `[1,6] [8,10] [15,18]` |
| PairTuple.DemoMergeIntervals | stl/pair_tuple.cpp:259-275 | the interval example prints `[1,6] [8,10] [15,18]` |
| PairTuple.SortEmployees | stl/pair_tuple.cpp:285-291 | the employee sort is a permutation ordered by age ascending, then salary descending |
| PairTuple.DemoEmployeeOrder | stl/pair_tuple.cpp:279-291 | Alice, Bob, Charlie sort as Bob, Charlie, Alice |
| OrderedSet.Insert | stl/set.cpp:36-46 | `insert(v)` keeps the set sorted and unique, adds `v`, reports success iff `v` was absent, and leaves the set as it was on a duplicate |
| OrderedSet.FromList | stl/set.cpp:20-23 | the range and initializer-list constructors give the ascending enumeration of the input's values |
| OrderedSet.FromListDependsOnlyOnValues | stl/set.cpp:21-27 | the constructed set depends only on which values went in, not their order or repetition |
| OrderedSet.DemoInitializerList | stl/set.cpp:21-27 | `{5, 2, 8, 1, 9}` iterates as `1 2 5 8 9` |
| OrderedSet.DemoInsertTwice | stl/set.cpp:36-41 | inserting 10 into an empty set succeeds; doing it again fails and changes nothing |
| OrderedSet.Count | stl/set.cpp:75-78 | `count(v)` is 1 iff `v` is present, otherwise 0 |
| OrderedSet.Find | stl/set.cpp:69-73 | `find(v)` is the position holding `v`, or `end()` exactly when `v` is absent |
| OrderedSet.Erase | stl/set.cpp:87-94 | `erase(v)` removes `v` and nothing else, and returns 1 iff `v` was present |
| OrderedSet.InsertEraseRoundTrip | stl/set.cpp:36-94 | inserting a fresh value then erasing it restores the set and reports one removal |
| OrderedSet.LowerBound | stl/set.cpp:143-147 | `lower_bound(v)` is the least element `>= v`, or `end()` iff every element is below `v` |
| OrderedSet.UpperBound | stl/set.cpp:149-153 | `upper_bound(v)` is the least element `> v`, or `end()` iff no element exceeds `v` |
| OrderedSet.EqualRange | stl/set.cpp:155-161 | `equal_range(v)` in a set is `v` alone when present and empty otherwise |
| OrderedSet.RangeQuery | stl/set.cpp:163-170 | iterating from `lower_bound(lo)` to `upper_bound(hi)` visits exactly the elements in `[lo, hi]`, ascending |
| OrderedSet.DemoBounds | stl/set.cpp:139-161 | in `{1,3,...,15}`: lower_bound(6) is 7, upper_bound(7) is 9, equal_range(7) is `{7}` |
| OrderedSet.DemoRangeQuery | stl/set.cpp:163-170 | the elements in `[5, 11]` are `5 7 9 11` |
| OrderedSet.Descending | stl/set.cpp:128-133 | reverse iteration, which is also the order of `set<int, greater<int>>`, visits the same values strictly descending |
| OrderedSet.DemoDescending | stl/set.cpp:226-231 | `set<int, greater<int>>{5, 2, 8, 1, 9}` iterates as `9 8 5 2 1` |
| OrderedSet.Union | stl/set.cpp:188-194 | `set_union` yields a set whose values are those of either input |
| OrderedSet.Intersection | stl/set.cpp:196-202 | `set_intersection` yields a set whose values are those of both inputs |
| OrderedSet.Difference | stl/set.cpp:204-210 | `set_difference` yields a set whose values are in `a` but not `b` |
| OrderedSet.SymmetricDifference | stl/set.cpp:212-218 | `set_symmetric_difference` yields a set whose values are in exactly one input |
| OrderedSet.Includes | stl/set.cpp:296-301 | `includes(a, b)` holds iff every value of `b` is in `a` |
| OrderedSet.SymmetricDifferenceIsUnionOfDifferences | stl/set.cpp:204-218 | the symmetric difference equals the union of the two one-sided differences |
| OrderedSet.IncludesIffIntersectionIsWhole | stl/set.cpp:196-202 | `a` includes `b` iff intersecting `b` with `a` leaves `b` unchanged |
| OrderedSet.DemoUnion | stl/set.cpp:176-194 | `{1..5}` union `{4..8}` is `1 2 3 4 5 6 7 8` |
| OrderedSet.DemoIntersection | stl/set.cpp:196-202 | their intersection is `4 5` |
| OrderedSet.DemoDifference | stl/set.cpp:204-210 | A - B is `1 2 3` |
| OrderedSet.DemoSymmetricDifference | stl/set.cpp:212-218 | their symmetric difference is `1 2 3 6 7 8` |
| OrderedSet.DemoIncludes | stl/set.cpp:296-301 | `{2, 3}` is a subset of `{1..5}` |
| OrderedSet.KthSmallest | stl/set.cpp:289-294 | `advance(begin(), k)` reaches the element with exactly `k` smaller elements |
| OrderedSet.KthSmallestUnique | stl/set.cpp:289-294 | only one element has exactly `k` smaller elements |
| OrderedSet.DemoKthSmallest | stl/set.cpp:290-294 | in `{10, 5, 15, 3, 20}` the element at index 2 is 10 |
| OrderedSet.DedupViaSet | stl/set.cpp:281-284 | copying a vector through a set leaves its distinct values, ascending, one each |
| OrderedSet.DedupViaSetIsSortUnique | stl/set.cpp:281-284 | de-duplicating through a set equals sort followed by `unique` and `erase` |
| OrderedSet.DemoDedupViaSet | stl/set.cpp:282-287 | `{5,2,8,2,9,5,1}` becomes `1 2 5 8 9` |
| OrderedSet.MsInsert | stl/set.cpp:267-268 | `multiset::insert(v)` keeps the order, adds one copy, and places it after the existing copies |
| OrderedSet.MsFromList | stl/set.cpp:251 | the multiset constructor gives the ascending arrangement of the input's bag |
| OrderedSet.MsCount | stl/set.cpp:257-258 | `multiset::count(v)` is the multiplicity of `v` |
| OrderedSet.MsEraseAll | stl/set.cpp:260-261 | `multiset::erase(v)` removes every copy of `v`, nothing else, and returns how many there were |
| OrderedSet.MsEraseOne | stl/set.cpp:266-270 | `erase(find(v))` removes exactly one copy of `v` when `v` is present; for an absent `v`, where the program would erase `end()` (undefined behaviour), the model totalises the call and removes nothing |
| OrderedSet.DemoMultisetCount | stl/set.cpp:251-258 | `{5,2,8,2,9,5,1}` holds two 5s |
| OrderedSet.DemoMultisetEraseAll | stl/set.cpp:260-264 | erasing all 5s leaves `1 2 2 8 9` |
| OrderedSet.DemoMultisetEraseOne | stl/set.cpp:266-273 | inserting two 2s then erasing one leaves three 2s |
| OrderedMap.Find | stl/map.cpp:78-82 | `find(k)` is the position of `k`'s entry, or `end()` exactly when `k` is unbound |
| OrderedMap.Count | stl/map.cpp:90-93 | `count(k)` is 1 iff `k` is bound, otherwise 0 |
| OrderedMap.At | stl/map.cpp:70-76 | `at(k)` is `k`'s value when bound and the `out_of_range` error otherwise |
| OrderedMap.Subscript | stl/map.cpp:66-68 | reading `m[k]` returns the bound value unchanged, or binds `k` to the default, returns it and grows the map by one |
| OrderedMap.Assign | stl/map.cpp:37-40 | `m[k] = v` binds `k` to `v` and leaves every other binding alone, keeping keys sorted |
| OrderedMap.Insert | stl/map.cpp:42-52 | `insert({k, v})`/`emplace` adds the binding only when `k` is unbound and reports whether it did |
| OrderedMap.Erase | stl/map.cpp:107-114 | `erase(k)` unbinds `k` and nothing else, and returns 1 iff it was bound |
| OrderedMap.InsertIfAbsent | stl/map.cpp:237-242 | check-then-insert writes `v` only when `find(k) == end()` |
| OrderedMap.InsertIfAbsentIsInsert | stl/map.cpp:237-242 | check-then-insert gives the same map as `insert`, which also never overwrites |
| OrderedMap.DemoCache | stl/map.cpp:237-245 | after check-then-insert 100 and `cache[5] = 200`, key 5 is bound to 200 |
| OrderedMap.DemoSubscriptDefault | stl/map.cpp:66-68 | reading `m[10]` on a map without 10 binds it to the empty string and grows the map by one |
| OrderedMap.LowerBound | stl/map.cpp:172-176 | `lower_bound(k)` is the entry with least key `>= k`, or `end()` |
| OrderedMap.UpperBound | stl/map.cpp:178-182 | `upper_bound(k)` is the entry with least key `> k`, or `end()` |
| OrderedMap.EqualRange | stl/map.cpp:184-190 | `equal_range(k)` is `k`'s single entry when bound and empty otherwise |
| OrderedMap.DemoBounds | stl/map.cpp:168-190 | in `{1:a,3:b,5:c,7:d,9:e}`: lower_bound(4) is 5:c, upper_bound(5) is 7:d, equal_range(5) is 5:c |
| OrderedMap.Descending | stl/map.cpp:150-154 | reverse iteration, which is also the order of `map<int, V, greater<int>>`, lists the same bindings with keys strictly descending |
| OrderedMap.DemoDescending | stl/map.cpp:198-204 | `{1:one, 2:two, 3:three}` with `greater<int>` iterates 3, 2, 1 |
| OrderedMap.MmInsert | stl/map.cpp:253-257 | `multimap::insert` keeps keys ascending and places the new entry after every entry with an equal key |
| OrderedMap.MmEqualRange | stl/map.cpp:265-270 | `equal_range(k)` yields every value bound to `k`, in stored order |
| OrderedMap.MmCount | stl/map.cpp:253-262 | `multimap::count(k)` is the number of entries with key `k` |
| OrderedMap.FromInserts | stl/map.cpp:253-257 | repeated inserts give a key-ascending sequence holding every inserted entry |
| OrderedMap.EqualRangeKeepsInsertionOrder | stl/map.cpp:253-270 | `equal_range(k)` after a sequence of inserts gives the values inserted under `k`, in insertion order |
| OrderedMap.DemoMultimap | stl/map.cpp:253-270 | key 1 yields "one" then "uno", and key 2 is counted twice |
| OrderedMap.InsertEntry | stl/map.cpp:42-48 | adding an absent key at its sorted position keeps keys ascending and extends the view by that one binding |
| OrderedMap.EraseEntry | stl/map.cpp:107-114 | removing an entry removes that key, and only it, from the view |
| OrderedMap.UpdateEntry | stl/map.cpp:244-245 | overwriting an entry's value rebinds that key and keeps every other binding |
| Unordered.DistinctIffSingleCopies | stl/unordered_containers.cpp:68-75 | a sequence is duplicate-free iff every element occurs exactly once |
| Unordered.DistinctCardinality | stl/unordered_containers.cpp:94-95 | a duplicate-free sequence's size is its number of distinct elements |
| Unordered.SetInsert | stl/unordered_containers.cpp:70-75 | `insert`/`emplace` keeps the set duplicate-free, adds `x`, reports success iff `x` was absent, and changes nothing on a duplicate |
| Unordered.SetCount | stl/unordered_containers.cpp:88-89 | `count(x)` is 1 iff `x` is present, otherwise 0 |
| Unordered.SetErase | stl/unordered_containers.cpp:91-92 | `erase(x)` removes `x` only, and returns 1 iff it was present |
| Unordered.SetInsertEraseRoundTrip | stl/unordered_containers.cpp:70-92 | inserting an absent element then erasing it restores the element set |
| Unordered.SetFromList | stl/unordered_containers.cpp:211-212 | the range constructor keeps exactly one copy of each input value |
| Unordered.DemoUnorderedSet | stl/unordered_containers.cpp:68-95 | inserting 10, 20, 30, 10, 40 stores four elements; after erasing 40, three remain, 20 and 30 among them |
| Unordered.DedupViaHashSetSorted | stl/unordered_containers.cpp:210-213 | de-duplication through a hash set keeps each value once; sorted, it is the ordered-set de-duplication |
| Unordered.MapIndex | stl/unordered_containers.cpp:40-43 | the lookup finds a position exactly when `k` is bound, and that entry has key `k` |
| Unordered.MapCount | stl/unordered_containers.cpp:45-46 | `count(k)` is 1 iff `k` is bound, otherwise 0 |
| Unordered.MapFind | stl/unordered_containers.cpp:40-43 | `find(k)` gives the value the map binds to `k`, or nothing when `k` is unbound |
| Unordered.MapAssign | stl/unordered_containers.cpp:25-27 | `um[k] = v` binds `k` to `v` and keeps every other binding |
| Unordered.MapInsert | stl/unordered_containers.cpp:28-29 | `insert`/`emplace` adds the binding only when `k` is unbound and reports whether it did |
| Unordered.MapSubscript | stl/unordered_containers.cpp:37-38 | reading `um[k]` returns the bound value, or first binds `k` to the default |
| Unordered.MapErase | stl/unordered_containers.cpp:48-49 | `erase(k)` unbinds `k` only, and returns 1 iff it was bound |
| Unordered.DemoUnorderedMap | stl/unordered_containers.cpp:23-52 | the walk binds 1 to 4 to their names; erasing 4 leaves three bindings |
| Unordered.DemoMapQueries | stl/unordered_containers.cpp:37-46 | in any map binding 1 to 4 to their names, `um[2]` is "two", `count(1)` is 1, `find(3)` gives "three", and erasing 4 leaves the other three bindings |
| Unordered.MapSizeIsKeyCount | stl/unordered_containers.cpp:51-52 | `size()` of a well-formed map is the number of keys it binds |
| Unordered.MultimapInsert | stl/unordered_containers.cpp:103-107 | `umm.insert` adds one entry and keeps every stored one |
| Unordered.MultimapCount | stl/unordered_containers.cpp:115-116 | `umm.count(k)` is the number of entries with key `k` |
| Unordered.MultimapEqualRange | stl/unordered_containers.cpp:118-123 | `equal_range(k)` holds exactly the values stored under `k`, with multiplicities |
| Unordered.DemoUnorderedMultimap | stl/unordered_containers.cpp:103-123 | key 1 is counted twice, with values "one" and "uno" |
| Unordered.MultisetEraseAll | stl/unordered_containers.cpp:143-144 | `ums.erase(x)` removes every copy of `x`, nothing else, and returns how many there were |
| Unordered.MultisetEraseAllAgrees | stl/unordered_containers.cpp:143-144 | the hash multiset and the ordered multiset erase the same copies |
| Unordered.DemoUnorderedMultiset | stl/unordered_containers.cpp:132-148 | `{5,2,8,2,9,5,1}` counts two 5s; erasing them leaves `{2,8,2,9,1}` |
| Unordered.TwoSum | stl/unordered_containers.cpp:195-208 | the loop stops at the first index with a complement earlier in the array, and reports the latest such earlier index; it finds nothing iff no pair sums to the target |
| Unordered.DemoTwoSum | stl/unordered_containers.cpp:196-208 | `{2, 7, 11, 15}` with target 9 gives indices 0 and 1 |
| Unordered.HasCommon | stl/unordered_containers.cpp:218-228 | the flag is set iff some element of `a2` is in `a1` |
| Unordered.DemoHasCommon | stl/unordered_containers.cpp:219-228 | `{1,2,3}` and `{4,5,3}` share an element |
| Adapters.DemoDeque | stl/adapters.cpp:20-48 | pushes give `1 5 10 20` with front 1, back 20, `dq[1]` 5 and `at(2)` 10; popping both ends gives `5 10`; the insert/erase pair gives `7 10` |
| Adapters.DrainStack | stl/adapters.cpp:84-89 | printing a stack by top-and-pop lists it newest first |
| Adapters.StackIsLifo | stl/adapters.cpp:66-89 | the last push is the top and popping it undoes the push; draining reverses push order |
| Adapters.DemoStack | stl/adapters.cpp:66-90 | pushing 10..40: top 40; after one pop, top 30 and the drain is `30 20 10` |
| Adapters.DrainQueue | stl/adapters.cpp:130-135 | printing a queue by `front()` then `pop()` until empty lists exactly its contents, in push order |
| Adapters.QueueIsFifo | stl/adapters.cpp:111-124 | pushing at the back never changes the front, and pop and push commute on a non-empty queue |
| Adapters.DemoQueue | stl/adapters.cpp:111-136 | pushing 10..40: front 10, back 40; after one pop the drain is `20 30 40` |
| Adapters.Top | stl/adapters.cpp:155-165 | `top()` is an element of the queue with maximal priority |
| Adapters.Pop | stl/adapters.cpp:167-168 | `pop()` removes exactly one copy of the top |
| Adapters.PopKeepsMembers | stl/adapters.cpp:167-168 | popping never introduces an element |
| Adapters.Drain | stl/adapters.cpp:171-176 | printing a priority queue by top-and-pop lists every element once, priorities non-increasing |
| Adapters.DrainStep | stl/adapters.cpp:173-176 | one top-and-pop step in front of a drained remainder keeps both drain properties |
| Adapters.DrainHead | stl/adapters.cpp:173-176 | the drain starts with `top()` and continues with the drain of what `pop()` leaves |
| Adapters.DrainSorts | stl/adapters.cpp:171-199 | a max-heap drains as the descending sort and a min-heap as the ascending sort |
| Adapters.DemoMaxHeapTop | stl/adapters.cpp:155-169 | pushing 30, 10, 50, 20, 40: top 50, and 40 after one pop |
| Adapters.DemoMaxHeapDrain | stl/adapters.cpp:171-177 | the remaining max-heap prints `40 30 20 10` |
| Adapters.DemoMinHeapTop | stl/adapters.cpp:185-192 | pushing 30, 10, 50, 20 into the min-heap: top 10 |
| Adapters.DemoMinHeapDrain | stl/adapters.cpp:194-199 | the min-heap prints `10 20 30 50` |
| Adapters.DemoCustomComparator | stl/adapters.cpp:207-225 | the pair heap ordered by `a.second > b.second` prints `{4,20} {2,30} {1,50} {3,70}` |
| Adapters.CustomDrainOrder | stl/adapters.cpp:219-225 | those four pairs have only one order with strictly rising second components |
| Adapters.PushBounded | stl/adapters.cpp:238-242 | push-then-pop-if-over-`k` keeps at most `k` elements, loses nothing, and every kept element ranks at least as high as every discarded one |
| Adapters.KeepLargest | stl/adapters.cpp:236-243 | the loop keeps `min(n, k)` elements, each ranked at least as high as every discarded one, with kept and discarded together being the input |
| Adapters.KthFromSplit | stl/adapters.cpp:236-244 | the least kept element sits at index `(kept size - 1)` of the descending sort of the input |
| Adapters.KthLargest | stl/adapters.cpp:233-244 | the min-heap's top after the loop is the `min(k, n)`-th largest element, counting duplicates |
| Adapters.DemoKthLargest | stl/adapters.cpp:234-244 | for `{3, 2, 1, 5, 6, 4}` and `k = 2` the answer is 5 |
| Adapters.TopKFrequent | stl/adapters.cpp:246-261 | for any hash-map iteration order, the heap keeps `min(k, distinct)` distinct values with their true counts, and no value left out is more frequent than any kept one |
| Adapters.TopKFacts | stl/adapters.cpp:251-261 | the bounded heap over (value, count) pairs keeps true counts, distinct values, and the most frequent ones |
| Adapters.DemoTopKFrequent | stl/adapters.cpp:246-268 | for `{1,1,1,2,2,3}` and any iteration order, the heap keeps 1 and 2 and prints `2 1` |
| Adapters.DrainOfTwo | stl/adapters.cpp:263-267 | two elements of different priority drain higher-priority first |

## Left out

- Console output: every `cout` line is left out. The demonstration programs' printed results appear as `Demo…` lemmas.
- Capacity and memory: `capacity`, `reserve`, `shrink_to_fit`, `max_size`, `data()`, bucket counts, `load_factor`, `max_load_factor` and `rehash` change no observable contents, so they are not modelled.
- Hash functions and bucket layout: the custom `PointHash` and the `Point` set are not modelled, and neither is the iteration order of unordered containers. The model stores entries in insertion order and states nothing that depends on it.
- `Adapters.TopKFrequent`: the order in which the `unordered_map` counter is iterated is a parameter (`order`), because the standard leaves it unspecified. The result is stated for every order.
- `Adapters.Top`: for equal priorities the model returns the first such element. A real heap may return any of them, and the demos have no ties where it matters.
- `Sorting.Sort`: the model is a stable insertion sort. `std::sort` may order equal elements differently, which is visible only with comparators that identify distinct values. None of the modelled demos has such ties.
- `Algorithms.Partition`: the model is the stable partition. `std::partition` may arrange each side differently, so only the side split and the bag are promised.
- Floating point: `getStats`' average, the `double` fields of tuples, and the students' scores sort are not modelled. Employee salaries are `double` in the program (`tuple<string, int, double>`); the demo's salaries are whole numbers that are only compared, never computed with, so they are modelled as `int`.
- Tuple mechanics: `tie`, `ignore`, `tuple_cat`, `get<>`, `tuple_size` and structured bindings only move components around.
- Comparators not modelled: the `CompareLength` string set, the `CustomCompare` map, the sort of a vector of pairs by `second`, and the `scores` sort. Each is one more instance of `Sorting.Sort` or `OrderedSet.Descending` over a different key.
- The lexicographic `items` tuple sort is `PairTuple.PairLessIsLexicographic` with one more component, and is not modelled separately.
- Iterators: iterator invalidation, hint inserts (modelled as plain inserts), and `advance` (modelled as an index).
- Integer overflow: apart from `divMod`'s 32-bit result, `int` is unbounded. This includes `target - nums[i]` in two-sum.
- Container `swap`: this is `PairTuple.Swap` at sequence type.
- `erase(first, last)` and `clear()`: these lines are commented out in the programs.
- 2D and jagged vectors: `matrix` and `jagged` only build and print nested vectors.
- `for_each` doubling in `list.cpp` is an element-wise map with nothing to state beyond its definition.
- The underlying-container parameters of `stack` and `queue` (`vector`, `deque`, `list`) do not change behaviour.
- `unordered_map<char, int>` frequency counting is `Frequency.CountAll`. The unordered and ordered counters differ only in iteration order.
- `Frequency.Occurrences`: its own contract states only a bound. Its meaning, the multiplicity of the value, is `Frequency.OccurrencesIsMultiplicity`.
- `OrderedMap.FromInserts`: only that the result is key-ascending and holds every inserted entry. Insertion order within a key is `OrderedMap.EqualRangeKeepsInsertionOrder`.
- `Sequence.Front`, `Sequence.Back` and `Sequence.Index` carry no contract of their own. They are the element reads used in the other members' contracts.
