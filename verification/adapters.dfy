/**
 The container adapters: `deque` used directly, `stack` (LIFO), `queue`
 (FIFO) and `priority_queue`, plus the two bounded-heap idioms built on a
 priority queue (k-th largest and top-k frequent).  A stack keeps its top at
 the back of a sequence and a queue its front at index 0, as the default
 `deque` underneath does.  A priority queue is a bag of elements with a
 priority function: `top()` is an element of greatest priority.  The
 default `less` comparator gives priority `x`, `greater` gives `-x`, and
 the custom pair comparator `a.second > b.second` gives `-p.second`.
 */
module Adapters {
  import opened Wrappers
  import opened Sorting
  import opened Sequence
  import ListOps
  import Algorithms
  import Frequency
  import Unordered
  import PairTuple
  import Entries

  // ---------------------------------------------------------------------------
  // deque, stack, queue
  // ---------------------------------------------------------------------------

  /**
   push_back 10, 20; push_front 5, 1 gives 1 5 10 20 (front 1, back 20,
   `dq[1]` 5, `dq.at(2)` 10); popping both ends leaves 5 10; inserting 7 at
   index 1 and erasing the front leaves 7 10.
   */
  lemma {:induction false} DemoDeque()
    ensures var dq := PushFront(PushFront(PushBack(PushBack([], 10), 20), 5), 1);
      dq == [1, 5, 10, 20] && Front(dq) == 1 && Back(dq) == 20 && Index(dq, 1) == 5 && At(dq, 2) == Ok(10)
      && PopBack(PopFront(dq)) == [5, 10]
      && EraseAt(InsertAt(PopBack(PopFront(dq)), 1, 7), 0) == [7, 10]
  {
    var dq := PushFront(PushFront(PushBack(PushBack([], 10), 20), 5), 1);
    assert dq == [1, 5, 10, 20];
    assert PopBack(PopFront(dq)) == [5, 10];
  }

  /** Popping a stack until it is empty: the tops, most recent first. */
  function DrainStack<T>(st: seq<T>): (out: seq<T>)
    ensures |out| == |st|
    ensures forall i :: 0 <= i < |st| ==> out[i] == st[|st| - 1 - i]
  {
    if |st| == 0 then [] else [Back(st)] + DrainStack(PopBack(st))
  }

  /** A stack pops in exactly the reverse of push order. */
  lemma {:induction false} StackIsLifo<T>(pushes: seq<T>, x: T)
    ensures Back(PushBack(pushes, x)) == x && PopBack(PushBack(pushes, x)) == pushes
    ensures DrainStack(pushes) == ListOps.Reverse(pushes)
  {
  }

  /** Push 10, 20, 30, 40: the top is 40; after one pop it is 30, and draining gives 30 20 10. */
  lemma {:induction false} DemoStack()
    ensures var st := PushBack(PushBack(PushBack(PushBack([], 10), 20), 30), 40);
      |st| == 4 && Back(st) == 40 && Back(PopBack(st)) == 30 && DrainStack(PopBack(st)) == [30, 20, 10]
  {
    var st := PushBack(PushBack(PushBack(PushBack([], 10), 20), 30), 40);
    assert st == [10, 20, 30, 40];
  }

  /** Popping a queue until it is empty: the fronts, earliest first. */
  function DrainQueue<T>(q: seq<T>): (out: seq<T>)
    ensures out == q
  {
    if |q| == 0 then [] else [Front(q)] + DrainQueue(PopFront(q))
  }

  /** A queue serves in push order: pushing at the back never changes who is served first. */
  lemma {:induction false} QueueIsFifo<T>(q: seq<T>, x: T)
    requires |q| > 0
    ensures Front(PushBack(q, x)) == Front(q)
    ensures PopFront(PushBack(q, x)) == PushBack(PopFront(q), x)
    ensures Back(PushBack(q, x)) == x
  {
  }

  /** Push 10, 20, 30, 40: front 10, back 40; after one pop the front is 20, and draining gives 20 30 40. */
  lemma {:induction false} DemoQueue()
    ensures var q := PushBack(PushBack(PushBack(PushBack([], 10), 20), 30), 40);
      |q| == 4 && Front(q) == 10 && Back(q) == 40 && Front(PopFront(q)) == 20
      && DrainQueue(PopFront(q)) == [20, 30, 40]
  {
    var q := PushBack(PushBack(PushBack(PushBack([], 10), 20), 30), 40);
    assert q == [10, 20, 30, 40];
  }

  // ---------------------------------------------------------------------------
  // priority_queue
  // ---------------------------------------------------------------------------

  /** The priorities of the elements, position by position. */
  function Priorities<T>(pq: seq<T>, prio: T -> int): (ps: seq<int>)
    ensures |ps| == |pq|
    ensures forall i :: 0 <= i < |pq| ==> ps[i] == prio(pq[i])
  {
    seq(|pq|, i requires 0 <= i < |pq| => prio(pq[i]))
  }

  /** `top()`: an element of greatest priority (the first such one, where several tie). */
  function Top<T>(pq: seq<T>, prio: T -> int): (r: T)
    requires |pq| > 0
    ensures r in pq
    ensures forall x :: x in pq ==> prio(x) <= prio(r)
  {
    var k := Algorithms.MaxElement(Priorities(pq, prio));
    assert forall j :: 0 <= j < |pq| ==> prio(pq[j]) <= prio(pq[k]);
    pq[k]
  }

  /** `pop()`: removes one copy of the top element and nothing else. */
  function Pop<T>(pq: seq<T>, prio: T -> int): (r: seq<T>)
    requires |pq| > 0
    ensures |r| == |pq| - 1
    ensures multiset(r) + multiset{Top(pq, prio)} == multiset(pq)
  {
    var k := Algorithms.MaxElement(Priorities(pq, prio));
    assert pq == pq[..k] + [pq[k]] + pq[k + 1..];
    pq[..k] + pq[k + 1..]
  }

  /** Every element left after a pop was in the queue before it. */
  lemma {:induction false} PopKeepsMembers<T>(pq: seq<T>, prio: T -> int, x: T)
    requires |pq| > 0 && x in Pop(pq, prio)
    ensures x in pq
  {
    assert x in multiset(Pop(pq, prio));
    assert x in multiset(pq);
  }

  /**
   Popping until empty, recording each top: the pushed elements, each once,
   in non-increasing priority.
   */
  function Drain<T>(pq: seq<T>, prio: T -> int): (out: seq<T>)
    ensures multiset(out) == multiset(pq)
    ensures forall i, j :: 0 <= i < j < |out| ==> prio(out[i]) >= prio(out[j])
    decreases |pq|
  {
    if |pq| == 0 then []
    else
      var rest := Drain(Pop(pq, prio), prio);
      DrainStep(pq, prio, rest);
      [Top(pq, prio)] + rest
  }

  /** Putting the top in front of a drained remainder keeps both properties of `Drain`. */
  lemma {:induction false} DrainStep<T>(pq: seq<T>, prio: T -> int, rest: seq<T>)
    requires |pq| > 0 && multiset(rest) == multiset(Pop(pq, prio))
    requires forall i, j :: 0 <= i < j < |rest| ==> prio(rest[i]) >= prio(rest[j])
    ensures multiset([Top(pq, prio)] + rest) == multiset(pq)
    ensures forall i, j :: 0 <= i < j < |rest| + 1 ==> prio(([Top(pq, prio)] + rest)[i]) >= prio(([Top(pq, prio)] + rest)[j])
  {
    var t := Top(pq, prio);
    var out := [t] + rest;
    forall j | 0 <= j < |rest| ensures prio(rest[j]) <= prio(t) {
      assert rest[j] in multiset(rest);
      PopKeepsMembers(pq, prio, rest[j]);
    }
    forall i, j | 0 <= i < j < |out| ensures prio(out[i]) >= prio(out[j]) {
      assert out[j] == rest[j - 1];
      if i > 0 {
        assert out[i] == rest[i - 1];
      }
    }
  }

  /** Priority of the default `priority_queue<int>`: the largest value first. */
  function Largest(x: int): int { x }

  /** Priority of `priority_queue<int, vector<int>, greater<int>>`: the smallest value first. */
  function Smallest(x: int): int { -x }

  /** A max-heap drains in descending order and a min-heap in ascending order: each is a sort. */
  lemma {:induction false} DrainSorts(pq: seq<int>)
    ensures Drain(pq, Largest) == SortDescending(pq)
    ensures Drain(pq, Smallest) == SortAscending(pq)
  {
    var down, up := Drain(pq, Largest), Drain(pq, Smallest);
    assert Descending(down) by {
      forall i, j | 0 <= i < j < |down| ensures down[i] >= down[j] {
        assert Largest(down[i]) >= Largest(down[j]);
      }
    }
    assert Ascending(up) by {
      forall i, j | 0 <= i < j < |up| ensures up[i] <= up[j] {
        assert Smallest(up[i]) >= Smallest(up[j]);
      }
    }
    ListOps.DescendingPermutationUnique(down, SortDescending(pq));
    AscendingPermutationUnique(up, SortAscending(pq));
  }

  /** Push 30, 10, 50, 20, 40 into a max-heap: the top is 50, and after one pop it is 40. */
  lemma {:induction false} DemoMaxHeapTop(pq: seq<int>)
    requires multiset(pq) == multiset{30, 10, 50, 20, 40}
    ensures Top(pq, Largest) == 50
    ensures multiset(Pop(pq, Largest)) == multiset{30, 10, 20, 40}
    ensures Top(Pop(pq, Largest), Largest) == 40
  {
    DrainSorts(pq);
    MaxHeapSortedFive(pq);
    DrainHead(pq, Largest);
    var rest := Pop(pq, Largest);
    DrainHead(rest, Largest);
    RemainingFour();
  }

  lemma RemainingFour()
    ensures multiset([40, 30, 20, 10]) == multiset{30, 10, 20, 40}
  {
  }

  /** The first element drained is the top, and the rest is the drain of what the pop leaves. */
  lemma {:induction false} DrainHead<T>(pq: seq<T>, prio: T -> int)
    requires |pq| > 0
    ensures Drain(pq, prio)[0] == Top(pq, prio)
    ensures Drain(pq, prio)[1..] == Drain(Pop(pq, prio), prio)
    ensures multiset(Pop(pq, prio)) == multiset(Drain(pq, prio)[1..])
  {
    assert Drain(pq, prio) == [Top(pq, prio)] + Drain(Pop(pq, prio), prio);
  }

  lemma {:induction false} MaxHeapSortedFive(pq: seq<int>)
    requires multiset(pq) == multiset{30, 10, 50, 20, 40}
    ensures SortDescending(pq) == [50, 40, 30, 20, 10]
  {
    var expected := [50, 40, 30, 20, 10];
    assert Descending(expected) by {
      NonIncreasingIsDescending(expected);
    }
    assert multiset(expected) == multiset(pq);
    ListOps.DescendingPermutationUnique(SortDescending(pq), expected);
  }

  /** Draining the max-heap that holds 30, 10, 20, 40 gives 40 30 20 10. */
  lemma {:induction false} DemoMaxHeapDrain(pq: seq<int>)
    requires multiset(pq) == multiset{30, 10, 20, 40}
    ensures Drain(pq, Largest) == [40, 30, 20, 10]
  {
    DrainSorts(pq);
    MaxHeapSorted(pq);
  }

  lemma {:induction false} MaxHeapSorted(pq: seq<int>)
    requires multiset(pq) == multiset{30, 10, 20, 40}
    ensures SortDescending(pq) == [40, 30, 20, 10]
  {
    var expected := [40, 30, 20, 10];
    assert Descending(expected) by {
      NonIncreasingIsDescending(expected);
    }
    assert multiset(expected) == multiset(pq);
    ListOps.DescendingPermutationUnique(SortDescending(pq), expected);
  }

  /** Push 30, 10, 50, 20 into a min-heap: the top is 10. */
  lemma {:induction false} DemoMinHeapTop(pq: seq<int>)
    requires multiset(pq) == multiset{30, 10, 50, 20}
    ensures Top(pq, Smallest) == 10
  {
    assert 10 in multiset(pq);
    assert Top(pq, Smallest) in multiset(pq);
  }

  /** Draining that min-heap gives 10 20 30 50. */
  lemma {:induction false} DemoMinHeapDrain(pq: seq<int>)
    requires multiset(pq) == multiset{30, 10, 50, 20}
    ensures Drain(pq, Smallest) == [10, 20, 30, 50]
  {
    DrainSorts(pq);
    MinHeapSorted(pq);
  }

  lemma {:induction false} MinHeapSorted(pq: seq<int>)
    requires multiset(pq) == multiset{30, 10, 50, 20}
    ensures SortAscending(pq) == [10, 20, 30, 50]
  {
    var expected := [10, 20, 30, 50];
    assert Ascending(expected) by {
      NonDecreasingIsAscending(expected);
    }
    assert multiset(expected) == multiset(pq);
    AscendingPermutationUnique(SortAscending(pq), expected);
  }

  /** Priority of the custom comparator `a.second > b.second`: the smallest second component first. */
  function SmallestSecond(p: PairTuple.Pair): int { -p.second }

  /** {1,50}, {2,30}, {3,70}, {4,20} drain as {4,20} {2,30} {1,50} {3,70}. */
  lemma {:induction false} DemoCustomComparator(pq: seq<PairTuple.Pair>)
    requires multiset(pq) == multiset{PairTuple.Pair(1, 50), PairTuple.Pair(2, 30), PairTuple.Pair(3, 70), PairTuple.Pair(4, 20)}
    ensures Drain(pq, SmallestSecond) == [PairTuple.Pair(4, 20), PairTuple.Pair(2, 30), PairTuple.Pair(1, 50), PairTuple.Pair(3, 70)]
  {
    var out := Drain(pq, SmallestSecond);
    CustomDrainOrder(out);
  }

  /** The only order of these four pairs with strictly rising second components. */
  lemma {:induction false} CustomDrainOrder(out: seq<PairTuple.Pair>)
    requires multiset(out) == multiset{PairTuple.Pair(1, 50), PairTuple.Pair(2, 30), PairTuple.Pair(3, 70), PairTuple.Pair(4, 20)}
    requires forall i, j :: 0 <= i < j < |out| ==> SmallestSecond(out[i]) >= SmallestSecond(out[j])
    ensures out == [PairTuple.Pair(4, 20), PairTuple.Pair(2, 30), PairTuple.Pair(1, 50), PairTuple.Pair(3, 70)]
  {
    var a, b, c, d := PairTuple.Pair(1, 50), PairTuple.Pair(2, 30), PairTuple.Pair(3, 70), PairTuple.Pair(4, 20);
    assert |out| == 4;
    forall i | 0 <= i < 4 ensures out[i] == a || out[i] == b || out[i] == c || out[i] == d {
      assert out[i] in multiset(out);
    }
    assert forall i, j :: 0 <= i < j < 4 ==> out[i] != out[j] by {
      Unordered.DistinctIffSingleCopies(out);
    }
    RisingSeconds(out[0].second, out[1].second, out[2].second, out[3].second);
  }

  lemma {:induction false} RisingSeconds(s0: int, s1: int, s2: int, s3: int)
    requires s0 in {20, 30, 50, 70} && s1 in {20, 30, 50, 70} && s2 in {20, 30, 50, 70} && s3 in {20, 30, 50, 70}
    requires s0 < s1 < s2 < s3
    ensures s0 == 20 && s1 == 30 && s2 == 50 && s3 == 70
  {
  }

  // ---------------------------------------------------------------------------
  // Bounded heaps: k-th largest and top-k frequent
  // ---------------------------------------------------------------------------

  /** Every kept element ranks at least as high as every discarded one. */
  ghost predicate KeptAbove<T>(heap: seq<T>, dropped: seq<T>, key: T -> int) {
    forall x, y :: x in heap && y in dropped ==> key(y) <= key(x)
  }

  /** The min-heap by `key` whose `top()` is the element of least key. */
  function LeastFirst<T>(key: T -> int): T -> int {
    x => -key(x)
  }

  /** One loop step: push `v`, and when the heap outgrows its bound, pop its least element. */
  lemma {:induction false} KeepStep<T>(heap: seq<T>, dropped: seq<T>, v: T, key: T -> int)
    requires KeptAbove(heap, dropped, key)
    ensures var h := heap + [v];
      KeptAbove(Pop(h, LeastFirst(key)), dropped + [Top(h, LeastFirst(key))], key)
    ensures var h := heap + [v];
      multiset(Pop(h, LeastFirst(key))) + multiset(dropped + [Top(h, LeastFirst(key))])
        == multiset(heap) + multiset(dropped) + multiset{v}
  {
    var h := heap + [v];
    var low := LeastFirst(key);
    var m := Top(h, low);
    var r := Pop(h, low);
    assert multiset(dropped + [m]) == multiset(dropped) + multiset{m};
    assert multiset(h) == multiset(heap) + multiset{v};
    assert multiset(r) + multiset{m} == multiset(h);
    assert multiset(r) + multiset(dropped + [m]) == multiset(h) + multiset(dropped);
    forall x, y | x in r && y in dropped + [m] ensures key(y) <= key(x) {
      PopKeepsMembers(h, low, x);
      assert low(x) <= low(m);
      if m in heap {
        if y in dropped {
          assert key(y) <= key(m);
        }
      } else {
        // The pushed element itself was popped, so the heap is as before.
        assert m == v;
        assert multiset(r) == multiset(heap);
        assert x in multiset(r);
      }
    }
  }

  /**
   The loop body `pq.push(x); if (pq.size() > k) pq.pop();` on a min-heap by
   `key`: the heap grows until it holds `k` elements, and from then on each
   push is followed by popping the least element, which joins `dropped`.
   */
  method PushBounded<T>(heap: seq<T>, ghost dropped: seq<T>, v: T, key: T -> int, k: nat)
    returns (heap': seq<T>, ghost dropped': seq<T>)
    requires |heap| <= k && (|heap| < k ==> |dropped| == 0)
    requires KeptAbove(heap, dropped, key)
    ensures |heap'| == if |heap| < k then |heap| + 1 else k
    ensures |dropped'| == if |heap| < k then 0 else |dropped| + 1
    ensures multiset(heap') + multiset(dropped') == multiset(heap) + multiset(dropped) + multiset{v}
    ensures KeptAbove(heap', dropped', key)
  {
    var low := LeastFirst(key);
    var h := PushBack(heap, v);
    assert h == heap + [v];
    if |h| > k {
      KeepStep(heap, dropped, v, key);
      dropped' := dropped + [Top(h, low)];
      heap' := Pop(h, low);
    } else {
      assert multiset(h) == multiset(heap) + multiset{v};
      heap', dropped' := h, dropped;
    }
  }

  /**
   The loop `for (x : items) { pq.push(x); if (pq.size() > k) pq.pop(); }`:
   it keeps `min(|items|, k)` elements, loses none, and every element kept
   has a key at least that of every element popped.
   */
  method KeepLargest<T>(items: seq<T>, key: T -> int, k: nat) returns (heap: seq<T>, ghost dropped: seq<T>)
    ensures |heap| == if |items| < k then |items| else k
    ensures multiset(heap) + multiset(dropped) == multiset(items)
    ensures KeptAbove(heap, dropped, key)
  {
    heap, dropped := [], [];
    for i := 0 to |items|
      invariant |heap| == if i < k then i else k
      invariant |heap| < k ==> |dropped| == 0
      invariant multiset(heap) + multiset(dropped) == multiset(items[..i])
      invariant KeptAbove(heap, dropped, key)
    {
      assert multiset(items[..i + 1]) == multiset(items[..i]) + multiset{items[i]} by {
        assert items[..i + 1] == items[..i] + [items[i]];
      }
      heap, dropped := PushBounded(heap, dropped, items[i], key, k);
    }
    assert items[..|items|] == items;
  }

  /**
   When the kept elements all rank at least as high as the discarded ones,
   the least kept element is the `|heap|`-th largest of all of them, counting
   repeated values separately.
   */
  lemma {:induction false} KthFromSplit(nums: seq<int>, heap: seq<int>, dropped: seq<int>, r: int)
    requires multiset(heap) + multiset(dropped) == multiset(nums)
    requires KeptAbove(heap, dropped, Largest)
    requires r in heap && forall x :: x in heap ==> r <= x
    ensures |heap| <= |nums|
    ensures r == SortDescending(nums)[|heap| - 1]
  {
    assert |multiset(nums)| == |nums|;
    var hs, ds := SortDescending(heap), SortDescending(dropped);
    SortedSplitDescends(heap, dropped, hs, ds);
    assert multiset(hs + ds) == multiset(nums);
    ListOps.DescendingPermutationUnique(hs + ds, SortDescending(nums));
    LeastIsLast(heap, hs, r);
    assert (hs + ds)[|hs| - 1] == hs[|hs| - 1];
  }

  lemma {:induction false} SortedSplitDescends(heap: seq<int>, dropped: seq<int>, hs: seq<int>, ds: seq<int>)
    requires KeptAbove(heap, dropped, Largest)
    requires Descending(hs) && multiset(hs) == multiset(heap)
    requires Descending(ds) && multiset(ds) == multiset(dropped)
    ensures Descending(hs + ds)
  {
    var s := hs + ds;
    forall i, j | 0 <= i < j < |s| ensures s[i] >= s[j] {
      if j >= |hs| && i < |hs| {
        assert hs[i] in multiset(heap) && ds[j - |hs|] in multiset(dropped);
        assert Largest(ds[j - |hs|]) <= Largest(hs[i]);
      }
    }
  }

  lemma {:induction false} LeastIsLast(heap: seq<int>, hs: seq<int>, r: int)
    requires Descending(hs) && multiset(hs) == multiset(heap)
    requires r in heap && forall x :: x in heap ==> r <= x
    ensures |hs| > 0 && hs[|hs| - 1] == r
  {
    assert r in multiset(hs);
    var p :| 0 <= p < |hs| && hs[p] == r;
    var last := hs[|hs| - 1];
    assert last in multiset(heap);
    assert last in heap;
    assert r >= last by {
      if p < |hs| - 1 {
        assert hs[p] >= hs[|hs| - 1];
      }
    }
  }

  /**
   k-th largest with a size-bounded min-heap: push every number, popping the
   least whenever more than `k` are held; the final `top()` is the k-th
   largest counting repeats (the least number when there are fewer than `k`).
   */
  method KthLargest(nums: seq<int>, k: nat) returns (r: int)
    requires |nums| > 0 && k > 0
    ensures r == SortDescending(nums)[(if k < |nums| then k else |nums|) - 1]
  {
    var heap;
    ghost var dropped;
    heap, dropped := KeepLargest(nums, Largest, k);
    assert |heap| == (if k < |nums| then k else |nums|) > 0;
    r := Top(heap, LeastFirst(Largest));
    LeastFirstTopIsLeast(heap);
    KthFromSplit(nums, heap, dropped, r);
  }

  /** The top of a min-heap of integers is its least element. */
  lemma {:induction false} LeastFirstTopIsLeast(heap: seq<int>)
    requires |heap| > 0
    ensures Top(heap, LeastFirst(Largest)) in heap
    ensures forall x :: x in heap ==> Top(heap, LeastFirst(Largest)) <= x
  {
    var low := LeastFirst(Largest);
    var r := Top(heap, low);
    forall x | x in heap ensures r <= x {
      assert low(x) <= low(r);
      LeastFirstNegates(Largest, x);
      LeastFirstNegates(Largest, r);
    }
  }

  lemma {:induction false} LeastFirstNegates<T>(key: T -> int, x: T)
    ensures LeastFirst(key)(x) == -key(x)
  {
  }

  /** {3, 2, 1, 5, 6, 4} with k = 2: the 2nd largest is 5, whatever order the numbers come in. */
  method DemoKthLargest(nums: seq<int>) returns (r: int)
    requires multiset(nums) == multiset{3, 2, 1, 5, 6, 4}
    ensures r == 5
  {
    assert |nums| == |multiset(nums)| == 6;
    r := KthLargest(nums, 2);
    KthDemoSorted(nums);
  }

  lemma {:induction false} KthDemoSorted(nums: seq<int>)
    requires multiset(nums) == multiset{3, 2, 1, 5, 6, 4}
    ensures SortDescending(nums) == [6, 5, 4, 3, 2, 1]
  {
    var expected := [6, 5, 4, 3, 2, 1];
    assert Descending(expected) by {
      NonIncreasingIsDescending(expected);
    }
    KthDemoBag();
    ListOps.DescendingPermutationUnique(SortDescending(nums), expected);
  }

  lemma {:induction false} KthDemoBag()
    ensures multiset([6, 5, 4, 3, 2, 1]) == multiset{3, 2, 1, 5, 6, 4}
  {
    assert multiset([6, 5, 4, 3, 2, 1]) == multiset{6, 5, 4, 3, 2, 1};
  }

  /** Priority of the frequency comparator `a.second > b.second` as a key: the count. */
  function Count(e: (int, nat)): int { e.1 }

  /**
   Top-k frequent: count every value with `freq[x]++`, then walk the counts
   in the hash map's iteration order `order` (each distinct value once)
   through a min-heap by count bounded to `k` entries.  The kept entries are
   `(value, count)` pairs for distinct values, and none of the values left
   out occurs more often than any value kept.
   */
  method TopKFrequent(arr: seq<int>, order: seq<int>, k: nat) returns (kept: seq<(int, nat)>)
    requires Unordered.Distinct(order) && Elems(order) == Elems(arr)
    ensures |kept| == if |order| < k then |order| else k
    ensures forall e :: e in kept ==> e.0 in arr && e.1 == Frequency.Occurrences(arr, e.0)
    ensures Unordered.Distinct(Entries.Keys(kept))
    ensures forall e, x :: e in kept && x in arr && x !in Entries.Keys(kept) ==> Frequency.Occurrences(arr, x) <= e.1
  {
    var freq := Frequency.CountAll(arr);
    forall x | x in arr ensures x in freq && freq[x] == Frequency.Occurrences(arr, x) {
      Frequency.CountAllAgreesWithScan(arr, x);
      Frequency.OccurrencesIsMultiplicity(arr, x);
    }
    assert forall i :: 0 <= i < |order| ==> order[i] in Elems(arr);
    var items := seq(|order|, i requires 0 <= i < |order| => (order[i], freq[order[i]]));
    ghost var dropped;
    kept, dropped := KeepLargest(items, Count, k);
    TopKFacts(arr, order, items, kept, dropped);
  }

  lemma {:induction false} TopKFacts(arr: seq<int>, order: seq<int>, items: seq<(int, nat)>, kept: seq<(int, nat)>, dropped: seq<(int, nat)>)
    requires Unordered.Distinct(order) && Elems(order) == Elems(arr)
    requires |items| == |order|
    requires forall i :: 0 <= i < |order| ==> items[i] == (order[i], Frequency.Occurrences(arr, order[i]))
    requires multiset(kept) + multiset(dropped) == multiset(items)
    requires KeptAbove(kept, dropped, Count)
    ensures forall e :: e in kept ==> e.0 in arr && e.1 == Frequency.Occurrences(arr, e.0)
    ensures Unordered.Distinct(Entries.Keys(kept))
    ensures forall e, x :: e in kept && x in arr && x !in Entries.Keys(kept) ==> Frequency.Occurrences(arr, x) <= e.1
  {
    forall e | e in kept ensures exists i :: 0 <= i < |items| && items[i] == e {
      assert e in multiset(items);
    }
    forall e | e in kept ensures e.0 in arr && e.1 == Frequency.Occurrences(arr, e.0) {
      var i :| 0 <= i < |items| && items[i] == e;
      assert order[i] in Elems(arr);
    }
    assert Unordered.Distinct(items) by {
      forall i, j | 0 <= i < j < |items| ensures items[i] != items[j] {
        assert items[i].0 == order[i] && items[j].0 == order[j];
      }
    }
    Unordered.DistinctIffSingleCopies(items);
    forall e | e in kept ensures multiset(kept)[e] == 1 {
      assert e in multiset(items);
      assert e in items;
      assert multiset(kept)[e] <= multiset(items)[e];
    }
    Unordered.DistinctIffSingleCopies(kept);
    var ks := Entries.Keys(kept);
    forall i, j | 0 <= i < j < |ks| ensures ks[i] != ks[j] {
      assert kept[i] != kept[j];
      assert kept[i] in kept && kept[j] in kept;
    }
    forall e, x | e in kept && x in arr && x !in ks ensures Frequency.Occurrences(arr, x) <= e.1 {
      assert x in Elems(order);
      var i :| 0 <= i < |order| && order[i] == x;
      assert items[i] in multiset(items);
      forall p | 0 <= p < |kept| ensures kept[p] != items[i] {
        assert ks[p] == kept[p].0;
      }
      assert items[i] in multiset(dropped);
      assert items[i] in dropped;
      assert Count(items[i]) <= Count(e);
    }
  }
  /**
   {1, 1, 1, 2, 2, 3} with k = 2: whatever order the hash map lists the
   counts in, the values kept are 1 and 2, and draining the heap prints the
   less frequent one first ("2 1").
   */
  method DemoTopKFrequent(order: seq<int>) returns (kept: seq<(int, nat)>)
    requires Unordered.Distinct(order) && Elems(order) == {1, 2, 3}
    ensures Elems(Entries.Keys(kept)) == {1, 2}
    ensures Entries.Keys(Drain(kept, LeastFirst(Count))) == [2, 1]
  {
    var arr := [1, 1, 1, 2, 2, 3];
    DemoCounts(arr);
    Unordered.DistinctCardinality(order);
    kept := TopKFrequent(arr, order, 2);
    KeptOfDemo(arr, kept);
    DrainTwo(kept);
  }

  lemma {:induction false} DemoCounts(arr: seq<int>)
    requires arr == [1, 1, 1, 2, 2, 3]
    ensures Elems(arr) == {1, 2, 3}
    ensures Frequency.Occurrences(arr, 1) == 3
    ensures Frequency.Occurrences(arr, 2) == 2
    ensures Frequency.Occurrences(arr, 3) == 1
  {
    assert arr[0] == 1 && arr[3] == 2 && arr[5] == 3;
    Frequency.OccurrencesIsMultiplicity(arr, 1);
    Frequency.OccurrencesIsMultiplicity(arr, 2);
    Frequency.OccurrencesIsMultiplicity(arr, 3);
    assert multiset(arr) == multiset{1, 1, 1, 2, 2, 3};
  }

  lemma {:induction false} KeptOfDemo(arr: seq<int>, kept: seq<(int, nat)>)
    requires Elems(arr) == {1, 2, 3}
    requires Frequency.Occurrences(arr, 1) == 3 && Frequency.Occurrences(arr, 2) == 2
    requires Frequency.Occurrences(arr, 3) == 1
    requires |kept| == 2 && Unordered.Distinct(Entries.Keys(kept))
    requires forall e :: e in kept ==> e.0 in arr && e.1 == Frequency.Occurrences(arr, e.0)
    requires forall e, x :: e in kept && x in arr && x !in Entries.Keys(kept) ==> Frequency.Occurrences(arr, x) <= e.1
    ensures Elems(Entries.Keys(kept)) == {1, 2}
    ensures multiset(kept) == multiset{(1, 3), (2, 2)}
  {
    var a, b := kept[0], kept[1];
    assert a in kept && b in kept;
    assert Entries.Keys(kept) == [a.0, b.0];
    assert kept == [a, b];
    assert a.0 in Elems(arr) && b.0 in Elems(arr);
    assert 1 in Elems(arr) && 2 in Elems(arr);
    TopTwoOfDemo(a, b);
  }

  lemma {:induction false} TopTwoOfDemo(a: (int, nat), b: (int, nat))
    requires a.0 != b.0
    requires a == (1, 3) || a == (2, 2) || a == (3, 1)
    requires b == (1, 3) || b == (2, 2) || b == (3, 1)
    requires a.0 != 1 && b.0 != 1 ==> 3 <= a.1 && 3 <= b.1
    requires a.0 != 2 && b.0 != 2 ==> 2 <= a.1 && 2 <= b.1
    ensures (a == (1, 3) && b == (2, 2)) || (a == (2, 2) && b == (1, 3))
  {
  }

  lemma {:induction false} DrainTwo(kept: seq<(int, nat)>)
    requires multiset(kept) == multiset{(1, 3), (2, 2)}
    ensures Entries.Keys(Drain(kept, LeastFirst(Count))) == [2, 1]
  {
    var prio := LeastFirst(Count);
    LeastFirstApplies(Count, (2, 2));
    LeastFirstApplies(Count, (1, 3));
    DrainOfTwo(kept, (2, 2), (1, 3), prio);
    KeysOfTwo(Drain(kept, prio), (2, 2), (1, 3));
  }

  lemma {:induction false} LeastFirstApplies<T>(key: T -> int, x: T)
    ensures LeastFirst(key)(x) == -key(x)
  {
  }

  lemma {:induction false} KeysOfTwo(es: seq<(int, nat)>, a: (int, nat), b: (int, nat))
    requires es == [a, b]
    ensures Entries.Keys(es) == [a.0, b.0]
  {
  }

  /** Two elements of different priority drain higher priority first. */
  lemma {:induction false} DrainOfTwo<T>(pq: seq<T>, a: T, b: T, prio: T -> int)
    requires multiset(pq) == multiset{a, b} && prio(a) > prio(b)
    ensures Drain(pq, prio) == [a, b]
  {
    var out := Drain(pq, prio);
    assert |out| == |multiset(out)| == 2;
    assert out[0] in multiset(out) && out[1] in multiset(out);
    assert a in multiset(out) && b in multiset(out);
    assert prio(out[0]) >= prio(out[1]);
  }
}
