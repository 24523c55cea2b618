/**
 The members shared by `vector`, `list` and `deque`, on an immutable
 sequence: the element at index 0 is `front()`, the last one `back()`.
 Calling `front`, `back`, `pop_front`, `pop_back` or `[]` outside the
 elements is undefined behaviour in C++, so those carry preconditions;
 `at` checks its index and reports `out_of_range` instead.
 */
module Sequence {
  import opened Wrappers

  function PushBack<T>(s: seq<T>, x: T): (r: seq<T>)
    ensures |r| == |s| + 1 && r[|s|] == x
    ensures forall i :: 0 <= i < |s| ==> r[i] == s[i]
  {
    s + [x]
  }

  function PushFront<T>(s: seq<T>, x: T): (r: seq<T>)
    ensures |r| == |s| + 1 && r[0] == x
    ensures forall i :: 0 <= i < |s| ==> r[i + 1] == s[i]
  {
    [x] + s
  }

  function Front<T>(s: seq<T>): T
    requires |s| > 0
  {
    s[0]
  }

  function Back<T>(s: seq<T>): T
    requires |s| > 0
  {
    s[|s| - 1]
  }

  /** `pop_back()`: drops exactly the last element. */
  function PopBack<T>(s: seq<T>): (r: seq<T>)
    requires |s| > 0
    ensures |r| == |s| - 1
    ensures forall i :: 0 <= i < |r| ==> r[i] == s[i]
  {
    s[..|s| - 1]
  }

  /** `pop_front()`: drops exactly the first element. */
  function PopFront<T>(s: seq<T>): (r: seq<T>)
    requires |s| > 0
    ensures |r| == |s| - 1
    ensures forall i :: 0 <= i < |r| ==> r[i] == s[i + 1]
  {
    s[1..]
  }

  /** Pushing at an end and reading or popping that end undoes nothing else. */
  lemma {:induction false} PushPopEnds<T>(s: seq<T>, x: T)
    ensures Back(PushBack(s, x)) == x && PopBack(PushBack(s, x)) == s
    ensures Front(PushFront(s, x)) == x && PopFront(PushFront(s, x)) == s
  {
  }

  /** `insert(begin() + i, x)`: `x` lands at index `i`, later elements shift up by one. */
  function InsertAt<T>(s: seq<T>, i: nat, x: T): (r: seq<T>)
    requires i <= |s|
    ensures |r| == |s| + 1 && r[i] == x
    ensures forall j :: 0 <= j < i ==> r[j] == s[j]
    ensures forall j :: i <= j < |s| ==> r[j + 1] == s[j]
  {
    s[..i] + [x] + s[i..]
  }

  /** `erase(begin() + i)`: removes exactly index `i`, later elements shift down by one. */
  function EraseAt<T>(s: seq<T>, i: nat): (r: seq<T>)
    requires i < |s|
    ensures |r| == |s| - 1
    ensures forall j :: 0 <= j < i ==> r[j] == s[j]
    ensures forall j :: i <= j < |r| ==> r[j] == s[j + 1]
  {
    s[..i] + s[i + 1..]
  }

  /** Erasing what was just inserted, or re-inserting what was just erased, restores the sequence. */
  lemma {:induction false} InsertEraseRoundTrip<T>(s: seq<T>, i: nat, x: T)
    requires i <= |s|
    ensures EraseAt(InsertAt(s, i, x), i) == s
    ensures i < |s| ==> InsertAt(EraseAt(s, i), i, s[i]) == s
  {
  }

  /** `v[i]` / `dq[i]`: unchecked, so the index must be in range. */
  function Index<T>(s: seq<T>, i: nat): T
    requires i < |s|
  {
    s[i]
  }

  /** `at(i)`: the element when `i < size()`, otherwise the `out_of_range` exception. */
  function At<T>(s: seq<T>, i: nat): (r: Result<T>)
    ensures r.Ok? <==> i < |s|
    ensures r.Ok? ==> r.value == Index(s, i)
    ensures r.Err? ==> r.error == OutOfRange
  {
    if i < |s| then Ok(s[i]) else Err(OutOfRange)
  }

  /** `assign(n, v)` and the constructor `(n, v)`: exactly `n` copies of `v`. */
  function Fill<T>(n: nat, v: T): (r: seq<T>)
    ensures |r| == n
    ensures forall i :: 0 <= i < n ==> r[i] == v
  {
    if n == 0 then [] else Fill(n - 1, v) + [v]
  }

  /** `resize(n, v)`: keeps the first `n` elements, padding with copies of `v` when growing. */
  function Resize<T>(s: seq<T>, n: nat, v: T): (r: seq<T>)
    ensures |r| == n
    ensures forall i :: 0 <= i < n && i < |s| ==> r[i] == s[i]
    ensures forall i :: |s| <= i < n ==> r[i] == v
  {
    if n <= |s| then s[..n] else s + Fill(n - |s|, v)
  }

  /** Resizing to the current size changes nothing; growing then shrinking back restores the sequence; assigning is resizing an empty container. */
  lemma {:induction false} ResizeFacts<T>(s: seq<T>, n: nat, v: T, w: T)
    ensures Resize(s, |s|, v) == s
    ensures n >= |s| ==> Resize(Resize(s, n, v), |s|, w) == s
    ensures Fill(n, v) == Resize([], n, v)
  {
  }
}
