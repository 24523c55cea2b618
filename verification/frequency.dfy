/**
 The frequency-counting idiom `for (x : xs) freq[x]++;`, used with a `map`,
 an `unordered_map` and, before the top-k selection, an `unordered_map<int, int>`.
 `freq[x]` on a missing key first inserts `x` with the value-initialised count 0.
 */
module Frequency {

  /** `freq[x]++`: the count of `x` goes up by one, a missing `x` starting from 0. */
  function Increment<T>(freq: map<T, nat>, x: T): (r: map<T, nat>)
    ensures r.Keys == freq.Keys + {x}
    ensures r[x] == (if x in freq then freq[x] else 0) + 1
    ensures forall y :: y in freq && y != x ==> r[y] == freq[y]
  {
    freq[x := (if x in freq then freq[x] else 0) + 1]
  }

  /** Feed `xs` through `freq[x]++`, in order. */
  function CountAll<T>(xs: seq<T>): (freq: map<T, nat>)
    ensures freq.Keys == set x | x in xs
    ensures forall x :: x in freq ==> freq[x] == multiset(xs)[x]
    ensures forall x :: x in freq ==> freq[x] > 0
  {
    if |xs| == 0 then map[]
    else
      var prefix := xs[..|xs| - 1];
      assert xs == prefix + [xs[|xs| - 1]];
      Increment(CountAll(prefix), xs[|xs| - 1])
  }

  /** `count(first, last, v)`: a left-to-right scan counting the elements equal to `v`. */
  function Occurrences<T(==)>(xs: seq<T>, v: T): (n: nat)
    ensures n <= |xs|
  {
    if |xs| == 0 then 0
    else (if xs[0] == v then 1 else 0) + Occurrences(xs[1..], v)
  }

  /** The scan counts exactly the multiplicity of `v` in the sequence. */
  lemma {:induction false} OccurrencesIsMultiplicity<T>(xs: seq<T>, v: T)
    ensures Occurrences(xs, v) == multiset(xs)[v]
  {
    if |xs| > 0 {
      assert xs == [xs[0]] + xs[1..];
      OccurrencesIsMultiplicity(xs[1..], v);
    }
  }

  /** The counter agrees with a scan of the text for every value. */
  lemma {:induction false} CountAllAgreesWithScan<T>(xs: seq<T>, x: T)
    ensures x in CountAll(xs) <==> Occurrences(xs, x) > 0
    ensures x in CountAll(xs) ==> CountAll(xs)[x] == Occurrences(xs, x)
  {
    OccurrencesIsMultiplicity(xs, x);
  }

  /** The letters of "hello world", as a bag. */
  lemma {:induction false} HelloWorldLetters(text: string)
    requires text == "hello world"
    ensures multiset(text) == multiset{'h', 'e', 'l', 'l', 'o', ' ', 'w', 'o', 'r', 'l', 'd'}
  {
  }

  /**
   Counting "hello world" (any text with its letters; see `HelloWorldLetters`): `l` occurs three times,
   `o` twice, the space once.
   */
  lemma {:induction false} DemoHelloWorld(text: string)
    requires multiset(text) == multiset{'h', 'e', 'l', 'l', 'o', ' ', 'w', 'o', 'r', 'l', 'd'}
    ensures 'l' in CountAll(text) && 'o' in CountAll(text) && ' ' in CountAll(text)
    ensures CountAll(text)['l'] == 3 && CountAll(text)['o'] == 2 && CountAll(text)[' '] == 1
  {
    assert 'l' in multiset(text) && 'o' in multiset(text) && ' ' in multiset(text);
  }
}
