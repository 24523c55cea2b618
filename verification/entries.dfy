/**
 Sequences of key/value entries, the common representation of the map-like
 containers: an ordered map keeps its entries ascending by key, an unordered
 map keeps them in an unspecified order with distinct keys, and a multimap
 may repeat keys.  `View` reads entries as a finite map and `ValuesFor`
 collects the values stored under one key.
 */
module Entries {
  import Sorting

  /** The keys of the entries, in iteration order. */
  function Keys<K, V>(m: seq<(K, V)>): (r: seq<K>)
    ensures |r| == |m|
    ensures forall i :: 0 <= i < |m| ==> r[i] == m[i].0
  {
    seq(|m|, i requires 0 <= i < |m| => m[i].0)
  }

  /**
   The finite map an entry sequence stands for: each entry binds its key,
   later entries overriding earlier ones (in a well-formed map no key repeats,
   so nothing is overridden).
   */
  function View<K(==), V>(m: seq<(K, V)>): map<K, V> {
    if |m| == 0 then map[] else View(m[..|m| - 1])[m[|m| - 1].0 := m[|m| - 1].1]
  }

  /** Reading the entries in two parts reads the two finite maps one after the other. */
  lemma {:induction false} ViewConcat<K, V>(a: seq<(K, V)>, b: seq<(K, V)>)
    ensures View(a + b) == View(a) + View(b)
  {
    if |b| == 0 {
      assert a + b == a;
    } else {
      var n := |b| - 1;
      var last := b[n];
      assert (a + b)[..|a + b| - 1] == a + b[..n];
      assert (a + b)[|a + b| - 1] == last;
      assert View(a + b) == View(a + b[..n])[last.0 := last.1];
      ViewConcat(a, b[..n]);
      assert View(b) == View(b[..n])[last.0 := last.1];
      UpdateAfterUnion(View(a), View(b[..n]), last.0, last.1);
    }
  }

  lemma {:induction false} UpdateAfterUnion<K, V>(a: map<K, V>, b: map<K, V>, k: K, v: V)
    ensures (a + b)[k := v] == a + b[k := v]
  {
  }

  /** The keys of the view are the keys of the entries. */
  lemma {:induction false} ViewKeys<K, V>(m: seq<(K, V)>)
    ensures forall k :: k in View(m) <==> k in Keys(m)
  {
    if |m| > 0 {
      var init := m[..|m| - 1];
      ViewKeys(init);
      assert Keys(m) == Keys(init) + [m[|m| - 1].0];
    }
  }

  /** The key set of the view, as a set. */
  lemma {:induction false} ViewKeySet<K, V>(m: seq<(K, V)>)
    ensures View(m).Keys == Sorting.Elems(Keys(m))
  {
    forall k | k in View(m).Keys ensures k in Keys(m) { KeyOfView(m, k); }
    forall k | k in Keys(m) ensures k in View(m) { ViewOfKey(m, k); }
  }

  lemma {:induction false} KeyOfView<K, V>(m: seq<(K, V)>, k: K)
    requires k in View(m)
    ensures k in Keys(m)
  {
    ViewKeys(m);
  }

  lemma {:induction false} ViewOfKey<K, V>(m: seq<(K, V)>, k: K)
    requires k in Keys(m)
    ensures k in View(m)
  {
    ViewKeys(m);
  }

  /** Where the view splits around position `i`. */
  lemma {:induction false} ViewSplit<K, V>(m: seq<(K, V)>, i: nat)
    requires i < |m|
    ensures View(m) == View(m[..i]) + map[m[i].0 := m[i].1] + View(m[i + 1..])
  {
    var lo, e, hi := m[..i], m[i], m[i + 1..];
    assert m == (lo + [e]) + hi;
    ViewConcat(lo + [e], hi);
    ViewConcat(lo, [e]);
    ViewSingle(e);
  }

  /** Overwriting the value of an entry whose key does not recur later rebinds that key in the view. */
  lemma {:induction false} ViewOverwrite<K, V>(m: seq<(K, V)>, i: nat, v: V)
    requires i < |m| && m[i].0 !in View(m[i + 1..])
    ensures Keys(m[i := (m[i].0, v)]) == Keys(m)
    ensures View(m[i := (m[i].0, v)]) == View(m)[m[i].0 := v]
  {
    var r := m[i := (m[i].0, v)];
    assert r[..i] == m[..i] && r[i + 1..] == m[i + 1..];
    ViewSplit(r, i);
    ViewSplit(m, i);
    RebindMiddle(View(m[..i]), m[i].0, m[i].1, v, View(m[i + 1..]));
  }

  lemma {:induction false} RebindMiddle<K, V>(a: map<K, V>, k: K, u: V, v: V, b: map<K, V>)
    requires k !in b
    ensures a + map[k := v] + b == (a + map[k := u] + b)[k := v]
  {
  }

  lemma {:induction false} ViewSingle<K, V>(e: (K, V))
    ensures View([e]) == map[e.0 := e.1]
  {
    assert [e][..0] == [];
  }

  lemma {:induction false} KeysInsert<K, V>(m: seq<(K, V)>, i: nat, e: (K, V))
    requires i <= |m|
    ensures Keys(m[..i] + [e] + m[i..]) == Keys(m)[..i] + [e.0] + Keys(m)[i..]
  {
  }

  lemma {:induction false} KeysErase<K, V>(m: seq<(K, V)>, i: nat)
    requires i < |m|
    ensures Keys(m[..i] + m[i + 1..]) == Keys(m)[..i] + Keys(m)[i + 1..]
  {
  }

  lemma {:induction false} UpdateBeforeDisjoint<K, V>(a: map<K, V>, b: map<K, V>, k: K, v: V)
    requires k !in b
    ensures a + map[k := v] + b == (a + b)[k := v]
  {
  }

  lemma {:induction false} RemoveBetweenDisjoint<K, V>(a: map<K, V>, b: map<K, V>, k: K, v: V)
    requires k !in a && k !in b
    ensures a + b == (a + map[k := v] + b) - {k}
  {
  }

  /** The values bound to `k`, in the order their entries appear. */
  function ValuesFor<K(==), V>(entries: seq<(K, V)>, k: K): seq<V> {
    if |entries| == 0 then []
    else (if entries[0].0 == k then [entries[0].1] else []) + ValuesFor(entries[1..], k)
  }

  lemma {:induction false} ValuesForConcat<K, V>(a: seq<(K, V)>, b: seq<(K, V)>, k: K)
    ensures ValuesFor(a + b, k) == ValuesFor(a, k) + ValuesFor(b, k)
  {
    if |a| == 0 {
      assert a + b == b;
    } else {
      assert (a + b)[0] == a[0];
      assert (a + b)[1..] == a[1..] + b;
      ValuesForConcat(a[1..], b, k);
      var h := if a[0].0 == k then [a[0].1] else [];
      assert ValuesFor(a + b, k) == h + ValuesFor(a[1..] + b, k);
      assert ValuesFor(a, k) == h + ValuesFor(a[1..], k);
    }
  }

  /** When the entries for `k` are exactly those on `[lb, ub)`, only that range contributes values. */
  lemma {:induction false} ValuesForRun<K, V>(mm: seq<(K, V)>, lb: nat, ub: nat, k: K)
    requires lb <= ub <= |mm|
    requires forall j :: 0 <= j < lb ==> mm[j].0 != k
    requires forall j :: lb <= j < ub ==> mm[j].0 == k
    requires forall j :: ub <= j < |mm| ==> mm[j].0 != k
    ensures ValuesFor(mm, k) == ValuesFor(mm[lb..ub], k)
    ensures forall j :: 0 <= j < ub - lb ==> mm[lb..ub][j].0 == k
  {
    var lo, mid, hi := mm[..lb], mm[lb..ub], mm[ub..];
    calc {
      ValuesFor(mm, k);
      { ThreeParts(mm, lb, ub); }
      ValuesFor(lo + (mid + hi), k);
      { ValuesForConcat(lo, mid + hi, k); ValuesForConcat(mid, hi, k); }
      ValuesFor(lo, k) + ValuesFor(mid, k) + ValuesFor(hi, k);
      { ValuesForNoneBetween(mm, 0, lb, k); ValuesForNoneBetween(mm, ub, |mm|, k); assert mm[ub..|mm|] == hi; }
      ValuesFor(mid, k);
    }
    forall j | 0 <= j < |mid| ensures mid[j].0 == k {
      assert mid[j] == mm[lb + j];
    }
  }

  /** No entry on `[lo, hi)` has key `k`, so that range contributes no values for `k`. */
  lemma {:induction false} ValuesForNoneBetween<K, V>(mm: seq<(K, V)>, lo: nat, hi: nat, k: K)
    requires lo <= hi <= |mm|
    requires forall j :: lo <= j < hi ==> mm[j].0 != k
    ensures ValuesFor(mm[lo..hi], k) == []
  {
    var part := mm[lo..hi];
    forall j | 0 <= j < |part| ensures part[j].0 != k {
      assert part[j] == mm[lo + j];
    }
    ValuesForAbsent(part, k);
  }

  lemma {:induction false} ThreeParts<T>(s: seq<T>, lb: nat, ub: nat)
    requires lb <= ub <= |s|
    ensures s == s[..lb] + (s[lb..ub] + s[ub..])
  {
    assert s[lb..] == s[lb..ub] + s[ub..];
    assert s == s[..lb] + s[lb..];
  }

  /**
   Inserting an entry at a position after which no entry has its key appends
   its value to that key's values and changes no other key's.
   */
  lemma {:induction false} ValuesForInsertBeforeOthers<K, V>(mm: seq<(K, V)>, i: nat, e: (K, V), key: K)
    requires i <= |mm|
    requires forall j :: i <= j < |mm| ==> mm[j].0 != e.0
    ensures ValuesFor(mm[..i] + [e] + mm[i..], key) == ValuesFor(mm, key) + if key == e.0 then [e.1] else []
  {
    var lo, hi := mm[..i], mm[i..];
    assert mm == lo + hi;
    assert lo + [e] + hi == lo + ([e] + hi);
    ValuesForConcat(lo, [e] + hi, key);
    ValuesForConcat([e], hi, key);
    ValuesForConcat(lo, hi, key);
    assert ValuesFor([e], key) == (if key == e.0 then [e.1] else []) + ValuesFor([e][1..], key);
    assert [e][1..] == [];
    if key == e.0 {
      ValuesForNoneBetween(mm, i, |mm|, key);
      assert mm[i..|mm|] == hi;
    }
  }

  lemma {:induction false} ValuesForAbsent<K, V>(entries: seq<(K, V)>, k: K)
    requires forall i :: 0 <= i < |entries| ==> entries[i].0 != k
    ensures ValuesFor(entries, k) == []
  {
    if |entries| > 0 {
      ValuesForAbsent(entries[1..], k);
    }
  }

  /** The values of the entries, in order. */
  function ValuesOf<K, V>(entries: seq<(K, V)>): (r: seq<V>)
    ensures |r| == |entries|
  {
    seq(|entries|, j requires 0 <= j < |entries| => entries[j].1)
  }

  lemma {:induction false} AllKeyed<K, V>(entries: seq<(K, V)>, k: K)
    requires forall i :: 0 <= i < |entries| ==> entries[i].0 == k
    ensures ValuesFor(entries, k) == ValuesOf(entries)
  {
    if |entries| > 0 {
      AllKeyed(entries[1..], k);
      assert ValuesOf(entries) == [entries[0].1] + ValuesOf(entries[1..]);
    }
  }
}
