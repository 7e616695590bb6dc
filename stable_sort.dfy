/**
 * The stable ascending sort the screen applies to a copy of the catalogue
 * (`Array.prototype.sort` with a numeric comparator, which is stable).
 * `Sort` is an insertion sort stated on sequences; `SortIsTheStableSort`
 * shows that it is the only order that is both ascending by the key and
 * keeps the catalogue order among equal keys, so whichever stable algorithm
 * the engine runs, it produces `Sort`. `SortInPlace` is the in-place
 * array version.
 */
module StableSort {
  import opened Catalogue

  /** The two comparators: `parseInt(a.time) - parseInt(b.time)` and `a.deliveryFee - b.deliveryFee`. */
  datatype SortKey = ByMinutes | ByFee

  function Key(k: SortKey, m: DeliveryMode): int {
    match k
    case ByMinutes => m.minutes
    case ByFee => m.deliveryFee
  }

  /** Ascending (non-decreasing) by the key. */
  predicate SortedBy(s: seq<DeliveryMode>, k: SortKey) {
    forall i, j :: 0 <= i < j < |s| ==> Key(k, s[i]) <= Key(k, s[j])
  }

  /** The entries of `s` whose key is `v`, in the order of `s`. */
  function WithKey(s: seq<DeliveryMode>, k: SortKey, v: int): seq<DeliveryMode> {
    if s == [] then []
    else WithKey(s[..|s| - 1], k, v) + (if Key(k, s[|s| - 1]) == v then [s[|s| - 1]] else [])
  }

  /**
   * Inserts `x` into the ascending `t`, walking from the right: `x` moves
   * left past the entries whose key is strictly larger, and so stays after
   * every entry with an equal key.
   */
  function Insert(t: seq<DeliveryMode>, x: DeliveryMode, k: SortKey): seq<DeliveryMode> {
    if t == [] then [x]
    else if Key(k, t[|t| - 1]) > Key(k, x) then Insert(t[..|t| - 1], x, k) + [t[|t| - 1]]
    else t + [x]
  }

  /** Insertion sort: sort all but the last entry, then insert the last. */
  function Sort(s: seq<DeliveryMode>, k: SortKey): seq<DeliveryMode> {
    if s == [] then [] else Insert(Sort(s[..|s| - 1], k), s[|s| - 1], k)
  }

  // ----- WithKey -----

  lemma {:induction false} WithKeyAppend(a: seq<DeliveryMode>, b: seq<DeliveryMode>, k: SortKey, v: int)
    ensures WithKey(a + b, k, v) == WithKey(a, k, v) + WithKey(b, k, v)
    decreases |b|
  {
    if b == [] {
      assert a + b == a;
    } else {
      var b' := b[..|b| - 1];
      assert (a + b)[..|a + b| - 1] == a + b';
      WithKeyAppend(a, b', k, v);
    }
  }

  /** Filtering after appending one entry. */
  lemma WithKeySnoc(s: seq<DeliveryMode>, x: DeliveryMode, k: SortKey, v: int)
    ensures WithKey(s + [x], k, v) == WithKey(s, k, v) + (if Key(k, x) == v then [x] else [])
  {
    assert (s + [x])[..|s|] == s;
  }

  lemma {:induction false} WithKeyMember(s: seq<DeliveryMode>, k: SortKey, v: int, y: DeliveryMode)
    requires y in WithKey(s, k, v)
    ensures y in s && Key(k, y) == v
    decreases |s|
  {
    var s' := s[..|s| - 1];
    if y in WithKey(s', k, v) {
      WithKeyMember(s', k, v, y);
      assert y in s;
    }
  }

  lemma {:induction false} WithKeyHas(s: seq<DeliveryMode>, k: SortKey, i: nat)
    requires i < |s|
    ensures s[i] in WithKey(s, k, Key(k, s[i]))
    decreases |s|
  {
    var s' := s[..|s| - 1];
    if i < |s| - 1 {
      WithKeyHas(s', k, i);
    }
  }

  // ----- Insert -----

  lemma {:induction false} InsertPermutes(t: seq<DeliveryMode>, x: DeliveryMode, k: SortKey)
    ensures multiset(Insert(t, x, k)) == multiset(t) + multiset{x}
    decreases |t|
  {
    if t != [] && Key(k, t[|t| - 1]) > Key(k, x) {
      var t' := t[..|t| - 1];
      InsertPermutes(t', x, k);
      assert t == t' + [t[|t| - 1]];
    }
  }

  lemma {:induction false} InsertSorted(t: seq<DeliveryMode>, x: DeliveryMode, k: SortKey)
    requires SortedBy(t, k)
    ensures SortedBy(Insert(t, x, k), k)
    decreases |t|
  {
    if t != [] && Key(k, t[|t| - 1]) > Key(k, x) {
      var t', l := t[..|t| - 1], t[|t| - 1];
      InsertSorted(t', x, k);
      InsertPermutes(t', x, k);
      var u := Insert(t', x, k);
      forall i | 0 <= i < |u| ensures Key(k, u[i]) <= Key(k, l) {
        assert u[i] in multiset(u);
        if u[i] != x {
          assert u[i] in multiset(t');
          var j :| 0 <= j < |t'| && t'[j] == u[i];
          assert t[j] == u[i];
        }
      }
    }
  }

  lemma {:induction false} InsertKeepsKeyOrder(t: seq<DeliveryMode>, x: DeliveryMode, k: SortKey, v: int)
    ensures WithKey(Insert(t, x, k), k, v) == WithKey(t + [x], k, v)
    decreases |t|
  {
    if t != [] && Key(k, t[|t| - 1]) > Key(k, x) {
      var t', l := t[..|t| - 1], t[|t| - 1];
      InsertKeepsKeyOrder(t', x, k, v);
      WithKeySnoc(Insert(t', x, k), l, k, v);
      WithKeySnoc(t', x, k, v);
      WithKeySnoc(t, x, k, v);
      assert t == t' + [l];
      WithKeySnoc(t', l, k, v);
    }
  }

  // ----- Sort -----

  /** The sorted sequence is ascending by the key. */
  lemma {:induction false} SortIsSorted(s: seq<DeliveryMode>, k: SortKey)
    ensures SortedBy(Sort(s, k), k)
    decreases |s|
  {
    if s != [] {
      SortIsSorted(s[..|s| - 1], k);
      InsertSorted(Sort(s[..|s| - 1], k), s[|s| - 1], k);
    }
  }

  /** The sorted sequence is a permutation of the input. */
  lemma {:induction false} SortPermutes(s: seq<DeliveryMode>, k: SortKey)
    ensures multiset(Sort(s, k)) == multiset(s)
    ensures |Sort(s, k)| == |s|
    decreases |s|
  {
    if s != [] {
      var s' := s[..|s| - 1];
      SortPermutes(s', k);
      InsertPermutes(Sort(s', k), s[|s| - 1], k);
      assert s == s' + [s[|s| - 1]];
    }
  }

  /** Stability: for every key value, the entries with that key keep their input order. */
  lemma {:induction false} SortIsStable(s: seq<DeliveryMode>, k: SortKey, v: int)
    ensures WithKey(Sort(s, k), k, v) == WithKey(s, k, v)
    decreases |s|
  {
    if s != [] {
      var s' := s[..|s| - 1];
      SortIsStable(s', k, v);
      InsertKeepsKeyOrder(Sort(s', k), s[|s| - 1], k, v);
      WithKeyAppend(Sort(s', k), [s[|s| - 1]], k, v);
      WithKeyAppend(s', [s[|s| - 1]], k, v);
      assert s == s' + [s[|s| - 1]];
    }
  }

  /** In an ascending sequence no entry has a larger key than the last one. */
  lemma LastKeyIsMax(t: seq<DeliveryMode>, k: SortKey, y: DeliveryMode)
    requires SortedBy(t, k) && y in t
    ensures Key(k, y) <= Key(k, t[|t| - 1])
  {
    var i :| 0 <= i < |t| && t[i] == y;
    if i < |t| - 1 {
      assert Key(k, t[i]) <= Key(k, t[|t| - 1]);
    }
  }

  /** Of two sequences agreeing per key, an entry with a key of one has a key-mate in the other. */
  lemma SharedKey(r: seq<DeliveryMode>, t: seq<DeliveryMode>, k: SortKey, i: nat)
    requires i < |r| && SortedBy(t, k)
    requires WithKey(r, k, Key(k, r[i])) == WithKey(t, k, Key(k, r[i]))
    ensures t != [] && Key(k, r[i]) <= Key(k, t[|t| - 1])
  {
    WithKeyHas(r, k, i);
    WithKeyMember(t, k, Key(k, r[i]), r[i]);
    LastKeyIsMax(t, k, r[i]);
  }

  /** Dropping equal last entries from two sequences that agree per key leaves sequences that agree per key. */
  lemma AgreeWithoutLast(r: seq<DeliveryMode>, t: seq<DeliveryMode>, k: SortKey, a: DeliveryMode)
    requires forall v :: WithKey(r + [a], k, v) == WithKey(t + [a], k, v)
    ensures forall v :: WithKey(r, k, v) == WithKey(t, k, v)
  {
    forall v ensures WithKey(r, k, v) == WithKey(t, k, v) {
      var x, y := WithKey(r, k, v), WithKey(t, k, v);
      var e := if Key(k, a) == v then [a] else [];
      WithKeySnoc(r, a, k, v);
      WithKeySnoc(t, a, k, v);
      assert x + e == y + e by {
        assert WithKey(r + [a], k, v) == WithKey(t + [a], k, v);
      }
      assert |x| == |y|;
      assert x == (x + e)[..|x|];
      assert y == (y + e)[..|y|];
    }
  }

  /** Two ascending sequences with the same entries per key value, in the same order, are equal. */
  lemma {:induction false} StableOrderUnique(r: seq<DeliveryMode>, t: seq<DeliveryMode>, k: SortKey)
    requires SortedBy(r, k) && SortedBy(t, k)
    requires forall v :: WithKey(r, k, v) == WithKey(t, k, v)
    ensures r == t
    decreases |r| + |t|
  {
    if r == [] || t == [] {
      if r != [] {
        SharedKey(r, t, k, 0);
        assert false;
      }
      if t != [] {
        SharedKey(t, r, k, 0);
        assert false;
      }
      return;
    }
    var r', a := r[..|r| - 1], r[|r| - 1];
    var t', b := t[..|t| - 1], t[|t| - 1];
    assert r == r' + [a] && t == t' + [b];
    // The last entries carry the largest key of either side, so the same key.
    SharedKey(r, t, k, |r| - 1);
    SharedKey(t, r, k, |t| - 1);
    // Each is the last entry with that key on its side, so they coincide.
    var va := Key(k, a);
    assert Key(k, b) == va;
    WithKeySnoc(r', a, k, va);
    WithKeySnoc(t', b, k, va);
    var x, y := WithKey(r', k, va), WithKey(t', k, va);
    assert x + [a] == y + [b] by {
      assert WithKey(r, k, va) == WithKey(t, k, va);
    }
    assert a == (x + [a])[|x|] && b == (y + [b])[|y|];
    assert |x| == |y|;
    assert a == b;
    AgreeWithoutLast(r', t', k, a);
    assert SortedBy(r', k) && SortedBy(t', k);
    StableOrderUnique(r', t', k);
  }

  /**
   * `r` is a stable ascending order of `s`: ascending by the key, and for
   * every key value the entries with that key appear as they do in `s`.
   */
  ghost predicate IsStableSortOf(r: seq<DeliveryMode>, s: seq<DeliveryMode>, k: SortKey) {
    SortedBy(r, k) && forall v :: WithKey(r, k, v) == WithKey(s, k, v)
  }

  /**
   * `Sort(s, k)` is exactly the stable ascending order of `s`, so any
   * stable sort of `s` by the key yields it.
   */
  lemma SortIsTheStableSort(s: seq<DeliveryMode>, r: seq<DeliveryMode>, k: SortKey)
    ensures IsStableSortOf(r, s, k) <==> r == Sort(s, k)
  {
    var t := Sort(s, k);
    SortIsSorted(s, k);
    forall v ensures WithKey(t, k, v) == WithKey(s, k, v) {
      SortIsStable(s, k, v);
    }
    if IsStableSortOf(r, s, k) {
      StableOrderUnique(r, t, k);
    }
  }

  /**
   * Where `x` lands: right after the last entry whose key is not larger
   * than its own, when every entry from there on has a larger key.
   */
  lemma {:induction false} InsertLandsAt(t: seq<DeliveryMode>, x: DeliveryMode, k: SortKey, j: nat)
    requires j <= |t| && (j == 0 || Key(k, t[j - 1]) <= Key(k, x))
    requires forall m :: j <= m < |t| ==> Key(k, t[m]) > Key(k, x)
    ensures Insert(t, x, k) == t[..j] + [x] + t[j..]
    decreases |t|
  {
    if |t| == j {
      assert t[..j] == t && t[j..] == [];
    } else {
      var t' := t[..|t| - 1];
      InsertLandsAt(t', x, k, j);
      assert t'[..j] == t[..j];
      assert t'[j..] + [t[|t| - 1]] == t[j..];
    }
  }

  /**
   * Inserts `a[i]` into the ascending prefix `a[..i]` by swapping it left
   * past every entry with a strictly larger key; entries after `i` stay.
   */
  method InsertAt(a: array<DeliveryMode>, i: nat, k: SortKey)
    requires i < a.Length
    modifies a
    ensures a[..i + 1] == Insert(old(a[..i]), old(a[i]), k)
    ensures a[i + 1..] == old(a[i + 1..])
  {
    ghost var sorted := a[..i];
    var x := a[i];
    var j := i;
    while j > 0 && Key(k, a[j - 1]) > Key(k, x)
      invariant 0 <= j <= i
      invariant forall m :: 0 <= m < j ==> a[m] == sorted[m]
      invariant a[j] == x
      invariant forall m :: j < m <= i ==> a[m] == sorted[m - 1]
      invariant forall m :: i < m < a.Length ==> a[m] == old(a[m])
      invariant forall m :: j <= m < i ==> Key(k, sorted[m]) > Key(k, x)
      decreases j
    {
      a[j - 1], a[j] := a[j], a[j - 1];
      j := j - 1;
    }
    InsertLandsAt(sorted, x, k, j);
    ghost var inserted := sorted[..j] + [x] + sorted[j..];
    forall m | 0 <= m <= i ensures a[m] == inserted[m] {
      if m > j {
        assert inserted[m] == sorted[j..][m - j - 1];
      }
    }
    assert a[..i + 1] == inserted;
  }

  /** Sorts `a` in place, stably and ascending by the key: insertion sort. */
  method SortInPlace(a: array<DeliveryMode>, k: SortKey)
    modifies a
    ensures a[..] == Sort(old(a[..]), k)
  {
    ghost var s := a[..];
    var i := 0;
    while i < a.Length
      invariant 0 <= i <= a.Length
      invariant a[..i] == Sort(s[..i], k)
      invariant a[i..] == s[i..]
    {
      InsertAt(a, i, k);
      assert s[..i + 1][..i] == s[..i];
      assert a[i + 1..] == s[i + 1..];
      i := i + 1;
    }
    assert a[..] == a[..a.Length] && s == s[..a.Length];
  }
}
