/**
 * A reference definition of the stable sort that Rust's `slice::sort_by_key`
 * performs, for integer keys, with its properties: the result is sorted by
 * the key, is a permutation of the input, keeps elements of equal key in
 * their original order, and leaves an already sorted sequence alone.
 */
module Sorting {

  /** `f` applied to every element, in order. */
  function MapSeq<T, U>(f: T -> U, s: seq<T>): (r: seq<U>)
    ensures |r| == |s|
    ensures forall i {:trigger r[i]} :: 0 <= i < |s| ==> r[i] == f(s[i])
  {
    if s == [] then [] else [f(s[0])] + MapSeq(f, s[1..])
  }

  ghost predicate SortedBy<T>(s: seq<T>, key: T -> int) {
    forall i, j :: 0 <= i < j < |s| ==> key(s[i]) <= key(s[j])
  }

  /** The elements of `s` whose key is `k`, in their order in `s`. */
  function FilterKey<T>(s: seq<T>, key: T -> int, k: int): seq<T> {
    if s == [] then []
    else (if key(s[0]) == k then [s[0]] else []) + FilterKey(s[1..], key, k)
  }

  /** What `FilterKey` selects has the key asked for and comes from `s`. */
  lemma {:induction false} FilterKeyElements<T>(s: seq<T>, key: T -> int, k: int)
    ensures forall i :: 0 <= i < |FilterKey(s, key, k)| ==> key(FilterKey(s, key, k)[i]) == k && FilterKey(s, key, k)[i] in s
  {
    if s != [] {
      FilterKeyElements(s[1..], key, k);
      var r := FilterKey(s, key, k);
      var h := if key(s[0]) == k then [s[0]] else [];
      forall i | 0 <= i < |r| ensures key(r[i]) == k && r[i] in s {
        if i >= |h| {
          assert r[i] == FilterKey(s[1..], key, k)[i - |h|];
          assert r[i] in s[1..];
        }
      }
    }
  }

  /** `x` placed after every element whose key is not greater than its own. */
  function Insert<T>(x: T, s: seq<T>, key: T -> int): seq<T> {
    if s == [] then [x]
    else if key(x) < key(s[0]) then [x] + s
    else [s[0]] + Insert(x, s[1..], key)
  }

  lemma {:induction false} InsertPermutation<T>(x: T, s: seq<T>, key: T -> int)
    ensures multiset(Insert(x, s, key)) == multiset(s) + multiset{x}
  {
    if s != [] && key(x) >= key(s[0]) {
      InsertPermutation(x, s[1..], key);
      assert s == [s[0]] + s[1..];
    }
  }

  /** Stable sort by `key`: each element in turn is inserted after its equals. */
  function SortByKey<T>(s: seq<T>, key: T -> int): seq<T>
    decreases |s|
  {
    if s == [] then [] else Insert(s[|s| - 1], SortByKey(s[..|s| - 1], key), key)
  }

  /** `f` keeps the key of every value. */
  ghost predicate KeepsKey<T(!new)>(f: T -> T, key: T -> int) {
    forall x :: key(f(x)) == key(x)
  }

  /** Concatenation is associative. */
  lemma SeqAssoc<T>(x: seq<T>, y: seq<T>, z: seq<T>)
    ensures x + (y + z) == (x + y) + z
  {
  }

  lemma {:induction false} FilterKeyAppend<T>(a: seq<T>, b: seq<T>, key: T -> int, k: int)
    ensures FilterKey(a + b, key, k) == FilterKey(a, key, k) + FilterKey(b, key, k)
  {
    if a == [] {
      assert a + b == b;
    } else {
      var h := if key(a[0]) == k then [a[0]] else [];
      assert (a + b)[0] == a[0] && (a + b)[1..] == a[1..] + b;
      assert FilterKey(a + b, key, k) == h + FilterKey(a[1..] + b, key, k);
      FilterKeyAppend(a[1..], b, key, k);
      SeqAssoc(h, FilterKey(a[1..], key, k), FilterKey(b, key, k));
    }
  }

  lemma {:induction false} FilterKeyNone<T>(s: seq<T>, key: T -> int, k: int)
    requires forall i :: 0 <= i < |s| ==> key(s[i]) != k
    ensures FilterKey(s, key, k) == []
  {
    if s != [] {
      FilterKeyNone(s[1..], key, k);
    }
  }

  lemma SortedByTail<T>(s: seq<T>, key: T -> int)
    requires SortedBy(s, key) && s != []
    ensures SortedBy(s[1..], key)
  {
    forall i, j | 0 <= i < j < |s[1..]| ensures key(s[1..][i]) <= key(s[1..][j]) {
      assert s[1..][i] == s[i + 1] && s[1..][j] == s[j + 1];
    }
  }

  /** A sorted sequence stays sorted behind an element not above any of its keys. */
  lemma SortedByCons<T>(h: T, t: seq<T>, key: T -> int)
    requires SortedBy(t, key)
    requires forall i :: 0 <= i < |t| ==> key(h) <= key(t[i])
    ensures SortedBy([h] + t, key)
  {
    var r := [h] + t;
    forall i, j | 0 <= i < j < |r| ensures key(r[i]) <= key(r[j]) {
      assert r[j] == t[j - 1];
      if i > 0 {
        assert r[i] == t[i - 1];
      }
    }
  }

  lemma {:induction false} InsertSorted<T>(x: T, s: seq<T>, key: T -> int)
    requires SortedBy(s, key)
    ensures SortedBy(Insert(x, s, key), key)
  {
    if s == [] {
      assert Insert(x, s, key) == [x];
    } else if key(x) < key(s[0]) {
      forall i | 0 <= i < |s| ensures key(x) <= key(s[i]) {
        if i > 0 {
          assert key(s[0]) <= key(s[i]);
        }
      }
      SortedByCons(x, s, key);
    } else {
      SortedByTail(s, key);
      InsertSorted(x, s[1..], key);
      var t := Insert(x, s[1..], key);
      InsertPermutation(x, s[1..], key);
      forall i | 0 <= i < |t| ensures key(s[0]) <= key(t[i]) {
        assert t[i] in multiset(s[1..]) + multiset{x};
        if t[i] in multiset(s[1..]) {
          var j :| 0 <= j < |s[1..]| && s[1..][j] == t[i];
          assert s[1..][j] == s[j + 1];
        }
      }
      SortedByCons(s[0], t, key);
    }
  }

  lemma {:induction false} InsertFilter<T>(x: T, s: seq<T>, key: T -> int, k: int)
    requires SortedBy(s, key)
    ensures FilterKey(Insert(x, s, key), key, k)
         == FilterKey(s, key, k) + (if key(x) == k then [x] else [])
  {
    var hx := if key(x) == k then [x] else [];
    if s == [] {
      assert Insert(x, s, key) == [x];
      assert [x][1..] == [];
    } else if key(x) < key(s[0]) {
      var r := [x] + s;
      assert Insert(x, s, key) == r;
      assert r[0] == x && r[1..] == s;
      assert FilterKey(r, key, k) == hx + FilterKey(s, key, k);
      if key(x) == k {
        forall i | 0 <= i < |s| ensures key(s[i]) != k {
          if i > 0 {
            assert key(s[0]) <= key(s[i]);
          }
        }
        FilterKeyNone(s, key, k);
      }
    } else {
      var hs := if key(s[0]) == k then [s[0]] else [];
      var t := Insert(x, s[1..], key);
      var r := [s[0]] + t;
      assert Insert(x, s, key) == r;
      assert r[0] == s[0] && r[1..] == t;
      assert FilterKey(r, key, k) == hs + FilterKey(t, key, k);
      SortedByTail(s, key);
      InsertFilter(x, s[1..], key, k);
      SeqAssoc(hs, FilterKey(s[1..], key, k), hx);
    }
  }

  lemma {:induction false} InsertAfterAll<T>(x: T, s: seq<T>, key: T -> int)
    requires forall i :: 0 <= i < |s| ==> key(s[i]) <= key(x)
    ensures Insert(x, s, key) == s + [x]
  {
    if s != [] {
      InsertAfterAll(x, s[1..], key);
      assert Insert(x, s, key) == [s[0]] + (s[1..] + [x]);
      SeqAssoc([s[0]], s[1..], [x]);
      assert [s[0]] + s[1..] == s;
    }
  }

  /** The result of `SortByKey` is sorted. */
  lemma {:induction false} SortByKeySorted<T>(s: seq<T>, key: T -> int)
    ensures SortedBy(SortByKey(s, key), key)
  {
    if s != [] {
      SortByKeySorted(s[..|s| - 1], key);
      InsertSorted(s[|s| - 1], SortByKey(s[..|s| - 1], key), key);
    }
  }

  /** The result of `SortByKey` is a permutation of its input. */
  lemma {:induction false} SortByKeyPermutation<T>(s: seq<T>, key: T -> int)
    ensures multiset(SortByKey(s, key)) == multiset(s)
  {
    if s != [] {
      SortByKeyPermutation(s[..|s| - 1], key);
      InsertPermutation(s[|s| - 1], SortByKey(s[..|s| - 1], key), key);
      assert s == s[..|s| - 1] + [s[|s| - 1]];
    }
  }

  /** Stability: the elements of each key come out in their input order. */
  lemma {:induction false} SortByKeyStable<T>(s: seq<T>, key: T -> int, k: int)
    ensures FilterKey(SortByKey(s, key), key, k) == FilterKey(s, key, k)
  {
    if s != [] {
      var init, x := s[..|s| - 1], s[|s| - 1];
      var hx := if key(x) == k then [x] else [];
      assert SortByKey(s, key) == Insert(x, SortByKey(init, key), key);
      SortByKeySorted(init, key);
      InsertFilter(x, SortByKey(init, key), key, k);
      SortByKeyStable(init, key, k);
      assert FilterKey([x], key, k) == hx by {
        assert [x][1..] == [];
      }
      FilterKeyAppend(init, [x], key, k);
      assert init + [x] == s;
    }
  }

  /** Sorting an already sorted sequence changes nothing. */
  lemma {:induction false} SortByKeyOfSorted<T>(s: seq<T>, key: T -> int)
    requires SortedBy(s, key)
    ensures SortByKey(s, key) == s
  {
    if s != [] {
      var init, x := s[..|s| - 1], s[|s| - 1];
      assert SortedBy(init, key) by {
        forall i, j | 0 <= i < j < |init| ensures key(init[i]) <= key(init[j]) {
          assert init[i] == s[i] && init[j] == s[j];
        }
      }
      SortByKeyOfSorted(init, key);
      forall i | 0 <= i < |init| ensures key(init[i]) <= key(x) {
        assert init[i] == s[i];
      }
      InsertAfterAll(x, init, key);
      assert init + [x] == s;
    }
  }

  /** A key-preserving map keeps a sequence sorted. */
  lemma MapSeqSorted<T(!new)>(f: T -> T, s: seq<T>, key: T -> int)
    requires KeepsKey(f, key) && SortedBy(s, key)
    ensures SortedBy(MapSeq(f, s), key)
  {
    var r := MapSeq(f, s);
    forall i, j | 0 <= i < j < |r| ensures key(r[i]) <= key(r[j]) {
      assert key(r[i]) == key(s[i]) && key(r[j]) == key(s[j]);
    }
  }

  /** A key-preserving map commutes with selecting one key. */
  lemma {:induction false} MapSeqFilterKey<T(!new)>(f: T -> T, s: seq<T>, key: T -> int, k: int)
    requires KeepsKey(f, key)
    ensures FilterKey(MapSeq(f, s), key, k) == MapSeq(f, FilterKey(s, key, k))
  {
    if s != [] {
      MapSeqFilterKey(f, s[1..], key, k);
      assert MapSeq(f, s)[1..] == MapSeq(f, s[1..]);
      assert key(f(s[0])) == key(s[0]);
      var head := if key(s[0]) == k then [s[0]] else [];
      MapSeqAppend(f, head, FilterKey(s[1..], key, k));
    }
  }

  lemma {:induction false} MapSeqAppend<T, U>(f: T -> U, a: seq<T>, b: seq<T>)
    ensures MapSeq(f, a + b) == MapSeq(f, a) + MapSeq(f, b)
  {
    assert |MapSeq(f, a + b)| == |MapSeq(f, a) + MapSeq(f, b)|;
    forall i | 0 <= i < |a + b| ensures MapSeq(f, a + b)[i] == (MapSeq(f, a) + MapSeq(f, b))[i] {
      if i < |a| {
        assert (a + b)[i] == a[i];
      } else {
        assert (a + b)[i] == b[i - |a|];
      }
    }
  }

  lemma MapSeqConsMultiset<T, U>(f: T -> U, t: seq<T>)
    requires t != []
    ensures multiset(MapSeq(f, t)) == multiset{f(t[0])} + multiset(MapSeq(f, t[1..]))
  {
    assert MapSeq(f, t) == [f(t[0])] + MapSeq(f, t[1..]);
  }

  lemma SplitAround<T>(t: seq<T>, j: nat)
    requires j < |t|
    ensures t == t[..j] + [t[j]] + t[j + 1..]
  {
  }

  /** Taking one element out before or after mapping removes its image once. */
  lemma MapSeqRemove<T, U>(f: T -> U, t: seq<T>, j: nat)
    requires j < |t|
    ensures multiset(MapSeq(f, t)) == multiset(MapSeq(f, t[..j] + t[j + 1..])) + multiset{f(t[j])}
  {
    var a, b := t[..j], t[j + 1..];
    SplitAround(t, j);
    MapSeqAppend(f, a + [t[j]], b);
    MapSeqAppend(f, a, [t[j]]);
    MapSeqAppend(f, a, b);
  }

  lemma RemoveMultiset<T>(t: seq<T>, j: nat)
    requires j < |t|
    ensures multiset(t[..j] + t[j + 1..]) == multiset(t) - multiset{t[j]}
  {
    SplitAround(t, j);
  }

  lemma TailMultiset<T>(s: seq<T>)
    requires s != []
    ensures multiset(s[1..]) == multiset(s) - multiset{s[0]}
  {
    assert s == [s[0]] + s[1..];
  }

  /** Mapping both sides of a permutation gives a permutation. */
  lemma {:induction false} MapSeqPermutation<T, U>(f: T -> U, s: seq<T>, t: seq<T>)
    requires multiset(s) == multiset(t)
    ensures multiset(MapSeq(f, s)) == multiset(MapSeq(f, t))
    decreases |s|
  {
    if s != [] {
      assert s[0] in multiset(t);
      var j :| 0 <= j < |t| && t[j] == s[0];
      RemoveMultiset(t, j);
      TailMultiset(s);
      MapSeqPermutation(f, s[1..], t[..j] + t[j + 1..]);
      MapSeqRemove(f, t, j);
      MapSeqConsMultiset(f, s);
    }
  }

  /** Mapping through `f` and then `g` is mapping through `g` when `g` ignores what `f` changes. */
  lemma MapSeqAbsorb<T(!new), U>(f: T -> T, g: T -> U, s: seq<T>)
    requires forall x :: g(f(x)) == g(x)
    ensures MapSeq(g, MapSeq(f, s)) == MapSeq(g, s)
  {
    assert |MapSeq(g, MapSeq(f, s))| == |MapSeq(g, s)|;
    forall i | 0 <= i < |s| ensures MapSeq(g, MapSeq(f, s))[i] == MapSeq(g, s)[i] {
      assert g(f(s[i])) == g(s[i]);
    }
  }

  /** `ident` does not see what `f` changes. */
  ghost predicate KeepsIdent<T(!new), I>(f: T -> T, ident: T -> I) {
    forall x :: ident(f(x)) == ident(x)
  }

  ghost predicate Idempotent<T(!new)>(f: T -> T) {
    forall x :: f(f(x)) == f(x)
  }

  /**
   * Sorting by `key` and then rewriting every element with a key-preserving
   * `f` yields a sequence sorted by `key` whose identities (`ident`) are a
   * permutation of the input's, with the identities of each key in input order.
   */
  lemma SortThenMapOrder<T(!new), I>(s: seq<T>, f: T -> T, key: T -> int, ident: T -> I)
    requires KeepsKey(f, key) && KeepsIdent(f, ident)
    ensures SortedBy(MapSeq(f, SortByKey(s, key)), key)
    ensures multiset(MapSeq(ident, MapSeq(f, SortByKey(s, key)))) == multiset(MapSeq(ident, s))
    ensures forall k :: MapSeq(ident, FilterKey(MapSeq(f, SortByKey(s, key)), key, k))
                     == MapSeq(ident, FilterKey(s, key, k))
  {
    var sorted := SortByKey(s, key);
    SortByKeySorted(s, key);
    MapSeqSorted(f, sorted, key);
    MapSeqAbsorb(f, ident, sorted);
    SortByKeyPermutation(s, key);
    MapSeqPermutation(ident, sorted, s);
    forall k ensures MapSeq(ident, FilterKey(MapSeq(f, sorted), key, k)) == MapSeq(ident, FilterKey(s, key, k)) {
      MapSeqFilterKey(f, sorted, key, k);
      MapSeqAbsorb(f, ident, FilterKey(sorted, key, k));
      SortByKeyStable(s, key, k);
    }
  }

  /** Sorting and rewriting with an idempotent, key-preserving `f` a second time changes nothing. */
  lemma SortThenMapIdempotent<T(!new)>(s: seq<T>, f: T -> T, key: T -> int)
    requires KeepsKey(f, key) && Idempotent(f)
    ensures MapSeq(f, SortByKey(MapSeq(f, SortByKey(s, key)), key)) == MapSeq(f, SortByKey(s, key))
  {
    var out := MapSeq(f, SortByKey(s, key));
    SortByKeySorted(s, key);
    MapSeqSorted(f, SortByKey(s, key), key);
    SortByKeyOfSorted(out, key);
    assert MapSeq(f, out) == out by {
      forall i | 0 <= i < |out| ensures MapSeq(f, out)[i] == out[i] {
        assert f(f(SortByKey(s, key)[i])) == f(SortByKey(s, key)[i]);
      }
    }
  }

  lemma {:induction false} FilterKeyHas<T>(s: seq<T>, key: T -> int, i: nat)
    requires i < |s|
    ensures FilterKey(s, key, key(s[i])) != []
  {
    if i > 0 {
      FilterKeyHas(s[1..], key, i - 1);
    }
  }

  lemma FilterKeyTail<T>(a: seq<T>, b: seq<T>, key: T -> int, k: int)
    requires a != [] && b != [] && a[0] == b[0]
    requires FilterKey(a, key, k) == FilterKey(b, key, k)
    ensures FilterKey(a[1..], key, k) == FilterKey(b[1..], key, k)
  {
    var h := if key(a[0]) == k then [a[0]] else [];
    assert FilterKey(a, key, k) == h + FilterKey(a[1..], key, k);
    assert FilterKey(b, key, k) == h + FilterKey(b[1..], key, k);
    assert FilterKey(a[1..], key, k) == FilterKey(a, key, k)[|h|..];
    assert FilterKey(b[1..], key, k) == FilterKey(b, key, k)[|h|..];
  }

  /**
   * A sorted sequence is determined by its per-key subsequences: two sorted
   * sequences that agree on the elements of every key, in order, are equal.
   */
  lemma {:induction false} SortedByFilterUnique<T>(a: seq<T>, b: seq<T>, key: T -> int)
    requires SortedBy(a, key) && SortedBy(b, key)
    requires forall k :: FilterKey(a, key, k) == FilterKey(b, key, k)
    ensures a == b
    decreases |a|
  {
    if a != [] {
      FilterKeyHas(a, key, 0);
      assert b != [];
      FilterKeyHas(b, key, 0);
      var ma, mb := key(a[0]), key(b[0]);
      FilterKeyElements(a, key, mb);
      FilterKeyElements(b, key, ma);
      assert ma <= mb by {
        var fb := FilterKey(a, key, mb);
        assert fb != [] && fb[0] in a;
      }
      assert mb <= ma by {
        var fa := FilterKey(b, key, ma);
        assert fa != [] && fa[0] in b;
      }
      assert a[0] == b[0] by {
        assert FilterKey(a, key, ma)[0] == a[0];
        assert FilterKey(b, key, ma)[0] == b[0];
      }
      forall k ensures FilterKey(a[1..], key, k) == FilterKey(b[1..], key, k) {
        FilterKeyTail(a, b, key, k);
      }
      SortedByFilterUnique(a[1..], b[1..], key);
      assert a == [a[0]] + a[1..] && b == [b[0]] + b[1..];
    }
  }

  /**
   * `SortByKey` is THE stable sort: every sequence sorted by `key` that keeps
   * the elements of each key in the order of `s` is `SortByKey(s, key)`.
   */
  lemma SortByKeyUnique<T>(s: seq<T>, r: seq<T>, key: T -> int)
    requires SortedBy(r, key)
    requires forall k :: FilterKey(r, key, k) == FilterKey(s, key, k)
    ensures r == SortByKey(s, key)
  {
    SortByKeySorted(s, key);
    forall k ensures FilterKey(r, key, k) == FilterKey(SortByKey(s, key), key, k) {
      SortByKeyStable(s, key, k);
    }
    SortedByFilterUnique(r, SortByKey(s, key), key);
  }
}
