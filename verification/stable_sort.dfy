/**
 * Python's `list.sort(key=...)`: the key is computed once per element, then
 * the elements are put in non-decreasing key order by a stable sort, so
 * elements with equal keys keep their input order. Any stable sort gives the
 * same result (`SortUnique`); this one inserts from the right.
 */
module StableSort {

  /** An element decorated with its sort key. */
  datatype Keyed<T> = Keyed(key: int, item: T)

  predicate Sorted<T>(xs: seq<Keyed<T>>)
  {
    forall i, j :: 0 <= i < j < |xs| ==> xs[i].key <= xs[j].key
  }

  /** The elements with key `k`, in their order in `xs`. */
  function OfKey<T>(xs: seq<Keyed<T>>, k: int): seq<Keyed<T>>
  {
    if xs == [] then []
    else (if xs[0].key == k then [xs[0]] else []) + OfKey(xs[1..], k)
  }

  /** The undecorated elements. */
  function Items<T>(xs: seq<Keyed<T>>): seq<T>
  {
    seq(|xs|, i requires 0 <= i < |xs| => xs[i].item)
  }

  /** Insert `x` before the first element of `s` whose key is not smaller. */
  function Insert<T>(x: Keyed<T>, s: seq<Keyed<T>>): (r: seq<Keyed<T>>)
    ensures |r| == |s| + 1
    decreases |s|
  {
    if s == [] || x.key <= s[0].key then [x] + s else [s[0]] + Insert(x, s[1..])
  }

  /** Everything in `Insert(x, s)` is at least `x` or at least the old head of a sorted `s`. */
  lemma {:induction false} InsertAbove<T>(x: Keyed<T>, s: seq<Keyed<T>>)
    requires Sorted(s)
    ensures forall i :: 0 <= i < |s| + 1 ==> x.key <= Insert(x, s)[i].key || (s != [] && s[0].key <= Insert(x, s)[i].key)
    decreases |s|
  {
    if s != [] && x.key > s[0].key {
      var rest := Insert(x, s[1..]);
      InsertAbove(x, s[1..]);
      assert Insert(x, s) == [s[0]] + rest;
      assert s[1..] != [] ==> s[0].key <= s[1..][0].key;
    }
  }

  /** Inserting into a sorted sequence keeps it sorted. */
  lemma {:induction false} InsertSorted<T>(x: Keyed<T>, s: seq<Keyed<T>>)
    requires Sorted(s)
    ensures Sorted(Insert(x, s))
    decreases |s|
  {
    if s != [] && x.key > s[0].key {
      var rest := Insert(x, s[1..]);
      InsertSorted(x, s[1..]);
      InsertAbove(x, s[1..]);
      var r := [s[0]] + rest;
      assert Insert(x, s) == r;
      assert forall i :: 0 < i < |r| ==> r[i] == rest[i - 1];
      assert forall i :: 0 <= i < |rest| ==> s[0].key <= rest[i].key by {
        assert s[1..] != [] ==> s[0].key <= s[1..][0].key;
      }
    }
  }

  /** Inserting adds exactly `x`. */
  lemma {:induction false} InsertPerm<T>(x: Keyed<T>, s: seq<Keyed<T>>)
    ensures multiset(Insert(x, s)) == multiset{x} + multiset(s)
    decreases |s|
  {
    if s != [] && x.key > s[0].key {
      InsertPerm(x, s[1..]);
      assert s == [s[0]] + s[1..];
      assert Insert(x, s) == [s[0]] + Insert(x, s[1..]);
    }
  }

  /** The elements of one key in a sequence with a new head. */
  lemma OfKeyCons<T>(h: Keyed<T>, s: seq<Keyed<T>>, k: int)
    ensures OfKey([h] + s, k) == (if h.key == k then [h] else []) + OfKey(s, k)
  {
    assert ([h] + s)[0] == h;
    assert ([h] + s)[1..] == s;
  }

  /** Inserting `x` puts it ahead of the elements of `s` with its key. */
  lemma {:induction false} InsertOfKey<T>(x: Keyed<T>, s: seq<Keyed<T>>, k: int)
    ensures OfKey(Insert(x, s), k) == (if x.key == k then [x] else []) + OfKey(s, k)
    decreases |s|
  {
    if s == [] || x.key <= s[0].key {
      assert Insert(x, s) == [x] + s;
      OfKeyCons(x, s, k);
    } else {
      var rest := Insert(x, s[1..]);
      assert Insert(x, s) == [s[0]] + rest;
      InsertOfKey(x, s[1..], k);
      OfKeyCons(s[0], rest, k);
      assert s == [s[0]] + s[1..];
      OfKeyCons(s[0], s[1..], k);
      InsertOfKeyShuffle(s[0], x, OfKey(s[1..], k), k);
    }
  }

  /** Two heads of different keys can swap without changing either key's elements. */
  lemma InsertOfKeyShuffle<T>(h: Keyed<T>, x: Keyed<T>, rest: seq<Keyed<T>>, k: int)
    requires h.key < x.key
    ensures (if h.key == k then [h] else []) + ((if x.key == k then [x] else []) + rest) ==
            (if x.key == k then [x] else []) + ((if h.key == k then [h] else []) + rest)
  {
  }

  /** The stable sort: non-decreasing keys, each key's elements in input order. */
  function Sort<T>(xs: seq<Keyed<T>>): (r: seq<Keyed<T>>)
    ensures Sorted(r)
    ensures multiset(r) == multiset(xs)
    ensures |r| == |xs|
    decreases |xs|
  {
    if xs == [] then []
    else
      var rest := Sort(xs[1..]);
      InsertSorted(xs[0], rest);
      InsertPerm(xs[0], rest);
      assert multiset(xs) == multiset{xs[0]} + multiset(xs[1..]) by {
        assert xs == [xs[0]] + xs[1..];
      }
      Insert(xs[0], rest)
  }

  /** Sorting keeps, for every key, that key's elements in input order: the sort is stable. */
  lemma {:induction false} SortStable<T>(xs: seq<Keyed<T>>, k: int)
    ensures OfKey(Sort(xs), k) == OfKey(xs, k)
    decreases |xs|
  {
    if xs != [] {
      SortStable(xs[1..], k);
      InsertOfKey(xs[0], Sort(xs[1..]), k);
    }
  }

  lemma {:induction false} OfKeyHas<T>(xs: seq<Keyed<T>>, i: nat)
    requires i < |xs|
    ensures xs[i] in OfKey(xs, xs[i].key)
    decreases i
  {
    if i > 0 {
      OfKeyHas(xs[1..], i - 1);
    }
  }

  lemma {:induction false} OfKeyFrom<T>(xs: seq<Keyed<T>>, k: int, y: Keyed<T>)
    requires y in OfKey(xs, k)
    ensures y in xs && y.key == k
    decreases |xs|
  {
    if xs != [] && !(xs[0].key == k && y == xs[0]) {
      OfKeyFrom(xs[1..], k, y);
    }
  }

  /**
   * Two sorted sequences that hold, key by key, the same elements in the
   * same order are equal.
   */
  lemma {:induction false} SortedDetermined<T>(ys: seq<Keyed<T>>, zs: seq<Keyed<T>>)
    requires Sorted(ys) && Sorted(zs)
    requires forall k :: OfKey(ys, k) == OfKey(zs, k)
    ensures ys == zs
    decreases |ys| + |zs|
  {
    if ys == [] {
      OfKeyEmpty(zs);
    } else {
      SameHead(ys, zs);
      TailsAgree(ys, zs);
      SortedTail(ys);
      SortedTail(zs);
      SortedDetermined(ys[1..], zs[1..]);
      assert ys == [ys[0]] + ys[1..] && zs == [zs[0]] + zs[1..];
    }
  }

  lemma SortedTail<T>(xs: seq<Keyed<T>>)
    requires xs != [] && Sorted(xs)
    ensures Sorted(xs[1..])
  {
    assert forall i :: 0 <= i < |xs| - 1 ==> xs[1..][i] == xs[i + 1];
  }

  /** A sequence with no elements of any key is empty. */
  lemma OfKeyEmpty<T>(xs: seq<Keyed<T>>)
    requires forall k :: OfKey(xs, k) == []
    ensures xs == []
  {
    if xs != [] {
      OfKeyHas(xs, 0);
      assert false;
    }
  }

  /** The head of a sorted sequence has the least key. */
  lemma HeadLeast<T>(xs: seq<Keyed<T>>, y: Keyed<T>)
    requires Sorted(xs) && y in xs
    ensures xs[0].key <= y.key
  {
    var t :| 0 <= t < |xs| && xs[t] == y;
    if t > 0 {
      assert xs[0].key <= xs[t].key;
    }
  }

  /** A sorted sequence holding the head of `ys` under that head's key starts at that key or below. */
  lemma HeadKeyBound<T>(ys: seq<Keyed<T>>, zs: seq<Keyed<T>>)
    requires ys != [] && Sorted(zs)
    requires OfKey(ys, ys[0].key) == OfKey(zs, ys[0].key)
    ensures zs != [] && zs[0].key <= ys[0].key
  {
    OfKeyHas(ys, 0);
    OfKeyFrom(zs, ys[0].key, ys[0]);
    HeadLeast(zs, ys[0]);
  }

  /** The head of a sequence heads the elements of its key. */
  lemma HeadOfKey<T>(xs: seq<Keyed<T>>)
    requires xs != []
    ensures OfKey(xs, xs[0].key) != [] && OfKey(xs, xs[0].key)[0] == xs[0]
  {
    assert OfKey(xs, xs[0].key) == [xs[0]] + OfKey(xs[1..], xs[0].key);
  }

  /** Sorted sequences with the same elements per key start with the same element. */
  lemma SameHead<T>(ys: seq<Keyed<T>>, zs: seq<Keyed<T>>)
    requires ys != [] && Sorted(ys) && Sorted(zs)
    requires forall k :: OfKey(ys, k) == OfKey(zs, k)
    ensures zs != [] && ys[0] == zs[0]
  {
    var m := ys[0].key;
    assert OfKey(ys, m) == OfKey(zs, m);
    HeadKeyBound(ys, zs);
    var m' := zs[0].key;
    assert OfKey(zs, m') == OfKey(ys, m');
    HeadKeyBound(zs, ys);
    HeadOfKey(ys);
    HeadOfKey(zs);
  }

  /** Removing equal heads keeps the per-key sequences equal. */
  lemma TailsAgree<T>(ys: seq<Keyed<T>>, zs: seq<Keyed<T>>)
    requires ys != [] && zs != [] && ys[0] == zs[0]
    requires forall k :: OfKey(ys, k) == OfKey(zs, k)
    ensures forall k :: OfKey(ys[1..], k) == OfKey(zs[1..], k)
  {
    forall k
      ensures OfKey(ys[1..], k) == OfKey(zs[1..], k)
    {
      var pre := if ys[0].key == k then [ys[0]] else [];
      assert OfKey(ys, k) == pre + OfKey(ys[1..], k);
      assert OfKey(zs, k) == pre + OfKey(zs[1..], k);
      assert OfKey(ys[1..], k) == OfKey(ys, k)[|pre|..];
      assert OfKey(zs[1..], k) == OfKey(zs, k)[|pre|..];
    }
  }

  /** Any stable sort of `xs` gives `Sort(xs)`. */
  lemma SortUnique<T>(xs: seq<Keyed<T>>, ys: seq<Keyed<T>>)
    requires Sorted(ys)
    requires forall k :: OfKey(ys, k) == OfKey(xs, k)
    ensures ys == Sort(xs)
  {
    forall k
      ensures OfKey(ys, k) == OfKey(Sort(xs), k)
    {
      SortStable(xs, k);
    }
    SortedDetermined(ys, Sort(xs));
  }

  lemma {:induction false} InsertItems<T>(x: Keyed<T>, s: seq<Keyed<T>>)
    ensures multiset(Items(Insert(x, s))) == multiset{x.item} + multiset(Items(s))
    decreases |s|
  {
    if s == [] || x.key <= s[0].key {
      assert Insert(x, s) == [x] + s;
      assert Items([x] + s) == [x.item] + Items(s);
    } else {
      var rest := Insert(x, s[1..]);
      assert Insert(x, s) == [s[0]] + rest;
      InsertItems(x, s[1..]);
      assert Items([s[0]] + rest) == [s[0].item] + Items(rest);
      assert Items(s) == [s[0].item] + Items(s[1..]);
    }
  }

  /** Sorting permutes the undecorated elements. */
  lemma {:induction false} SortItemsPermutation<T>(xs: seq<Keyed<T>>)
    ensures multiset(Items(Sort(xs))) == multiset(Items(xs))
    decreases |xs|
  {
    if xs != [] {
      SortItemsPermutation(xs[1..]);
      InsertItems(xs[0], Sort(xs[1..]));
      assert Items(xs) == [xs[0].item] + Items(xs[1..]);
    }
  }

  /** Decorate each element with its precomputed key, as `list.sort` does before sorting. */
  function Zip<T>(keys: seq<int>, xs: seq<T>): seq<Keyed<T>>
    requires |keys| == |xs|
  {
    seq(|xs|, i requires 0 <= i < |xs| => Keyed(keys[i], xs[i]))
  }

  /** Sorting decorated elements and dropping the keys permutes the elements. */
  lemma SortItems<T>(keys: seq<int>, xs: seq<T>)
    requires |keys| == |xs|
    ensures |Items(Sort(Zip(keys, xs)))| == |xs|
    ensures multiset(Items(Sort(Zip(keys, xs)))) == multiset(xs)
  {
    SortItemsPermutation(Zip(keys, xs));
    ItemsZip(keys, xs);
  }

  /** Every element's key is `f` of its item. */
  ghost predicate KeyedBy<T>(xs: seq<Keyed<T>>, f: T -> int)
  {
    forall i :: 0 <= i < |xs| ==> xs[i].key == f(xs[i].item)
  }

  /** The elements `x` of `xs` with `f(x) == k`, in order. */
  ghost function Having<T>(xs: seq<T>, f: T -> int, k: int): seq<T>
  {
    if xs == [] then [] else (if f(xs[0]) == k then [xs[0]] else []) + Having(xs[1..], f, k)
  }

  lemma {:induction false} OfKeyHaving<T>(xs: seq<Keyed<T>>, f: T -> int, k: int)
    requires KeyedBy(xs, f)
    ensures Items(OfKey(xs, k)) == Having(Items(xs), f, k)
    decreases |xs|
  {
    if xs != [] {
      OfKeyHaving(xs[1..], f, k);
      var head := if xs[0].key == k then [xs[0]] else [];
      assert Items(head + OfKey(xs[1..], k)) == Items(head) + Items(OfKey(xs[1..], k));
      assert Items(xs)[1..] == Items(xs[1..]);
    }
  }

  /** Dropping the keys undoes the decoration. */
  lemma ItemsZip<T>(keys: seq<int>, xs: seq<T>)
    requires |keys| == |xs|
    ensures Items(Zip(keys, xs)) == xs
  {
  }

  /** Decorating each element with its `f` value ties the keys to `f`. */
  lemma ZipKeyedBy<T>(keys: seq<int>, xs: seq<T>, f: T -> int)
    requires |keys| == |xs|
    requires forall i :: 0 <= i < |xs| ==> keys[i] == f(xs[i])
    ensures KeyedBy(Zip(keys, xs), f)
  {
  }

  /** Sorting keeps elements, so it keeps their keys tied to `f`. */
  lemma SortKeyedBy<T>(xs: seq<Keyed<T>>, f: T -> int)
    requires KeyedBy(xs, f)
    ensures KeyedBy(Sort(xs), f)
  {
    var ys := Sort(xs);
    forall i | 0 <= i < |ys|
      ensures ys[i].key == f(ys[i].item)
    {
      assert ys[i] in multiset(ys);
      assert ys[i] in xs;
    }
  }

  /**
   * Sorting `xs` decorated with keys `f(x)`: a permutation of `xs`, in
   * non-decreasing `f`, keeping the input order among equal `f`.
   */
  lemma SortByKey<T>(keys: seq<int>, xs: seq<T>, f: T -> int)
    requires |keys| == |xs|
    requires forall i :: 0 <= i < |xs| ==> keys[i] == f(xs[i])
    ensures multiset(Items(Sort(Zip(keys, xs)))) == multiset(xs)
    ensures forall i, j :: 0 <= i < j < |xs| ==>
              f(Items(Sort(Zip(keys, xs)))[i]) <= f(Items(Sort(Zip(keys, xs)))[j])
    ensures forall k :: Having(Items(Sort(Zip(keys, xs))), f, k) == Having(xs, f, k)
  {
    var zs := Zip(keys, xs);
    var ys := Sort(zs);
    SortItems(keys, xs);
    ItemsZip(keys, xs);
    ZipKeyedBy(keys, xs, f);
    SortKeyedBy(zs, f);
    forall k
      ensures Having(Items(ys), f, k) == Having(xs, f, k)
    {
      SortStable(zs, k);
      OfKeyHaving(zs, f, k);
      OfKeyHaving(ys, f, k);
    }
  }
}
