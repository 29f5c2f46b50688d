/** Python's `list.sort(key=...)`: an in-place, stable sort under the `<` of the
    key. It is specified by a functional insertion sort, `SortSpec`; a sorted
    sequence that keeps the relative order of every group of equal keys is
    unique, so the in-place sort must produce exactly `SortSpec`. */
module Sorting {

  /** `lt` behaves like Python's `<` on the key types used here: irreflexive,
      transitive, and any two distinct keys are comparable. */
  ghost predicate IsStrictTotalOrder<K(!new)>(lt: (K, K) -> bool) {
    && (forall x :: !lt(x, x))
    && (forall x, y, z :: lt(x, y) && lt(y, z) ==> lt(x, z))
    && (forall x, y :: x != y ==> lt(x, y) || lt(y, x))
  }

  /** No element has a key strictly below that of an element before it. */
  predicate SortedBy<T, K>(s: seq<T>, key: T -> K, lt: (K, K) -> bool) {
    forall p, q :: 0 <= p < q < |s| ==> !lt(key(s[q]), key(s[p]))
  }

  /** The elements whose key is `k`, in their order. */
  function KeyFilter<T, K(==)>(s: seq<T>, key: T -> K, k: K): (r: seq<T>)
    ensures |r| <= |s|
    ensures forall x :: x in r ==> x in s && key(x) == k
  {
    if s == [] then []
    else (if key(s[0]) == k then [s[0]] else []) + KeyFilter(s[1..], key, k)
  }

  /** `t` keeps the relative order of every group of equal keys of `s`: the
      stability half of a stable sort. */
  ghost predicate SameKeyOrder<T, K(!new)>(s: seq<T>, t: seq<T>, key: T -> K) {
    forall k :: KeyFilter(s, key, k) == KeyFilter(t, key, k)
  }

  /** Insert `x` into sorted `t` after every element with a strictly smaller key. */
  function Insert<T, K>(x: T, t: seq<T>, key: T -> K, lt: (K, K) -> bool): (r: seq<T>)
    ensures |r| == |t| + 1
  {
    if t == [] then [x]
    else if lt(key(t[0]), key(x)) then [t[0]] + Insert(x, t[1..], key, lt)
    else [x] + t
  }

  /** The specification of a stable sort: insert each element, front first, into
      the sorted rest; an element goes before the equal keys that follow it. */
  function SortSpec<T, K>(s: seq<T>, key: T -> K, lt: (K, K) -> bool): (r: seq<T>)
    ensures |r| == |s|
  {
    if s == [] then []
    else Insert(s[0], SortSpec(s[1..], key, lt), key, lt)
  }

  /** Insertion adds exactly `x`. */
  lemma {:induction false} InsertPerm<T, K>(x: T, t: seq<T>, key: T -> K, lt: (K, K) -> bool)
    ensures multiset(Insert(x, t, key, lt)) == multiset([x] + t)
  {
    if t != [] && lt(key(t[0]), key(x)) {
      InsertPerm(x, t[1..], key, lt);
      assert t == [t[0]] + t[1..];
    }
  }

  /** The specification permutes its input. */
  lemma {:induction false} SortSpecPerm<T, K>(s: seq<T>, key: T -> K, lt: (K, K) -> bool)
    ensures multiset(SortSpec(s, key, lt)) == multiset(s)
  {
    if s != [] {
      SortSpecPerm(s[1..], key, lt);
      InsertPerm(s[0], SortSpec(s[1..], key, lt), key, lt);
      assert s == [s[0]] + s[1..];
    }
  }

  lemma {:induction false} KeyFilterAppend<T, K>(a: seq<T>, b: seq<T>, key: T -> K, k: K)
    ensures KeyFilter(a + b, key, k) == KeyFilter(a, key, k) + KeyFilter(b, key, k)
  {
    if a != [] {
      assert (a + b)[1..] == a[1..] + b;
      KeyFilterAppend(a[1..], b, key, k);
    } else {
      assert a + b == b;
    }
  }

  lemma {:induction false} InsertSorted<T, K(!new)>(x: T, t: seq<T>, key: T -> K, lt: (K, K) -> bool)
    requires IsStrictTotalOrder(lt) && SortedBy(t, key, lt)
    ensures SortedBy(Insert(x, t, key, lt), key, lt)
  {
    if t != [] {
      var r := Insert(x, t, key, lt);
      if lt(key(t[0]), key(x)) {
        var rest := Insert(x, t[1..], key, lt);
        InsertSorted(x, t[1..], key, lt);
        InsertPerm(x, t[1..], key, lt);
        forall y | y in rest ensures !lt(key(y), key(t[0])) {
          assert y in multiset(rest);
          if y != x {
            assert y in t[1..];
          }
        }
      } else {
        forall q | 0 < q < |r| ensures !lt(key(r[q]), key(x)) {
          assert r[q] == t[q - 1];
        }
      }
    }
  }

  lemma {:induction false} InsertKeyOrder<T, K>(x: T, t: seq<T>, key: T -> K, lt: (K, K) -> bool, k: K)
    requires forall y :: !lt(y, y)
    ensures KeyFilter(Insert(x, t, key, lt), key, k) == KeyFilter([x] + t, key, k)
  {
    if t != [] && lt(key(t[0]), key(x)) {
      InsertKeyOrder(x, t[1..], key, lt, k);
      var rest := Insert(x, t[1..], key, lt);
      KeyFilterAppend([t[0]], rest, key, k);
      KeyFilterAppend([x], t[1..], key, k);
      KeyFilterAppend([t[0]], t[1..], key, k);
      KeyFilterAppend([x], t, key, k);
      assert [t[0]] + t[1..] == t;
      assert ([t[0]] + rest)[1..] == rest;
    }
  }

  /** The specification sorts. */
  lemma {:induction false} SortSpecSorted<T, K(!new)>(s: seq<T>, key: T -> K, lt: (K, K) -> bool)
    requires IsStrictTotalOrder(lt)
    ensures SortedBy(SortSpec(s, key, lt), key, lt)
  {
    if s != [] {
      SortSpecSorted(s[1..], key, lt);
      InsertSorted(s[0], SortSpec(s[1..], key, lt), key, lt);
    }
  }

  /** The specification is stable. */
  lemma {:induction false} SortSpecStable<T, K(!new)>(s: seq<T>, key: T -> K, lt: (K, K) -> bool)
    requires IsStrictTotalOrder(lt)
    ensures SameKeyOrder(SortSpec(s, key, lt), s, key)
  {
    if s != [] {
      SortSpecStable(s[1..], key, lt);
      var rest := SortSpec(s[1..], key, lt);
      forall k ensures KeyFilter(SortSpec(s, key, lt), key, k) == KeyFilter(s, key, k) {
        InsertKeyOrder(s[0], rest, key, lt, k);
        KeyFilterAppend([s[0]], rest, key, k);
        KeyFilterAppend([s[0]], s[1..], key, k);
        assert [s[0]] + s[1..] == s;
      }
    }
  }

  /** The first element of a sorted sequence has a key no larger than any element's. */
  lemma SortedHeadLeast<T, K(!new)>(v: seq<T>, y: T, key: T -> K, lt: (K, K) -> bool)
    requires forall x :: !lt(x, x)
    requires SortedBy(v, key, lt) && y in v
    ensures !lt(key(y), key(v[0]))
  {
    var m :| 0 <= m < |v| && v[m] == y;
    if m > 0 {
      assert !lt(key(v[m]), key(v[0]));
    } else {
      assert !lt(key(v[0]), key(v[0]));
    }
  }

  /** Two sorted sequences with the same groups of equal keys start with the same element. */
  lemma SortedStableHeads<T, K(!new)>(u: seq<T>, v: seq<T>, key: T -> K, lt: (K, K) -> bool)
    requires IsStrictTotalOrder(lt)
    requires SortedBy(u, key, lt) && SortedBy(v, key, lt) && SameKeyOrder(u, v, key)
    requires u != [] && v != []
    ensures u[0] == v[0]
  {
    var ku, kv := key(u[0]), key(v[0]);
    var fu, fv := KeyFilter(u, key, ku), KeyFilter(v, key, kv);
    assert fu == [u[0]] + KeyFilter(u[1..], key, ku);
    assert fv == [v[0]] + KeyFilter(v[1..], key, kv);
    assert KeyFilter(v, key, ku) == fu;
    assert KeyFilter(u, key, kv) == fv;
    SortedHeadLeast(v, fu[0], key, lt);
    SortedHeadLeast(u, fv[0], key, lt);
    assert ku == kv;
  }

  /** Removing the same first element from both keeps the groups of equal keys equal. */
  lemma SameKeyOrderTails<T, K(!new)>(u: seq<T>, v: seq<T>, key: T -> K)
    requires u != [] && v != [] && u[0] == v[0] && SameKeyOrder(u, v, key)
    ensures SameKeyOrder(u[1..], v[1..], key)
  {
    forall k ensures KeyFilter(u[1..], key, k) == KeyFilter(v[1..], key, k) {
      assert KeyFilter(u, key, k) == KeyFilter(v, key, k);
      if key(u[0]) == k {
        assert KeyFilter(u, key, k) == [u[0]] + KeyFilter(u[1..], key, k);
        assert KeyFilter(v, key, k) == [v[0]] + KeyFilter(v[1..], key, k);
        assert KeyFilter(u[1..], key, k) == KeyFilter(u, key, k)[1..];
        assert KeyFilter(v[1..], key, k) == KeyFilter(v, key, k)[1..];
      } else {
        assert KeyFilter(u, key, k) == KeyFilter(u[1..], key, k);
        assert KeyFilter(v, key, k) == KeyFilter(v[1..], key, k);
      }
    }
  }

  /** Only the empty sequence has the same groups of equal keys as the empty sequence. */
  lemma NoKeysEmpty<T, K(!new)>(u: seq<T>, v: seq<T>, key: T -> K)
    requires v == [] && SameKeyOrder(u, v, key)
    ensures u == []
  {
    if u != [] {
      var k := key(u[0]);
      assert KeyFilter(u, key, k) == [u[0]] + KeyFilter(u[1..], key, k);
    }
  }

  /** Sortedness and stability together determine the result: two sorted
      sequences with the same groups of equal keys, in the same order, are equal. */
  lemma {:induction false} SortedStableUnique<T, K(!new)>(u: seq<T>, v: seq<T>, key: T -> K, lt: (K, K) -> bool)
    requires IsStrictTotalOrder(lt)
    requires SortedBy(u, key, lt) && SortedBy(v, key, lt) && SameKeyOrder(u, v, key)
    ensures u == v
    decreases |u|
  {
    if u == [] {
      NoKeysEmpty(v, u, key);
    } else if v == [] {
      NoKeysEmpty(u, v, key);
    } else {
      SortedStableHeads(u, v, key, lt);
      SameKeyOrderTails(u, v, key);
      SortedStableUnique(u[1..], v[1..], key, lt);
      assert u == [u[0]] + u[1..];
      assert v == [v[0]] + v[1..];
    }
  }

  /** Any sorted, stable rearrangement of `s` is `SortSpec(s)`. */
  lemma SortedStableIsSortSpec<T, K(!new)>(t: seq<T>, s: seq<T>, key: T -> K, lt: (K, K) -> bool)
    requires IsStrictTotalOrder(lt)
    requires SortedBy(t, key, lt) && SameKeyOrder(t, s, key)
    ensures t == SortSpec(s, key, lt)
  {
    SortSpecSorted(s, key, lt);
    SortSpecStable(s, key, lt);
    SortedStableUnique(t, SortSpec(s, key, lt), key, lt);
  }

  lemma KeyFilterPair<T, K>(x: T, y: T, b: seq<T>, key: T -> K, k: K)
    ensures KeyFilter([x, y] + b, key, k) == KeyFilter([x], key, k) + KeyFilter([y], key, k) + KeyFilter(b, key, k)
  {
    KeyFilterAppend([x, y], b, key, k);
    KeyFilterAppend([x], [y], key, k);
    assert [x] + [y] == [x, y];
  }

  lemma KeyFilterSingle<T, K>(x: T, key: T -> K, k: K)
    ensures KeyFilter([x], key, k) == if key(x) == k then [x] else []
  {
    assert [x][1..] == [];
  }

  lemma SwapPairKeyFilter<T, K>(x: T, y: T, b: seq<T>, key: T -> K, k: K)
    requires key(x) != key(y)
    ensures KeyFilter([y, x] + b, key, k) == KeyFilter([x, y] + b, key, k)
  {
    KeyFilterPair(x, y, b, key, k);
    KeyFilterPair(y, x, b, key, k);
    KeyFilterSingle(x, key, k);
    KeyFilterSingle(y, key, k);
  }

  lemma SwapKeyFilter<T, K>(a: seq<T>, x: T, y: T, b: seq<T>, key: T -> K, k: K)
    requires key(x) != key(y)
    ensures KeyFilter(a + ([y, x] + b), key, k) == KeyFilter(a + ([x, y] + b), key, k)
  {
    KeyFilterAppend(a, [x, y] + b, key, k);
    KeyFilterAppend(a, [y, x] + b, key, k);
    SwapPairKeyFilter(x, y, b, key, k);
  }

  /** Swapping two neighbours with different keys keeps every group of equal keys in order. */
  lemma SwapKeepsKeyOrder<T, K(!new)>(s: seq<T>, j: int, key: T -> K)
    requires 0 < j < |s| && key(s[j - 1]) != key(s[j])
    ensures SameKeyOrder(s[j - 1 := s[j]][j := s[j - 1]], s, key)
  {
    var t := s[j - 1 := s[j]][j := s[j - 1]];
    var a, b := s[..j - 1], s[j + 1..];
    assert s == a + ([s[j - 1], s[j]] + b);
    assert t == a + ([s[j], s[j - 1]] + b);
    forall k ensures KeyFilter(t, key, k) == KeyFilter(s, key, k) {
      SwapKeyFilter(a, s[j - 1], s[j], b, key, k);
    }
  }

  /** `a.sort(key=key)`: insertion sort by swapping each new element left past
      the elements with a strictly larger key, in place. */
  method SortInPlace<T, K(==,!new)>(a: array<T>, key: T -> K, lt: (K, K) -> bool)
    requires IsStrictTotalOrder(lt)
    modifies a
    ensures a[..] == SortSpec(old(a[..]), key, lt)
  {
    ghost var orig := a[..];
    var i := 0;
    while i < a.Length
      invariant 0 <= i <= a.Length
      invariant SortedBy(a[..i], key, lt)
      invariant SameKeyOrder(a[..], orig, key)
    {
      var j := i;
      while j > 0 && lt(key(a[j]), key(a[j - 1]))
        invariant 0 <= j <= i
        invariant forall p, q :: 0 <= p < q <= i && p != j && q != j ==> !lt(key(a[q]), key(a[p]))
        invariant forall q :: j < q <= i ==> !lt(key(a[q]), key(a[j]))
        invariant SameKeyOrder(a[..], orig, key)
      {
        ghost var before := a[..];
        SwapKeepsKeyOrder(before, j, key);
        a[j - 1], a[j] := a[j], a[j - 1];
        assert a[..] == before[j - 1 := before[j]][j := before[j - 1]];
        j := j - 1;
      }
      i := i + 1;
    }
    assert a[..a.Length] == a[..];
    SortedStableIsSortSpec(a[..], orig, key, lt);
  }
}
