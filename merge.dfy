/** `merge_with_existing` (fetch_news.py:525-565): fold the previous snapshot's
    items into each freshly fetched category. Fresh items win over old ones with
    the same id; an old item survives only if its id is new and its `published`
    parses to an instant after the cutoff; the result is sorted by the raw
    `published` string, newest first, and capped at 50. */
module Merge {
  import opened Wrappers
  import opened Sorting
  import opened Items

  /** `MAX_AGE_DAYS` (fetch_news.py:31). */
  const MaxAgeDays: nat := 30
  const SecondsPerDay: nat := 86400

  /** `datetime.now(timezone.utc) - timedelta(days=MAX_AGE_DAYS)`, in POSIX seconds. */
  function Cutoff(nowUtc: int): (r: int)
    ensures r < nowUtc
  {
    nowUtc - MaxAgeDays * SecondsPerDay
  }

  // ---------------------------------------------------------------------------
  // Python's `<` on `str`: lexicographic by code point.

  predicate StrLt(a: string, b: string) {
    if b == [] then false
    else if a == [] then true
    else a[0] < b[0] || (a[0] == b[0] && StrLt(a[1..], b[1..]))
  }

  lemma {:induction false} StrLtIrreflexive(a: string)
    ensures !StrLt(a, a)
  {
    if a != [] {
      StrLtIrreflexive(a[1..]);
    }
  }

  lemma {:induction false} StrLtTransitive(a: string, b: string, c: string)
    requires StrLt(a, b) && StrLt(b, c)
    ensures StrLt(a, c)
  {
    if a != [] && a[0] == b[0] && b[0] == c[0] {
      StrLtTransitive(a[1..], b[1..], c[1..]);
    }
  }

  lemma {:induction false} StrLtTotal(a: string, b: string)
    requires a != b
    ensures StrLt(a, b) || StrLt(b, a)
  {
    if a != [] && b != [] && a[0] == b[0] {
      assert a == [a[0]] + a[1..] && b == [b[0]] + b[1..];
      StrLtTotal(a[1..], b[1..]);
    }
  }

  /** `reverse=True`: a key goes first when it is the greater string. */
  predicate NewerFirst(a: string, b: string) {
    StrLt(b, a)
  }

  lemma NewerFirstIsStrictTotalOrder()
    ensures IsStrictTotalOrder(NewerFirst)
  {
    forall x ensures !NewerFirst(x, x) {
      StrLtIrreflexive(x);
    }
    forall x, y, z | NewerFirst(x, y) && NewerFirst(y, z) ensures NewerFirst(x, z) {
      StrLtTransitive(z, y, x);
    }
    forall x, y | x != y ensures NewerFirst(x, y) || NewerFirst(y, x) {
      StrLtTotal(x, y);
    }
  }

  /** The merge's sort key, `x.get("published", "")`. */
  function PublishedKey(it: Item): string {
    it.published.GetOr("")
  }

  // ---------------------------------------------------------------------------
  // The `new_items` dict: an insertion-ordered list of items with distinct ids.

  /** `d[id]` when present: the item stored under `k`. */
  function Get(d: seq<Item>, k: string): (r: Option<Item>)
    ensures r.Some? ==> r.value in d && r.value.id == k
    ensures r.None? <==> k !in IdsOf(d)
  {
    if d == [] then None
    else if d[0].id == k then Some(d[0])
    else
      var r := Get(d[1..], k);
      assert forall x | x in d && x.id == k :: x in d[1..];
      r
  }

  /** `d[x.id] = x`: overwrite in place when the key is present, otherwise append. */
  function Put(d: seq<Item>, x: Item): (r: seq<Item>)
    ensures |r| == |d| || |r| == |d| + 1
  {
    if d == [] then [x]
    else if d[0].id == x.id then [x] + d[1..]
    else [d[0]] + Put(d[1..], x)
  }

  /** Reading back after a store: the stored value under its key, nothing else changed. */
  lemma {:induction false} PutGet(d: seq<Item>, x: Item, k: string)
    ensures Get(Put(d, x), k) == if k == x.id then Some(x) else Get(d, k)
  {
    if d != [] && d[0].id != x.id {
      PutGet(d[1..], x, k);
      assert Put(d, x)[1..] == Put(d[1..], x);
    }
  }

  /** Storing under a new key appends. */
  lemma {:induction false} PutAbsent(d: seq<Item>, x: Item)
    requires x.id !in IdsOf(d)
    ensures Put(d, x) == d + [x]
  {
    if d != [] {
      assert d[0] in d;
      assert IdsOf(d[1..]) <= IdsOf(d) by {
        forall y | y in d[1..] ensures y in d {}
      }
      PutAbsent(d[1..], x);
      assert d == [d[0]] + d[1..];
    }
  }

  /** Storing adds exactly the key `x.id`. */
  lemma {:induction false} PutIds(d: seq<Item>, x: Item)
    ensures IdsOf(Put(d, x)) == IdsOf(d) + {x.id}
  {
    if d == [] {
      assert x in [x];
    } else {
      var t := d[1..];
      assert d == [d[0]] + t;
      IdsOfCons(d[0], t);
      if d[0].id == x.id {
        IdsOfCons(x, t);
      } else {
        PutIds(t, x);
        IdsOfCons(d[0], Put(t, x));
      }
    }
  }

  /** Storing keeps the keys distinct. */
  lemma {:induction false} PutDistinct(d: seq<Item>, x: Item)
    requires DistinctIds(d)
    ensures DistinctIds(Put(d, x))
  {
    if d != [] {
      var t := d[1..];
      assert DistinctIds(t) by {
        forall p, q | 0 <= p < q < |t| ensures t[p].id != t[q].id {
          assert t[p] == d[p + 1] && t[q] == d[q + 1];
        }
      }
      if d[0].id == x.id {
        var r := [x] + t;
        forall p, q | 0 <= p < q < |r| ensures r[p].id != r[q].id {
          assert r[q] == d[q];
          if p > 0 {
            assert r[p] == d[p];
          }
        }
      } else {
        PutDistinct(t, x);
        PutIds(t, x);
        var rest := Put(t, x);
        assert d[0].id !in IdsOf(rest) by {
          forall y | y in t ensures y.id != d[0].id {
            var q :| 0 <= q < |t| && t[q] == y;
            assert d[q + 1] == y;
          }
        }
        var r := [d[0]] + rest;
        forall p, q | 0 <= p < q < |r| ensures r[p].id != r[q].id {
          if p == 0 {
            assert r[q] in rest;
          } else {
            assert r[p] == rest[p - 1] && r[q] == rest[q - 1];
          }
        }
      }
    }
  }

  lemma IdsOfCons(x: Item, s: seq<Item>)
    ensures IdsOf([x] + s) == {x.id} + IdsOf(s)
  {
    assert x in [x] + s;
    forall y | y in s ensures y in [x] + s {}
  }

  /** On a list with distinct ids, membership is lookup by id. */
  lemma {:induction false} GetDistinct(d: seq<Item>, x: Item)
    requires DistinctIds(d)
    ensures x in d <==> Get(d, x.id) == Some(x)
  {
    if d != [] && d[0].id != x.id {
      assert DistinctIds(d[1..]) by {
        forall p, q | 0 <= p < q < |d[1..]| ensures d[1..][p].id != d[1..][q].id {
          assert d[1..][p] == d[p + 1] && d[1..][q] == d[q + 1];
        }
      }
      GetDistinct(d[1..], x);
      assert d == [d[0]] + d[1..];
    } else if d != [] && x in d {
      var p :| 0 <= p < |d| && d[p] == x;
      assert p == 0;
    }
  }

  /** `{item["id"]: item for item in items}`. */
  function IndexById(s: seq<Item>): seq<Item> {
    if s == [] then [] else Put(IndexById(s[..|s| - 1]), s[|s| - 1])
  }

  /** The last item of `s` with id `k`: the one a dict comprehension keeps. */
  function LastWithId(s: seq<Item>, k: string): Option<Item> {
    if s == [] then None
    else if s[|s| - 1].id == k then Some(s[|s| - 1])
    else LastWithId(s[..|s| - 1], k)
  }

  /** The comprehension keeps, under each id, the last item carrying it, and
      only ids of the input. */
  lemma {:induction false} IndexByIdGet(s: seq<Item>, k: string)
    ensures Get(IndexById(s), k) == LastWithId(s, k)
  {
    if s != [] {
      IndexByIdGet(s[..|s| - 1], k);
      PutGet(IndexById(s[..|s| - 1]), s[|s| - 1], k);
    }
  }

  lemma {:induction false} IndexByIdDistinct(s: seq<Item>)
    ensures DistinctIds(IndexById(s)) && IdsOf(IndexById(s)) == IdsOf(s)
  {
    if s != [] {
      var pre := s[..|s| - 1];
      IndexByIdDistinct(pre);
      PutDistinct(IndexById(pre), s[|s| - 1]);
      PutIds(IndexById(pre), s[|s| - 1]);
      assert s == pre + [s[|s| - 1]];
      IdsOfSnoc(pre, s[|s| - 1]);
    }
  }

  /** With distinct ids the comprehension is the identity. */
  lemma {:induction false} IndexByIdOfDistinct(s: seq<Item>)
    requires DistinctIds(s)
    ensures IndexById(s) == s
  {
    if s != [] {
      var pre := s[..|s| - 1];
      var last := s[|s| - 1];
      assert DistinctIds(pre) by {
        forall p, q | 0 <= p < q < |pre| ensures pre[p].id != pre[q].id {
          assert pre[p] == s[p] && pre[q] == s[q];
        }
      }
      IndexByIdOfDistinct(pre);
      assert last.id !in IdsOf(pre) by {
        forall y | y in pre ensures y.id != last.id {
          var p :| 0 <= p < |pre| && pre[p] == y;
          assert s[p] == y;
        }
      }
      PutAbsent(pre, last);
      assert s == pre + [last];
    }
  }

  // ---------------------------------------------------------------------------
  // Keeping old items.

  /** The `try` block: a missing `published` (KeyError) or one that does not
      parse (ValueError) drops the item; a naive time is read as UTC. */
  predicate Retained(o: Item, cutoff: int, parse: string -> Option<ParsedTime>) {
    match o.published
    case None => false
    case Some(p) =>
      match parse(p)
      case None => false
      case Some(t) => Instant(t, 0) > cutoff
  }

  /** The old-items loop: store each retained old item whose id is not yet a key. */
  function MergeOld(d: seq<Item>, olds: seq<Item>, cutoff: int, parse: string -> Option<ParsedTime>): seq<Item> {
    if olds == [] then d
    else
      var m := MergeOld(d, olds[..|olds| - 1], cutoff, parse);
      var o := olds[|olds| - 1];
      if o.id !in IdsOf(m) && Retained(o, cutoff, parse) then Put(m, o) else m
  }

  /** The first retained old item with id `k`: the one the loop keeps. */
  function FirstRetained(olds: seq<Item>, k: string, cutoff: int, parse: string -> Option<ParsedTime>): Option<Item> {
    if olds == [] then None
    else
      var f := FirstRetained(olds[..|olds| - 1], k, cutoff, parse);
      var o := olds[|olds| - 1];
      if f.None? && o.id == k && Retained(o, cutoff, parse) then Some(o) else f
  }

  lemma {:induction false} FirstRetainedIsRetained(olds: seq<Item>, k: string, cutoff: int, parse: string -> Option<ParsedTime>)
    ensures var f := FirstRetained(olds, k, cutoff, parse);
      f.Some? ==> f.value in olds && f.value.id == k && Retained(f.value, cutoff, parse)
  {
    if olds != [] {
      FirstRetainedIsRetained(olds[..|olds| - 1], k, cutoff, parse);
    }
  }

  /** Old items only ever extend the dict: keys stay distinct and the fresh
      entries are untouched. */
  lemma {:induction false} MergeOldExtends(d: seq<Item>, olds: seq<Item>, cutoff: int, parse: string -> Option<ParsedTime>)
    requires DistinctIds(d)
    ensures var m := MergeOld(d, olds, cutoff, parse);
      DistinctIds(m) && |d| <= |m| && m[..|d|] == d
  {
    if olds != [] {
      var m := MergeOld(d, olds[..|olds| - 1], cutoff, parse);
      var o := olds[|olds| - 1];
      MergeOldExtends(d, olds[..|olds| - 1], cutoff, parse);
      if o.id !in IdsOf(m) && Retained(o, cutoff, parse) {
        PutAbsent(m, o);
        PutDistinct(m, o);
        assert (m + [o])[..|d|] == m[..|d|];
      }
    }
  }

  /** What the dict holds under each key after the old-items loop: the fresh
      entry when there is one, otherwise the first retained old item. */
  lemma {:induction false} MergeOldGet(d: seq<Item>, olds: seq<Item>, cutoff: int, parse: string -> Option<ParsedTime>, k: string)
    requires DistinctIds(d)
    ensures Get(MergeOld(d, olds, cutoff, parse), k) ==
      if k in IdsOf(d) then Get(d, k) else FirstRetained(olds, k, cutoff, parse)
  {
    if olds != [] {
      var pre := olds[..|olds| - 1];
      var m := MergeOld(d, pre, cutoff, parse);
      var o := olds[|olds| - 1];
      MergeOldGet(d, pre, cutoff, parse, k);
      MergeOldExtends(d, pre, cutoff, parse);
      if o.id !in IdsOf(m) && Retained(o, cutoff, parse) {
        PutGet(m, o, k);
        if k == o.id {
          assert k !in IdsOf(d) by {
            forall y | y in d ensures y.id != k {
              var p :| 0 <= p < |d| && d[p] == y;
              assert m[..|d|][p] == y;
              assert m[p] in m;
            }
          }
        }
      } else if k == o.id && o.id in IdsOf(m) {
        var y :| y in m && y.id == k;
        GetDistinct(m, y);
      }
    }
  }

  /** The list sorted and capped by `merge_with_existing`, before the cap. */
  function MergePool(current: seq<Item>, olds: seq<Item>, cutoff: int, parse: string -> Option<ParsedTime>): seq<Item> {
    MergeOld(IndexById(current), olds, cutoff, parse)
  }

  /** A category's items after `merge_with_existing`. */
  function MergedItems(current: seq<Item>, olds: seq<Item>, cutoff: int, parse: string -> Option<ParsedTime>): seq<Item> {
    Take(SortSpec(MergePool(current, olds, cutoff, parse), PublishedKey, NewerFirst), MaxItemsPerCategory)
  }

  /** The pool holds exactly one item per id: the last fresh item with that id
      when a fresh item has it, otherwise the first retained old item. */
  lemma MergePoolIff(current: seq<Item>, olds: seq<Item>, cutoff: int, parse: string -> Option<ParsedTime>, x: Item)
    ensures DistinctIds(MergePool(current, olds, cutoff, parse))
    ensures x in MergePool(current, olds, cutoff, parse) <==>
      if x.id in IdsOf(current) then LastWithId(current, x.id) == Some(x)
      else FirstRetained(olds, x.id, cutoff, parse) == Some(x)
  {
    var d := IndexById(current);
    IndexByIdDistinct(current);
    MergeOldExtends(d, olds, cutoff, parse);
    GetDistinct(MergePool(current, olds, cutoff, parse), x);
    MergeOldGet(d, olds, cutoff, parse, x.id);
    IndexByIdGet(current, x.id);
  }

  /** Every item of the merged category is the item the pool holds for its id:
      fresh items win, an old item is kept only under a new id and only when
      its `published` parses to an instant after the cutoff. */
  lemma MergedProvenance(current: seq<Item>, olds: seq<Item>, cutoff: int, parse: string -> Option<ParsedTime>, x: Item)
    requires x in MergedItems(current, olds, cutoff, parse)
    ensures x.id in IdsOf(current) ==> LastWithId(current, x.id) == Some(x)
    ensures x.id !in IdsOf(current) ==> x in olds && Retained(x, cutoff, parse) && FirstRetained(olds, x.id, cutoff, parse) == Some(x)
  {
    var pool := MergePool(current, olds, cutoff, parse);
    SortSpecPerm(pool, PublishedKey, NewerFirst);
    assert x in multiset(SortSpec(pool, PublishedKey, NewerFirst));
    assert x in pool;
    MergePoolIff(current, olds, cutoff, parse, x);
    FirstRetainedIsRetained(olds, x.id, cutoff, parse);
  }

  /** The shape of a merged category: at most 50 items with distinct ids,
      newest `published` string first, items with equal strings in pool order. */
  lemma MergedOrdered(current: seq<Item>, olds: seq<Item>, cutoff: int, parse: string -> Option<ParsedTime>)
    ensures var r := MergedItems(current, olds, cutoff, parse);
      && |r| <= MaxItemsPerCategory
      && DistinctIds(r)
      && (forall p, q :: 0 <= p < q < |r| ==> !StrLt(PublishedKey(r[p]), PublishedKey(r[q])))
      && r == SortSpec(MergePool(current, olds, cutoff, parse), PublishedKey, NewerFirst)[..|r|]
      && SameKeyOrder(SortSpec(MergePool(current, olds, cutoff, parse), PublishedKey, NewerFirst),
                      MergePool(current, olds, cutoff, parse), PublishedKey)
  {
    var pool := MergePool(current, olds, cutoff, parse);
    var sorted := SortSpec(pool, PublishedKey, NewerFirst);
    var r := MergedItems(current, olds, cutoff, parse);
    NewerFirstIsStrictTotalOrder();
    SortSpecSorted(pool, PublishedKey, NewerFirst);
    SortSpecStable(pool, PublishedKey, NewerFirst);
    MergePoolIff(current, olds, cutoff, parse, if r == [] then Item("", "", "", "", None, "", "", None, None, "") else r[0]);
    SortSpecDistinct(pool, PublishedKey, NewerFirst);
    forall p, q | 0 <= p < q < |r| ensures !StrLt(PublishedKey(r[p]), PublishedKey(r[q])) {
      assert r[p] == sorted[p] && r[q] == sorted[q];
    }
  }

  /** The cap drops only the oldest: an item of the pool left out of the merged
      category means the category is full and every kept item's `published`
      string is at least as great. */
  lemma MergedCapDropsOldest(current: seq<Item>, olds: seq<Item>, cutoff: int, parse: string -> Option<ParsedTime>, x: Item)
    requires x in MergePool(current, olds, cutoff, parse)
    requires x !in MergedItems(current, olds, cutoff, parse)
    ensures |MergedItems(current, olds, cutoff, parse)| == MaxItemsPerCategory
    ensures forall y :: y in MergedItems(current, olds, cutoff, parse) ==> !StrLt(PublishedKey(y), PublishedKey(x))
  {
    var pool := MergePool(current, olds, cutoff, parse);
    var sorted := SortSpec(pool, PublishedKey, NewerFirst);
    var r := MergedItems(current, olds, cutoff, parse);
    NewerFirstIsStrictTotalOrder();
    SortSpecSorted(pool, PublishedKey, NewerFirst);
    SortSpecPerm(pool, PublishedKey, NewerFirst);
    assert x in multiset(sorted);
    var p :| 0 <= p < |sorted| && sorted[p] == x;
    assert p >= |r|;
    forall y | y in r ensures !StrLt(PublishedKey(y), PublishedKey(x)) {
      var q :| 0 <= q < |r| && r[q] == y;
      assert sorted[q] == y;
    }
  }

  /** A category whose items already have distinct ids and that the snapshot
      does not know is merely re-sorted by `published` and capped. */
  lemma MergeWithoutOld(current: seq<Item>, cutoff: int, parse: string -> Option<ParsedTime>)
    requires DistinctIds(current)
    ensures MergedItems(current, [], cutoff, parse) == Take(SortSpec(current, PublishedKey, NewerFirst), MaxItemsPerCategory)
  {
    IndexByIdOfDistinct(current);
  }

  // ---------------------------------------------------------------------------
  // The imperative merge.

  /** The body of the category loop: build the dict, fold in the old items,
      sort in place, cap. */
  method MergeCategory(current: seq<Item>, olds: seq<Item>, cutoff: int, parse: string -> Option<ParsedTime>)
    returns (merged: seq<Item>)
    ensures merged == MergedItems(current, olds, cutoff, parse)
  {
    var newItems := IndexById(current);
    var i := 0;
    while i < |olds|
      invariant 0 <= i <= |olds|
      invariant newItems == MergeOld(IndexById(current), olds[..i], cutoff, parse)
    {
      var oldItem := olds[i];
      assert olds[..i + 1][..i] == olds[..i];
      if oldItem.id !in IdsOf(newItems) {
        match oldItem.published {
          case None =>
          case Some(p) =>
            match parse(p) {
              case None =>
              case Some(t) =>
                if Instant(t, 0) > cutoff {
                  newItems := Put(newItems, oldItem);
                }
            }
        }
      }
      i := i + 1;
    }
    assert olds[..|olds|] == olds;
    var a := new Item[|newItems|](j requires 0 <= j < |newItems| => newItems[j]);
    assert a[..] == newItems;
    NewerFirstIsStrictTotalOrder();
    SortInPlace(a, PublishedKey, NewerFirst);
    merged := a[..];
    if |merged| > MaxItemsPerCategory {
      merged := merged[..MaxItemsPerCategory];
    }
  }

  /** `existing_categories[cat_key].get("items", [])`, or nothing when the
      snapshot lacks the category. */
  function SnapshotItems(snapshot: map<string, seq<Item>>, k: string): seq<Item> {
    if k in snapshot then snapshot[k] else []
  }

  /** `merge_with_existing`: `snapshot` is the `categories` of the previous
      data file, or `None` when there is none or it cannot be read. Each
      category object is updated in place. */
  method MergeWithExisting(newData: map<string, Category>, snapshot: Option<map<string, seq<Item>>>,
                           nowUtc: int, parse: string -> Option<ParsedTime>)
    requires forall k1, k2 :: k1 in newData && k2 in newData && k1 != k2 ==> newData[k1] != newData[k2]
    modifies newData.Values
    ensures snapshot.None? ==> forall k :: k in newData ==>
      newData[k].items == old(newData[k].items) && newData[k].count == old(newData[k].count)
    ensures snapshot.Some? ==> forall k :: k in newData ==>
      && newData[k].items == MergedItems(old(newData[k].items), SnapshotItems(snapshot.value, k), Cutoff(nowUtc), parse)
      && newData[k].Valid()
  {
    if snapshot.None? {
      return;
    }
    var existing := snapshot.value;
    var cutoff := Cutoff(nowUtc);
    var pending := newData.Keys;
    while pending != {}
      invariant pending <= newData.Keys
      invariant forall k :: k in newData && k !in pending ==>
        && newData[k].items == MergedItems(old(newData[k].items), SnapshotItems(existing, k), cutoff, parse)
        && newData[k].Valid()
      invariant forall k :: k in pending ==> newData[k].items == old(newData[k].items)
      decreases pending
    {
      var k :| k in pending;
      var cat := newData[k];
      var merged := MergeCategory(cat.items, SnapshotItems(existing, k), cutoff, parse);
      cat.items := merged;
      cat.count := |merged|;
      pending := pending - {k};
    }
  }
}
