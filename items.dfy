/** The records that flow through the pipeline: feed entries as the feed parser
    hands them over, per-feed flags, the stored item, and the per-category
    container that the merge step updates in place. */
module Items {
  import opened Wrappers
  import opened Sorting

  /** `MAX_ITEMS_PER_CATEGORY` (fetch_news.py:28). */
  const MaxItemsPerCategory: nat := 50

  /** The rank `x.get("priority", 99)` gives an item without a priority (fetch_news.py:509). */
  const DefaultPriority: int := 99

  /** What `datetime.fromisoformat` returns: a wall-clock reading in seconds and,
      for an aware datetime, its offset from UTC in seconds. */
  datatype ParsedTime = ParsedTime(localSeconds: int, utcOffset: Option<int>)

  /** The instant a parsed time denotes; a naive reading is taken to be at
      `naiveOffset` from UTC (0 where the source attaches UTC, the machine's
      offset where `.timestamp()` is applied to a naive datetime). */
  function Instant(t: ParsedTime, naiveOffset: int): int {
    t.localSeconds - t.utcOffset.GetOr(naiveOffset)
  }

  /** One feed entry: a missing title, link or summary reads as "" (`entry.get(key, "")`);
      `published` is what `parse_date` produced and `image` what `extract_image` found. */
  datatype Entry = Entry(title: string, link: string, summary: string, published: string, image: Option<string>)

  /** The flags of one configured feed (fetch_news.py:133-196). */
  datatype FeedConfig = FeedConfig(name: string, icon: string, priority: int, needsFilter: bool, isZun: bool)

  /** A configured feed with what fetching it returned this run; None when the
      fetch or the parse failed. */
  datatype Feed = Feed(config: FeedConfig, fetched: Option<seq<Entry>>)

  /** One category of `RSS_SOURCES`: its key, its display label (`"label"`) and its feeds. */
  datatype CategorySource = CategorySource(key: string, displayName: string, feeds: seq<Feed>)

  /** A stored item (fetch_news.py:474-485). `priority` and `published` are
      optional because items read back from the snapshot may lack them. */
  datatype Item = Item(
    id: string, title: string, link: string, summary: string, image: Option<string>,
    source: string, sourceIcon: string, priority: Option<int>, published: Option<string>,
    fetchedAt: string)

  /** A category of the dataset: `{"label", "items", "count"}`, with the label
      held in `displayName`. The merge step overwrites `items` and `count` in place. */
  class Category {
    const displayName: string
    var items: seq<Item>
    var count: int

    ghost predicate Valid()
      reads this
    {
      count == |items|
    }

    constructor (displayName: string, items: seq<Item>)
      ensures this.displayName == displayName && this.items == items && Valid()
    {
      this.displayName := displayName;
      this.items := items;
      this.count := |items|;
    }
  }

  /** The ids present in a list of items. */
  function IdsOf(s: seq<Item>): set<string> {
    set x | x in s :: x.id
  }

  lemma IdsOfSnoc(s: seq<Item>, x: Item)
    ensures IdsOf(s + [x]) == IdsOf(s) + {x.id}
  {
    assert x in s + [x];
    forall y | y in s ensures y in s + [x] {}
  }

  /** No two items share an id. */
  predicate DistinctIds(s: seq<Item>) {
    forall p, q :: 0 <= p < q < |s| ==> s[p].id != s[q].id
  }

  /** `s[:n]`. */
  function Take<T>(s: seq<T>, n: nat): (r: seq<T>)
    ensures |r| == if |s| <= n then |s| else n
    ensures r == s[..|r|]
    ensures |s| <= n ==> r == s
  {
    if |s| <= n then s else s[..n]
  }

  /** Inserting an item whose id is new into a list with distinct ids keeps the ids distinct. */
  lemma {:induction false} InsertDistinct<K>(x: Item, t: seq<Item>, key: Item -> K, lt: (K, K) -> bool)
    requires DistinctIds(t) && x.id !in IdsOf(t)
    ensures DistinctIds(Insert(x, t, key, lt))
  {
    if t != [] && lt(key(t[0]), key(x)) {
      InsertDistinct(x, t[1..], key, lt);
      var rest := Insert(x, t[1..], key, lt);
      InsertPerm(x, t[1..], key, lt);
      forall y | y in rest ensures y.id != t[0].id {
        assert y in multiset(rest);
        if y != x {
          assert y in t[1..];
        }
      }
      assert t[0] in t;
    } else if t != [] {
      forall y | y in t ensures y.id != x.id {}
    }
  }

  /** Sorting keeps ids distinct: it only rearranges. */
  lemma {:induction false} SortSpecDistinct<K>(s: seq<Item>, key: Item -> K, lt: (K, K) -> bool)
    requires DistinctIds(s)
    ensures DistinctIds(SortSpec(s, key, lt))
  {
    if s != [] {
      var rest := SortSpec(s[1..], key, lt);
      SortSpecDistinct(s[1..], key, lt);
      SortSpecPerm(s[1..], key, lt);
      forall y | y in rest ensures y.id != s[0].id {
        assert y in multiset(rest);
        assert y in s[1..];
      }
      InsertDistinct(s[0], rest, key, lt);
    }
  }
}
