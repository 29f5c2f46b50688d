/** The per-category body of `fetch_all_news` (fetch_news.py:430-522): admit the
    entries of each feed, drop repeated ids keeping the first, sort by
    (priority, newest first), and keep the first 50. */
module Aggregate {
  import opened Wrappers
  import opened Text
  import opened Classifier
  import opened Html
  import opened Sorting
  import opened Items

  /** The text both feed filters inspect: the cleaned summary and title. */
  function FilterText(e: Entry): string {
    CleanHtml(e.summary + " " + Strip(e.title))
  }

  /** The body of the entry loop (fetch_news.py:455-485): skip an entry whose
      stripped title or link is empty, or that a flagged feed's filter rejects;
      otherwise build the item. */
  function AdmitEntry(feed: FeedConfig, e: Entry, idOf: (string, string) -> string, now: string): (r: Option<Item>)
    ensures r.Some? <==>
      && Strip(e.title) != [] && Strip(e.link) != []
      && (feed.needsFilter ==> IsTouhouRelated(FilterText(e)))
      && (feed.isZun ==> IsImportantZunTweet(FilterText(e)))
    ensures r.Some? ==>
      && r.value.id == idOf(r.value.title, r.value.link)
      && r.value.title == Strip(e.title) && r.value.link == Strip(e.link)
      && |r.value.summary| <= SummaryLimit
      && r.value.priority == Some(feed.priority) && r.value.published == Some(e.published)
  {
    var title := Strip(e.title);
    var link := Strip(e.link);
    if title == [] || link == [] then None
    else if feed.needsFilter && !IsTouhouRelated(CleanHtml(e.summary + " " + title)) then None
    else if feed.isZun && !IsImportantZunTweet(CleanHtml(e.summary + " " + title)) then None
    else Some(Item(idOf(title, link), title, link, CleanHtml(e.summary), e.image,
                   feed.name, feed.icon, Some(feed.priority), Some(e.published), now))
  }

  /** The zun test sees `clean_html` output, which holds no complete tag, so its
      "<img" branch (fetch_news.py:269) can fire only on a '<' that no later '>'
      closes: a real `<img ...>` tag has already been removed. */
  lemma ImageMarkerNeedsUnclosedBracket(raw: string)
    requires Contains(Lower(CleanHtml(raw)), "<img")
    ensures exists i :: 0 <= i < |CleanHtml(raw)| && CleanHtml(raw)[i] == '<' && NoCloseFrom(CleanHtml(raw), i + 1)
  {
    CleanHtmlTagFree(raw);
    TagFreeImageMarker(CleanHtml(raw));
  }

  /** The entry loop's body for given id and clock functions, as a value. */
  function Admission(idOf: (string, string) -> string, now: string): (FeedConfig, Entry) -> Option<Item> {
    (c: FeedConfig, e: Entry) => AdmitEntry(c, e, idOf, now)
  }

  /** The items one feed contributes, in entry order. */
  function FeedItems(feed: FeedConfig, entries: seq<Entry>, admit: (FeedConfig, Entry) -> Option<Item>): seq<Item> {
    if entries == [] then []
    else
      var last := entries[|entries| - 1];
      FeedItems(feed, entries[..|entries| - 1], admit) +
        (match admit(feed, last) case Some(it) => [it] case None => [])
  }

  /** The items of all feeds of a category, feed after feed; a failed fetch contributes nothing. */
  function Collected(feeds: seq<Feed>, admit: (FeedConfig, Entry) -> Option<Item>): seq<Item> {
    if feeds == [] then []
    else
      var last := feeds[|feeds| - 1];
      Collected(feeds[..|feeds| - 1], admit) +
        (match last.fetched case Some(es) => FeedItems(last.config, es, admit) case None => [])
  }

  /** An item comes from a feed iff it is the admission of one of its entries. */
  lemma {:induction false} FeedItemsIff(feed: FeedConfig, entries: seq<Entry>, admit: (FeedConfig, Entry) -> Option<Item>, it: Item)
    ensures it in FeedItems(feed, entries, admit) <==> exists e :: e in entries && admit(feed, e) == Some(it)
  {
    if entries != [] {
      var pre := entries[..|entries| - 1];
      var last := entries[|entries| - 1];
      FeedItemsIff(feed, pre, admit, it);
      assert entries == pre + [last];
      if exists e :: e in entries && admit(feed, e) == Some(it) {
        var e :| e in entries && admit(feed, e) == Some(it);
        if e != last {
          assert e in pre;
        }
      }
    }
  }

  /** An item is collected iff it is the admission of some entry of some fetched feed. */
  lemma {:induction false} CollectedIff(feeds: seq<Feed>, admit: (FeedConfig, Entry) -> Option<Item>, it: Item)
    ensures it in Collected(feeds, admit) <==>
      exists f, e :: f in feeds && f.fetched.Some? && e in f.fetched.value && admit(f.config, e) == Some(it)
  {
    if feeds != [] {
      var pre := feeds[..|feeds| - 1];
      var last := feeds[|feeds| - 1];
      CollectedIff(pre, admit, it);
      assert feeds == pre + [last];
      if last.fetched.Some? {
        FeedItemsIff(last.config, last.fetched.value, admit, it);
      }
      if exists f, e :: f in feeds && f.fetched.Some? && e in f.fetched.value && admit(f.config, e) == Some(it) {
        var f, e :| f in feeds && f.fetched.Some? && e in f.fetched.value && admit(f.config, e) == Some(it);
        if f != last {
          assert f in pre;
        }
      }
    }
  }

  /** The fetch loop (fetch_news.py:445-488): append each admitted entry of each fetched feed. */
  method CollectItems(feeds: seq<Feed>, admit: (FeedConfig, Entry) -> Option<Item>) returns (items: seq<Item>)
    ensures items == Collected(feeds, admit)
  {
    items := [];
    var f := 0;
    while f < |feeds|
      invariant 0 <= f <= |feeds|
      invariant items == Collected(feeds[..f], admit)
    {
      var feed := feeds[f];
      assert feeds[..f + 1][..f] == feeds[..f];
      if feed.fetched.Some? && feed.fetched.value != [] {
        var entries := feed.fetched.value;
        ghost var base := items;
        var e := 0;
        while e < |entries|
          invariant 0 <= e <= |entries|
          invariant items == base + FeedItems(feed.config, entries[..e], admit)
        {
          assert entries[..e + 1][..e] == entries[..e];
          match admit(feed.config, entries[e]) {
            case Some(item) => items := items + [item];
            case None =>
          }
          e := e + 1;
        }
        assert entries[..|entries|] == entries;
      }
      f := f + 1;
    }
    assert feeds[..|feeds|] == feeds;
  }

  /** Drop every item whose id an earlier kept item already has. */
  function Dedup(s: seq<Item>): seq<Item> {
    if s == [] then []
    else
      var d := Dedup(s[..|s| - 1]);
      var last := s[|s| - 1];
      if last.id in IdsOf(d) then d else d + [last]
  }

  /** A reference definition: keep exactly the items whose id does not occur
      earlier in the input. */
  function FirstOccurrences(s: seq<Item>): seq<Item> {
    if s == [] then []
    else
      var pre := s[..|s| - 1];
      FirstOccurrences(pre) + (if s[|s| - 1].id in IdsOf(pre) then [] else [s[|s| - 1]])
  }

  /** Deduplication keeps every id. */
  lemma {:induction false} DedupIds(s: seq<Item>)
    ensures IdsOf(Dedup(s)) == IdsOf(s)
  {
    if s != [] {
      var pre := s[..|s| - 1];
      var last := s[|s| - 1];
      DedupIds(pre);
      assert s == pre + [last];
      IdsOfSnoc(pre, last);
      IdsOfSnoc(Dedup(pre), last);
    }
  }

  /** Testing against the ids kept so far, as the source does, is the same as
      testing against the ids seen earlier in the input: the first occurrence of
      each id is kept, and only it. */
  lemma {:induction false} DedupIsFirstOccurrences(s: seq<Item>)
    ensures Dedup(s) == FirstOccurrences(s)
  {
    if s != [] {
      DedupIsFirstOccurrences(s[..|s| - 1]);
      DedupIds(s[..|s| - 1]);
    }
  }

  /** After deduplication the ids are pairwise distinct. */
  lemma {:induction false} DedupDistinct(s: seq<Item>)
    ensures DistinctIds(Dedup(s))
  {
    if s != [] {
      var d := Dedup(s[..|s| - 1]);
      DedupDistinct(s[..|s| - 1]);
      var last := s[|s| - 1];
      if last.id !in IdsOf(d) {
        forall p | 0 <= p < |d| ensures d[p].id != last.id {
          assert d[p] in d;
        }
      }
    }
  }

  /** Deduplication changes nothing when the ids are already distinct. */
  lemma {:induction false} DedupDistinctUnchanged(s: seq<Item>)
    requires DistinctIds(s)
    ensures Dedup(s) == s
  {
    if s != [] {
      var pre := s[..|s| - 1];
      DedupDistinctUnchanged(pre);
      assert s[|s| - 1].id !in IdsOf(pre) by {
        forall x | x in pre ensures x.id != s[|s| - 1].id {
          var p :| 0 <= p < |pre| && pre[p] == x;
          assert s[p] == x;
        }
      }
      assert s == pre + [s[|s| - 1]];
    }
  }

  /** Running deduplication twice gives the same list as running it once. */
  lemma DedupIdempotent(s: seq<Item>)
    ensures Dedup(Dedup(s)) == Dedup(s)
  {
    DedupDistinct(s);
    DedupDistinctUnchanged(Dedup(s));
  }

  /** The dedup loop (fetch_news.py:493-498): a set of seen ids and a growing list. */
  method DedupItems(items: seq<Item>) returns (unique: seq<Item>)
    ensures unique == Dedup(items)
  {
    var seen: set<string> := {};
    unique := [];
    var i := 0;
    while i < |items|
      invariant 0 <= i <= |items|
      invariant unique == Dedup(items[..i])
      invariant seen == IdsOf(unique)
    {
      var item := items[i];
      assert items[..i + 1][..i] == items[..i];
      if item.id !in seen {
        IdsOfSnoc(unique, item);
        seen := seen + {item.id};
        unique := unique + [item];
      }
      i := i + 1;
    }
    assert items[..|items|] == items;
  }

  /** The sort key `(priority, -timestamp)` of fetch_news.py:509. */
  datatype Rank = Rank(priority: int, negTimestamp: int)

  /** Python's `<` on the key tuple: lexicographic. */
  predicate RankLt(a: Rank, b: Rank) {
    a.priority < b.priority || (a.priority == b.priority && a.negTimestamp < b.negTimestamp)
  }

  lemma RankLtIsStrictTotalOrder()
    ensures IsStrictTotalOrder(RankLt)
  {
  }

  /** `_ts` (fetch_news.py:502-506): the POSIX time of `published`, or 0 when it
      is missing or does not parse. `.timestamp()` reads a naive datetime in the
      machine's zone, `localOffset`. */
  function Timestamp(it: Item, parse: string -> Option<ParsedTime>, localOffset: int): int {
    match parse(it.published.GetOr(""))
    case Some(t) => Instant(t, localOffset)
    case None => 0
  }

  /** The key function of the fresh sort. */
  function RankKey(parse: string -> Option<ParsedTime>, localOffset: int): Item -> Rank {
    (it: Item) => Rank(it.priority.GetOr(DefaultPriority), -Timestamp(it, parse, localOffset))
  }

  /** What one category holds after `fetch_all_news`. */
  function Reduced(feeds: seq<Feed>, admit: (FeedConfig, Entry) -> Option<Item>,
                   parse: string -> Option<ParsedTime>, localOffset: int): seq<Item> {
    Take(SortSpec(Dedup(Collected(feeds, admit)), RankKey(parse, localOffset), RankLt), MaxItemsPerCategory)
  }

  /** What a reduced category promises: min(50, number of unique items) items
      with distinct ids, each collected from some feed; ordered by priority
      ascending (99 when missing), then timestamp descending (0 when
      unparseable); a prefix of the stable sort of the deduplicated list, so
      items of equal rank keep their order. */
  lemma ReducedProperties(feeds: seq<Feed>, admit: (FeedConfig, Entry) -> Option<Item>,
                          parse: string -> Option<ParsedTime>, localOffset: int)
    ensures var r := Reduced(feeds, admit, parse, localOffset);
      && |r| <= MaxItemsPerCategory
      && |r| == (var u := |Dedup(Collected(feeds, admit))|;
                 if u <= MaxItemsPerCategory then u else MaxItemsPerCategory)
      && DistinctIds(r)
      && (forall it :: it in r ==> it in Collected(feeds, admit))
      && (forall p, q :: 0 <= p < q < |r| ==>
            var pp, pq := r[p].priority.GetOr(DefaultPriority), r[q].priority.GetOr(DefaultPriority);
            pp < pq || (pp == pq && Timestamp(r[p], parse, localOffset) >= Timestamp(r[q], parse, localOffset)))
      && r == SortSpec(Dedup(Collected(feeds, admit)), RankKey(parse, localOffset), RankLt)[..|r|]
      && SameKeyOrder(SortSpec(Dedup(Collected(feeds, admit)), RankKey(parse, localOffset), RankLt),
                      Dedup(Collected(feeds, admit)), RankKey(parse, localOffset))
  {
    var items := Collected(feeds, admit);
    var unique := Dedup(items);
    var key := RankKey(parse, localOffset);
    var sorted := SortSpec(unique, key, RankLt);
    var r := Reduced(feeds, admit, parse, localOffset);
    RankLtIsStrictTotalOrder();
    SortSpecSorted(unique, key, RankLt);
    SortSpecStable(unique, key, RankLt);
    DedupDistinct(items);
    SortSpecDistinct(unique, key, RankLt);
    SortSpecPerm(unique, key, RankLt);
    forall it | it in r ensures it in items {
      assert it in multiset(sorted);
      assert it in unique;
      DedupIsFirstOccurrences(items);
      FirstOccurrencesSubset(items, it);
    }
    forall p, q | 0 <= p < q < |r|
      ensures !RankLt(key(r[q]), key(r[p]))
    {
      assert r[p] == sorted[p] && r[q] == sorted[q];
    }
  }

  lemma {:induction false} FirstOccurrencesSubset(s: seq<Item>, it: Item)
    requires it in FirstOccurrences(s)
    ensures it in s
  {
    var pre := s[..|s| - 1];
    if it in FirstOccurrences(pre) {
      FirstOccurrencesSubset(pre, it);
      assert it in pre;
    }
  }

  /** One category of `fetch_all_news`: collect, deduplicate, sort in place, cap. */
  method ReduceCategory(feeds: seq<Feed>, admit: (FeedConfig, Entry) -> Option<Item>,
                        parse: string -> Option<ParsedTime>, localOffset: int) returns (items: seq<Item>)
    ensures items == Reduced(feeds, admit, parse, localOffset)
  {
    var collected := CollectItems(feeds, admit);
    var unique := DedupItems(collected);
    var a := new Item[|unique|](i requires 0 <= i < |unique| => unique[i]);
    assert a[..] == unique;
    RankLtIsStrictTotalOrder();
    SortInPlace(a, RankKey(parse, localOffset), RankLt);
    items := a[..];
    if |items| > MaxItemsPerCategory {
      items := items[..MaxItemsPerCategory];
    }
  }

  /** `RSS_SOURCES` is a dict: its category keys are distinct. */
  predicate DistinctKeys(sources: seq<CategorySource>) {
    forall i, j :: 0 <= i < j < |sources| ==> sources[i].key != sources[j].key
  }

  /** The category keys of a configuration. */
  function KeysOf(sources: seq<CategorySource>): (r: set<string>)
    ensures forall i :: 0 <= i < |sources| ==> sources[i].key in r
  {
    if sources == [] then {} else KeysOf(sources[..|sources| - 1]) + {sources[|sources| - 1].key}
  }

  /** A category object holds what `fetch_all_news` builds for `src`. */
  ghost predicate BuiltFrom(c: Category, src: CategorySource, admit: (FeedConfig, Entry) -> Option<Item>,
                            parse: string -> Option<ParsedTime>, localOffset: int)
    reads c
  {
    c.Valid() && c.displayName == src.displayName && c.items == Reduced(src.feeds, admit, parse, localOffset)
  }

  /** One category entry of `fetch_all_news`'s result (fetch_news.py:433-520). */
  method BuildCategory(src: CategorySource, admit: (FeedConfig, Entry) -> Option<Item>,
                       parse: string -> Option<ParsedTime>, localOffset: int) returns (cat: Category)
    ensures fresh(cat) && BuiltFrom(cat, src, admit, parse, localOffset)
  {
    var items := ReduceCategory(src.feeds, admit, parse, localOffset);
    cat := new Category(src.displayName, items);
  }

  /** The dictionary the category loop builds when category `j` gets the object
      `cats[j]`: later entries overwrite earlier ones, as assignments to a dict do. */
  function CategoryMap(sources: seq<CategorySource>, cats: seq<Category>): (m: map<string, Category>)
    requires |cats| == |sources|
    ensures m.Keys == KeysOf(sources)
  {
    if sources == [] then map[]
    else
      var n := |sources| - 1;
      CategoryMap(sources[..n], cats[..n])[sources[n].key := cats[n]]
  }

  /** With distinct keys, each category's key maps to its own object. */
  lemma {:induction false} CategoryMapAt(sources: seq<CategorySource>, cats: seq<Category>, i: int)
    requires |cats| == |sources| && DistinctKeys(sources) && 0 <= i < |sources|
    ensures sources[i].key in CategoryMap(sources, cats) && CategoryMap(sources, cats)[sources[i].key] == cats[i]
  {
    var n := |sources| - 1;
    if i < n {
      assert sources[..n][i] == sources[i] && cats[..n][i] == cats[i];
      CategoryMapAt(sources[..n], cats[..n], i);
    }
  }

  /** Every value of the dictionary is one of the built objects. */
  lemma {:induction false} CategoryMapValues(sources: seq<CategorySource>, cats: seq<Category>)
    requires |cats| == |sources|
    ensures forall k :: k in CategoryMap(sources, cats) ==> CategoryMap(sources, cats)[k] in cats
  {
    if sources != [] {
      var n := |sources| - 1;
      CategoryMapValues(sources[..n], cats[..n]);
      forall k | k in CategoryMap(sources, cats) ensures CategoryMap(sources, cats)[k] in cats {
        if k != sources[n].key {
          assert CategoryMap(sources, cats)[k] in cats[..n];
        }
      }
    }
  }

  /** No object occurs twice in `cats`. */
  predicate DistinctObjects(cats: seq<Category>) {
    forall j1, j2 :: 0 <= j1 < j2 < |cats| ==> cats[j1] != cats[j2]
  }

  /** No two keys of `m` share an object. */
  predicate NoSharedValues(m: map<string, Category>) {
    forall k1, k2 :: k1 in m && k2 in m && k1 != k2 ==> m[k1] != m[k2]
  }

  /** Distinct objects give a dictionary in which no two keys share an object. */
  lemma {:induction false} CategoryMapInjective(sources: seq<CategorySource>, cats: seq<Category>)
    requires |cats| == |sources|
    requires DistinctObjects(cats)
    ensures NoSharedValues(CategoryMap(sources, cats))
  {
    if sources != [] {
      var n := |sources| - 1;
      var pre := CategoryMap(sources[..n], cats[..n]);
      CategoryMapInjective(sources[..n], cats[..n]);
      CategoryMapValues(sources[..n], cats[..n]);
      assert cats[n] !in cats[..n] by {
        forall j | 0 <= j < n ensures cats[..n][j] != cats[n] {
          assert cats[..n][j] == cats[j];
        }
      }
      var m := CategoryMap(sources, cats);
      assert m == pre[sources[n].key := cats[n]];
      forall k1, k2 | k1 in m && k2 in m && k1 != k2 ensures m[k1] != m[k2] {
        if k1 == sources[n].key {
          assert k2 in pre && m[k2] == pre[k2] && pre[k2] in cats[..n];
          assert m[k1] == cats[n];
          assert m[k1] != m[k2];
        } else if k2 == sources[n].key {
          assert k1 in pre && m[k1] == pre[k1] && pre[k1] in cats[..n];
          assert m[k2] == cats[n];
          assert m[k1] != m[k2];
        } else {
          assert k1 in pre && k2 in pre && m[k1] == pre[k1] && m[k2] == pre[k2];
          assert pre[k1] != pre[k2];
        }
      }
    }
  }

  /** One more round of the category loop extends the dictionary by one key. */
  lemma CategoryMapSnoc(sources: seq<CategorySource>, cats: seq<Category>, i: int, cat: Category)
    requires 0 <= i < |sources| && |cats| == i
    ensures CategoryMap(sources[..i + 1], cats + [cat]) == CategoryMap(sources[..i], cats)[sources[i].key := cat]
  {
    assert sources[..i + 1][..i] == sources[..i];
    assert (cats + [cat])[..i] == cats;
  }

  lemma DistinctObjectsSnoc(cats: seq<Category>, cat: Category)
    requires DistinctObjects(cats) && cat !in cats
    ensures DistinctObjects(cats + [cat])
  {
  }

  /** The three facts the category loop needs of its dictionary. */
  lemma CategoryMapProperties(sources: seq<CategorySource>, cats: seq<Category>)
    requires |cats| == |sources| && DistinctKeys(sources) && DistinctObjects(cats)
    ensures forall i :: 0 <= i < |sources| ==>
              sources[i].key in CategoryMap(sources, cats) && CategoryMap(sources, cats)[sources[i].key] == cats[i]
    ensures forall k :: k in CategoryMap(sources, cats) ==> CategoryMap(sources, cats)[k] in cats
    ensures NoSharedValues(CategoryMap(sources, cats))
  {
    forall i | 0 <= i < |sources|
      ensures sources[i].key in CategoryMap(sources, cats) && CategoryMap(sources, cats)[sources[i].key] == cats[i]
    {
      CategoryMapAt(sources, cats, i);
    }
    CategoryMapValues(sources, cats);
    CategoryMapInjective(sources, cats);
  }

  /** The category loop of `fetch_all_news` (fetch_news.py:433-520) for a given
      admission rule: one freshly built category per configured category, no two
      keys sharing an object. */
  method FetchCategories(sources: seq<CategorySource>, admit: (FeedConfig, Entry) -> Option<Item>,
                         parse: string -> Option<ParsedTime>, localOffset: int) returns (allNews: map<string, Category>)
    requires DistinctKeys(sources)
    ensures allNews.Keys == KeysOf(sources)
    ensures forall i :: 0 <= i < |sources| ==> BuiltFrom(allNews[sources[i].key], sources[i], admit, parse, localOffset)
    ensures forall k :: k in allNews ==> fresh(allNews[k])
    ensures NoSharedValues(allNews)
  {
    allNews := map[];
    ghost var cats: seq<Category> := [];
    var i := 0;
    while i < |sources|
      invariant 0 <= i <= |sources| && |cats| == i
      invariant allNews == CategoryMap(sources[..i], cats)
      invariant forall j {:trigger BuiltFrom(cats[j], sources[j], admit, parse, localOffset)} :: 0 <= j < i ==> BuiltFrom(cats[j], sources[j], admit, parse, localOffset)
      invariant forall c :: c in cats ==> fresh(c)
      invariant DistinctObjects(cats)
    {
      var src := sources[i];
      var cat := BuildCategory(src, admit, parse, localOffset);
      CategoryMapSnoc(sources, cats, i, cat);
      DistinctObjectsSnoc(cats, cat);
      allNews := allNews[src.key := cat];
      cats := cats + [cat];
      i := i + 1;
    }
    assert sources[..|sources|] == sources;
    CategoryMapProperties(sources, cats);
  }

  /** `fetch_all_news` itself: the category loop with the entry admission of
      fetch_news.py:455-485. */
  method FetchAllNews(sources: seq<CategorySource>, idOf: (string, string) -> string, now: string,
                      parse: string -> Option<ParsedTime>, localOffset: int) returns (allNews: map<string, Category>)
    requires DistinctKeys(sources)
    ensures allNews.Keys == KeysOf(sources)
    ensures forall i :: 0 <= i < |sources| ==>
              BuiltFrom(allNews[sources[i].key], sources[i], Admission(idOf, now), parse, localOffset)
    ensures forall k :: k in allNews ==> fresh(allNews[k])
    ensures NoSharedValues(allNews)
  {
    allNews := FetchCategories(sources, Admission(idOf, now), parse, localOffset);
  }
}
