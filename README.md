# Gensokyo Daily news pipeline, in Dafny

This project models the core of `fetch_news.py`, the script that builds the
"Gensokyo Daily" dataset: a rolling collection of Touhou Project news grouped
into categories. The script does three things that are modelled here.

- **Relevance filtering.** `is_touhou_related` decides whether an entry from a
  general-purpose feed is about Touhou. It works in stages: a blacklist veto
  (cancelled by the markers "project" and "zun"), then a positive keyword scan,
  then a weak-root rule for "东方"/"東方". `is_important_zun_tweet` decides
  whether a post by the series' author matters. `clean_html` turns entry
  summaries into plain text.
- **Per-category reduction in `fetch_all_news`.** It admits entries, drops
  repeated ids (keeping the first), stable-sorts by (priority, newest first),
  caps the list at 50 items, and builds the category dictionary.
- **`merge_with_existing`.** It folds the previous snapshot into each category.
  Fresh items win on an id collision. An old item is kept only under a new id,
  and only if its `published` parses to an instant inside the last 30 days.
  The result is re-sorted by the raw `published` string, newest first, and
  capped at 50.

Modules, one per file:

| module | file | contents |
|---|---|---|
| `Wrappers` | wrappers.dfy | `Option` |
| `Text` | text.dfy | `str.lower` (ASCII), `in` on strings, the `str.isspace` class, `str.strip` |
| `Keywords` | keywords.dfy | the keyword lists, transcribed verbatim |
| `Classifier` | classifier.dfy | the two classifiers |
| `Html` | html.dfy | `clean_html` and its regex substitutions |
| `Sorting` | sorting.dfy | Python's stable `list.sort(key=…)`, as an in-place array sort proved equal to a functional specification |
| `Items` | items.dfy | entries, feeds, items, the `Category` object |
| `Aggregate` | aggregate.dfy | `fetch_all_news` |
| `Merge` | merge.dfy | `merge_with_existing` |

How the source maps onto the model:

- **Pure code and imperative code.**
  - Pure code (the classifiers, `clean_html`) becomes functions and lemmas.
  - Loops become methods with loop invariants, each proved equal to a
    specification function: the feed and entry loops, the dedup loop, the
    merge's old-items loop, and the category loops.
  - The in-place `list.sort` becomes an array method.
  - A category dict, whose `items` and `count` the merge overwrites in place,
    is a `Category` object.
- **Sorting.** Python sorts with Timsort, not insertion sort. Any stable sort
  gives the same result, because a sorted sequence that keeps the order of
  equal keys is unique. `Sorting.SortedStableIsSortSpec` proves this, so the
  model's insertion sort stands for `list.sort`.
- **Admission rule.** The per-category methods take the entry-admission rule
  as a function value. `Aggregate.FetchAllNews` passes them the real rule,
  `Admission(idOf, now)`. This keeps the generic proofs apart from the
  keyword lists.

Where the code and its documented intent differ, the model follows the code:

- **Blacklist override.** Any occurrence of "project" or "zun" in the
  lowercased text cancels the blacklist (fetch_news.py:224). "东方Project" is
  not required.
- **Weak-root branch.** The "东方"/"東方" branch (fetch_news.py:236-240) can
  never accept a text. Each term it re-scans was already scanned by the
  positive stage. `Classifier.WeakRootBranchIsDead` proves this, so the
  classifier is "no veto and some positive term".
- **Unparseable dates in the fresh sort.** They rank as timestamp 0, the
  epoch, not as the earliest instant. A dated item before 1970 therefore ranks
  below an undated one of the same priority.
- **Merge order.**
  - The merge sorts by the raw `published` string, not by the parsed time.
  - Its re-sort drops the (priority, time) order that `fetch_all_news` built.
  - For items written by `parse_date`, string order is time order, because
    every such string is a UTC ISO-8601 string: `YYYY-MM-DDTHH:MM:SS` then
    either `+00:00` (a feed date) or `.ffffff+00:00` (the fallback
    `datetime.now(timezone.utc).isoformat()` at fetch_news.py:324). The first
    19 characters compare as time does; at index 19, `.` (0x2E) sorts after
    `+` (0x2B), which matches the fallback's extra microseconds within the same
    second.
- **Image branch of the zun test.** `is_important_zun_tweet` looks for
  `"<img"` (fetch_news.py:269), but it is called on `clean_html` output
  (fetch_news.py:470), where every complete tag is already removed. The branch
  can fire only on a `<img` that no later `>` closes.
  `Aggregate.ImageMarkerNeedsUnclosedBracket` proves this.
- **Unused cutoff.** `cutoff_date` in `fetch_all_news` (fetch_news.py:439) is
  computed and never used. Fresh items are not age-filtered.

## Model

| member | source | states |
|---|---|---|
| Text.Lower | fetch_news.py:217 | `text.lower()` keeps the length and maps each character by the ASCII case mapping |
| Text.ContainsIffOccurs | fetch_news.py:221 | the left-to-right `in` scan finds `t` in `s` exactly when `t` occurs at some index of `s` |
| Text.LStrip | fetch_news.py:455 | the result is a suffix of the input, does not start with whitespace, and everything dropped is whitespace |
| Text.RStrip | fetch_news.py:455 | the result is a prefix of the input, does not end with whitespace, and everything dropped is whitespace |
| Text.Strip | fetch_news.py:455-456 | `.strip()` gives the infix starting after the leading whitespace; it neither starts nor ends with whitespace |
| Text.StripDropsOnlySpaces | fetch_news.py:455-456 | every character `.strip()` removes is whitespace |
| Classifier.AnyTermInIff | fetch_news.py:230-232 | the early-return keyword loop returns True exactly when some lowercased term occurs in the lowercased text |
| Classifier.BlacklistVetoesIff | fetch_news.py:219-226 | the blacklist loop returns False exactly when some blacklist term occurs and neither "project" nor "zun" does |
| Classifier.IsTouhouRelated | fetch_news.py:213-243 | an empty text is never related |
| Classifier.SpecificWithinPositive | fetch_news.py:229-237 | any hit of the weak-root re-scan is already a hit of the positive scan |
| Classifier.WeakRootBranchIsDead | fetch_news.py:234-243 | the classifier equals "non-empty, no veto, some positive term": the weak-root branch never changes a verdict |
| Classifier.IsTouhouRelatedIff | fetch_news.py:213-243 | a text is related iff it is non-empty, every blacklist hit comes with an override marker, and some positive term occurs |
| Classifier.BlacklistVeto | fetch_news.py:219-226 | a blacklist hit without "project" or "zun" rejects the text, whatever positive terms it holds |
| Classifier.UnvetoedIffPositive | fetch_news.py:228-243 | without a veto, the verdict is exactly the positive scan |
| Classifier.ZunMarkerAccepts | fetch_news.py:224-232 | a text containing "zun" is always accepted: the marker both cancels the blacklist and matches the core term "ZUN" |
| Classifier.IsImportantZunTweet | fetch_news.py:246-253 | an empty text is never important |
| Classifier.IsImportantZunTweetIff | fetch_news.py:246-272 | a text is important iff it is non-empty and some vocabulary term or "<img" occurs in it, compared lowercased |
| Html.CloseIndex | fetch_news.py:279 | the position of the first '>' at or after `k`, with no '>' before it |
| Html.StripTags | fetch_news.py:279 | tag removal never lengthens the text, introduces no character, and keeps a leading non-'<' character |
| Html.TagOfNotTagFree | fetch_news.py:279 | text that is not tag-free contains a match of `<[^>]+>` |
| Html.NotTagFreeOfTag | fetch_news.py:279 | text containing a match of `<[^>]+>` is not tag-free |
| Html.TagFreeImageMarker | fetch_news.py:269 | in tag-free text, an occurrence of `"<img"` starts at a `<` that no later `>` closes |
| Html.TagFreeIffNoTag | fetch_news.py:279 | "tag-free" holds exactly when no substring matches `<[^>]+>` |
| Html.TagFreeSlice | fetch_news.py:279-281 | every slice of tag-free text is tag-free |
| Html.StripTagsTagFree | fetch_news.py:279 | no match of `<[^>]+>` survives the substitution |
| Html.StripTagsKeepsTagFree | fetch_news.py:279 | tag-free text passes through the substitution unchanged |
| Html.StripTagsFixedPoints | fetch_news.py:279 | the substitution changes a text iff it holds a tag, and applying it twice equals applying it once |
| Html.CollapseSpaces | fetch_news.py:280 | collapsing never lengthens the text and keeps exactly the same non-whitespace characters |
| Html.NonSpaceAppend | fetch_news.py:280 | the non-whitespace characters of a concatenation are those of its parts |
| Html.CollapseSpacesSingle | fetch_news.py:280 | after `re.sub(r"\s+", " ", …)` the only whitespace is ' ', and never two in a row |
| Html.CollapseSpacesKeepsText | fetch_news.py:280 | collapsing keeps every non-whitespace character in order |
| Html.CollapseSpacesTagFree | fetch_news.py:279-280 | collapsing whitespace keeps tag-free text tag-free |
| Html.StripSpacesSingle | fetch_news.py:280 | stripping collapsed text leaves single ' ' separators only, never at the front |
| Html.CleanHtml | fetch_news.py:275-281 | an empty input gives "", and no output is longer than 300 characters |
| Html.WhitespacePrefix | fetch_news.py:281 | truncating to 300 characters keeps the whitespace normal form |
| Html.CleanHtmlTagFree | fetch_news.py:275-281 | every output of `clean_html` is tag-free |
| Html.CleanHtmlWhitespace | fetch_news.py:275-281 | every output of `clean_html` has only single ' ' separators, never leading |
| Html.CleanHtmlNormalForm | fetch_news.py:275-281 | every output has at most 300 characters, normal whitespace, and no match of `<[^>]+>` |
| Sorting.KeyFilter | fetch_news.py:509 | the elements of one key, each from the input and carrying that key |
| Sorting.Insert | fetch_news.py:509 | insertion adds one element |
| Sorting.SortSpec | fetch_news.py:509 | the specification keeps the length |
| Sorting.InsertPerm | fetch_news.py:509 | insertion adds exactly the new element (multiset) |
| Sorting.SortSpecPerm | fetch_news.py:509 | the specification is a permutation of its input |
| Sorting.KeyFilterAppend | fetch_news.py:509 | filtering by key distributes over concatenation |
| Sorting.InsertSorted | fetch_news.py:509 | inserting into a sorted list keeps it sorted |
| Sorting.InsertKeyOrder | fetch_news.py:509 | per key, insertion gives the order of the new element followed by the list: it goes before the equal keys |
| Sorting.SortSpecSorted | fetch_news.py:509 | the specification is sorted by the key's `<` |
| Sorting.SortSpecStable | fetch_news.py:509 | the specification keeps the relative order of every group of equal keys |
| Sorting.SortedStableUnique | fetch_news.py:509 | two sorted lists with the same per-key order are equal |
| Sorting.SortedStableIsSortSpec | fetch_news.py:509 | any sorted, stable rearrangement equals the specification: the result of a stable sort is unique |
| Sorting.SwapKeepsKeyOrder | fetch_news.py:509 | swapping neighbours with different keys keeps every group of equal keys in order |
| Sorting.SortInPlace | fetch_news.py:509 | the in-place sort leaves the array equal to the stable-sort specification of its old contents |
| Items.Category.constructor | fetch_news.py:514-518 | a new category holds the label and items, with `count == len(items)` |
| Items.IdsOfSnoc | fetch_news.py:496-498 | appending an item adds its id to the id set |
| Items.Take | fetch_news.py:512 | `s[:n]` is the prefix of `s` of length `min(n, len(s))` |
| Items.InsertDistinct | fetch_news.py:509 | inserting an item with a new id keeps ids distinct |
| Items.SortSpecDistinct | fetch_news.py:509 | sorting keeps ids distinct |
| Aggregate.AdmitEntry | fetch_news.py:455-485 | an entry is admitted iff its stripped title and link are non-empty and the flagged filters accept the cleaned summary plus title; the item's id, stripped title and link, 300-character summary, priority and date |
| Aggregate.FeedItemsIff | fetch_news.py:454-487 | an item comes from a feed iff it is the admission of one of its entries |
| Aggregate.CollectedIff | fetch_news.py:445-488 | an item is collected iff it is the admission of some entry of some successfully fetched feed |
| Aggregate.CollectItems | fetch_news.py:443-488 | the nested fetch loops append exactly the collected items, feed after feed, entry after entry |
| Aggregate.DedupIds | fetch_news.py:493-498 | deduplication keeps every id |
| Aggregate.DedupIsFirstOccurrences | fetch_news.py:493-498 | dedup keeps exactly the items whose id does not occur earlier in the input |
| Aggregate.DedupDistinct | fetch_news.py:493-498 | after dedup, ids are pairwise distinct |
| Aggregate.DedupDistinctUnchanged | fetch_news.py:493-498 | dedup leaves a list with distinct ids unchanged |
| Aggregate.DedupIdempotent | fetch_news.py:493-498 | dedup applied twice equals dedup applied once |
| Aggregate.FirstOccurrencesSubset | fetch_news.py:493-498 | every kept item is from the input |
| Aggregate.DedupItems | fetch_news.py:493-498 | the `seen_ids` loop computes the deduplicated list |
| Aggregate.RankLtIsStrictTotalOrder | fetch_news.py:509 | tuple `<` on (priority, −timestamp) is a strict total order |
| Aggregate.ImageMarkerNeedsUnclosedBracket | fetch_news.py:269-270 | when `"<img"` occurs in `clean_html` output, that output holds a `<` with no later `>` |
| Aggregate.ReducedProperties | fetch_news.py:492-512 | a category holds exactly min(50, number of unique items) collected items with distinct ids; priority ascending (99 when missing), then timestamp descending (0 when unparseable); it is a prefix of the stable sort of the deduplicated list |
| Aggregate.ReduceCategory | fetch_news.py:443-512 | collect, dedup, sort in place and cap compute the specified category list |
| Aggregate.KeysOf | fetch_news.py:441-514 | every configured category key is a key of the result |
| Aggregate.BuildCategory | fetch_news.py:514-518 | a fresh category object with the label, the reduced items and a matching count |
| Aggregate.CategoryMap | fetch_news.py:514 | the dictionary's keys are the configured keys |
| Aggregate.CategoryMapAt | fetch_news.py:514 | with distinct keys, each category's key maps to its own object |
| Aggregate.CategoryMapValues | fetch_news.py:514 | every value of the dictionary is one of the built objects |
| Aggregate.CategoryMapInjective | fetch_news.py:514 | distinct objects give a dictionary where no two keys share an object |
| Aggregate.CategoryMapSnoc | fetch_news.py:514 | one more round of the loop stores the new category under its key in the dictionary so far |
| Aggregate.CategoryMapProperties | fetch_news.py:514 | lookup, values and no sharing, together |
| Aggregate.FetchCategories | fetch_news.py:438-522 | the category loop builds one fresh category per key, built from that category's feeds, with no object shared between keys |
| Aggregate.FetchAllNews | fetch_news.py:430-522 | `fetch_all_news` is the category loop with the admission of fetch_news.py:455-485 |
| Merge.Cutoff | fetch_news.py:540 | the cutoff lies strictly before now (30 days earlier) |
| Merge.StrLtIrreflexive | fetch_news.py:559 | string `<` is irreflexive |
| Merge.StrLtTransitive | fetch_news.py:559 | string `<` is transitive |
| Merge.StrLtTotal | fetch_news.py:559 | any two distinct strings are ordered by `<` |
| Merge.NewerFirstIsStrictTotalOrder | fetch_news.py:559 | the `reverse=True` order on `published` strings is a strict total order |
| Merge.Get | fetch_news.py:548 | a lookup finds an item with that id that is in the dict, and finds none iff the id is absent |
| Merge.Put | fetch_news.py:543-554 | a store keeps the size or adds one entry |
| Merge.PutGet | fetch_news.py:543-554 | after a store, its key reads the stored item and every other key reads as before |
| Merge.PutAbsent | fetch_news.py:554 | storing under a new id appends at the end |
| Merge.PutIds | fetch_news.py:543-554 | a store adds exactly its id to the key set |
| Merge.PutDistinct | fetch_news.py:543-554 | stores keep ids distinct |
| Merge.IdsOfCons | fetch_news.py:543 | the ids of a cons are its head's id and the ids of its tail |
| Merge.GetDistinct | fetch_news.py:548 | in a dict with distinct ids, an item is present iff the lookup by its id returns it |
| Merge.IndexByIdGet | fetch_news.py:543 | the comprehension keeps, under each id, the last item with that id |
| Merge.IndexByIdDistinct | fetch_news.py:543 | the comprehension has distinct ids, and exactly the ids of its input |
| Merge.IndexByIdOfDistinct | fetch_news.py:543 | a list with distinct ids is its own comprehension |
| Merge.FirstRetainedIsRetained | fetch_news.py:547-556 | the old item kept for an id is from the snapshot, has that id, and is retained |
| Merge.MergeOldExtends | fetch_news.py:546-556 | the old-items loop only appends: ids stay distinct and the fresh entries are untouched |
| Merge.MergeOldGet | fetch_news.py:546-556 | after the old-items loop, each id holds the fresh item if there is one, otherwise the first retained old item |
| Merge.MergePoolIff | fetch_news.py:543-558 | the merged pool has distinct ids; an item is in it iff it is the last fresh item of its id, or the first retained old item when the id is not fresh |
| Merge.MergedProvenance | fetch_news.py:542-563 | each merged item is the winning fresh item of its id, or else a retained snapshot item under a new id |
| Merge.MergedOrdered | fetch_news.py:558-560 | a merged category has at most 50 items with distinct ids, newest `published` string first; it is a prefix of the stable sort of the pool |
| Merge.MergedCapDropsOldest | fetch_news.py:559-560 | a pool item left out means the category is full and every kept item's `published` is at least as great |
| Merge.MergeWithoutOld | fetch_news.py:543-560 | with nothing to merge, a category with distinct ids is only re-sorted by `published` and capped |
| Merge.MergeCategory | fetch_news.py:543-563 | the dict, the guarded `try`, the in-place sort and the cap compute the specified merged list |
| Merge.MergeWithExisting | fetch_news.py:525-565 | with no snapshot nothing changes; otherwise every category's items become the merge with its snapshot items, and its count their number |

## Left out

- Network and feed parsing are not modelled. This covers `fetch_feed`, feedparser, RSSHub and the HTTP calls. Each feed arrives as `Option<seq<Entry>>`: `None` when the fetch or parse failed.
- `generate_id` is not modelled: an MD5 hash truncated to 12 hex digits. It is the parameter `idOf(title, link)`. Hash collisions are left to that function.
- `parse_date`, `extract_image` and `datetime.now` are not modelled. Their results are fields of `Entry`: `published`, `image`, and one `now` string.
- `datetime.fromisoformat` is the parameter `parse`. A failed parse is `None`.
- Per-item `fetched_at` is not modelled. Each item calls `datetime.now()` separately; the model uses one `now` for the whole run.
- POSIX timestamps are whole seconds. The source uses floats with microseconds.
- The machine's time zone is the parameter `localOffset`. `.timestamp()` applies it to naive datetimes in the fresh sort.
- `str.lower` is modelled for ASCII letters only. The keyword lists and markers need nothing more: their non-ASCII characters are CJK and kana, which have no case. Case mappings of other scripts in feed text are not modelled.
- Reading the data file is not modelled: existence, JSON decoding, I/O errors. The snapshot is `Option<map<string, seq<Item>>>`, and `None` stands for "no file" or "unreadable". A missing `categories` key reads as an empty map, and a missing `items` key as an empty list.
- Writing the data file, `main`, the weather and advert content, and the `print` logging are not part of this model.
- Malformed snapshot entries are not modelled. A snapshot item with no `id` raises `KeyError` at `old_item["id"]` (fetch_news.py:548), outside the `try`. A `published` that is JSON `null` makes `datetime.fromisoformat` raise `TypeError` inside the `try` (fetch_news.py:550), and `except (ValueError, KeyError)` (fetch_news.py:555) does not catch it. Either way the run stops; the model's `Item` always has an id and an optional string `published`.
- Merge.MergeWithExisting: requires that no two keys share a category object. `fetch_all_news` builds the dictionary that way; with shared objects the source would merge a category twice.
- Dict iteration order is not modelled. The categories are independent, so the result does not depend on it.

