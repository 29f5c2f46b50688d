/** `clean_html` (fetch_news.py:275-281): remove tags with the pattern `<[^>]+>`,
    collapse each run of `\s` to one space, strip, and keep the first 300
    characters. Each regular-expression substitution is modelled as the
    left-to-right scan the regex engine performs. */
module Html {
  import opened Text

  /** The summary length the source truncates to. */
  const SummaryLimit: nat := 300

  /** The index of the first '>' at or after `k`, or `|s|` when there is none. */
  function CloseIndex(s: string, k: nat): (j: nat)
    requires k <= |s|
    ensures k <= j <= |s|
    ensures j < |s| ==> s[j] == '>'
    ensures forall m :: k <= m < j ==> s[m] != '>'
    decreases |s| - k
  {
    if k == |s| || s[k] == '>' then k else CloseIndex(s, k + 1)
  }

  /** `re.sub(r"<[^>]+>", "", s)`. At a '<' the pattern matches when at least
      one non-'>' character and then a '>' follow; the match ends at the first
      '>' and scanning resumes after it. Otherwise the '<' is kept. */
  function StripTags(s: string): (r: string)
    ensures |r| <= |s|
    ensures forall c :: c in r ==> c in s
    ensures s != [] && s[0] != '<' ==> r != [] && r[0] == s[0]
    decreases |s|
  {
    if s == [] then []
    else if s[0] == '<' && 1 < CloseIndex(s, 1) < |s| then StripTags(s[CloseIndex(s, 1) + 1..])
    else [s[0]] + StripTags(s[1..])
  }

  /** Some substring of `s` matches `<[^>]+>`: a '<' at `i`, a '>' at `j > i + 1`,
      and no '>' between them. */
  predicate HasTag(s: string) {
    exists i, j :: 0 <= i && i + 1 < j < |s| && s[i] == '<' && s[j] == '>' &&
      forall k :: i < k < j ==> s[k] != '>'
  }

  /** No '>' at index `k` or later. */
  predicate NoCloseFrom(s: string, k: nat) {
    forall m :: k <= m < |s| ==> s[m] != '>'
  }

  /** Every '<' is followed either at once by '>' or by no '>' at all. */
  predicate TagFree(s: string) {
    forall i :: 0 <= i < |s| && s[i] == '<' ==> (i + 1 < |s| && s[i + 1] == '>') || NoCloseFrom(s, i + 1)
  }

  /** In tag-free text, an occurrence of "<img" (in any letter case) starts at a
      '<' that no later '>' closes. */
  lemma TagFreeImageMarker(s: string)
    requires TagFree(s) && Contains(Lower(s), "<img")
    ensures exists i :: 0 <= i < |s| && s[i] == '<' && NoCloseFrom(s, i + 1)
  {
    ContainsIffOccurs(Lower(s), "<img");
    var i :| OccursAt(Lower(s), "<img", i);
    assert Lower(s)[i] == Lower(s)[i..i + 4][0] == '<';
    assert Lower(s)[i + 1] == Lower(s)[i..i + 4][1] == 'i';
    assert s[i] == '<' && s[i + 1] != '>';
  }

  lemma TagOfNotTagFree(s: string)
    requires !TagFree(s)
    ensures HasTag(s)
  {
    var i :| 0 <= i < |s| && s[i] == '<' && !(i + 1 < |s| && s[i + 1] == '>') && !NoCloseFrom(s, i + 1);
    var j := CloseIndex(s, i + 1);
    assert i + 1 < j < |s| && s[j] == '>';
  }

  lemma NotTagFreeOfTag(s: string)
    requires HasTag(s)
    ensures !TagFree(s)
  {
    var i, j :| 0 <= i && i + 1 < j < |s| && s[i] == '<' && s[j] == '>' &&
      forall k :: i < k < j ==> s[k] != '>';
    assert s[i + 1] != '>' && !NoCloseFrom(s, i + 1);
  }

  /** The two descriptions of "no tag left" agree. */
  lemma TagFreeIffNoTag(s: string)
    ensures TagFree(s) <==> !HasTag(s)
  {
    if !TagFree(s) {
      TagOfNotTagFree(s);
    }
    if HasTag(s) {
      NotTagFreeOfTag(s);
    }
  }

  /** Prepending one character to tag-free text keeps it tag-free, provided a
      '<' is followed at once by '>' or by no '>' at all. */
  lemma TagFreeCons(c: char, t: string)
    requires TagFree(t)
    requires c == '<' ==> (t != [] && t[0] == '>') || NoCloseFrom(t, 0)
    ensures TagFree([c] + t)
  {
    var s := [c] + t;
    forall i | 0 <= i < |s| && s[i] == '<'
      ensures (i + 1 < |s| && s[i + 1] == '>') || NoCloseFrom(s, i + 1)
    {
      if i > 0 {
        assert s[i] == t[i - 1];
        if !(i < |t| && t[i] == '>') {
          assert NoCloseFrom(t, i);
        }
      }
    }
  }

  /** A slice of tag-free text is tag-free. */
  lemma TagFreeSlice(s: string, a: nat, b: nat)
    requires a <= b <= |s| && TagFree(s)
    ensures TagFree(s[a..b])
  {
    var u := s[a..b];
    forall i | 0 <= i < |u| && u[i] == '<'
      ensures (i + 1 < |u| && u[i + 1] == '>') || NoCloseFrom(u, i + 1)
    {
      assert s[a + i] == '<';
    }
  }

  /** An infix of tag-free text is tag-free. */
  lemma TagFreeInfix(t: string, r: string, k: int)
    requires TagFree(t) && OccursAt(t, r, k)
    ensures TagFree(r)
  {
    TagFreeSlice(t, k, k + |r|);
  }

  /** The output of tag stripping never contains a match of `<[^>]+>`. */
  lemma {:induction false} StripTagsTagFree(s: string)
    ensures TagFree(StripTags(s))
    decreases |s|
  {
    if s != [] {
      if s[0] == '<' && 1 < CloseIndex(s, 1) < |s| {
        StripTagsTagFree(s[CloseIndex(s, 1) + 1..]);
      } else {
        var rest := StripTags(s[1..]);
        StripTagsTagFree(s[1..]);
        if s[0] == '<' && CloseIndex(s, 1) == |s| {
          assert NoCloseFrom(s[1..], 0);
          assert '>' !in s[1..];
          assert '>' !in rest;
          assert NoCloseFrom(rest, 0);
        }
        TagFreeCons(s[0], rest);
      }
    }
  }

  /** Tag-free text passes through tag stripping unchanged. */
  lemma {:induction false} StripTagsKeepsTagFree(s: string)
    requires TagFree(s)
    ensures StripTags(s) == s
    decreases |s|
  {
    if s != [] {
      TagFreeSlice(s, 1, |s|);
      StripTagsKeepsTagFree(s[1..]);
    }
  }

  /** Tag stripping changes a text exactly when the text holds a tag, and a
      second pass changes nothing. */
  lemma StripTagsFixedPoints(s: string)
    ensures StripTags(s) == s <==> !HasTag(s)
    ensures StripTags(StripTags(s)) == StripTags(s)
  {
    StripTagsTagFree(s);
    TagFreeIffNoTag(s);
    if TagFree(s) {
      StripTagsKeepsTagFree(s);
    }
    StripTagsKeepsTagFree(StripTags(s));
  }

  /** `re.sub(r"\s+", " ", s)`: each maximal run of whitespace becomes one ' '. */
  function CollapseSpaces(s: string): (r: string)
    ensures |r| <= |s|
    ensures forall c :: !IsSpace(c) ==> (c in r <==> c in s)
    ensures s != [] && !IsSpace(s[0]) ==> r != [] && r[0] == s[0]
    decreases |s|
  {
    if s == [] then []
    else if IsSpace(s[0]) then
      var rest := LStrip(s);
      assert forall c :: !IsSpace(c) ==> (c in s <==> c in rest) by {
        forall c | !IsSpace(c) && c in s ensures c in rest {
          var k :| 0 <= k < |s| && s[k] == c;
          assert rest[k - (|s| - |rest|)] == c;
        }
      }
      [' '] + CollapseSpaces(rest)
    else [s[0]] + CollapseSpaces(s[1..])
  }

  /** The only whitespace is ' ', and no two whitespace characters are adjacent. */
  predicate SpacesSingle(s: string) {
    forall i :: 0 <= i < |s| && IsSpace(s[i]) ==> s[i] == ' ' && (i == 0 || !IsSpace(s[i - 1]))
  }

  /** The whitespace discipline of `clean_html`'s output: the only whitespace is
      ' ', and it is never first and never follows other whitespace. */
  predicate WhitespaceNormal(s: string) {
    forall i :: 0 <= i < |s| && IsSpace(s[i]) ==> s[i] == ' ' && 0 < i && !IsSpace(s[i - 1])
  }

  /** The non-whitespace characters of a text, in order. */
  function NonSpace(s: string): (r: string)
    ensures forall i :: 0 <= i < |r| ==> !IsSpace(r[i])
  {
    if s == [] then []
    else if IsSpace(s[0]) then NonSpace(s[1..])
    else [s[0]] + NonSpace(s[1..])
  }

  lemma {:induction false} NonSpaceOfSpaces(s: string)
    requires forall i :: 0 <= i < |s| ==> IsSpace(s[i])
    ensures NonSpace(s) == []
  {
    if s != [] {
      NonSpaceOfSpaces(s[1..]);
    }
  }

  lemma {:induction false} NonSpaceAppend(s: string, t: string)
    ensures NonSpace(s + t) == NonSpace(s) + NonSpace(t)
  {
    if s != [] {
      assert (s + t)[1..] == s[1..] + t;
      NonSpaceAppend(s[1..], t);
    } else {
      assert s + t == t;
    }
  }

  lemma SpacesSingleCons(c: char, t: string)
    requires SpacesSingle(t)
    requires IsSpace(c) ==> c == ' ' && (t == [] || !IsSpace(t[0]))
    ensures SpacesSingle([c] + t)
  {
    var s := [c] + t;
    forall i | 0 <= i < |s| && IsSpace(s[i]) ensures s[i] == ' ' && (i == 0 || !IsSpace(s[i - 1])) {
      if i > 1 {
        assert s[i] == t[i - 1] && s[i - 1] == t[i - 2];
      }
    }
  }

  /** After collapsing, the only whitespace is a single ' ' between non-whitespace. */
  lemma {:induction false} CollapseSpacesSingle(s: string)
    ensures SpacesSingle(CollapseSpaces(s))
    decreases |s|
  {
    if s != [] {
      if IsSpace(s[0]) {
        var rest := LStrip(s);
        CollapseSpacesSingle(rest);
        SpacesSingleCons(' ', CollapseSpaces(rest));
      } else {
        CollapseSpacesSingle(s[1..]);
        SpacesSingleCons(s[0], CollapseSpaces(s[1..]));
      }
    }
  }

  /** Collapsing keeps every non-whitespace character, in its order. */
  lemma {:induction false} CollapseSpacesKeepsText(s: string)
    ensures NonSpace(CollapseSpaces(s)) == NonSpace(s)
    decreases |s|
  {
    if s != [] {
      if IsSpace(s[0]) {
        var rest := LStrip(s);
        CollapseSpacesKeepsText(rest);
        var k := |s| - |rest|;
        assert s == s[..k] + rest;
        NonSpaceOfSpaces(s[..k]);
        NonSpaceAppend(s[..k], rest);
        assert ([' '] + CollapseSpaces(rest))[1..] == CollapseSpaces(rest);
      } else {
        CollapseSpacesKeepsText(s[1..]);
        assert ([s[0]] + CollapseSpaces(s[1..]))[1..] == CollapseSpaces(s[1..]);
      }
    }
  }

  /** Collapsing whitespace keeps text tag-free: it neither adds nor removes a '<' or '>'. */
  lemma {:induction false} CollapseSpacesTagFree(s: string)
    requires TagFree(s)
    ensures TagFree(CollapseSpaces(s))
    decreases |s|
  {
    if s != [] {
      if IsSpace(s[0]) {
        var rest := LStrip(s);
        TagFreeSlice(s, |s| - |rest|, |s|);
        assert s[|s| - |rest|..|s|] == rest;
        CollapseSpacesTagFree(rest);
        TagFreeCons(' ', CollapseSpaces(rest));
      } else {
        TagFreeSlice(s, 1, |s|);
        assert s[1..|s|] == s[1..];
        CollapseSpacesTagFree(s[1..]);
        var rest := CollapseSpaces(s[1..]);
        if s[0] == '<' && !(|s| > 1 && s[1] == '>') {
          assert NoCloseFrom(s[1..], 0);
          assert '>' !in s[1..];
          assert '>' !in rest;
          assert NoCloseFrom(rest, 0);
        }
        TagFreeCons(s[0], rest);
      }
    }
  }

  /** Stripping text whose whitespace is already single leaves it in the normal form. */
  lemma StripSpacesSingle(t: string)
    requires SpacesSingle(t)
    ensures WhitespaceNormal(Strip(t))
  {
    var r := Strip(t);
    var k := LeadingSpaces(t);
    forall i | 0 <= i < |r| && IsSpace(r[i]) ensures r[i] == ' ' && 0 < i && !IsSpace(r[i - 1]) {
      assert r[i] == t[k + i];
      if i > 0 {
        assert r[i - 1] == t[k + i - 1];
      }
    }
  }

  /** `clean_html`: empty input gives empty output; otherwise strip tags,
      collapse whitespace, strip, and truncate to 300 characters. */
  function CleanHtml(raw: string): (r: string)
    ensures |r| <= SummaryLimit
    ensures raw == [] ==> r == []
  {
    if raw == [] then []
    else
      var text := Strip(CollapseSpaces(StripTags(raw)));
      if |text| <= SummaryLimit then text else text[..SummaryLimit]
  }

  /** Truncation keeps the whitespace normal form. */
  lemma WhitespacePrefix(t: string, n: nat)
    requires n <= |t| && WhitespaceNormal(t)
    ensures WhitespaceNormal(t[..n])
  {
    forall i | 0 <= i < n && IsSpace(t[..n][i]) ensures t[..n][i] == ' ' && 0 < i && !IsSpace(t[..n][i - 1]) {
      assert t[..n][i] == t[i];
      if i > 0 {
        assert t[..n][i - 1] == t[i - 1];
      }
    }
  }

  /** Every output of `clean_html` is free of `<[^>]+>` matches. */
  lemma CleanHtmlTagFree(raw: string)
    ensures TagFree(CleanHtml(raw))
  {
    var r := CleanHtml(raw);
    if raw != [] {
      var t1 := StripTags(raw);
      var t2 := CollapseSpaces(t1);
      var t3 := Strip(t2);
      StripTagsTagFree(raw);
      CollapseSpacesTagFree(t1);
      TagFreeInfix(t2, t3, LeadingSpaces(t2));
      TagFreeSlice(t3, 0, |r|);
      assert r == t3[0..|r|];
    }
  }

  /** Every output of `clean_html` is in whitespace normal form. */
  lemma CleanHtmlWhitespace(raw: string)
    ensures WhitespaceNormal(CleanHtml(raw))
  {
    var r := CleanHtml(raw);
    if raw != [] {
      var t1 := StripTags(raw);
      var t2 := CollapseSpaces(t1);
      var t3 := Strip(t2);
      CollapseSpacesSingle(t1);
      StripSpacesSingle(t2);
      WhitespacePrefix(t3, |r|);
      assert r == t3[..|r|];
    }
  }

  /** What `clean_html` guarantees of every output: at most 300 characters, the
      only whitespace a single ' ' that is never first and never doubled, and no
      substring matching `<[^>]+>`. */
  lemma CleanHtmlNormalForm(raw: string)
    ensures |CleanHtml(raw)| <= SummaryLimit
    ensures WhitespaceNormal(CleanHtml(raw))
    ensures !HasTag(CleanHtml(raw))
  {
    CleanHtmlTagFree(raw);
    CleanHtmlWhitespace(raw);
    TagFreeIffNoTag(CleanHtml(raw));
  }
}
