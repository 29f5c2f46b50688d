/** The relevance classifier `is_touhou_related` (fetch_news.py:213-243) and the
    trusted-author test `is_important_zun_tweet` (fetch_news.py:246-272). */
module Classifier {
  import opened Text
  import opened Keywords

  /** The early-return scan `for kw in terms: if kw.lower() in textLower: return True`. */
  predicate AnyTermIn(terms: seq<string>, textLower: string) {
    if terms == [] then false
    else Contains(textLower, Lower(terms[0])) || AnyTermIn(terms[1..], textLower)
  }

  /** The scan succeeds exactly when some term of the list, lowercased, occurs in the text. */
  lemma {:induction false} AnyTermInIff(terms: seq<string>, textLower: string)
    ensures AnyTermIn(terms, textLower) <==> exists kw :: kw in terms && Contains(textLower, Lower(kw))
  {
    if terms != [] {
      AnyTermInIff(terms[1..], textLower);
      if Contains(textLower, Lower(terms[0])) {
        assert terms[0] in terms;
      } else if AnyTermIn(terms[1..], textLower) {
        var kw :| kw in terms[1..] && Contains(textLower, Lower(kw));
        assert kw in terms;
      } else {
        forall kw | kw in terms ensures !Contains(textLower, Lower(kw)) {
          if kw != terms[0] {
            assert kw in terms[1..];
          }
        }
      }
    }
  }

  /** "project" or "zun" anywhere in the lowercased text cancels the blacklist. */
  predicate HasOverride(textLower: string) {
    Contains(textLower, OverrideMarkers[0]) || Contains(textLower, OverrideMarkers[1])
  }

  /** The blacklist loop (fetch_news.py:220-226): true when it returns False.
      A hit with an override present is skipped by `continue`; a hit without one rejects. */
  predicate BlacklistVetoes(words: seq<string>, textLower: string) {
    if words == [] then false
    else if Contains(textLower, Lower(words[0])) && !HasOverride(textLower) then true
    else BlacklistVetoes(words[1..], textLower)
  }

  /** The loop vetoes exactly when some blacklist term occurs and no override marker does:
      the override is independent of which term hit, so it cancels every hit at once. */
  lemma {:induction false} BlacklistVetoesIff(words: seq<string>, textLower: string)
    ensures BlacklistVetoes(words, textLower) <==> AnyTermIn(words, textLower) && !HasOverride(textLower)
  {
    if words != [] {
      BlacklistVetoesIff(words[1..], textLower);
    }
  }

  /** `is_touhou_related`: empty text is rejected; then the blacklist veto; then the
      positive scan over core, character, game and music terms; then the weak-root
      branch, which re-scans the character, game and music terms when the text
      holds "东方" or "東方". */
  function IsTouhouRelated(text: string): (r: bool)
    ensures text == [] ==> !r
  {
    if text == [] then false
    else
      var textLower := Lower(text);
      if BlacklistVetoes(BlacklistKeywords, textLower) then false
      else if AnyTermIn(PositiveKeywords, textLower) then true
      else if Contains(text, WeakRootSimplified) || Contains(textLower, WeakRootTraditional) then
        AnyTermIn(SpecificKeywords, textLower)
      else false
  }

  /** Every term the weak-root branch checks was already checked by the positive scan. */
  lemma SpecificWithinPositive(textLower: string)
    ensures AnyTermIn(SpecificKeywords, textLower) ==> AnyTermIn(PositiveKeywords, textLower)
  {
    AnyTermInIff(SpecificKeywords, textLower);
    AnyTermInIff(PositiveKeywords, textLower);
    if AnyTermIn(SpecificKeywords, textLower) {
      var kw :| kw in SpecificKeywords && Contains(textLower, Lower(kw));
      assert kw in PositiveKeywords;
    }
  }

  /** The weak-root branch never yields True: the classifier agrees with the same
      procedure with that branch deleted. */
  lemma WeakRootBranchIsDead(text: string)
    ensures IsTouhouRelated(text) <==>
      text != [] && !BlacklistVetoes(BlacklistKeywords, Lower(text)) && AnyTermIn(PositiveKeywords, Lower(text))
  {
    SpecificWithinPositive(Lower(text));
  }

  /** The whole classifier as one statement about substrings: a non-empty text is
      related iff no blacklist term occurs without an override marker, and some
      positive term occurs (all comparisons on the lowercased text and terms). */
  lemma IsTouhouRelatedIff(text: string)
    ensures IsTouhouRelated(text) <==>
      && text != []
      && ((exists b :: b in BlacklistKeywords && Contains(Lower(text), Lower(b))) ==> HasOverride(Lower(text)))
      && (exists kw :: kw in PositiveKeywords && Contains(Lower(text), Lower(kw)))
  {
    WeakRootBranchIsDead(text);
    BlacklistVetoesIff(BlacklistKeywords, Lower(text));
    AnyTermInIff(BlacklistKeywords, Lower(text));
    AnyTermInIff(PositiveKeywords, Lower(text));
  }

  /** A blacklist hit with neither "project" nor "zun" present rejects the text,
      whatever positive terms it also holds. */
  lemma BlacklistVeto(text: string, bad: string)
    requires bad in BlacklistKeywords && Contains(Lower(text), Lower(bad))
    requires !Contains(Lower(text), "project") && !Contains(Lower(text), "zun")
    ensures !IsTouhouRelated(text)
  {
    IsTouhouRelatedIff(text);
  }

  /** Without a veto, the verdict is exactly the positive scan. */
  lemma UnvetoedIffPositive(text: string)
    requires !BlacklistVetoes(BlacklistKeywords, Lower(text))
    ensures IsTouhouRelated(text) <==>
      text != [] && exists kw :: kw in PositiveKeywords && Contains(Lower(text), Lower(kw))
  {
    WeakRootBranchIsDead(text);
    AnyTermInIff(PositiveKeywords, Lower(text));
  }

  /** The override marker "zun" is also the lowercased core term "ZUN", so a text
      holding it is always accepted. */
  lemma ZunMarkerAccepts(text: string)
    requires Contains(Lower(text), "zun")
    ensures IsTouhouRelated(text)
  {
    assert Lower("ZUN") == "zun";
    assert "ZUN" in PositiveKeywords;
    IsTouhouRelatedIff(text);
  }

  /** `is_important_zun_tweet`: a plain OR of the vocabulary and the image marker,
      with no veto stage. */
  function IsImportantZunTweet(text: string): (r: bool)
    ensures text == [] ==> !r
  {
    if text == [] then false
    else
      var textLower := Lower(text);
      if AnyTermIn(ZunKeywords, textLower) then true
      else if Contains(textLower, ImageMarker) then true
      else false
  }

  /** A non-empty text is important iff some lowercased vocabulary term or "<img"
      occurs in the lowercased text. */
  lemma IsImportantZunTweetIff(text: string)
    ensures IsImportantZunTweet(text) <==>
      text != [] &&
      ((exists kw :: kw in ZunKeywords && Contains(Lower(text), Lower(kw))) || Contains(Lower(text), "<img"))
  {
    AnyTermInIff(ZunKeywords, Lower(text));
  }
}
