/** The tag list of a host in its normal form. `isTag` stands for the pattern and length one tag must meet. */
module Tags {
  import opened Optional
  import opened Order
  import opened Sorting
  import opened Text
  import opened Lists

  const MAX_TAGS: nat := 32

  predicate AllTags(texts: seq<string>, isTag: string -> bool) {
    forall t | t in texts :: isTag(t)
  }

  function NormalTags(tags: seq<string>, isTag: string -> bool): Option<seq<string>> {
    var distinct := FirstMentions(Wanted(tags));
    if !AllTags(Wanted(tags), isTag) || |distinct| > MAX_TAGS then None else Some(Sort(distinct))
  }

  /** A tag has no blanks around it and is not empty; the pattern is anchored at both ends. */
  ghost predicate Pattern(isTag: string -> bool) {
    forall t | isTag(t) :: t != [] && TrimSpace(t) == t
  }

  lemma NothingMentioned()
    ensures FirstMentions([]) == []
  {
  }

  method NormalizeTags(tags: seq<string>, isTag: string -> bool) returns (normal: Option<seq<string>>)
    ensures normal == NormalTags(tags, isTag)
  {
    hide Sort, TrimSpace, Wanted, FirstMentions;
    assert tags[..0] == [] && Wanted([]) == [] && FirstMentions([]) == [] by {
      NothingWanted();
      NothingMentioned();
    }
    var normalized: seq<string> := [];
    for i := 0 to |tags|
      invariant normalized == FirstMentions(Wanted(tags[..i])) && AllTags(Wanted(tags[..i]), isTag)
    {
      var tag := TrimSpace(tags[i]);
      WantedSnoc(tags, i);
      if tag == [] {
        continue;
      }
      if !isTag(tag) {
        assert tags == tags[..i + 1] + tags[i + 1..];
        WantedConcat(tags[..i + 1], tags[i + 1..]);
        assert tag in Wanted(tags);
        return None;
      }
      FirstMentionsSnoc(Wanted(tags[..i]), tag);
      if tag in normalized {
        continue;
      }
      normalized := normalized + [tag];
    }
    assert tags[..|tags|] == tags;
    normal := if |normalized| > MAX_TAGS then None else Some(Sort(normalized));
  }

  /** The normal form is sorted, without repeats, and holds exactly the tags given. */
  lemma NormalTagsMeans(tags: seq<string>, isTag: string -> bool)
    requires NormalTags(tags, isTag).Some?
    ensures var normal := NormalTags(tags, isTag).value;
            && Increasing(normal)
            && TextsOf(normal) == TextsOf(Wanted(tags))
            && |normal| <= MAX_TAGS
            && AllTags(normal, isTag)
  {
    var distinct := FirstMentions(Wanted(tags));
    FirstMentionsMeans(Wanted(tags));
    SortPermutes(distinct);
    SortSorted(distinct);
    assert |Sort(distinct)| == |multiset(Sort(distinct))| == |distinct|;
    forall t ensures t in TextsOf(Sort(distinct)) <==> t in TextsOf(distinct) {
      SortMembers(distinct, t);
    }
    forall t | t in Sort(distinct) ensures isTag(t) {
      assert t in TextsOf(Sort(distinct));
      assert t in TextsOf(Wanted(tags));
    }
    SortStrict(distinct);
  }

  lemma SortStrict(s: seq<string>)
    requires NoRepeats(s)
    ensures Increasing(Sort(s))
  {
    var sorted := Sort(s);
    SortSorted(s);
    SortPermutes(s);
    forall i, j | 0 <= i < j < |sorted| ensures Less(sorted[i], sorted[j]) {
      assert AtMost(sorted[i], sorted[j]);
      if sorted[i] == sorted[j] {
        NoRepeatsOnce(s, sorted[i]);
        TwiceCounts(sorted, i, j);
      }
    }
  }

  /** Normalising again changes nothing: what a host carries is compared as it was written. */
  lemma NormalTagsIdle(tags: seq<string>, isTag: string -> bool)
    requires Pattern(isTag) && NormalTags(tags, isTag).Some?
    ensures NormalTags(NormalTags(tags, isTag).value, isTag) == NormalTags(tags, isTag)
  {
    var normal := NormalTags(tags, isTag).value;
    NormalTagsMeans(tags, isTag);
    WantedIdle(normal);
    forall i, j | 0 <= i < j < |normal| ensures normal[i] != normal[j] {
      Asymmetric(normal[i], normal[j]);
    }
    FirstMentionsIdle(normal);
    SortIdle(normal);
  }

  /** A list is accepted exactly when every text in it is a tag and there are at most 32 different ones. */
  lemma NormalTagsIff(tags: seq<string>, isTag: string -> bool)
    ensures NormalTags(tags, isTag).Some? <==> AllTags(Wanted(tags), isTag) && |TextsOf(Wanted(tags))| <= MAX_TAGS
  {
    FirstMentionsMeans(Wanted(tags));
    NoRepeatsCount(FirstMentions(Wanted(tags)));
  }
}
