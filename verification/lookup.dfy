/** `getPointGroupByTag`: the point group paired with the first matching tag. */
module Lookup {
  import opened Outcomes
  import opened Partition

  /** No entry before position `k` carries `searchTag`. */
  predicate NoneBefore<G>(entries: seq<(Tag, G)>, searchTag: Tag, k: int) {
    forall k' :: 0 <= k' < k && k' < |entries| ==> entries[k'].0 != searchTag
  }

  /** The loop of `getPointGroupByTag` over already zipped (tag, group)
      entries: the group of the first entry whose tag equals `searchTag`, or
      `None` when no tag matches. */
  function FindByTag<G>(entries: seq<(Tag, G)>, searchTag: Tag): (r: Option<G>)
    ensures r.None? <==> NoneBefore(entries, searchTag, |entries|)
    ensures forall k :: 0 <= k < |entries| && entries[k].0 == searchTag && NoneBefore(entries, searchTag, k)
              ==> r == Some(entries[k].1)
    decreases |entries|
  {
    if |entries| == 0 then None
    else if entries[0].0 == searchTag then Some(entries[0].1)
    else
      var r := FindByTag(entries[1..], searchTag);
      assert forall k :: 1 <= k < |entries| ==> entries[1..][k - 1] == entries[k];
      assert forall k :: 1 <= k <= |entries| && NoneBefore(entries, searchTag, k)
               ==> NoneBefore(entries[1..], searchTag, k - 1);
      r
  }

  /** `getPointGroupByTag(pointGroupList, tagList, searchTag)`: `None` exactly
      when no tag (of those `zip` pairs with a group) equals `searchTag`, and
      otherwise the group at the first index whose tag does. */
  function GetPointGroupByTag<G>(groups: seq<G>, tags: seq<Tag>, searchTag: Tag): (r: Option<G>)
    ensures r.None? <==> forall k :: 0 <= k < |tags| && k < |groups| ==> tags[k] != searchTag
    ensures forall k :: 0 <= k < |tags| && k < |groups| && tags[k] == searchTag &&
                        (forall k' :: 0 <= k' < k ==> tags[k'] != searchTag)
              ==> r == Some(groups[k])
  {
    var entries := Zip(tags, groups);
    assert forall k :: 0 <= k < |entries| ==> entries[k].0 == tags[k] && entries[k].1 == groups[k];
    FindByTag(entries, searchTag)
  }

  /** Looking a tag up in one side of a split finds what looking it up in the
      whole input finds, provided the tag belongs on that side. */
  lemma {:induction false} FindBySelectedTag<G>(entries: seq<(Tag, G)>, trainTags: seq<Tag>, train: bool, searchTag: Tag)
    requires (searchTag in trainTags) == train
    ensures FindByTag(Select(entries, trainTags, train), searchTag) == FindByTag(entries, searchTag)
    decreases |entries|
  {
    if |entries| > 0 {
      FindBySelectedTag(entries[1..], trainTags, train, searchTag);
      var s := Select(entries, trainTags, train);
      if (entries[0].0 in trainTags) == train {
        assert s == [entries[0]] + Select(entries[1..], trainTags, train);
        assert s[1..] == Select(entries[1..], trainTags, train);
      } else {
        assert entries[0].0 != searchTag;
        assert s == Select(entries[1..], trainTags, train);
      }
    }
  }

  /** A training tag (the reference tag is asserted to be one) is found in the
      training side of `getSortedTrainTestPointGroups` with the same group as in
      the full lists, and any other tag is found in the test side with the same
      group as in the full lists. */
  lemma LookupAfterSplit<G>(groups: seq<G>, tags: seq<Tag>, trainTags: seq<Tag>, searchTag: Tag)
    ensures var s := GetSortedTrainTestPointGroups(groups, tags, trainTags);
      && (searchTag in trainTags ==>
            GetPointGroupByTag(s.trainPGs, s.trainPgTags, searchTag) == GetPointGroupByTag(groups, tags, searchTag))
      && (searchTag !in trainTags ==>
            GetPointGroupByTag(s.testPGs, s.testPgTags, searchTag) == GetPointGroupByTag(groups, tags, searchTag))
  {
    FindBySelectedTag(Zip(tags, groups), trainTags, searchTag in trainTags, searchTag);
  }
}
