/** `getSortedTrainTestPointGroups`: splitting tagged point groups into a
    training side and a test side by membership of the tag in the training tags. */
module Partition {

  /** A sample tag such as "37U". */
  type Tag = string

  /** Python's `zip(a, b)`: pairs up to the shorter of the two lists. */
  function Zip<A, B>(a: seq<A>, b: seq<B>): (z: seq<(A, B)>)
    ensures |z| == if |a| <= |b| then |a| else |b|
    ensures forall k :: 0 <= k < |z| ==> z[k] == (a[k], b[k])
  {
    var n := if |a| <= |b| then |a| else |b|;
    seq(n, k requires 0 <= k < n => (a[k], b[k]))
  }

  lemma ZipAppend<A, B>(a: seq<A>, b: seq<B>, x: A, y: B)
    requires |a| == |b|
    ensures Zip(a + [x], b + [y]) == Zip(a, b) + [(x, y)]
  {
  }

  /** The four lists `getSortedTrainTestPointGroups` returns. */
  datatype Split<G> = Split(trainPGs: seq<G>, trainPgTags: seq<Tag>, testPGs: seq<G>, testPgTags: seq<Tag>)

  /** The entries that belong on one side, in input order: the training side
      (`train`) holds the entries whose tag is a training tag, the test side the
      others. */
  function Select<G>(entries: seq<(Tag, G)>, trainTags: seq<Tag>, train: bool): (s: seq<(Tag, G)>)
    ensures |s| <= |entries|
    ensures forall k :: 0 <= k < |s| ==> (s[k].0 in trainTags) == train
    decreases |entries|
  {
    if |entries| == 0 then []
    else (if (entries[0].0 in trainTags) == train then [entries[0]] else []) + Select(entries[1..], trainTags, train)
  }

  lemma {:induction false} SelectAppend<G>(entries: seq<(Tag, G)>, x: (Tag, G), trainTags: seq<Tag>, train: bool)
    ensures Select(entries + [x], trainTags, train)
         == Select(entries, trainTags, train) + (if (x.0 in trainTags) == train then [x] else [])
    decreases |entries|
  {
    if |entries| == 0 {
      assert Select(entries + [x], trainTags, train)
          == (if (x.0 in trainTags) == train then [x] else []) + Select([], trainTags, train);
    } else {
      assert (entries + [x])[1..] == entries[1..] + [x];
      SelectAppend(entries[1..], x, trainTags, train);
    }
  }

  /** The loop of `getSortedTrainTestPointGroups` over already zipped
      (tag, group) entries: both sides keep tags and groups in step, together
      they hold every entry, and each side is the stable selection of its
      entries. */
  function SplitEntries<G>(entries: seq<(Tag, G)>, trainTags: seq<Tag>): (s: Split<G>)
    ensures |s.trainPGs| == |s.trainPgTags| && |s.testPGs| == |s.testPgTags|
    ensures |s.trainPgTags| + |s.testPgTags| == |entries|
    ensures Zip(s.trainPgTags, s.trainPGs) == Select(entries, trainTags, true)
    ensures Zip(s.testPgTags, s.testPGs) == Select(entries, trainTags, false)
    decreases |entries|
  {
    if |entries| == 0 then Split([], [], [], [])
    else
      var front := entries[..|entries| - 1];
      var last := entries[|entries| - 1];
      assert entries == front + [last];
      var s := SplitEntries(front, trainTags);
      SelectAppend(front, last, trainTags, true);
      SelectAppend(front, last, trainTags, false);
      if last.0 in trainTags then
        ZipAppend(s.trainPgTags, s.trainPGs, last.0, last.1);
        s.(trainPGs := s.trainPGs + [last.1], trainPgTags := s.trainPgTags + [last.0])
      else
        ZipAppend(s.testPgTags, s.testPGs, last.0, last.1);
        s.(testPGs := s.testPGs + [last.1], testPgTags := s.testPgTags + [last.0])
  }

  /** `getSortedTrainTestPointGroups(sortedToothPointGroups, sortedTags, trainTags)`. */
  function GetSortedTrainTestPointGroups<G>(groups: seq<G>, tags: seq<Tag>, trainTags: seq<Tag>): (s: Split<G>)
    ensures |s.trainPGs| == |s.trainPgTags| && |s.testPGs| == |s.testPgTags|
    ensures |s.trainPgTags| + |s.testPgTags| == |Zip(tags, groups)|
    ensures forall k :: 0 <= k < |s.trainPgTags| ==> s.trainPgTags[k] in trainTags
    ensures forall k :: 0 <= k < |s.testPgTags| ==> s.testPgTags[k] !in trainTags
    ensures Zip(s.trainPgTags, s.trainPGs) == Select(Zip(tags, groups), trainTags, true)
    ensures Zip(s.testPgTags, s.testPGs) == Select(Zip(tags, groups), trainTags, false)
  {
    var s := SplitEntries(Zip(tags, groups), trainTags);
    assert forall k :: 0 <= k < |s.trainPgTags| ==> Zip(s.trainPgTags, s.trainPGs)[k].0 == s.trainPgTags[k];
    assert forall k :: 0 <= k < |s.testPgTags| ==> Zip(s.testPgTags, s.testPGs)[k].0 == s.testPgTags[k];
    s
  }

  /** `a` occurs in `b` in the same order, possibly with gaps. */
  ghost predicate SubsequenceOf<T>(a: seq<T>, b: seq<T>)
    decreases |b|
  {
    if |a| == 0 then true
    else if |b| == 0 then false
    else if a[0] == b[0] then SubsequenceOf(a[1..], b[1..])
    else SubsequenceOf(a, b[1..])
  }

  /** Selection keeps relative order. */
  lemma {:induction false} SelectIsSubsequence<G>(entries: seq<(Tag, G)>, trainTags: seq<Tag>, train: bool)
    ensures SubsequenceOf(Select(entries, trainTags, train), entries)
    decreases |entries|
  {
    if |entries| > 0 {
      SelectIsSubsequence(entries[1..], trainTags, train);
      var s := Select(entries, trainTags, train);
      if (entries[0].0 in trainTags) == train {
        assert s == [entries[0]] + Select(entries[1..], trainTags, train);
        assert s[1..] == Select(entries[1..], trainTags, train);
      } else {
        assert s == Select(entries[1..], trainTags, train);
        // the entry skipped is on the other side, so it is not the head of `s`
        assert |s| > 0 ==> s[0] != entries[0];
      }
    }
  }

  /** The two sides together hold every entry exactly as often as the input does. */
  lemma {:induction false} SelectPartitions<G>(entries: seq<(Tag, G)>, trainTags: seq<Tag>)
    ensures multiset(Select(entries, trainTags, true)) + multiset(Select(entries, trainTags, false))
         == multiset(entries)
    decreases |entries|
  {
    if |entries| > 0 {
      SelectPartitions(entries[1..], trainTags);
      assert entries == [entries[0]] + entries[1..];
    }
  }

  /** An entry is on a side exactly when it is an input entry whose tag belongs there. */
  lemma {:induction false} SelectMembership<G>(entries: seq<(Tag, G)>, trainTags: seq<Tag>, train: bool, x: (Tag, G))
    ensures x in Select(entries, trainTags, train) <==> x in entries && (x.0 in trainTags) == train
    decreases |entries|
  {
    if |entries| > 0 {
      SelectMembership(entries[1..], trainTags, train, x);
      assert entries == [entries[0]] + entries[1..];
    }
  }

  /** The split of `getSortedTrainTestPointGroups` is a partition: every zipped
      (tag, group) input lands on the training side if and only if its tag is a
      training tag and on the test side otherwise, the two sides together are
      the input as a multiset, and each side keeps input order. */
  lemma TrainTestPartition<G>(groups: seq<G>, tags: seq<Tag>, trainTags: seq<Tag>)
    ensures var s := GetSortedTrainTestPointGroups(groups, tags, trainTags);
      && (forall k :: 0 <= k < |Zip(tags, groups)| ==>
            ((tags[k], groups[k]) in Zip(s.trainPgTags, s.trainPGs) <==> tags[k] in trainTags))
      && (forall k :: 0 <= k < |Zip(tags, groups)| ==>
            ((tags[k], groups[k]) in Zip(s.testPgTags, s.testPGs) <==> tags[k] !in trainTags))
      && multiset(Zip(s.trainPgTags, s.trainPGs)) + multiset(Zip(s.testPgTags, s.testPGs))
         == multiset(Zip(tags, groups))
      && SubsequenceOf(Zip(s.trainPgTags, s.trainPGs), Zip(tags, groups))
      && SubsequenceOf(Zip(s.testPgTags, s.testPGs), Zip(tags, groups))
  {
    var entries := Zip(tags, groups);
    forall k | 0 <= k < |entries|
      ensures (tags[k], groups[k]) in Select(entries, trainTags, true) <==> tags[k] in trainTags
      ensures (tags[k], groups[k]) in Select(entries, trainTags, false) <==> tags[k] !in trainTags
    {
      assert entries[k] == (tags[k], groups[k]);
      SelectMembership(entries, trainTags, true, entries[k]);
      SelectMembership(entries, trainTags, false, entries[k]);
    }
    SelectPartitions(entries, trainTags);
    SelectIsSubsequence(entries, trainTags, true);
    SelectIsSubsequence(entries, trainTags, false);
  }
}
