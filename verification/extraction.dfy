/** `extractCorreMovPoints` and the correspondence half of
    `alignPointsByRigidRegistration`. */
module Extraction {
  import opened Outcomes
  import opened Correspondence

  /** The second column of the pair array, `pointPairs[:, 1]`. */
  function Movs(pairs: seq<Pair>): (idx: seq<nat>)
    ensures |idx| == |pairs|
    ensures forall k :: 0 <= k < |pairs| ==> idx[k] == pairs[k].mov
  {
    seq(|pairs|, k requires 0 <= k < |pairs| => pairs[k].mov)
  }

  predicate InRange(idx: seq<nat>, len: nat) {
    forall k :: 0 <= k < |idx| ==> idx[k] < len
  }

  predicate Distinct(idx: seq<nat>) {
    forall a, b :: 0 <= a < b < |idx| ==> idx[a] != idx[b]
  }

  /** Row selection `Y[idx, :]`. */
  function Gather<P>(Y: seq<P>, idx: seq<nat>): (g: seq<P>)
    requires InRange(idx, |Y|)
    ensures |g| == |idx|
    ensures forall k :: 0 <= k < |idx| ==> g[k] == Y[idx[k]]
  {
    seq(|idx|, k requires 0 <= k < |idx| => Y[idx[k]])
  }

  /** `extractCorreMovPoints(pMov, pointPairs)`: `pMov[pointPairs[:, 1], :]`.
      numpy raises an IndexError when an index is past the end of `pMov`, and
      also when there are no pairs at all, because `np.array([])` is then
      one-dimensional and has no second column. Otherwise the `k`th point of the
      result is the moving point named by the `k`th pair. */
  function ExtractCorreMovPoints<P>(pMov: seq<P>, pairs: seq<Pair>): (r: Result<seq<P>>)
    ensures r.Ok? <==> |pairs| > 0 && forall k :: 0 <= k < |pairs| ==> pairs[k].mov < |pMov|
    ensures r.Err? ==> r.error == IndexError
    ensures r.Ok? ==> |r.value| == |pairs|
    ensures r.Ok? ==> forall k :: 0 <= k < |pairs| ==> r.value[k] == pMov[pairs[k].mov]
  {
    var idx := Movs(pairs);
    if |pairs| == 0 || !InRange(idx, |pMov|) then Err(IndexError) else Ok(Gather(pMov, idx))
  }

  lemma GatherAppend<P>(Y: seq<P>, a: seq<nat>, b: seq<nat>)
    requires InRange(a, |Y|) && InRange(b, |Y|)
    ensures InRange(a + b, |Y|)
    ensures Gather(Y, a + b) == Gather(Y, a) + Gather(Y, b)
  {
  }

  /** The indices with position `p` removed. */
  function Without(idx: seq<nat>, p: nat): (rest: seq<nat>)
    requires p < |idx|
    ensures |rest| == |idx| - 1
    ensures forall k :: 0 <= k < |rest| ==> rest[k] == if k < p then idx[k] else idx[k + 1]
  {
    idx[..p] + idx[p + 1..]
  }

  /** Removing the only position that names the last row leaves distinct
      indices into the other rows. */
  lemma WithoutLastRow(idx: seq<nat>, p: nat, len: nat)
    requires InRange(idx, len + 1) && Distinct(idx) && p < |idx| && idx[p] == len
    ensures InRange(Without(idx, p), len) && Distinct(Without(idx, p))
  {
    var rest := Without(idx, p);
    forall k | 0 <= k < |rest| ensures rest[k] < len {
      var k' := if k < p then k else k + 1;
      assert rest[k] == idx[k'] && k' != p;
    }
    forall a, b | 0 <= a < b < |rest| ensures rest[a] != rest[b] {
      var a' := if a < p then a else a + 1;
      var b' := if b < p then b else b + 1;
      assert rest[a] == idx[a'] && rest[b] == idx[b'];
    }
  }

  /** Gathering by `idx` is gathering by `idx` without position `p`, plus the row at `idx[p]`. */
  lemma GatherWithout<P>(Y: seq<P>, idx: seq<nat>, p: nat)
    requires InRange(idx, |Y|) && p < |idx|
    ensures InRange(Without(idx, p), |Y|)
    ensures multiset(Gather(Y, idx)) == multiset(Gather(Y, Without(idx, p))) + multiset{Y[idx[p]]}
  {
    var before, after := idx[..p], idx[p + 1..];
    assert idx == before + [idx[p]] + after;
    assert Without(idx, p) == before + after;
    GatherAppend(Y, before, [idx[p]]);
    GatherAppend(Y, before + [idx[p]], after);
    GatherAppend(Y, before, after);
    assert Gather(Y, [idx[p]]) == [Y[idx[p]]];
    assert Gather(Y, idx) == Gather(Y, before) + [Y[idx[p]]] + Gather(Y, after);
    assert multiset(Gather(Y, idx))
        == multiset(Gather(Y, before)) + multiset{Y[idx[p]]} + multiset(Gather(Y, after));
  }

  /** Selecting rows by distinct in-range indices draws each row at most once:
      the selection is a sub-multiset of the rows. */
  lemma {:induction false} DistinctGatherSubMultiset<P>(Y: seq<P>, idx: seq<nat>)
    requires InRange(idx, |Y|) && Distinct(idx)
    ensures multiset(Gather(Y, idx)) <= multiset(Y)
    decreases |Y|
  {
    if |idx| == 0 {
      assert Gather(Y, idx) == [];
    } else {
      assert idx[0] < |Y|;
      var last := |Y| - 1;
      var front := Y[..last];
      assert Y == front + [Y[last]];
      if p :| 0 <= p < |idx| && idx[p] == last {
        WithoutLastRow(idx, p, last);
        var rest := Without(idx, p);
        DistinctGatherSubMultiset(front, rest);
        GatherWithout(Y, idx, p);
        assert Gather(Y, rest) == Gather(front, rest);
      } else {
        assert InRange(idx, |front|);
        DistinctGatherSubMultiset(front, idx);
        assert Gather(Y, idx) == Gather(front, idx);
      }
    }
  }

  /** The outputs of the correspondence step of `alignPointsByRigidRegistration`. */
  datatype Matched<P> = Matched(pairs: seq<Pair>, correMov: seq<P>, correTransformed: seq<P>)

  /** Correspondence of one (reference, moving) pair once the registrations
      have run: `pRef` is the fixed set, `pMov` the raw moving set, `rigid` the
      rigidly registered moving set and `deformed` the deformably registered
      one, the last two as the registration returned them (one point per
      moving point). The pairs are found on `deformed` and applied to both
      `pMov` and `rigid`: the cardinality check fails when `pRef` is larger,
      the extraction fails when `pRef` is empty, and otherwise the two matched
      sets have one point per reference point, the `k`th point of each taken
      from the same moving index, no moving index taken twice. */
  function MatchCorrespondences<P>(pRef: seq<P>, pMov: seq<P>, rigid: seq<P>, deformed: seq<P>,
                                   dist: (P, P) -> real): (r: Result<Matched<P>>)
    requires |rigid| == |pMov| && |deformed| == |pMov|
    ensures r.Err? <==> |pRef| > |pMov| || |pRef| == 0
    ensures r.Err? ==> r.error == (if |pRef| > |pMov| then CardinalityError else IndexError)
    ensures r.Ok? ==> IsGreedyAssignment(DistanceMatrix(pRef, deformed, dist), r.value.pairs)
    ensures r.Ok? ==> |r.value.correMov| == |pRef| && |r.value.correTransformed| == |pRef|
    ensures r.Ok? ==> forall k :: 0 <= k < |pRef| ==>
              r.value.correMov[k] == pMov[r.value.pairs[k].mov] &&
              r.value.correTransformed[k] == rigid[r.value.pairs[k].mov]
    ensures r.Ok? ==> multiset(r.value.correMov) <= multiset(pMov)
    ensures r.Ok? ==> multiset(r.value.correTransformed) <= multiset(rigid)
  {
    match GetCorrePointPairs(pRef, deformed, dist)
    case Err(e) => Err(e)
    case Ok(pairs) =>
      var correTY := ExtractCorreMovPoints(rigid, pairs);
      var correY := ExtractCorreMovPoints(pMov, pairs);
      if correTY.Err? then Err(correTY.error)
      else
        assert Distinct(Movs(pairs));
        DistinctGatherSubMultiset(pMov, Movs(pairs));
        DistinctGatherSubMultiset(rigid, Movs(pairs));
        Ok(Matched(pairs, correY.value, correTY.value))
  }
}
