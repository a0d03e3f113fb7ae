/** `getCorrePointPairs` as written: the whole distance matrix is kept, each
    row's column is found with `np.argmin`, and the chosen column is then
    overwritten with infinity in every row. The method below is proved to
    compute exactly the used-set definition of the module Correspondence. */
module MaskedCorrespondence {
  import opened Outcomes
  import opened ArgMin
  import opened Correspondence

  /** `masked` is `dists` with every column in `used` overwritten by infinity. */
  predicate MaskedBy(masked: seq<seq<Dist>>, dists: Matrix, used: set<nat>) {
    && |masked| == |dists|
    && (forall r :: 0 <= r < |masked| ==> |masked[r]| == |dists[r]|)
    && (forall r, c :: 0 <= r < |masked| && 0 <= c < |masked[r]| ==>
          masked[r][c] == (if c in used then Infinite else Finite(dists[r][c])))
  }

  /** `dists[:, j] = np.inf`. */
  function MaskColumn(m: seq<seq<Dist>>, j: nat): (m': seq<seq<Dist>>)
    ensures |m'| == |m|
    ensures forall r :: 0 <= r < |m| ==> |m'[r]| == |m[r]|
    ensures forall r, c :: 0 <= r < |m| && 0 <= c < |m[r]| ==>
              m'[r][c] == (if c == j then Infinite else m[r][c])
  {
    seq(|m|, r requires 0 <= r < |m| =>
      seq(|m[r]|, c requires 0 <= c < |m[r]| => if c == j then Infinite else m[r][c]))
  }

  /** Masking one more column keeps the masked matrix in step with the taken set. */
  lemma MaskStep(masked: seq<seq<Dist>>, dists: Matrix, used: set<nat>, j: nat)
    requires MaskedBy(masked, dists, used)
    ensures MaskedBy(MaskColumn(masked, j), dists, used + {j})
  {
  }

  /** Before any column is taken, the masked matrix is `dists` itself. */
  lemma NothingMasked(dists: Matrix)
    ensures MaskedBy(Unmasked(dists), dists, {})
  {
  }

  /** `dists` with no column masked. */
  function Unmasked(dists: Matrix): (m: seq<seq<Dist>>)
  {
    seq(|dists|, i requires 0 <= i < |dists| =>
      seq(|dists[i]|, c requires 0 <= c < |dists[i]| => Finite(dists[i][c])))
  }

  /** Row `i` of a masked matrix is row `i` of `dists` with the taken columns masked. */
  lemma MaskedRow(masked: seq<seq<Dist>>, dists: Matrix, used: set<nat>, i: nat)
    requires MaskedBy(masked, dists, used) && i < |dists|
    ensures |masked[i]| == |dists[i]|
    ensures forall c :: 0 <= c < |dists[i]| ==> masked[i][c] == (if c in used then Infinite else Finite(dists[i][c]))
  {
  }

  /** `argmin` over a masked row picks the greedy column of the unmasked row,
      provided some column is still unmasked. */
  lemma ArgMinOfMaskedRow(masked: seq<Dist>, row: seq<real>, used: set<nat>)
    requires |masked| == |row| && HasFree(row, used)
    requires forall c :: 0 <= c < |row| ==> masked[c] == (if c in used then Infinite else Finite(row[c]))
    ensures FirstMin(masked) == PickColumn(row, used)
  {
    var j := FirstMin(masked);
    var f :| 0 <= f < |row| && Free(row, used, f);
    assert LessEq(masked[j], masked[f]);
    assert j !in used;
    forall k | 0 <= k < |row| && Free(row, used, k) ensures row[j] <= row[k] {
      assert LessEq(masked[j], masked[k]);
    }
    forall k | 0 <= k < j && Free(row, used, k) ensures row[j] < row[k] {
      assert Less(masked[j], masked[k]);
    }
    assert IsGreedyChoice(row, used, j);
    GreedyChoiceUnique(row, used, j, PickColumn(row, used));
  }

  /** One iteration of the masking loop: argmin over the masked row extends
      the greedy pairs by one row, and masking its column keeps the matrix in
      step with the columns taken. */
  lemma MaskedLoopStep(dists: Matrix, n: nat, masked: seq<seq<Dist>>, i: nat)
    requires IsRect(dists, n) && i < |dists| <= n
    requires MaskedBy(masked, dists, Used(Assign(dists, n, i)))
    ensures |masked[i]| == n > 0
    ensures Assign(dists, n, i + 1) == Assign(dists, n, i) + [Pair(i, FirstMin(masked[i]))]
    ensures MaskedBy(MaskColumn(masked, FirstMin(masked[i])), dists, Used(Assign(dists, n, i + 1)))
  {
    var pairs := Assign(dists, n, i);
    FreeColumnExists(dists[i], Used(pairs));
    MaskedRow(masked, dists, Used(pairs), i);
    ArgMinOfMaskedRow(masked[i], dists[i], Used(pairs));
    var j := FirstMin(masked[i]);
    UsedAppend(pairs, Pair(i, j));
    MaskStep(masked, dists, Used(pairs), j);
  }

  /** The loop of `getCorrePointPairs`, masking columns in place; it returns
      the same result as the used-set definition, and so inherits its
      cardinality error, length, bounds, injectivity and greedy steps. */
  method GetCorrePointPairsMasked(dists: Matrix, n: nat) returns (r: Result<seq<Pair>>)
    requires IsRect(dists, n)
    ensures r == GreedyPairs(dists, n)
  {
    if |dists| > n {
      return Err(CardinalityError);
    }
    var masked := Unmasked(dists);
    NothingMasked(dists);
    var pairs: seq<Pair> := [];
    var i := 0;
    while i < |dists|
      invariant i <= |dists|
      invariant pairs == Assign(dists, n, i)
      invariant MaskedBy(masked, dists, Used(pairs))
    {
      MaskedLoopStep(dists, n, masked, i);
      var j := FirstMin(masked[i]);
      pairs := pairs + [Pair(i, j)];
      masked := MaskColumn(masked, j);
      i := i + 1;
    }
    return Ok(pairs);
  }
}
