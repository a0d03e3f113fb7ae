/** The greedy nearest-neighbour correspondence of `getCorrePointPairs`.

    The reference points index the rows of a distance matrix and the moving
    points its columns. Row by row, in increasing order, the nearest column not
    yet taken is chosen (the first one among equals) and is then taken. Here the
    taken columns are an explicit set threaded through the rows; the module
    MaskedCorrespondence models the same loop as written, with columns
    overwritten by infinity, and proves the two agree. */
module Correspondence {
  import opened Outcomes

  /** A distance matrix: one row per reference point, one column per moving point. */
  type Matrix = seq<seq<real>>

  /** One row of the output array: reference index `ref` matched to moving index `mov`. */
  datatype Pair = Pair(ref: nat, mov: nat)

  /** Every row has `n` entries, as `distance_matrix(X, Y)` with `len(Y) == n` builds it. */
  predicate IsRect(dists: Matrix, n: nat) {
    forall i :: 0 <= i < |dists| ==> |dists[i]| == n
  }

  /** The moving indices already taken by `pairs`. */
  function Used(pairs: seq<Pair>): set<nat> {
    set k | 0 <= k < |pairs| :: pairs[k].mov
  }

  /** Column `k` exists in `row` and is not taken. */
  predicate Free(row: seq<real>, used: set<nat>, k: int) {
    0 <= k < |row| && k !in used
  }

  predicate HasFree(row: seq<real>, used: set<nat>) {
    exists k :: 0 <= k < |row| && Free(row, used, k)
  }

  /** `j` is what one greedy step picks from `row` when `used` is taken: a free
      column of least distance, and the first such column. */
  predicate IsGreedyChoice(row: seq<real>, used: set<nat>, j: int) {
    && Free(row, used, j)
    && (forall k :: 0 <= k < |row| && Free(row, used, k) ==> row[j] <= row[k])
    && (forall k :: 0 <= k < j && Free(row, used, k) ==> row[j] < row[k])
  }

  /** `pairs` is the greedy correspondence for `dists`: one pair per row, in row
      order, each pair's column the greedy choice once the columns of the pairs
      before it are taken. */
  predicate IsGreedyAssignment(dists: Matrix, pairs: seq<Pair>) {
    && |pairs| == |dists|
    && (forall t :: 0 <= t < |pairs| ==> pairs[t].ref == t)
    && (forall t :: 0 <= t < |pairs| ==> IsGreedyChoice(dists[t], Used(pairs[..t]), pairs[t].mov))
  }

  /** No moving index is used twice. */
  predicate Injective(pairs: seq<Pair>) {
    forall a, b :: 0 <= a < b < |pairs| ==> pairs[a].mov != pairs[b].mov
  }

  /** One greedy step: the free column of least distance, the first among equals. */
  function PickColumn(row: seq<real>, used: set<nat>): (j: nat)
    requires HasFree(row, used)
    ensures IsGreedyChoice(row, used, j)
    decreases |row|
  {
    var last: nat := |row| - 1;
    if !HasFree(row[..last], used) then
      OnlyLastFree(row, used);
      last
    else
      var j := PickColumn(row[..last], used);
      if last in used || row[j] <= row[last] then j else last
  }

  /** When no column of the prefix is free, the free column is the last one. */
  lemma OnlyLastFree(row: seq<real>, used: set<nat>)
    requires HasFree(row, used) && !HasFree(row[..|row| - 1], used)
    ensures Free(row, used, |row| - 1)
    ensures forall k :: 0 <= k < |row| && Free(row, used, k) ==> k == |row| - 1
  {
    assert forall k :: 0 <= k < |row| - 1 && Free(row, used, k) ==> Free(row[..|row| - 1], used, k);
  }

  lemma UsedAppend(pairs: seq<Pair>, p: Pair)
    ensures Used(pairs + [p]) == Used(pairs) + {p.mov}
  {
    var q := pairs + [p];
    forall c | c in Used(q) ensures c in Used(pairs) + {p.mov} {
      var k :| 0 <= k < |q| && q[k].mov == c;
      if k < |pairs| { assert pairs[k] == q[k]; }
    }
    forall c | c in Used(pairs) + {p.mov} ensures c in Used(q) {
      if c == p.mov {
        assert q[|pairs|].mov == c;
      } else {
        var k :| 0 <= k < |pairs| && pairs[k].mov == c;
        assert q[k].mov == c;
      }
    }
  }

  /** The columns `0 .. n-1`. */
  function Columns(n: nat): (s: set<nat>)
    ensures |s| == n
    ensures forall c :: c in s <==> 0 <= c < n
  {
    if n == 0 then {} else Columns(n - 1) + {n - 1}
  }

  /** Pigeonhole: fewer than `n` taken columns leave a free column below `n`. */
  lemma FreeColumnExists(row: seq<real>, used: set<nat>)
    requires |used| < |row|
    ensures HasFree(row, used)
  {
    var cols := Columns(|row|);
    assert cols == (cols - used) + (cols * used);
    assert used == (cols * used) + (used - cols);
    var c :| c in cols - used;
    assert Free(row, used, c);
  }

  /** Appending the greedy choice for the next row to a greedy prefix gives a
      greedy prefix one row longer, with one more column taken. */
  lemma GreedyStep(dists: Matrix, prev: seq<Pair>, j: nat)
    requires |prev| < |dists|
    requires forall t :: 0 <= t < |prev| ==> prev[t].ref == t
    requires forall t :: 0 <= t < |prev| ==> IsGreedyChoice(dists[t], Used(prev[..t]), prev[t].mov)
    requires |Used(prev)| == |prev|
    requires IsGreedyChoice(dists[|prev|], Used(prev), j)
    ensures var pairs := prev + [Pair(|prev|, j)];
      && (forall t :: 0 <= t < |pairs| ==> pairs[t].ref == t)
      && (forall t :: 0 <= t < |pairs| ==> IsGreedyChoice(dists[t], Used(pairs[..t]), pairs[t].mov))
      && |Used(pairs)| == |pairs|
  {
    var pairs := prev + [Pair(|prev|, j)];
    UsedAppend(prev, Pair(|prev|, j));
    assert pairs[..|prev|] == prev;
    forall t | 0 <= t < |prev|
      ensures IsGreedyChoice(dists[t], Used(pairs[..t]), pairs[t].mov)
    {
      assert pairs[..t] == prev[..t];
    }
  }

  /** The greedy pairs of the first `k` rows. */
  function Assign(dists: Matrix, n: nat, k: nat): (pairs: seq<Pair>)
    requires IsRect(dists, n) && k <= |dists| <= n
    ensures |pairs| == k
    ensures forall t :: 0 <= t < k ==> pairs[t].ref == t
    ensures forall t :: 0 <= t < k ==> IsGreedyChoice(dists[t], Used(pairs[..t]), pairs[t].mov)
    ensures |Used(pairs)| == k
  {
    if k == 0 then []
    else
      var prev := Assign(dists, n, k - 1);
      FreeColumnExists(dists[k - 1], Used(prev));
      var j := PickColumn(dists[k - 1], Used(prev));
      GreedyStep(dists, prev, j);
      prev + [Pair(k - 1, j)]
  }

  /** `getCorrePointPairs` on a precomputed `m x n` distance matrix: the
      cardinality assertion fails when there are more rows than columns, and
      otherwise the result is the greedy correspondence. */
  function GreedyPairs(dists: Matrix, n: nat): (r: Result<seq<Pair>>)
    requires IsRect(dists, n)
    ensures r.Err? <==> |dists| > n
    ensures r.Err? ==> r.error == CardinalityError
    ensures r.Ok? ==> IsGreedyAssignment(dists, r.value)
  {
    if |dists| > n then Err(CardinalityError) else Ok(Assign(dists, n, |dists|))
  }

  /** `distance_matrix(X, Y)` with the point distance left abstract. */
  function DistanceMatrix<P>(X: seq<P>, Y: seq<P>, dist: (P, P) -> real): (d: Matrix)
    ensures |d| == |X| && IsRect(d, |Y|)
    ensures forall i, j :: 0 <= i < |X| && 0 <= j < |Y| ==> d[i][j] == dist(X[i], Y[j])
  {
    seq(|X|, i requires 0 <= i < |X| => seq(|Y|, j requires 0 <= j < |Y| => dist(X[i], Y[j])))
  }

  /** `getCorrePointPairs(X, Y)`: fails exactly when `X` has more points than
      `Y`; otherwise one pair per point of `X`, the `k`th pair starting with `k`,
      every second component a distinct index of `Y`, each chosen greedily. */
  function GetCorrePointPairs<P>(X: seq<P>, Y: seq<P>, dist: (P, P) -> real): (r: Result<seq<Pair>>)
    ensures r.Err? <==> |X| > |Y|
    ensures r.Err? ==> r.error == CardinalityError
    ensures r.Ok? ==> |r.value| == |X|
    ensures r.Ok? ==> forall k :: 0 <= k < |r.value| ==> r.value[k].ref == k && r.value[k].mov < |Y|
    ensures r.Ok? ==> Injective(r.value)
    ensures r.Ok? ==> IsGreedyAssignment(DistanceMatrix(X, Y, dist), r.value)
  {
    var d := DistanceMatrix(X, Y, dist);
    var r := GreedyPairs(d, |Y|);
    if r.Ok? then GreedyBoundedInjective(d, |Y|, r.value); r else r
  }

  /** A greedy assignment stays inside the matrix and never reuses a column. */
  lemma GreedyBoundedInjective(dists: Matrix, n: nat, pairs: seq<Pair>)
    requires IsRect(dists, n)
    requires IsGreedyAssignment(dists, pairs)
    ensures forall t :: 0 <= t < |pairs| ==> pairs[t].mov < n
    ensures Injective(pairs)
  {
    forall a, b | 0 <= a < b < |pairs| ensures pairs[a].mov != pairs[b].mov {
      assert pairs[..b][a] == pairs[a];
      assert pairs[a].mov in Used(pairs[..b]);
    }
  }

  /** Only one column meets the greedy choice for a given row and taken set. */
  lemma GreedyChoiceUnique(row: seq<real>, used: set<nat>, j1: int, j2: int)
    requires IsGreedyChoice(row, used, j1) && IsGreedyChoice(row, used, j2)
    ensures j1 == j2
  {
  }

  /** The greedy correspondence is determined by the matrix: any two greedy
      assignments of the same matrix are equal. */
  lemma GreedyDeterministic(dists: Matrix, p1: seq<Pair>, p2: seq<Pair>)
    requires IsGreedyAssignment(dists, p1) && IsGreedyAssignment(dists, p2)
    ensures p1 == p2
  {
    var t := 0;
    while t < |p1|
      invariant t <= |p1|
      invariant p1[..t] == p2[..t]
    {
      GreedyChoiceUnique(dists[t], Used(p1[..t]), p1[t].mov, p2[t].mov);
      assert p1[..t + 1] == p1[..t] + [p1[t]];
      assert p2[..t + 1] == p2[..t] + [p2[t]];
      t := t + 1;
    }
    assert p1 == p1[..t] && p2 == p2[..t];
  }

  /** The pairs `(i, sigma[i])`. */
  function PairsOf(sigma: seq<nat>): (pairs: seq<Pair>)
    ensures |pairs| == |sigma|
    ensures forall i :: 0 <= i < |sigma| ==> pairs[i] == Pair(i, sigma[i])
  {
    seq(|sigma|, i requires 0 <= i < |sigma| => Pair(i, sigma[i]))
  }

  /** Column `c` of `row` is strictly nearer than every other column. */
  predicate StrictlyNearest(row: seq<real>, c: nat) {
    c < |row| && forall k :: 0 <= k < |row| && k != c ==> row[c] < row[k]
  }

  /** When every row has a strictly nearest column and those columns are all
      distinct (identical or permuted sets of pairwise distinct points), the
      greedy correspondence recovers exactly that matching. */
  lemma GreedyRecoversStrictMatching(dists: Matrix, n: nat, sigma: seq<nat>)
    requires IsRect(dists, n) && |dists| <= n && |sigma| == |dists|
    requires forall i :: 0 <= i < |sigma| ==> sigma[i] < n
    requires forall a, b :: 0 <= a < b < |sigma| ==> sigma[a] != sigma[b]
    requires forall i :: 0 <= i < |sigma| ==> StrictlyNearest(dists[i], sigma[i])
    ensures GreedyPairs(dists, n) == Ok(PairsOf(sigma))
  {
    var cand := PairsOf(sigma);
    forall t | 0 <= t < |cand|
      ensures IsGreedyChoice(dists[t], Used(cand[..t]), cand[t].mov)
    {
    }
    assert IsGreedyAssignment(dists, cand);
    GreedyDeterministic(dists, GreedyPairs(dists, n).value, cand);
  }

  /** Sum of the distances a correspondence pays. */
  function Cost(dists: Matrix, pairs: seq<Pair>): real
    requires forall t :: 0 <= t < |pairs| ==> pairs[t].ref < |dists| && pairs[t].mov < |dists[pairs[t].ref]|
    decreases |pairs|
  {
    if |pairs| == 0 then 0.0
    else Cost(dists, pairs[..|pairs| - 1]) + dists[pairs[|pairs| - 1].ref][pairs[|pairs| - 1].mov]
  }

  /** The two-point example of GreedyNotGloballyOptimal. */
  function CrossedMatrix(): (d: Matrix)
    ensures IsRect(d, 2) && |d| == 2
  {
    [[1.0, 2.0], [1.0, 100.0]]
  }

  /** On CrossedMatrix the greedy correspondence is (0, 0), (1, 1): reference
      point 0 takes column 0, the column reference point 1 needs. */
  lemma GreedyOnCrossedMatrix()
    ensures GreedyPairs(CrossedMatrix(), 2) == Ok([Pair(0, 0), Pair(1, 1)])
  {
    var dists := CrossedMatrix();
    var greedy := [Pair(0, 0), Pair(1, 1)];
    assert Used([]) == {};
    UsedAppend([], Pair(0, 0));
    assert greedy[..0] == [] && greedy[..1] == [] + [Pair(0, 0)];
    assert IsGreedyChoice(dists[0], {}, 0);
    assert IsGreedyChoice(dists[1], {0}, 1);
    assert IsGreedyAssignment(dists, greedy);
    GreedyDeterministic(dists, GreedyPairs(dists, 2).value, greedy);
  }

  /** What the two matchings of CrossedMatrix cost. */
  lemma CrossedCosts()
    ensures Cost(CrossedMatrix(), [Pair(0, 1), Pair(1, 0)]) == 3.0
    ensures Cost(CrossedMatrix(), [Pair(0, 0), Pair(1, 1)]) == 101.0
  {
    assert [Pair(0, 1), Pair(1, 0)][..1] == [Pair(0, 1)];
    assert [Pair(0, 0), Pair(1, 1)][..1] == [Pair(0, 0)];
  }

  /** The only greedy assignment of CrossedMatrix is (0, 0), (1, 1). */
  lemma CrossedGreedyUnique(p: seq<Pair>)
    requires IsGreedyAssignment(CrossedMatrix(), p)
    ensures p == [Pair(0, 0), Pair(1, 1)]
  {
    GreedyOnCrossedMatrix();
    GreedyDeterministic(CrossedMatrix(), p, [Pair(0, 0), Pair(1, 1)]);
  }

  /** The greedy correspondence is not a globally cheapest one: on
      CrossedMatrix every greedy assignment costs more than the crossed
      matching (0, 1), (1, 0), because reference point 1 is left with a
      far-away point. */
  lemma GreedyNotGloballyOptimal()
    ensures forall p :: IsGreedyAssignment(CrossedMatrix(), p) ==>
              Cost(CrossedMatrix(), [Pair(0, 1), Pair(1, 0)]) < Cost(CrossedMatrix(), p)
  {
    CrossedCosts();
    forall p | IsGreedyAssignment(CrossedMatrix(), p)
      ensures Cost(CrossedMatrix(), [Pair(0, 1), Pair(1, 0)]) < Cost(CrossedMatrix(), p)
    {
      CrossedGreedyUnique(p);
    }
  }
}
