/** `np.argmin` over one row of the masked distance matrix. */
module ArgMin {

  /** An entry of the masked distance matrix: a finite distance, or the `np.inf`
      written over a column once that column has been assigned. */
  datatype Dist = Finite(d: real) | Infinite

  /** The order numpy uses to compare entries: every finite value is below `inf`. */
  predicate LessEq(a: Dist, b: Dist) {
    match (a, b)
    case (_, Infinite) => true
    case (Infinite, Finite(_)) => false
    case (Finite(x), Finite(y)) => x <= y
  }

  predicate Less(a: Dist, b: Dist) {
    !LessEq(b, a)
  }

  /** `np.argmin(row)`: the index of a smallest entry, and among equal smallest
      entries the first one. */
  function FirstMin(row: seq<Dist>): (j: nat)
    requires |row| > 0
    ensures j < |row|
    ensures forall k :: 0 <= k < |row| ==> LessEq(row[j], row[k])
    ensures forall k :: 0 <= k < j ==> Less(row[j], row[k])
    decreases |row|
  {
    if |row| == 1 then 0
    else
      var j := FirstMin(row[..|row| - 1]);
      if LessEq(row[j], row[|row| - 1]) then j else |row| - 1
  }
}
