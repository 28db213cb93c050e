/** The in-place Floyd–Warshall routine `floyd` of Floyd_algorithm.java.

    The distance matrix is an `l × l` array of Java `int`s, updated in place
    by three nested loops over the pivot k, the row i and the column j.  Sums
    are formed with Java's wrapping `int` addition.  Nothing in the routine
    singles out the sentinel MAX: it is compared and added like any other
    value. */
module Floyd {
  import opened Int32
  import opened Walks
  import opened Levels

  /** The "no edge" entry of the Java program's matrices. */
  const MAX: int32 := 99999

  /** The contents of an array as a weight matrix. */
  ghost function Grid(m: array2<int32>): (w: Matrix)
    reads m
    ensures |w| == m.Length0
    ensures forall i :: 0 <= i < m.Length0 ==> |w[i]| == m.Length1
    ensures forall i, j :: 0 <= i < m.Length0 && 0 <= j < m.Length1 ==> w[i][j] == m[i, j]
  {
    seq(m.Length0, i requires 0 <= i < m.Length0 reads m =>
      seq(m.Length1, j requires 0 <= j < m.Length1 reads m => m[i, j] as int))
  }

  /** One comparison of the loop: cell (i, j) takes the sum of the values
      just read from (i, k) and (k, j) when that sum is strictly smaller,
      and no other cell changes. */
  method Relax(matrix: array2<int32>, i: int, k: int, j: int)
    requires 0 <= i < matrix.Length0 && 0 <= k < matrix.Length0
    requires 0 <= j < matrix.Length1 && 0 <= k < matrix.Length1
    modifies matrix
    ensures var via := Add(old(matrix[i, k]), old(matrix[k, j]));
      matrix[i, j] == if via < old(matrix[i, j]) then via else old(matrix[i, j])
    ensures matrix[i, j] <= old(matrix[i, j])
    ensures matrix[i, j] <= Add(old(matrix[i, k]), old(matrix[k, j]))
    ensures forall r, c :: 0 <= r < matrix.Length0 && 0 <= c < matrix.Length1 && (r != i || c != j) ==>
      matrix[r, c] == old(matrix[r, c])
  {
    var via := Add(matrix[i, k], matrix[k, j]);
    if via < matrix[i, j] {
      matrix[i, j] := via;
    }
  }

  /** What one comparison of pass k does to the levels, on a regular
      matrix: the pivot's row and column are already final, the sum fits in
      an `int`, and keeping the smaller of the two values gives level k + 1. */
  lemma PassStep(w: Matrix, k: nat, i: nat, j: nat)
    requires Regular(w) && k < |w| && i < |w| && j < |w|
    ensures Dist(w, k + 1, i, k) == Dist(w, k, i, k)
    ensures Dist(w, k + 1, k, j) == Dist(w, k, k, j)
    ensures MinValue <= Dist(w, k, i, k) + Dist(w, k, k, j) <= MaxValue
    ensures MinValue <= Dist(w, k, i, j) <= MaxValue
    ensures var via := Dist(w, k, i, k) + Dist(w, k, k, j);
      Dist(w, k + 1, i, j) == if via < Dist(w, k, i, j) then via else Dist(w, k, i, j)
  {
    DiagonalNonNegative(w, k, k);
    PivotRowAndColumnStable(w, k, i, j);
    SumFits(w, k, i, j);
  }

  /** Every cell of the array holds level k of w. */
  ghost predicate AtLevel(matrix: array2<int32>, w: Matrix, k: nat)
    reads matrix
    requires IsSquare(w) && k <= |w| && matrix.Length0 == |w| && matrix.Length1 == |w|
  {
    forall r, c {:trigger matrix[r, c]} :: 0 <= r < |w| && 0 <= c < |w| ==>
      matrix[r, c] == Dist(w, k, r, c)
  }

  /** Midway through pass k: the cells before (i, j) in row-major order hold
      level k + 1 of w, the others still level k. */
  ghost predicate InPass(matrix: array2<int32>, w: Matrix, k: nat, i: int, j: int)
    reads matrix
    requires IsSquare(w) && k < |w| && matrix.Length0 == |w| && matrix.Length1 == |w|
  {
    forall r, c {:trigger matrix[r, c]} :: 0 <= r < |w| && 0 <= c < |w| ==>
      matrix[r, c] == Dist(w, if r < i || (r == i && c < j) then k + 1 else k, r, c)
  }

  /** Pass k of `floyd`: the loops over the row i and the column j, one
      comparison per cell.  No cell increases, and on a regular matrix the
      pass turns level k into level k + 1. */
  method Pass(l: int, matrix: array2<int32>, k: int, ghost w: Matrix) returns (ghost comparisons: nat)
    requires matrix.Length0 == l && matrix.Length1 == l && 0 <= k < l
    requires IsSquare(w) && |w| == l
    requires Regular(w) ==> AtLevel(matrix, w, k)
    modifies matrix
    ensures comparisons == l * l
    ensures forall r, c :: 0 <= r < l && 0 <= c < l ==> matrix[r, c] <= old(matrix[r, c])
    ensures Regular(w) ==> AtLevel(matrix, w, k + 1)
  {
    comparisons := 0;
    for i := 0 to l
      invariant comparisons == i * l
      invariant forall r, c :: 0 <= r < l && 0 <= c < l ==> matrix[r, c] <= old(matrix[r, c])
      invariant Regular(w) ==> InPass(matrix, w, k, i, 0)
    {
      for j := 0 to l
        invariant comparisons == i * l + j
        invariant forall r, c :: 0 <= r < l && 0 <= c < l ==> matrix[r, c] <= old(matrix[r, c])
        invariant Regular(w) ==> InPass(matrix, w, k, i, j)
      {
        if Regular(w) {
          PassStep(w, k, i, j);
          assert matrix[i, k] == Dist(w, k, i, k);
          assert matrix[k, j] == Dist(w, k, k, j);
        }
        Relax(matrix, i, k, j);
        comparisons := comparisons + 1;
      }
      assert (i + 1) * l == i * l + l;
    }
  }

  /** `floyd(l, matrix)`: the loop over the pivot k.  Every entry only ever
      decreases, exactly l³ comparisons are made, and on a regular matrix
      (no negative cycle, entries small enough that no sum overflows) each
      cell ends holding the last level, the shortest-path distance of
      ShortestPathTheorem. */
  method Floyd(l: int, matrix: array2<int32>) returns (ghost comparisons: nat)
    requires matrix.Length0 == l && matrix.Length1 == l
    modifies matrix
    ensures comparisons == l * l * l
    ensures forall i, j :: 0 <= i < l && 0 <= j < l ==> matrix[i, j] <= old(matrix[i, j])
    ensures Regular(old(Grid(matrix))) ==>
      forall i, j :: 0 <= i < l && 0 <= j < l ==> matrix[i, j] == Dist(old(Grid(matrix)), l, i, j)
  {
    ghost var w := Grid(matrix);
    ghost var square := l * l;

    comparisons := 0;
    for k := 0 to l
      invariant comparisons == k * square
      invariant forall r, c :: 0 <= r < l && 0 <= c < l ==> matrix[r, c] <= old(matrix[r, c])
      invariant Regular(w) ==> AtLevel(matrix, w, k)
    {
      var passComparisons := Pass(l, matrix, k, w);
      comparisons := comparisons + passComparisons;
      assert (k + 1) * square == k * square + square;
    }
    assert l * square == l * l * l;
  }
}
