/** The distances the Floyd–Warshall passes compute, level by level.

    Dist(w, k, i, j) is defined level by level: level 0 is the matrix itself,
    and level k + 1 keeps level k's entry unless going through pivot k is
    strictly cheaper, the same strict comparison the Java loop makes.  On a
    regular matrix it is the value cell (i, j) holds once the passes for the
    pivots 0 .. k - 1 are done; with a negative pivot diagonal the in-place
    loop departs from it.  The lemmas show that,
    when no cycle is negative, this is the least weight of a walk from i to j
    whose intermediate vertices all lie below k. */
module Levels {
  import opened Walks
  import opened Int32

  function Dist(w: Matrix, k: nat, i: nat, j: nat): int
    requires IsSquare(w) && k <= |w| && i < |w| && j < |w|
    decreases k
  {
    if k == 0 then w[i][j]
    else
      var v := k - 1;
      var via := Dist(w, v, i, v) + Dist(w, v, v, j);
      if via < Dist(w, v, i, j) then via else Dist(w, v, i, j)
  }

  /** A walk from i to j with intermediates below k that achieves
      Dist(w, k, i, j). */
  function ShortestWalk(w: Matrix, k: nat, i: nat, j: nat): (p: seq<nat>)
    requires IsSquare(w) && k <= |w| && i < |w| && j < |w|
    ensures Connects(w, p, i, j) && Through(p, k)
    ensures Weight(w, p) == Dist(w, k, i, j)
    decreases k
  {
    if k == 0 then
      [i, j]
    else
      var v := k - 1;
      var direct := ShortestWalk(w, v, i, j);
      var left, right := ShortestWalk(w, v, i, v), ShortestWalk(w, v, v, j);
      if Dist(w, v, i, v) + Dist(w, v, v, j) < Dist(w, v, i, j) then
        WeightJoin(w, left, right);
        JoinThrough(left, right, k);
        left + right[1..]
      else
        direct
  }

  /** No pass raises an entry: each level is at most the previous one. */
  lemma {:induction false} DistDecreasing(w: Matrix, k1: nat, k2: nat, i: nat, j: nat)
    requires IsSquare(w) && k1 <= k2 <= |w| && i < |w| && j < |w|
    ensures Dist(w, k2, i, j) <= Dist(w, k1, i, j)
    decreases k2
  {
    if k1 < k2 {
      DistDecreasing(w, k1, k2 - 1, i, j);
    }
  }

  /** With no negative cycle, every diagonal entry stays non-negative. */
  lemma DiagonalNonNegative(w: Matrix, k: nat, v: nat)
    requires NoNegativeCycle(w) && k <= |w| && v < |w|
    ensures Dist(w, k, v, v) >= 0
  {
    var p := ShortestWalk(w, k, v, v);
    assert IsWalk(w, p) && p[0] == p[|p| - 1];
  }

  /** A diagonal entry that starts at 0 stays 0 when no cycle is negative. */
  lemma DiagonalStaysZero(w: Matrix, k: nat, v: nat)
    requires NoNegativeCycle(w) && k <= |w| && v < |w| && w[v][v] == 0
    ensures Dist(w, k, v, v) == 0
  {
    DiagonalNonNegative(w, k, v);
    DistDecreasing(w, 0, k, v, v);
  }

  /** When pivot k is used, the pivot's own row and column do not change,
      provided its diagonal entry is non-negative. */
  lemma PivotRowAndColumnStable(w: Matrix, k: nat, i: nat, j: nat)
    requires IsSquare(w) && k < |w| && i < |w| && j < |w|
    requires Dist(w, k, k, k) >= 0
    ensures Dist(w, k + 1, i, k) == Dist(w, k, i, k)
    ensures Dist(w, k + 1, k, j) == Dist(w, k, k, j)
  {
  }

  /** Each pivot's diagonal entry is non-negative when its pass begins. */
  predicate PivotDiagonalsNonNegative(w: Matrix)
    requires IsSquare(w)
  {
    forall v :: 0 <= v < |w| ==> Dist(w, v, v, v) >= 0
  }

  lemma NoNegativeCyclePivots(w: Matrix)
    requires NoNegativeCycle(w)
    ensures PivotDiagonalsNonNegative(w)
  {
    forall v | 0 <= v < |w|
      ensures Dist(w, v, v, v) >= 0
    {
      DiagonalNonNegative(w, v, v);
    }
  }

  /** When every pivot's diagonal is non-negative (in particular when no
      cycle is negative), Dist(w, k, i, j) is at most the weight of every
      walk from i to j whose intermediates lie below k. */
  lemma {:induction false} DistIsMinimal(w: Matrix, k: nat, p: seq<nat>)
    requires IsSquare(w) && PivotDiagonalsNonNegative(w)
    requires k <= |w| && IsWalk(w, p) && Through(p, k)
    ensures Dist(w, k, p[0], p[|p| - 1]) <= Weight(w, p)
    decreases k, |p|
  {
    var i, j := p[0], p[|p| - 1];
    if k == 0 {
      assert p[1] < 0 || |p| == 2;
      assert p == [i, j];
    } else {
      var v := k - 1;
      if Through(p, v) {
        DistIsMinimal(w, v, p);
      } else {
        var t :| 0 < t < |p| - 1 && p[t] == v;
        WeightSplit(w, p, t);
        DistIsMinimal(w, k, p[..t + 1]);
        DistIsMinimal(w, k, p[t..]);
        PivotRowAndColumnStable(w, v, i, j);
      }
    }
  }

  /** After the last pass, cell (i, j) holds the shortest-path distance:
      some walk from i to j weighs exactly that, and none weighs less. */
  lemma ShortestPathTheorem(w: Matrix, i: nat, j: nat)
    requires NoNegativeCycle(w) && i < |w| && j < |w|
    ensures exists p :: Connects(w, p, i, j) && Weight(w, p) == Dist(w, |w|, i, j)
    ensures forall p :: Connects(w, p, i, j) ==> Dist(w, |w|, i, j) <= Weight(w, p)
  {
    var q := ShortestWalk(w, |w|, i, j);
    assert Connects(w, q, i, j) && Weight(w, q) == Dist(w, |w|, i, j);
    NoNegativeCyclePivots(w);
    forall p | Connects(w, p, i, j)
      ensures Dist(w, |w|, i, j) <= Weight(w, p)
    {
      DistIsMinimal(w, |w|, p);
    }
  }

  /** A walk whose weight is the potential difference of its ends, for a
      feasible potential, is a shortest walk: its weight is exactly the
      final distance between its ends. */
  lemma DistanceCertificate(w: Matrix, p: seq<nat>, pi: seq<int>, i: nat, j: nat)
    requires IsSquare(w) && Feasible(w, pi) && Connects(w, p, i, j)
    requires Weight(w, p) == pi[j] - pi[i]
    ensures Dist(w, |w|, i, j) == pi[j] - pi[i]
  {
    PotentialNoNegativeCycle(w, pi);
    NoNegativeCyclePivots(w);
    DistIsMinimal(w, |w|, p);
    PotentialBound(w, pi, ShortestWalk(w, |w|, i, j));
  }

  /** Every level is bounded from above by the matrix entry, and, with no
      negative cycle, from below through the shortest walk of at most |w|
      edges. */
  lemma DistBounds(w: Matrix, k: nat, i: nat, j: nat, s: int, m: int)
    requires NoNegativeCycle(w) && k <= |w| && i < |w| && j < |w| && s > 0 && m <= 0
    requires forall u, v :: 0 <= u < |w| && 0 <= v < |w| ==> s * w[u][v] >= m
    ensures Dist(w, k, i, j) <= w[i][j]
    ensures s * Dist(w, k, i, j) >= |w| * m
  {
    DistDecreasing(w, 0, k, i, j);
    WalkWeightAtLeast(w, ShortestWalk(w, k, i, j), s, m);
  }

  /** The entries are small enough that, with no negative cycle, every sum the
      passes form fits in an `int`: each entry is at least
      MinValue / (2 |w|) and at most MaxValue / 2. */
  ghost predicate SumsFit(w: Matrix) {
    IsSquare(w) &&
    forall u, v :: 0 <= u < |w| && 0 <= v < |w| ==>
      2 * |w| * w[u][v] >= MinValue && 2 * w[u][v] <= MaxValue
  }

  /** Inputs on which the loop is proved to compute shortest paths (a
      sufficient condition, not a necessary one). */
  ghost predicate Regular(w: Matrix) {
    NoNegativeCycle(w) && SumsFit(w)
  }

  /** On a regular matrix, the sum read at pivot k fits in an `int`, and so
      does every level. */
  lemma {:induction false} SumFits(w: Matrix, k: nat, i: nat, j: nat)
    requires Regular(w) && k < |w| && i < |w| && j < |w|
    ensures MinValue <= Dist(w, k, i, k) + Dist(w, k, k, j) <= MaxValue
    ensures MinValue <= Dist(w, k, i, j) <= MaxValue
  {
    var n := |w|;
    DistBounds(w, k, i, k, 2 * n, MinValue);
    DistBounds(w, k, k, j, 2 * n, MinValue);
    DistBounds(w, k, i, j, 2 * n, MinValue);
    HalveBound(n, Dist(w, k, i, k));
    HalveBound(n, Dist(w, k, k, j));
    HalveBound(n, Dist(w, k, i, j));
  }

  lemma HalveBound(n: nat, d: int)
    requires n > 0 && (2 * n) * d >= n * MinValue
    ensures 2 * d >= MinValue
  {
    var x := 2 * d - MinValue;
    assert n * x == (2 * n) * d - n * MinValue;
  }
}
