/** Weighted directed graphs given by a square weight matrix, and walks in them.

    Every entry of the matrix is an edge: w[u][v] is the weight of the edge
    from u to v, the diagonal entry w[v][v] a self-loop.  The "no edge"
    sentinel of the Java program is an ordinary (large) weight here, exactly
    as the program's comparison treats it. */
module Walks {

  type Matrix = seq<seq<int>>

  /** w has as many columns in every row as it has rows. */
  predicate IsSquare(w: Matrix) {
    forall u :: 0 <= u < |w| ==> |w[u]| == |w|
  }

  /** Every vertex of p is a vertex of the graph. */
  predicate OnVertices(w: Matrix, p: seq<nat>) {
    forall t :: 0 <= t < |p| ==> p[t] < |w|
  }

  /** A walk has at least one edge. */
  predicate IsWalk(w: Matrix, p: seq<nat>) {
    |p| >= 2 && OnVertices(w, p)
  }

  /** p is a walk from i to j. */
  predicate Connects(w: Matrix, p: seq<nat>, i: nat, j: nat) {
    IsWalk(w, p) && p[0] == i && p[|p| - 1] == j
  }

  /** Every intermediate vertex of p (all but the two ends) is below k. */
  predicate Through(p: seq<nat>, k: nat) {
    forall t :: 0 < t < |p| - 1 ==> p[t] < k
  }

  /** The sum of the weights of the edges of p. */
  function Weight(w: Matrix, p: seq<nat>): int
    requires IsSquare(w) && OnVertices(w, p)
    decreases |p|
  {
    if |p| <= 1 then 0 else w[p[0]][p[1]] + Weight(w, p[1..])
  }

  /** Every closed walk has non-negative weight. */
  ghost predicate NoNegativeCycle(w: Matrix) {
    IsSquare(w) &&
    forall p :: IsWalk(w, p) && p[0] == p[|p| - 1] ==> Weight(w, p) >= 0
  }

  /** Gluing p, which ends where q starts, to q adds their weights. */
  lemma {:induction false} WeightJoin(w: Matrix, p: seq<nat>, q: seq<nat>)
    requires IsSquare(w) && OnVertices(w, p) && OnVertices(w, q)
    requires |p| >= 1 && |q| >= 1 && p[|p| - 1] == q[0]
    ensures OnVertices(w, p + q[1..])
    ensures Weight(w, p + q[1..]) == Weight(w, p) + Weight(w, q)
  {
    if |p| == 1 {
      assert p + q[1..] == q;
    } else {
      WeightJoin(w, p[1..], q);
      assert (p + q[1..])[1..] == p[1..] + q[1..];
    }
  }

  /** Gluing p to q at a vertex below k keeps every intermediate vertex below
      k, and keeps the outer ends. */
  lemma JoinThrough(p: seq<nat>, q: seq<nat>, k: nat)
    requires |p| >= 1 && |q| >= 2 && p[|p| - 1] == q[0] && q[0] < k
    requires Through(p, k) && Through(q, k)
    ensures Through(p + q[1..], k)
    ensures (p + q[1..])[0] == p[0] && (p + q[1..])[|p + q[1..]| - 1] == q[|q| - 1]
  {
    var r := p + q[1..];
    forall t | 0 < t < |r| - 1
      ensures r[t] < k
    {
      if t < |p| - 1 {
        assert r[t] == p[t];
      } else if t == |p| - 1 {
        assert r[t] == q[0];
      } else {
        assert r[t] == q[t - |p| + 1];
      }
    }
  }

  /** Cutting p at position t splits its weight into the two pieces'. */
  lemma WeightSplit(w: Matrix, p: seq<nat>, t: nat)
    requires IsSquare(w) && OnVertices(w, p) && t < |p|
    ensures Weight(w, p) == Weight(w, p[..t + 1]) + Weight(w, p[t..])
  {
    WeightJoin(w, p[..t + 1], p[t..]);
    assert p[..t + 1] + p[t..][1..] == p;
  }

  /** If each edge, scaled by s, weighs at least m, then so does each walk
      per edge. */
  lemma {:induction false} ScaledWeightAtLeast(w: Matrix, p: seq<nat>, s: int, m: int)
    requires IsSquare(w) && OnVertices(w, p) && |p| >= 1
    requires forall u, v :: 0 <= u < |w| && 0 <= v < |w| ==> s * w[u][v] >= m
    ensures s * Weight(w, p) >= (|p| - 1) * m
  {
    if |p| >= 2 {
      ScaledWeightAtLeast(w, p[1..], s, m);
      assert s * Weight(w, p) == s * w[p[0]][p[1]] + s * Weight(w, p[1..]);
      assert (|p| - 1) * m == m + (|p| - 2) * m;
    }
  }

  /** A sequence longer than n whose values lie below n repeats a value. */
  lemma Pigeonhole(s: seq<nat>, n: nat) returns (a: nat, b: nat)
    requires |s| > n
    requires forall t :: 0 <= t < |s| ==> s[t] < n
    ensures a < b < |s| && s[a] == s[b]
  {
    if exists x, y :: 0 <= x < y < |s| && s[x] == s[y] {
      a, b :| 0 <= a < b < |s| && s[a] == s[b];
    } else {
      DistinctCard(s);
      BelowCard(Values(s), n);
      assert false;
    }
  }

  /** A sequence without repetition has as many distinct values as elements. */
  lemma {:induction false} DistinctCard(s: seq<nat>)
    requires forall x, y :: 0 <= x < y < |s| ==> s[x] != s[y]
    ensures |Values(s)| == |s|
  {
    if |s| > 0 {
      DistinctCard(s[1..]);
      assert Values(s) == {s[0]} + Values(s[1..]);
      assert s[0] !in Values(s[1..]);
    }
  }

  /** The values of s, as a set. */
  function Values(s: seq<nat>): set<nat> {
    set x | x in s
  }

  /** A set of naturals below n has at most n elements. */
  lemma {:induction false} BelowCard(a: set<nat>, n: nat)
    requires forall x :: x in a ==> x < n
    ensures |a| <= n
  {
    if n > 0 {
      BelowCard(a - {n - 1}, n - 1);
      if n - 1 in a {
        assert a == (a - {n - 1}) + {n - 1};
      } else {
        assert a == a - {n - 1};
      }
    }
  }

  /** Cutting p at positions a and b splits its weight into three pieces. */
  lemma WeightSplit3(w: Matrix, p: seq<nat>, a: nat, b: nat)
    requires IsSquare(w) && OnVertices(w, p) && a <= b < |p|
    ensures Weight(w, p) == Weight(w, p[..a + 1]) + Weight(w, p[a..b + 1]) + Weight(w, p[b..])
  {
    var rest := p[a..];
    assert OnVertices(w, rest);
    WeightSplit(w, p, a);
    WeightSplit(w, rest, b - a);
    assert rest[..b - a + 1] == p[a..b + 1];
    assert rest[b - a..] == p[b..];
  }

  /** Cutting a closed piece p[a..b + 1] of non-negative weight out of a
      walk leaves a shorter walk between the same ends that weighs no more. */
  lemma CutCycle(w: Matrix, p: seq<nat>, a: nat, b: nat)
    requires IsSquare(w) && IsWalk(w, p)
    requires a < b < |p| - 1 && p[a] == p[b] && Weight(w, p[a..b + 1]) >= 0
    ensures Connects(w, p[..a + 1] + p[b + 1..], p[0], p[|p| - 1])
    ensures Weight(w, p[..a + 1] + p[b + 1..]) <= Weight(w, p)
  {
    var head, tail := p[..a + 1], p[b..];
    WeightSplit3(w, p, a, b);
    WeightJoin(w, head, tail);
    assert tail[1..] == p[b + 1..];
    var rest := head + tail[1..];
    assert rest[0] == p[0] && rest[|rest| - 1] == p[|p| - 1];
  }

  lemma ClosedWalkNonNegative(w: Matrix, c: seq<nat>)
    requires NoNegativeCycle(w) && IsWalk(w, c) && c[0] == c[|c| - 1]
    ensures Weight(w, c) >= 0
  {
  }

  /** With no negative cycle, some walk between the ends of p with at most
      |w| edges weighs no more than p. */
  lemma ShortWalk(w: Matrix, p: seq<nat>) returns (q: seq<nat>)
    requires NoNegativeCycle(w) && IsWalk(w, p)
    ensures Connects(w, q, p[0], p[|p| - 1])
    ensures |q| <= |w| + 1
    ensures Weight(w, q) <= Weight(w, p)
    decreases |p|
  {
    if |p| <= |w| + 1 {
      q := p;
    } else {
      var a, b := Pigeonhole(p[..|w| + 1], |w|);
      ClosedWalkNonNegative(w, p[a..b + 1]);
      CutCycle(w, p, a, b);
      q := ShortWalk(w, p[..a + 1] + p[b + 1..]);
    }
  }

  /** With no negative cycle, a lower bound m / s on every edge bounds every
      walk from below by |w| * m / s. */
  lemma WalkWeightAtLeast(w: Matrix, p: seq<nat>, s: int, m: int)
    requires NoNegativeCycle(w) && IsWalk(w, p) && s > 0 && m <= 0
    requires forall u, v :: 0 <= u < |w| && 0 <= v < |w| ==> s * w[u][v] >= m
    ensures s * Weight(w, p) >= |w| * m
  {
    var q := ShortWalk(w, p);
    ScaledWeightAtLeast(w, q, s, m);
    var e := |q| - 1;
    assert e <= |w|;
    MulMonotone(m, e, |w|);
    MulMonotonePos(s, Weight(w, q), Weight(w, p));
  }

  lemma MulMonotone(m: int, e: int, n: int)
    requires m <= 0 && e <= n
    ensures e * m >= n * m
  {
    assert n * m - e * m == (n - e) * m;
  }

  lemma MulMonotonePos(s: int, x: int, y: int)
    requires s > 0 && x <= y
    ensures s * x <= s * y
  {
    assert s * y - s * x == s * (y - x);
  }

  /** pi is a feasible potential: along no edge does it rise by more than
      the edge's weight. */
  predicate Feasible(w: Matrix, pi: seq<int>)
    requires IsSquare(w)
  {
    |pi| == |w| && forall u, v :: 0 <= u < |w| && 0 <= v < |w| ==> pi[v] <= pi[u] + w[u][v]
  }

  /** A feasible potential bounds every walk from below by the potential
      difference of its ends. */
  lemma {:induction false} PotentialBound(w: Matrix, pi: seq<int>, p: seq<nat>)
    requires IsSquare(w) && Feasible(w, pi) && OnVertices(w, p) && |p| >= 1
    ensures Weight(w, p) >= pi[p[|p| - 1]] - pi[p[0]]
  {
    if |p| >= 2 {
      PotentialBound(w, pi, p[1..]);
    }
  }

  /** A feasible potential rules out negative cycles. */
  lemma PotentialNoNegativeCycle(w: Matrix, pi: seq<int>)
    requires IsSquare(w) && Feasible(w, pi)
    ensures NoNegativeCycle(w)
  {
    forall p | IsWalk(w, p) && p[0] == p[|p| - 1]
      ensures Weight(w, p) >= 0
    {
      PotentialBound(w, pi, p);
    }
  }
}
