/** The matrix that `main` of Floyd_algorithm.java hands to `floyd`, and a
    small matrix showing that the sentinel MAX is an ordinary weight to the
    loop. */
module FloydExample {
  import opened Int32
  import opened Walks
  import opened Levels
  import opened Floyd

  /** The 5 × 5 matrix `g` built by `main`; MAX marks a missing edge. */
  const TestGraph: seq<seq<int32>> :=
    [[0, 5, MAX, MAX, MAX],
     [MAX, 0, 6, MAX, -3],
     [MAX, MAX, 0, MAX, 2],
     [4, MAX, 8, 0, MAX],
     [4, MAX, MAX, -2, 0]]

  /** Its shortest-path distances. */
  const TestDistances: seq<seq<int>> :=
    [[0, 5, 8, 0, 2],
     [-1, 0, 3, -5, -3],
     [4, 9, 0, 0, 2],
     [4, 9, 8, 0, 6],
     [2, 7, 6, -2, 0]]

  /** For each pair, a walk of the test graph whose weight is the distance. */
  function TestRoute(i: nat, j: nat): seq<nat>
    requires i < 5 && j < 5
  {
    if i == 0 then [[0, 0], [0, 1], [0, 1, 4, 3, 2], [0, 1, 4, 3], [0, 1, 4]][j]
    else if i == 1 then [[1, 4, 3, 0], [1, 1], [1, 4, 3, 2], [1, 4, 3], [1, 4]][j]
    else if i == 2 then [[2, 4, 3, 0], [2, 4, 3, 0, 1], [2, 2], [2, 4, 3], [2, 4]][j]
    else if i == 3 then [[3, 0], [3, 0, 1], [3, 2], [3, 3], [3, 0, 1, 4]][j]
    else [[4, 3, 0], [4, 3, 0, 1], [4, 3, 2], [4, 3], [4, 4]][j]
  }

  /** Row i of the distances is a feasible potential of the test graph:
      no edge leads to a vertex more than its weight further from i. */
  lemma RowIsPotential(i: nat)
    requires i < 5
    ensures Feasible(TestGraph, TestDistances[i])
  {
    forall u, v | 0 <= u < 5 && 0 <= v < 5
      ensures TestDistances[i][v] <= TestDistances[i][u] + TestGraph[u][v]
    {
      assert u == 0 || u == 1 || u == 2 || u == 3 || u == 4;
      assert v == 0 || v == 1 || v == 2 || v == 3 || v == 4;
    }
  }

  /** The test graph has no negative cycle, and its entries are small
      enough for every sum of the loop to fit in an `int`. */
  lemma TestGraphRegular()
    ensures Regular(TestGraph)
  {
    RowIsPotential(0);
    PotentialNoNegativeCycle(TestGraph, TestDistances[0]);
    TestGraphSumsFit();
  }

  lemma TestGraphSumsFit()
    ensures SumsFit(TestGraph)
  {
    forall u, v | 0 <= u < 5 && 0 <= v < 5
      ensures 2 * 5 * TestGraph[u][v] >= MinValue && 2 * TestGraph[u][v] <= MaxValue
    {
      assert u == 0 || u == 1 || u == 2 || u == 3 || u == 4;
      assert v == 0 || v == 1 || v == 2 || v == 3 || v == 4;
    }
  }

  lemma TestGraphSquare()
    ensures IsSquare(TestGraph) && |TestGraph| == 5
  {
  }

  /** The listed route from i to j is a walk from i to j weighing the
      listed distance. */
  predicate RouteOk(i: nat, j: nat)
    requires i < 5 && j < 5
  {
    Connects(TestGraph, TestRoute(i, j), i, j) && Weight(TestGraph, TestRoute(i, j)) == TestDistances[i][j]
  }

  /** The routes leaving each vertex, checked one row at a time. */
  lemma RoutesFrom0()
    ensures RouteOk(0, 0) && RouteOk(0, 1) && RouteOk(0, 2) && RouteOk(0, 3) && RouteOk(0, 4)
  {
  }

  lemma RoutesFrom1()
    ensures RouteOk(1, 0) && RouteOk(1, 1) && RouteOk(1, 2) && RouteOk(1, 3) && RouteOk(1, 4)
  {
  }

  lemma RoutesFrom2()
    ensures RouteOk(2, 0) && RouteOk(2, 1) && RouteOk(2, 2) && RouteOk(2, 3) && RouteOk(2, 4)
  {
  }

  lemma RoutesFrom3()
    ensures RouteOk(3, 0) && RouteOk(3, 1) && RouteOk(3, 2) && RouteOk(3, 3) && RouteOk(3, 4)
  {
  }

  lemma RoutesFrom4()
    ensures RouteOk(4, 0) && RouteOk(4, 1) && RouteOk(4, 2) && RouteOk(4, 3) && RouteOk(4, 4)
  {
  }

  lemma RouteWeight(i: nat, j: nat)
    requires i < 5 && j < 5
    ensures Connects(TestGraph, TestRoute(i, j), i, j)
    ensures Weight(TestGraph, TestRoute(i, j)) == TestDistances[i][j] - TestDistances[i][i]
    ensures TestDistances[i][i] == 0
  {
    RoutesFrom0();
    RoutesFrom1();
    RoutesFrom2();
    RoutesFrom3();
    RoutesFrom4();
    assert i == 0 || i == 1 || i == 2 || i == 3 || i == 4;
    assert j == 0 || j == 1 || j == 2 || j == 3 || j == 4;
    assert RouteOk(i, j);
  }

  /** The distance of one pair: the listed route is a shortest walk, as row
      i of the distances certifies. */
  lemma PairDistance(i: nat, j: nat)
    requires i < 5 && j < 5
    ensures Dist(TestGraph, 5, i, j) == TestDistances[i][j]
  {
    TestGraphSquare();
    RouteWeight(i, j);
    RowIsPotential(i);
    DistanceCertificate(TestGraph, TestRoute(i, j), TestDistances[i], i, j);
  }

  /** The distances Floyd–Warshall reaches on the matrix of `main`. */
  lemma TestInstanceDistances()
    ensures forall i, j :: 0 <= i < 5 && 0 <= j < 5 ==> Dist(TestGraph, 5, i, j) == TestDistances[i][j]
  {
    forall i, j | 0 <= i < 5 && 0 <= j < 5
      ensures Dist(TestGraph, 5, i, j) == TestDistances[i][j]
    {
      PairDistance(i, j);
    }
  }

  /** `main`: builds the matrix g, takes l as its number of rows and runs
      `floyd(l, g)`; g ends holding the distances above. */
  method RunExample() returns (g: array2<int32>)
    ensures g.Length0 == 5 && g.Length1 == 5
    ensures forall i, j :: 0 <= i < 5 && 0 <= j < 5 ==> g[i, j] == TestDistances[i][j]
  {
    g := new int32[5, 5]((i, j) => if 0 <= i < 5 && 0 <= j < 5 then TestGraph[i][j] else 0);
    var l := g.Length0;
    assert Grid(g) == TestGraph by {
      forall i | 0 <= i < 5
        ensures Grid(g)[i] == TestGraph[i]
      {
      }
    }
    TestGraphRegular();
    TestInstanceDistances();
    ghost var comparisons := Floyd.Floyd(l, g);
  }

  /** A graph in which vertex 0 has no edge to 1 or 2 (both entries MAX). */
  const SentinelGraph: seq<seq<int32>> :=
    [[0, MAX, MAX],
     [MAX, 0, -3],
     [MAX, MAX, 0]]

  /** A feasible potential of the sentinel graph: vertex 0 at 0, vertex 1
      at MAX and vertex 2 at MAX - 3. */
  const SentinelPotential: seq<int> := [0, MAX as int, MAX - 3]

  lemma SentinelPotentialFeasible()
    ensures IsSquare(SentinelGraph) && Feasible(SentinelGraph, SentinelPotential)
  {
    forall u, v | 0 <= u < 3 && 0 <= v < 3
      ensures SentinelPotential[v] <= SentinelPotential[u] + SentinelGraph[u][v]
    {
      assert u == 0 || u == 1 || u == 2;
      assert v == 0 || v == 1 || v == 2;
    }
  }

  lemma SentinelGraphSumsFit()
    ensures SumsFit(SentinelGraph)
  {
    forall u, v | 0 <= u < 3 && 0 <= v < 3
      ensures 2 * 3 * SentinelGraph[u][v] >= MinValue && 2 * SentinelGraph[u][v] <= MaxValue
    {
      assert u == 0 || u == 1 || u == 2;
      assert v == 0 || v == 1 || v == 2;
    }
  }

  /** The loop gives MAX no special meaning: through the "missing" edge
      0 → 1 and the real edge 1 → 2 of weight -3, the entry (0, 2) ends as
      MAX - 3, a value that no longer reads as "no edge". The matrix is
      regular, so this is what `floyd` leaves there. */
  lemma SentinelIsAnOrdinaryWeight()
    ensures Regular(SentinelGraph)
    ensures Dist(SentinelGraph, 3, 0, 2) == MAX - 3
  {
    SentinelPotentialFeasible();
    PotentialNoNegativeCycle(SentinelGraph, SentinelPotential);
    SentinelGraphSumsFit();
    assert Connects(SentinelGraph, [0, 1, 2], 0, 2);
    assert Weight(SentinelGraph, [0, 1, 2]) == MAX - 3;
    DistanceCertificate(SentinelGraph, [0, 1, 2], SentinelPotential, 0, 2);
  }
}
