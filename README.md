# Floyd–Warshall on a Java `int` matrix

This project models the all-pairs shortest-path routine `floyd(int l, int matrix[][])`
of `Floyd_algorithm.java`, and proves what it computes. The routine works in place
on an `l × l` matrix of Java `int`s. It runs three nested loops, over the pivot `k`,
the row `i` and the column `j`. At each step it replaces `matrix[i][j]` by
`matrix[i][k] + matrix[k][j]` when that sum is strictly smaller. Edge weights may be
negative. A missing edge is written as the constant `MAX = 99999`, which the loop
treats as an ordinary number.

The model is split into these modules:

- `Int32` holds Java's 32-bit `int` as a subset type of `int`, and Java's `+` as
  wrap-around addition `Add`.
- `Walks` covers weighted directed graphs given by a matrix: walks, their weights,
  the "no negative cycle" condition and feasible potentials. It also proves that
  cutting out non-negative cycles shortens any walk to at most |w| edges.
- `Levels` defines the specification function `Dist(w, k, i, j)`. It is the
  textbook recurrence with the same strict comparison as the Java loop. On a regular
  matrix (defined below) it is also the value cell `(i, j)` holds once the passes
  for pivots `0 .. k-1` are done. With no negative cycle, `Dist` is the least
  weight of a walk from `i` to `j` whose intermediate vertices lie below `k`. The
  module also proves that, on a regular matrix, every sum the loop forms stays
  within the `int` range. A regular matrix has no negative cycle and meets explicit
  bounds on its entries.
- `Floyd` is the imperative routine over `array2<int32>`:
  - `Floyd` is the loop over `k`;
  - `Pass` holds the loops over `i` and `j`;
  - `Relax` is one comparison.
- `FloydExample` covers the 5 × 5 matrix of `main` and its computed distances. It
  also has a 3 × 3 matrix on which a `MAX` entry comes down to `MAX - 3`.

The three loops are in-place updates of a 2-D array, so they are modelled as
methods with loop invariants over an `array2`. On a regular matrix, the invariant
of pass `k` says that every cell before `(i, j)` in row-major order holds level
`k + 1`, and every other cell still holds level `k`. Pass `k` reads row `k` and
column `k` while they are being rewritten. That is safe only because, on a regular
matrix, the pivot's diagonal is non-negative, so pass `k` does not change them
(`Levels.PivotRowAndColumnStable`).

Properties stated for every call:
- every index is in bounds whenever `matrix` is `l × l`, which the verifier checks;
- no entry ever increases;
- exactly `l³` comparisons are made.

Shortest-path correctness is stated for *regular* matrices (`Levels.Regular`). A
matrix is regular when it has no negative cycle and is small enough that no sum can
overflow. The bound is that every entry `e` satisfies
`2·l·e ≥ Integer.MIN_VALUE` and `2·e ≤ Integer.MAX_VALUE`. On such a matrix every
sum the loop forms is exact, so the wrap-around never happens.

## Model

| member | source | states |
|---|---|---|
| Int32.Add | Floyd_algorithm.java:24-25 | Java `int` addition: the result lies in the `int` range and is congruent to the exact sum modulo 2^32. It equals the exact sum when that fits, and the sum minus or plus 2^32 when it overflows upward or downward. |
| Int32.AddIsUnique | Floyd_algorithm.java:24-25 | Any `int` congruent to the exact sum modulo 2^32 is the wrapped sum, so the contract of `Add` determines it uniquely. |
| Floyd.Relax | Floyd_algorithm.java:24-26 | One comparison. Cell (i, j) becomes the wrapped sum of the two values just read when that sum is strictly smaller, and otherwise keeps its value. It never increases and ends at most the sum. Every other cell is unchanged. |
| Floyd.PassStep | Floyd_algorithm.java:22-25 | On a regular matrix, during pass k the pivot's row and column already hold level k + 1. The sum read at (i, j) and the old entry both fit in an `int`. Keeping the smaller value gives exactly level k + 1 at (i, j). |
| Floyd.Pass | Floyd_algorithm.java:22-28 | The loops over i and j make l·l comparisons and never raise an entry. On a regular matrix they turn an array holding level k into one holding level k + 1. |
| Floyd.Floyd | Floyd_algorithm.java:19-29 | The routine makes exactly l³ comparisons, and every final entry is at most its initial value. On a regular input every cell ends holding Dist(w, l, i, j), the shortest-path distance of `Levels.ShortestPathTheorem`. |
| Levels.ShortestWalk | Floyd_algorithm.java:21-25 | For every level k there is a walk from i to j, with all intermediate vertices below k, whose weight is exactly Dist(w, k, i, j). |
| Levels.DistIsMinimal | Floyd_algorithm.java:21-25 | When each pivot's diagonal is non-negative at the start of its pass, Dist(w, k, i, j) is at most the weight of every walk from i to j whose intermediate vertices lie below k. This is the Floyd–Warshall invariant after pass k - 1. |
| Levels.ShortestPathTheorem | Floyd_algorithm.java:19-29 | With no negative cycle, the final level is the shortest-path distance: some walk from i to j has exactly that weight, and no walk from i to j weighs less. |
| Levels.DistanceCertificate | Floyd_algorithm.java:19-29 | Consider a walk from i to j whose weight equals pi[j] - pi[i] for a feasible potential pi. The final level at (i, j) is exactly that difference. |
| Levels.DistDecreasing | Floyd_algorithm.java:24-25 | Entries never increase from pass to pass: level k2 is at most level k1 whenever k1 ≤ k2. |
| Levels.DiagonalNonNegative | Floyd_algorithm.java:24 | With no negative cycle, no diagonal entry ever becomes negative. |
| Levels.DiagonalStaysZero | Floyd_algorithm.java:24 | With no negative cycle, a diagonal entry that starts at 0 is 0 at every level. |
| Levels.PivotRowAndColumnStable | Floyd_algorithm.java:24-25 | In pass k, a non-negative pivot diagonal leaves row k and column k unchanged. So reading them while they are updated in place gives level-k values. |
| Levels.SumFits | Floyd_algorithm.java:24-25 | On a regular matrix, the sum formed at pivot k and every level lie within the `int` range, so no addition of the loop wraps around. |
| Levels.NoNegativeCyclePivots | Floyd_algorithm.java:21-25 | With no negative cycle, every pivot's diagonal entry is non-negative when its pass begins. |
| Walks.ShortWalk | Floyd_algorithm.java:24-25 | With no negative cycle, every walk can be replaced by one between the same ends that has at most as many edges as the graph has vertices and weighs no more. This is the lower bound behind the no-overflow argument. |
| Walks.PotentialNoNegativeCycle | Floyd_algorithm.java:9-13 | A feasible potential rules out every negative cycle. This is how the no-negative-cycle premise is discharged for concrete matrices. |
| FloydExample.TestGraphRegular | Floyd_algorithm.java:9-13 | The matrix built by `main` has no negative cycle, and its entries are within the no-overflow bounds. |
| FloydExample.TestInstanceDistances | Floyd_algorithm.java:9-16 | On the matrix of `main` the final level is the distance matrix [[0,5,8,0,2],[-1,0,3,-5,-3],[4,9,0,0,2],[4,9,8,0,6],[2,7,6,-2,0]]. |
| FloydExample.RunExample | Floyd_algorithm.java:8-17 | `main` builds g, sets l to its number of rows and runs `floyd(l, g)`. Afterwards g holds exactly that distance matrix. |
| FloydExample.SentinelIsAnOrdinaryWeight | Floyd_algorithm.java:6 | MAX gets no special case. Take a regular matrix where vertex 0 has only MAX entries to 1 and 2, and the edge 1 → 2 weighs -3. The loop lowers entry (0, 2) to MAX - 3, a value that no longer reads as "no edge". |

## Left out

- `printfun` and the `println` calls (Floyd_algorithm.java:30-44) are left out: they only write the matrix to the console. Their one rule is that an entry equal to `MAX` prints as the text `MAX` (lines 37-40). `FloydExample.SentinelIsAnOrdinaryWeight` shows an entry that started as `MAX` and so would no longer print that way.
- Floyd.Floyd: shortest-path correctness is stated only for regular matrices. A matrix with a negative cycle, or with entries large enough for a sum to wrap around, still gets the unconditional guarantees: each step follows Java's wrapping `+` and strict `<`, no entry increases, and the comparison count is l³. The model does not characterise which values such a matrix ends with.
- Floyd.Floyd: with a negative pivot diagonal the in-place loop departs from `Dist`, and the model states nothing about the values it then produces. Pass `k` lowers `matrix[k][k]` and then reads the lowered value for the rest of row `k`. On `[[-1, 0], [0, 0]]`, for example, cell (0, 1) ends at -2, while `Dist` is -1 there.
- Floyd.Floyd: the model requires the array to be exactly `l × l`, which is what `main`'s call guarantees (line 15). It leaves out three Java behaviours:
  - A larger or jagged array is accepted by Java, which works on its top-left `l × l` corner.
  - An array with fewer than `l` rows, or with a row shorter than `l`, makes Java throw `ArrayIndexOutOfBoundsException` after some cells have already been updated.
  - The rows of a Java `int[][]` may be one shared object, so a write at (i, j) also changes (i', j). The cells of an `array2` are always distinct, so this aliasing is not modelled.
- Floyd.Floyd: comparisons are counted by a ghost out-parameter. The Java method returns nothing.
- The loop over `k` and the loops over `i` and `j` are split into the two methods `Floyd.Floyd` and `Floyd.Pass`, and the loop body is split into `Floyd.Relax`. The order of the reads and writes is unchanged.
- `floyd` is a Java instance method of `Floyd_algorithm` with no fields. It is modelled as a module-level method, and `main`'s `new Floyd_algorithm()` has no counterpart.
- The Python files of the repository (Algorithms/Benders_decomposition.py, Algorithms/Branch_and_bound.py, Common Problems/cutting_stock_problem.py) are not part of this model. Their substance is calls into an external LP/MIP solver on floating-point data.
- Network Planning网络规划/Dijkstra_shortest_path.java is not part of this model.
