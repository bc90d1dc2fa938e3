# Robot grid, modelled in Dafny

A robot moves on the bounded grid [-999, 999] x [-999, 999] one unit at a
time, horizontally or vertically, and may only stand on *safe* cells: cells
inside the bounds whose coordinate product `|x * y|` has a decimal digit sum
below 19. The `RobotGrid` class answers three questions:

- `isSafe(x, y)`: is this cell safe?
- `totalSafeSquares()`: how many cells can be reached from the origin
  through safe cells? The search is breadth-first.
- `shortestSafeJourney(a, b, x, y)`: what is the fewest number of moves from
  (a, b) to (x, y) through safe cells? The answer is -1 when either end is
  unsafe or no such walk exists. This search is breadth-first too.

The model has three modules:

- `Safety` (`safety.dfy`) holds the bounds, the digit-sum rule as a recursive
  function `DigitSum`, and the predicate `Safe`. `IsSafe` is the source's
  loop: it adds up the characters of the decimal rendering of `|x * y|`.
  It is proved equal to `Safe`.
- `GridGraph` (`grid_graph.dfy`) holds the graph the searches run on:
  - cells and the four moves;
  - walks through safe cells;
  - reachability, and `ShortestDistance` (some walk has d moves and no walk
    has fewer);
  - the safe region of the origin, and the size of the grid;
  - facts about walks: reversal, the Manhattan lower bound, and the journeys
    the tests measure.
- `Traversal` (`traversal.dfy`) holds the two breadth-first searches as
  methods with `while` loops over a `visited` set and a FIFO queue:
  - `TotalSafeSquares` is proved to return the size of the origin's safe
    region.
  - `ShortestSafeJourney` is proved to return the shortest distance, or -1
    exactly when the target is unreachable.

  Ghost state follows each search:
  - `order` lists every entry ever enqueued;
  - `head` counts the entries already polled, so the queue is `order[head..]`;
  - for the journey, `index` maps each visited cell to its position in
    `order`.

## Model

| member | source | states |
|---|---|---|
| Safety.IsSafe | RobotGrid.java:24-35 | the result is exactly `Safe(x, y)`: in bounds and digit sum of \|x * y\| below 19; a true result implies the bounds hold |
| Safety.DecimalDigitSum | RobotGrid.java:30-32 | adding `c - '0'` over the characters of the decimal rendering of n gives the digit sum of n |
| Safety.Decimal | RobotGrid.java:30 | the rendering of a number is non-empty, all decimal digits, and starts with '0' only for 0 |
| Safety.DigitChar | RobotGrid.java:31 | the digit character of d is between '0' and '9' and `c - '0'` recovers d |
| Safety.Abs | RobotGrid.java:30 | the absolute value is n or -n, and never negative |
| Safety.AbsProduct | RobotGrid.java:27-30 | \|x * y\| == \|x\| * \|y\| |
| Safety.ProductBound | RobotGrid.java:13-14 | two magnitudes of at most 999 multiply to at most 998001 |
| Safety.ProductFitsInt32 | RobotGrid.java:25-27 | inside the bounds \|x * y\| <= 998001, so the 32-bit product cannot overflow |
| Safety.OutOfBoundsUnsafe | RobotGrid.java:25 | a cell with a coordinate outside [-999, 999] is unsafe, whatever its digit sum |
| Safety.AxisSafe | RobotGrid.java:25-34 | an in-bounds cell on either axis is safe (its product is 0) |
| Safety.SafeSymmetric | RobotGrid.java:27-30 | safety is unchanged by swapping the coordinates or negating either or both |
| Safety.SafeExamples | RobotGridTests.java:14-33 | (0,0), (3,4), (99,99), (100,100), (-3,6) and (0,999) are safe |
| Safety.UnsafeExamples | RobotGridTests.java:26-39 | (123,456), (1000,0) and (0,-1000) are unsafe (the isSafe test), and so are (999,999) and (-999,-999), the cells of the journey tests at RobotGridTests.java:68 and :84 |
| GridGraph.Step | RobotGrid.java:55-57 | the k-th move reaches a cell adjacent to the current one |
| GridGraph.AdjacentIsStep | RobotGrid.java:50 | the four moves reach every adjacent cell |
| GridGraph.StepRange | RobotGrid.java:56-57 | a neighbour of a safe cell lies within [-1000, 1000] on both axes |
| GridGraph.SafeInGrid | RobotGrid.java:25 | every safe cell lies in the bounded grid |
| GridGraph.ColumnSize | RobotGrid.java:13-14 | proof helper for the grid size: a column segment [lo, hi) holds hi - lo cells |
| GridGraph.BlockSize | RobotGrid.java:13-14 | proof helper for the grid size: a rectangle of cells holds width * height cells |
| GridGraph.GridSize | RobotGrid.java:13-14 | the grid holds 1999 * 1999 cells |
| GridGraph.ExtendWalk | RobotGrid.java:100-102 | a walk of n moves to c, extended onto a safe neighbour d, is a walk of n + 1 moves to d |
| GridGraph.ReachableStep | RobotGrid.java:60-62 | a safe neighbour of a reachable cell is reachable |
| GridGraph.ReachableWalk | RobotGrid.java:93 | a walk of any length makes its end reachable |
| GridGraph.ReachableEndsSafe | RobotGrid.java:80 | both ends of a walk are safe cells |
| GridGraph.Reverse | RobotGrid.java:79-108 | proof helper for the undirected-graph lemmas: reversal keeps the length and reads the walk backwards |
| GridGraph.ReverseWalk | RobotGrid.java:79-108 | the moves are undirected: a walk read backwards is a walk between the same ends, swapped |
| GridGraph.ShortestDistanceSymmetric | RobotGrid.java:79-108 | the shortest distance from s to t is the shortest distance from t to s |
| GridGraph.ShortestDistanceUnique | RobotGrid.java:79-108 | a pair of cells has at most one shortest distance |
| GridGraph.WalkAtLeastManhattan | RobotGrid.java:95-97 | every walk makes at least as many moves as the Manhattan distance between its ends |
| GridGraph.ManhattanLowerBound | RobotGrid.java:79-108 | the shortest distance is at least the Manhattan distance |
| GridGraph.ManhattanWalkIsShortest | RobotGrid.java:79-108 | a walk exactly as long as the Manhattan distance is a shortest one |
| GridGraph.NeighbourJourney | RobotGridTests.java:58 | the shortest distance from (0,0) to (1,0) is 1 |
| GridGraph.DiagonalJourney | RobotGridTests.java:61-62 | the shortest distance from (0,0) to (2,2) is 4, which is positive |
| GridGraph.ManhattanJourney | RobotGridTests.java:80-81 | the shortest distance from (0,0) to (3,3) is 6 |
| GridGraph.ShortestDistanceSelf | RobotGridTests.java:71 | a safe cell is at distance 0 from itself |
| GridGraph.OriginNeighbourReachable | RobotGrid.java:55-63 | a safe cell one move from the origin is in the origin's safe region |
| GridGraph.SafeRegionSize | RobotGridTests.java:49-52 | more than 4 cells, and at most 1999 * 1999, are reachable from the origin |
| Traversal.FloodEnqueue | RobotGrid.java:60-63 | marking and enqueueing a fresh safe neighbour keeps the flood invariant: visited cells are exactly the enqueued ones, each enqueued once, all reachable and in the grid |
| Traversal.FloodSkip | RobotGrid.java:60 | a neighbour already visited or unsafe needs no new entry |
| Traversal.FloodPoll | RobotGrid.java:53-64 | after the four moves the polled cell has all its safe neighbours visited |
| Traversal.ClosedSetHoldsWalks | RobotGrid.java:52-65 | a set holding the origin and every safe neighbour of its members holds the end of every walk from the origin |
| Traversal.FloodComplete | RobotGrid.java:52-67 | when the queue is empty, `visited` is exactly the origin's safe region |
| Traversal.TotalSafeSquares | RobotGrid.java:43-68 | the result is the number of cells reachable from the origin through safe cells, more than 4 and at most 1999 * 1999 |
| Traversal.ShortWalksCovered | RobotGrid.java:90-105 | breadth-first completeness: a walk no longer than the distance at the queue head ends in a cell already enqueued with no greater distance |
| Traversal.ExpandedHoldsWalks | RobotGrid.java:90-105 | once every entry is expanded, every walk from the start ends in a visited cell |
| Traversal.InitialState | RobotGrid.java:82-86 | the start entry alone, at distance 0, satisfies the search invariant |
| Traversal.AppendIndexed | RobotGrid.java:100-102 | enqueueing a fresh cell keeps `index` an exact map from cells to positions: no cell is enqueued twice |
| Traversal.AppendCovered | RobotGrid.java:100-102 | enqueueing keeps every enqueued cell enqueued, at the same distance |
| Traversal.AppendExpanded | RobotGrid.java:100-102 | enqueueing keeps the polled entries expanded |
| Traversal.AppendAscending | RobotGrid.java:102 | appending an entry no closer than any queued entry keeps distances non-decreasing along the queue |
| Traversal.EnqueueKeepsState | RobotGrid.java:100-102 | enqueueing a fresh safe neighbour one move further out keeps the search invariant, with distances non-decreasing and at most one apart |
| Traversal.VisitedNeighbourTried | RobotGrid.java:100 | a neighbour already visited was enqueued at most one move further than the polled entry |
| Traversal.UnsafeNeighbourTried | RobotGrid.java:100 | an unsafe neighbour needs no entry |
| Traversal.PollKeepsState | RobotGrid.java:91-104 | after the four moves the polled entry is expanded and the next queue head is within one move of every queued entry |
| Traversal.PolledTargetIsShortest | RobotGrid.java:93 | when the target is polled its carried distance is the shortest distance from the start |
| Traversal.ExhaustedUnreachable | RobotGrid.java:90-107 | when the queue runs dry without the target being polled, the target is unreachable |
| Traversal.VisitNeighbours | RobotGrid.java:95-104 | trying the four moves from the polled entry keeps the search invariant with that entry expanded; it only appends to the queue, each new entry one move further out than the polled one; the newly visited cells are safe neighbours of the polled cell, and every safe neighbour ends up visited |
| Traversal.GrowOne | RobotGrid.java:100-102 | marking and enqueueing one more safe neighbour at the polled distance plus 1 keeps the queue an extension of the old one, with only such entries appended |
| Traversal.ShortestSafeJourney | RobotGrid.java:79-108 | -1 when either end is unsafe; -1 exactly when the target is unreachable; otherwise the shortest number of moves from start to target, 0 when start and target coincide |

## Left out

- `main` (RobotGrid.java:113-133) only prints to the console and is not modelled.
- The JUnit harness is not modelled. Its assertions appear as the example lemmas.
- Keys: the source keys `visited` by the strings `"nx,ny"`. The model keys it by coordinate pairs. An integer's rendering never contains a comma, so the two encodings are equivalent.
- `HashSet` and `LinkedList` are modelled as a Dafny `set` and a `seq` used as a FIFO queue (`poll` is `queue[1..]`). Their internals are not modelled.
- Traversal.VisitNeighbours: the four-move loop inside `shortestSafeJourney` is a separate method in the model. It works on the same `visited` set and queue, so the search's behaviour is unchanged, but the model does not keep the source's single method body.
- Traversal.TotalSafeSquares: the exact count is characterised as the size of the origin's safe region, not computed. Evaluating it would mean enumerating about four million cells.
- Coordinates are unbounded integers in the model, where the source uses Java 32-bit `int`. The bounds check runs before any arithmetic, and `ProductFitsInt32` shows the product then fits in 32 bits. `StepRange` shows a neighbour of a safe cell lies within ±1000, so the coordinate arithmetic cannot overflow either.
- Traversal.ShortestSafeJourney: the carried distance (`current[2] + 1` at RobotGrid.java:102) is an unbounded `nat` in the model. The model does not prove it stays below 2^31, although each distance is at most the number of cells enqueued.
