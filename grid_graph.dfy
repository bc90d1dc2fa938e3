/**
 * The implicit graph the robot moves on: nodes are safe cells, and an edge
 * joins two safe cells one unit apart horizontally or vertically.
 */
module GridGraph {
  import opened Safety

  type Cell = (int, int)

  const Origin: Cell := (0, 0)

  /** The four moves, in the order the traversal tries them: +x, -x, +y, -y. */
  const Directions: seq<(int, int)> := [(1, 0), (-1, 0), (0, 1), (0, -1)]

  predicate IsSafeCell(c: Cell) {
    Safe(c.0, c.1)
  }

  /** One unit move, horizontal or vertical. */
  predicate Adjacent(c: Cell, d: Cell) {
    Abs(c.0 - d.0) + Abs(c.1 - d.1) == 1
  }

  /** The cell reached from c by the k-th move. */
  function Step(c: Cell, k: nat): (d: Cell)
    requires k < |Directions|
    ensures Adjacent(c, d)
  {
    (c.0 + Directions[k].0, c.1 + Directions[k].1)
  }

  /** The four moves reach every neighbour: each adjacent cell is one of the four steps. */
  lemma AdjacentIsStep(c: Cell, d: Cell) returns (k: nat)
    requires Adjacent(c, d)
    ensures k < |Directions| && Step(c, k) == d
  {
    if d.0 == c.0 + 1 { k := 0; }
    else if d.0 == c.0 - 1 { k := 1; }
    else if d.1 == c.1 + 1 { k := 2; }
    else { k := 3; }
  }

  /** A neighbour of a safe cell lies within one unit of the bounds. */
  lemma StepRange(c: Cell, k: nat)
    requires k < |Directions| && IsSafeCell(c)
    ensures MIN - 1 <= Step(c, k).0 <= MAX + 1 && MIN - 1 <= Step(c, k).1 <= MAX + 1
  {
  }

  /** The whole bounded grid, [MIN, MAX] x [MIN, MAX]. */
  ghost function Grid(): set<Cell> {
    set x: int, y: int | MIN <= x <= MAX && MIN <= y <= MAX :: (x, y)
  }

  lemma SafeInGrid(c: Cell)
    requires IsSafeCell(c)
    ensures c in Grid()
  {
    var (x, y) := c;
    assert MIN <= x <= MAX && MIN <= y <= MAX;
  }

  ghost function Column(x: int, lo: int, hi: int): set<Cell> {
    set y: int | lo <= y < hi :: (x, y)
  }

  ghost function Block(xlo: int, xhi: int, lo: int, hi: int): set<Cell> {
    set x: int, y: int | xlo <= x < xhi && lo <= y < hi :: (x, y)
  }

  lemma {:induction false} ColumnSize(x: int, lo: int, hi: int)
    requires lo <= hi
    ensures |Column(x, lo, hi)| == hi - lo
    decreases hi - lo
  {
    if lo < hi {
      ColumnSize(x, lo, hi - 1);
      assert Column(x, lo, hi) == Column(x, lo, hi - 1) + {(x, hi - 1)};
    } else {
      assert Column(x, lo, hi) == {};
    }
  }

  lemma {:induction false} BlockSize(xlo: int, xhi: int, lo: int, hi: int)
    requires xlo <= xhi && lo <= hi
    ensures |Block(xlo, xhi, lo, hi)| == (xhi - xlo) * (hi - lo)
    decreases xhi - xlo
  {
    if xlo < xhi {
      BlockSize(xlo, xhi - 1, lo, hi);
      ColumnSize(xhi - 1, lo, hi);
      assert Block(xlo, xhi, lo, hi) == Block(xlo, xhi - 1, lo, hi) + Column(xhi - 1, lo, hi);
      assert Block(xlo, xhi - 1, lo, hi) * Column(xhi - 1, lo, hi) == {};
      assert (xhi - xlo) * (hi - lo) == (xhi - 1 - xlo) * (hi - lo) + (hi - lo);
    } else {
      assert Block(xlo, xhi, lo, hi) == {};
    }
  }

  /** The grid holds 1999 * 1999 cells. */
  lemma GridSize()
    ensures |Grid()| == 1999 * 1999
  {
    BlockSize(MIN, MAX + 1, MIN, MAX + 1);
    assert Grid() == Block(MIN, MAX + 1, MIN, MAX + 1);
  }

  /** A walk: a non-empty sequence of safe cells, each one move from the next. */
  ghost predicate IsWalk(p: seq<Cell>) {
    && |p| > 0
    && (forall i :: 0 <= i < |p| ==> IsSafeCell(p[i]))
    && (forall i :: 0 < i < |p| ==> Adjacent(p[i - 1], p[i]))
  }

  /** p is a walk from s to t; it makes |p| - 1 moves. */
  ghost predicate Joins(p: seq<Cell>, s: Cell, t: Cell) {
    IsWalk(p) && p[0] == s && p[|p| - 1] == t
  }

  ghost predicate Reachable(s: Cell, t: Cell) {
    exists p :: Joins(p, s, t)
  }

  /** Some walk from s to t makes exactly n moves. */
  ghost predicate WalkOfLength(s: Cell, t: Cell, n: nat) {
    exists p :: Joins(p, s, t) && |p| == n + 1
  }

  /** d is the least number of moves of any walk from s to t. */
  ghost predicate ShortestDistance(s: Cell, t: Cell, d: nat) {
    WalkOfLength(s, t, d) && forall p :: Joins(p, s, t) ==> d + 1 <= |p|
  }

  /** The cells reachable from the origin through safe cells. */
  ghost function SafeRegion(): set<Cell> {
    set c | c in Grid() && Reachable(Origin, c)
  }

  /** Appending one move to a walk gives a walk one move longer. */
  lemma ExtendWalk(s: Cell, c: Cell, n: nat, d: Cell)
    requires WalkOfLength(s, c, n)
    requires IsSafeCell(d) && Adjacent(c, d)
    ensures WalkOfLength(s, d, n + 1)
  {
    var p :| Joins(p, s, c) && |p| == n + 1;
    var q := p + [d];
    assert Joins(q, s, d);
  }

  /** Reachability extends across one more move onto a safe cell. */
  lemma ReachableStep(s: Cell, c: Cell, d: Cell)
    requires Reachable(s, c)
    requires IsSafeCell(d) && Adjacent(c, d)
    ensures Reachable(s, d)
  {
    var p :| Joins(p, s, c);
    assert Joins(p + [d], s, d);
  }

  lemma ReachableWalk(s: Cell, t: Cell, n: nat)
    requires WalkOfLength(s, t, n)
    ensures Reachable(s, t)
  {
  }

  /** Both ends of a walk are safe: nothing is reachable from or to an unsafe cell. */
  lemma ReachableEndsSafe(s: Cell, t: Cell)
    requires Reachable(s, t)
    ensures IsSafeCell(s) && IsSafeCell(t)
  {
  }

  function Reverse(p: seq<Cell>): (r: seq<Cell>)
    ensures |r| == |p|
    ensures forall i :: 0 <= i < |p| ==> r[i] == p[|p| - 1 - i]
  {
    if p == [] then [] else Reverse(p[1..]) + [p[0]]
  }

  /** The graph is undirected: a walk read backwards is a walk. */
  lemma ReverseWalk(p: seq<Cell>, s: Cell, t: Cell)
    requires Joins(p, s, t)
    ensures Joins(Reverse(p), t, s)
  {
    var r := Reverse(p);
    forall i | 0 < i < |r|
      ensures Adjacent(r[i - 1], r[i])
    {
      assert r[i - 1] == p[|p| - i] && r[i] == p[|p| - 1 - i];
      assert Adjacent(p[|p| - i - 1], p[|p| - i]);
    }
  }

  /** Shortest distances are symmetric. */
  lemma ShortestDistanceSymmetric(s: Cell, t: Cell, d: nat)
    requires ShortestDistance(s, t, d)
    ensures ShortestDistance(t, s, d)
  {
    var p :| Joins(p, s, t) && |p| == d + 1;
    ReverseWalk(p, s, t);
    forall q | Joins(q, t, s)
      ensures d + 1 <= |q|
    {
      ReverseWalk(q, t, s);
    }
  }

  /** A shortest distance, when it exists, is unique. */
  lemma ShortestDistanceUnique(s: Cell, t: Cell, d: nat, e: nat)
    requires ShortestDistance(s, t, d) && ShortestDistance(s, t, e)
    ensures d == e
  {
    var p :| Joins(p, s, t) && |p| == d + 1;
    var q :| Joins(q, s, t) && |q| == e + 1;
  }

  function Manhattan(s: Cell, t: Cell): nat {
    Abs(s.0 - t.0) + Abs(s.1 - t.1)
  }

  /** Every walk makes at least as many moves as the Manhattan distance between its ends. */
  lemma {:induction false} WalkAtLeastManhattan(p: seq<Cell>, s: Cell, t: Cell)
    requires Joins(p, s, t)
    ensures Manhattan(s, t) <= |p| - 1
  {
    if |p| > 1 {
      var q := p[..|p| - 1];
      WalkAtLeastManhattan(q, s, q[|q| - 1]);
      assert Adjacent(p[|p| - 2], p[|p| - 1]);
    }
  }

  /** The Manhattan distance is a lower bound on the shortest distance. */
  lemma ManhattanLowerBound(s: Cell, t: Cell, d: nat)
    requires ShortestDistance(s, t, d)
    ensures Manhattan(s, t) <= d
  {
    var p :| Joins(p, s, t) && |p| == d + 1;
    WalkAtLeastManhattan(p, s, t);
  }

  /** A walk that makes exactly as many moves as the Manhattan distance between its ends is a shortest one. */
  lemma ManhattanWalkIsShortest(p: seq<Cell>, s: Cell, t: Cell)
    requires Joins(p, s, t) && |p| - 1 == Manhattan(s, t)
    ensures ShortestDistance(s, t, |p| - 1)
  {
    forall q | Joins(q, s, t)
      ensures |p| <= |q|
    {
      WalkAtLeastManhattan(q, s, t);
    }
  }

  /** The tests' journey to a direct neighbour takes one move. */
  lemma NeighbourJourney()
    ensures ShortestDistance((0, 0), (1, 0), 1)
  {
    ManhattanWalkIsShortest([(0, 0), (1, 0)], (0, 0), (1, 0));
  }

  /** The tests' diagonal journey to (2, 2) takes four moves: along the x axis, then up. */
  lemma DiagonalJourney()
    ensures ShortestDistance((0, 0), (2, 2), 4)
  {
    var p := [(0, 0), (1, 0), (2, 0), (2, 1), (2, 2)];
    assert IsSafeCell((2, 1)) && IsSafeCell((2, 2));
    ManhattanWalkIsShortest(p, (0, 0), (2, 2));
  }

  /** The tests' journey to (3, 3) takes six moves, its Manhattan distance. */
  lemma ManhattanJourney()
    ensures ShortestDistance((0, 0), (3, 3), 6)
  {
    var p := [(0, 0), (1, 0), (2, 0), (3, 0), (3, 1), (3, 2), (3, 3)];
    assert IsSafeCell((3, 1)) && IsSafeCell((3, 2)) && IsSafeCell((3, 3));
    ManhattanWalkIsShortest(p, (0, 0), (3, 3));
  }

  /** A safe cell is at distance 0 from itself. */
  lemma ShortestDistanceSelf(c: Cell)
    requires IsSafeCell(c)
    ensures ShortestDistance(c, c, 0)
  {
    assert Joins([c], c, c);
  }

  lemma SubsetSize(a: set<Cell>, b: set<Cell>)
    requires a <= b
    ensures |a| <= |b|
  {
    assert b == a + (b - a);
  }

  /** A safe cell one move from the origin is in the safe region. */
  lemma OriginNeighbourReachable(c: Cell)
    requires IsSafeCell(c) && Adjacent(Origin, c)
    ensures c in SafeRegion()
  {
    assert Joins([Origin, c], Origin, c);
    SafeInGrid(c);
  }

  /** The origin and its four neighbours are reachable from the origin, and nothing outside the grid is. */
  lemma SafeRegionSize()
    ensures 4 < |SafeRegion()| <= 1999 * 1999
  {
    assert Joins([Origin], Origin, Origin);
    SafeInGrid(Origin);
    OriginNeighbourReachable((1, 0));
    OriginNeighbourReachable((-1, 0));
    OriginNeighbourReachable((0, 1));
    OriginNeighbourReachable((0, -1));
    var near := {Origin, (1, 0), (-1, 0), (0, 1), (0, -1)};
    assert |near| == 5;
    SubsetSize(near, SafeRegion());
    SubsetSize(SafeRegion(), Grid());
    GridSize();
  }
}
