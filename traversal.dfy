/**
 * The traversal engine: breadth-first search over the safe cells, from the
 * origin to count the reachable cells, and between two cells to measure the
 * shortest safe journey.
 *
 * The search keeps a `visited` set of cells and a FIFO `queue`. The proofs
 * follow the search with ghost state: `order` lists every entry ever
 * enqueued, in enqueue order, and `head` counts the entries already polled,
 * so that `queue == order[head..]`.
 */
module Traversal {
  import opened Safety
  import opened GridGraph

  /** Appending to the enqueued entries appends to the queue, the unpolled suffix. */
  lemma SuffixAppend<T>(order: seq<T>, head: nat, e: T)
    requires head <= |order|
    ensures (order + [e])[head..] == order[head..] + [e]
  {
  }

  /** Marking a new cell visited leaves fewer unvisited cells in the grid. */
  lemma FewerUnvisited(before: set<Cell>, visited: set<Cell>)
    requires before <= visited <= Grid() && before != visited
    ensures Grid() - visited < Grid() - before
  {
    var c :| c in visited && c !in before;
    assert c in Grid() - before;
  }

  // ---------------------------------------------------------------------
  // Counting the safe cells reachable from the origin
  // ---------------------------------------------------------------------

  /** Every safe neighbour of c is in `visited`. */
  ghost predicate Expanded(c: Cell, visited: set<Cell>) {
    forall k :: 0 <= k < |Directions| && IsSafeCell(Step(c, k)) ==> Step(c, k) in visited
  }

  /** No cell occurs twice. */
  ghost predicate Distinct(order: seq<Cell>) {
    forall i, j :: 0 <= i < j < |order| ==> order[i] != order[j]
  }

  /**
   * What holds of the flood from the origin whenever `head` cells have been
   * polled and expanded: `visited` holds exactly the enqueued cells, each
   * enqueued once, all of them safe and reachable from the origin.
   */
  ghost predicate FloodState(order: seq<Cell>, visited: set<Cell>, head: nat) {
    && head <= |order| && Origin in visited
    && (forall i :: 0 <= i < |order| ==> order[i] in visited)
    && (forall c :: c in visited ==> c in order)
    && Distinct(order)
    && (forall c :: c in visited ==> Reachable(Origin, c) && c in Grid())
    && (forall i :: 0 <= i < head ==> Expanded(order[i], visited))
  }

  /** The first k moves from the polled cell `cur` have been tried. */
  ghost predicate TriedSteps(visited: set<Cell>, cur: Cell, k: nat) {
    forall k' :: 0 <= k' < k && k' < |Directions| && IsSafeCell(Step(cur, k')) ==> Step(cur, k') in visited
  }

  /** Marking and enqueueing a fresh safe neighbour of the polled cell keeps the flood state. */
  lemma FloodEnqueue(order: seq<Cell>, visited: set<Cell>, head: nat, cur: Cell, k: nat, n: Cell,
                      order': seq<Cell>, visited': set<Cell>)
    requires FloodState(order, visited, head) && head < |order| && cur == order[head]
    requires TriedSteps(visited, cur, k)
    requires k < |Directions| && n == Step(cur, k)
    requires n !in visited && IsSafeCell(n)
    requires order' == order + [n] && visited' == visited + {n}
    ensures FloodState(order', visited', head)
    ensures TriedSteps(visited', cur, k + 1)
  {
    ReachableStep(Origin, cur, n);
    SafeInGrid(n);
    forall i, j | 0 <= i < j < |order'|
      ensures order'[i] != order'[j]
    {
      if j < |order| {
        assert order'[i] == order[i] && order'[j] == order[j];
      } else {
        assert order'[i] == order[i] && order[i] in visited;
      }
    }
  }

  /** A neighbour already visited, or unsafe, needs no new entry. */
  lemma FloodSkip(visited: set<Cell>, cur: Cell, k: nat, n: Cell)
    requires TriedSteps(visited, cur, k)
    requires k < |Directions| && n == Step(cur, k)
    requires n in visited || !IsSafeCell(n)
    ensures TriedSteps(visited, cur, k + 1)
  {
  }

  /** After all four moves the polled cell is expanded, and polling moves on. */
  lemma FloodPoll(order: seq<Cell>, visited: set<Cell>, head: nat)
    requires FloodState(order, visited, head) && head < |order|
    requires TriedSteps(visited, order[head], |Directions|)
    ensures FloodState(order, visited, head + 1)
  {
    assert Expanded(order[head], visited);
  }

  /** A set that holds s and every safe neighbour of its members holds the end of every walk from s. */
  lemma {:induction false} ClosedSetHoldsWalks(visited: set<Cell>, p: seq<Cell>, s: Cell, t: Cell)
    requires s in visited
    requires forall c :: c in visited ==> Expanded(c, visited)
    requires Joins(p, s, t)
    ensures t in visited
  {
    if |p| > 1 {
      var q := p[..|p| - 1];
      var u := q[|q| - 1];
      ClosedSetHoldsWalks(visited, q, s, u);
      assert Adjacent(p[|p| - 2], p[|p| - 1]);
      var k := AdjacentIsStep(u, t);
      assert Expanded(u, visited);
    }
  }

  /** When the queue runs dry, `visited` is exactly the safe region of the origin. */
  lemma FloodComplete(order: seq<Cell>, visited: set<Cell>)
    requires FloodState(order, visited, |order|)
    ensures visited == SafeRegion()
  {
    forall c | c in visited
      ensures Expanded(c, visited)
    {
      var i :| 0 <= i < |order| && order[i] == c;
    }
    forall c | c in SafeRegion()
      ensures c in visited
    {
      var p :| Joins(p, Origin, c);
      ClosedSetHoldsWalks(visited, p, Origin, c);
    }
  }

  /**
   * The number of safe cells reachable from the origin: breadth-first search
   * from (0, 0) over the four moves, counting the cells it marks visited.
   */
  method TotalSafeSquares() returns (count: int)
    ensures count == |SafeRegion()|
    ensures 4 < count <= 1999 * 1999
  {
    var visited: set<Cell> := {Origin};
    var queue: seq<Cell> := [Origin];
    ghost var order: seq<Cell> := [Origin];
    ghost var head: nat := 0;
    assert Joins([Origin], Origin, Origin);
    SafeInGrid(Origin);

    while queue != []
      invariant FloodState(order, visited, head)
      invariant queue == order[head..]
      decreases Grid() - visited, |queue|
    {
      var current := queue[0];
      queue := queue[1..];
      ghost var before, orderBefore := visited, order;
      for k := 0 to |Directions|
        invariant FloodState(order, visited, head)
        invariant head < |order| && current == order[head] && queue == order[head + 1..]
        invariant TriedSteps(visited, current, k)
        invariant before <= visited && (visited == before ==> order == orderBefore)
      {
        var nx := current.0 + Directions[k].0;
        var ny := current.1 + Directions[k].1;
        if (nx, ny) !in visited {
          var safe := IsSafe(nx, ny);
          if safe {
            SuffixAppend(order, head + 1, (nx, ny));
            ghost var order0, visited0 := order, visited;
            visited := visited + {(nx, ny)};
            queue := queue + [(nx, ny)];
            order := order + [(nx, ny)];
            FloodEnqueue(order0, visited0, head, current, k, (nx, ny), order, visited);
          } else {
            FloodSkip(visited, current, k, (nx, ny));
          }
        } else {
          FloodSkip(visited, current, k, (nx, ny));
        }
      }
      FloodPoll(order, visited, head);
      if visited != before {
        FewerUnvisited(before, visited);
      }
      head := head + 1;
    }

    FloodComplete(order, visited);
    SafeRegionSize();
    count := |visited|;
  }

  // ---------------------------------------------------------------------
  // The shortest safe journey between two cells
  // ---------------------------------------------------------------------

  /** A queue entry: a cell and the number of moves that reached it. */
  datatype Entry = Entry(cell: Cell, dist: nat)

  /** The distance carried by the i-th entry. */
  ghost function DistAt(order: seq<Entry>, i: nat): nat
    requires i < |order|
  {
    order[i].dist
  }

  /** The i-th entry's cell is indexed at position i. */
  ghost predicate SlotAt(order: seq<Entry>, index: map<Cell, nat>, i: nat)
    requires i < |order|
  {
    order[i].cell in index && index[order[i].cell] == i
  }

  /** `index` gives the position of each cell in `order`; so no cell is enqueued twice. */
  ghost predicate Indexed(order: seq<Entry>, index: map<Cell, nat>) {
    && (forall c :: c in index ==> index[c] < |order| && order[index[c]].cell == c)
    && (forall i :: 0 <= i < |order| ==> SlotAt(order, index, i))
  }

  /** Cell c has been enqueued with a distance of at most `bound`. */
  ghost predicate Covered(order: seq<Entry>, index: map<Cell, nat>, c: Cell, bound: int) {
    c in index && index[c] < |order| && DistAt(order, index[c]) <= bound
  }

  /** Every safe neighbour of the i-th entry has been enqueued at most one move further out. */
  ghost predicate ExpandedAt(order: seq<Entry>, index: map<Cell, nat>, i: nat)
    requires i < |order|
  {
    forall k :: 0 <= k < |Directions| && IsSafeCell(Step(order[i].cell, k)) ==>
      Covered(order, index, Step(order[i].cell, k), DistAt(order, i) + 1)
  }

  /** Distances never decrease along the queue. */
  ghost predicate Ascending(order: seq<Entry>) {
    forall i, j :: 0 <= i <= j < |order| ==> DistAt(order, i) <= DistAt(order, j)
  }

  /** No entry's distance exceeds `bound`. */
  ghost predicate Spread(order: seq<Entry>, bound: int) {
    forall j :: 0 <= j < |order| ==> DistAt(order, j) <= bound
  }

  /** The i-th entry's distance is the length of some safe walk from s to its cell. */
  ghost predicate Realised(s: Cell, order: seq<Entry>, i: nat)
    requires i < |order|
  {
    WalkOfLength(s, order[i].cell, order[i].dist)
  }

  /**
   * What holds of the search from s towards t whenever `head` entries have
   * been polled and expanded: `visited` holds exactly the enqueued cells,
   * each enqueued once, distances ascend along the queue and are realised by
   * safe walks, and the target has not been polled yet.
   */
  ghost predicate SearchState(s: Cell, t: Cell, order: seq<Entry>, index: map<Cell, nat>, visited: set<Cell>, head: nat) {
    && head <= |order| && 0 < |order| && order[0] == Entry(s, 0)
    && Indexed(order, index) && visited == index.Keys && visited <= Grid()
    && Ascending(order)
    && (forall i :: 0 <= i < |order| ==> Realised(s, order, i))
    && (forall i :: 0 <= i < head ==> ExpandedAt(order, index, i))
    && (forall i :: 0 <= i < head ==> order[i].cell != t)
  }

  /** The first k moves from the polled entry `cur` have been tried. */
  ghost predicate TriedMoves(order: seq<Entry>, index: map<Cell, nat>, cur: Entry, k: nat) {
    forall k' :: 0 <= k' < k && k' < |Directions| && IsSafeCell(Step(cur.cell, k')) ==>
      Covered(order, index, Step(cur.cell, k'), cur.dist + 1)
  }

  /**
   * Breadth-first completeness: while the entries before `head` are
   * expanded, a walk from s either is longer than the distance at `head`
   * or ends in a cell enqueued with a distance no greater than the walk.
   */
  lemma {:induction false} ShortWalksCovered(order: seq<Entry>, index: map<Cell, nat>, head: nat, s: Cell, p: seq<Cell>, t: Cell)
    requires head < |order| && order[0] == Entry(s, 0)
    requires Indexed(order, index) && Ascending(order)
    requires forall i :: 0 <= i < head ==> ExpandedAt(order, index, i)
    requires Joins(p, s, t)
    ensures DistAt(order, head) < |p| - 1 || Covered(order, index, t, |p| - 1)
  {
    if |p| == 1 {
      assert SlotAt(order, index, 0);
    } else {
      var q := p[..|p| - 1];
      var u := q[|q| - 1];
      ShortWalksCovered(order, index, head, s, q, u);
      if Covered(order, index, u, |q| - 1) {
        var j := index[u];
        if head <= j {
          assert DistAt(order, head) <= DistAt(order, j);
        } else {
          assert Adjacent(p[|p| - 2], p[|p| - 1]);
          var k := AdjacentIsStep(u, t);
          assert ExpandedAt(order, index, j);
        }
      }
    }
  }

  /** Once every entry is expanded, every walk from s ends in an enqueued cell. */
  lemma {:induction false} ExpandedHoldsWalks(order: seq<Entry>, index: map<Cell, nat>, s: Cell, p: seq<Cell>, t: Cell)
    requires 0 < |order| && order[0].cell == s
    requires Indexed(order, index)
    requires forall i :: 0 <= i < |order| ==> ExpandedAt(order, index, i)
    requires Joins(p, s, t)
    ensures t in index
  {
    if |p| == 1 {
      assert SlotAt(order, index, 0);
    } else {
      var q := p[..|p| - 1];
      var u := q[|q| - 1];
      ExpandedHoldsWalks(order, index, s, q, u);
      assert Adjacent(p[|p| - 2], p[|p| - 1]);
      var k := AdjacentIsStep(u, t);
      assert ExpandedAt(order, index, index[u]);
    }
  }

  /** The search starts with the start cell alone, at distance 0. */
  lemma InitialState(s: Cell, t: Cell)
    requires IsSafeCell(s)
    ensures SearchState(s, t, [Entry(s, 0)], map[s := 0], {s}, 0)
  {
    assert Joins([s], s, s);
    assert Realised(s, [Entry(s, 0)], 0);
    SafeInGrid(s);
  }

  /** Appending an entry for a fresh cell keeps the index exact. */
  lemma AppendIndexed(order: seq<Entry>, index: map<Cell, nat>, e: Entry)
    requires Indexed(order, index) && e.cell !in index
    ensures Indexed(order + [e], index[e.cell := |order|])
  {
    var order', index' := order + [e], index[e.cell := |order|];
    forall i | 0 <= i < |order'|
      ensures SlotAt(order', index', i)
    {
      if i < |order| {
        assert SlotAt(order, index, i);
        assert order'[i] == order[i];
      }
    }
  }

  /** Appending an entry for a fresh cell keeps every covered cell covered. */
  lemma AppendCovered(order: seq<Entry>, index: map<Cell, nat>, e: Entry, c: Cell, bound: int)
    requires Indexed(order, index) && e.cell !in index
    requires Covered(order, index, c, bound)
    ensures Covered(order + [e], index[e.cell := |order|], c, bound)
  {
    assert DistAt(order + [e], index[c]) == DistAt(order, index[c]);
  }

  /** Appending an entry for a fresh cell keeps the polled entries expanded. */
  lemma AppendExpanded(order: seq<Entry>, index: map<Cell, nat>, head: nat, e: Entry, order': seq<Entry>, index': map<Cell, nat>)
    requires Indexed(order, index) && e.cell !in index && head <= |order|
    requires order' == order + [e] && index' == index[e.cell := |order|]
    requires forall i :: 0 <= i < head ==> ExpandedAt(order, index, i)
    ensures forall i :: 0 <= i < head ==> ExpandedAt(order', index', i)
  {
    forall i | 0 <= i < head
      ensures ExpandedAt(order', index', i)
    {
      assert ExpandedAt(order, index, i);
      assert order'[i] == order[i];
      assert DistAt(order', i) == DistAt(order, i);
      forall k | 0 <= k < |Directions| && IsSafeCell(Step(order[i].cell, k))
        ensures Covered(order', index', Step(order'[i].cell, k), DistAt(order', i) + 1)
      {
        AppendCovered(order, index, e, Step(order[i].cell, k), DistAt(order, i) + 1);
      }
    }
  }

  /** Appending an entry no closer than any other keeps distances ascending. */
  lemma AppendAscending(order: seq<Entry>, e: Entry)
    requires Ascending(order) && Spread(order, e.dist)
    ensures Ascending(order + [e])
  {
    var order' := order + [e];
    forall i, j | 0 <= i <= j < |order'|
      ensures DistAt(order', i) <= DistAt(order', j)
    {
      if j < |order| {
        assert DistAt(order', i) == DistAt(order, i) && DistAt(order', j) == DistAt(order, j);
      } else if i < |order| {
        assert DistAt(order', i) == DistAt(order, i);
      }
    }
  }

  /** Enqueueing a fresh safe neighbour n of the polled entry keeps the search state. */
  lemma EnqueueKeepsState(s: Cell, t: Cell, order: seq<Entry>, index: map<Cell, nat>, visited: set<Cell>, head: nat,
                           cur: Entry, k: nat, e: Entry,
                           order': seq<Entry>, index': map<Cell, nat>, visited': set<Cell>)
    requires SearchState(s, t, order, index, visited, head)
    requires head < |order| && cur == order[head] && Spread(order, DistAt(order, head) + 1)
    requires TriedMoves(order, index, cur, k)
    requires k < |Directions| && e == Entry(Step(cur.cell, k), cur.dist + 1)
    requires e.cell !in visited && IsSafeCell(e.cell)
    requires order' == order + [e] && index' == index[e.cell := |order|] && visited' == visited + {e.cell}
    ensures SearchState(s, t, order', index', visited', head)
    ensures Spread(order', DistAt(order', head) + 1)
    ensures TriedMoves(order', index', cur, k + 1)
  {
    var n := e.cell;
    AppendIndexed(order, index, e);
    AppendExpanded(order, index, head, e, order', index');
    assert DistAt(order, head) == cur.dist;
    AppendAscending(order, e);
    assert Realised(s, order, head);
    ExtendWalk(s, cur.cell, cur.dist, n);
    forall i | 0 <= i < |order'|
      ensures Realised(s, order', i)
    {
      if i < |order| {
        assert Realised(s, order, i);
        assert order'[i] == order[i];
      }
    }
    forall j | 0 <= j < |order'|
      ensures DistAt(order', j) <= cur.dist + 1
    {
      if j < |order| {
        assert DistAt(order', j) == DistAt(order, j);
      }
    }
    forall k' | 0 <= k' < k + 1 && k' < |Directions| && IsSafeCell(Step(cur.cell, k'))
      ensures Covered(order', index', Step(cur.cell, k'), cur.dist + 1)
    {
      if k' < k {
        AppendCovered(order, index, e, Step(cur.cell, k'), cur.dist + 1);
      }
    }
    SafeInGrid(n);
  }

  /** A neighbour already visited was enqueued at most one move further than the polled entry. */
  lemma VisitedNeighbourTried(order: seq<Entry>, index: map<Cell, nat>, head: nat, k: nat, n: Cell)
    requires head < |order| && Indexed(order, index) && Spread(order, DistAt(order, head) + 1)
    requires TriedMoves(order, index, order[head], k)
    requires k < |Directions| && n == Step(order[head].cell, k)
    requires n in index
    ensures TriedMoves(order, index, order[head], k + 1)
  {
    assert DistAt(order, index[n]) <= DistAt(order, head) + 1;
  }

  /** An unsafe neighbour needs no entry. */
  lemma UnsafeNeighbourTried(order: seq<Entry>, index: map<Cell, nat>, cur: Entry, k: nat)
    requires TriedMoves(order, index, cur, k)
    requires k < |Directions| && !IsSafeCell(Step(cur.cell, k))
    ensures TriedMoves(order, index, cur, k + 1)
  {
  }

  /** After all four moves the polled entry is expanded, and polling moves on. */
  lemma PollKeepsState(s: Cell, t: Cell, order: seq<Entry>, index: map<Cell, nat>, visited: set<Cell>, head: nat)
    requires SearchState(s, t, order, index, visited, head)
    requires head < |order| && order[head].cell != t
    requires Spread(order, DistAt(order, head) + 1)
    requires TriedMoves(order, index, order[head], |Directions|)
    ensures SearchState(s, t, order, index, visited, head + 1)
    ensures head + 1 < |order| ==> Spread(order, DistAt(order, head + 1) + 1)
  {
    assert ExpandedAt(order, index, head);
    if head + 1 < |order| {
      assert DistAt(order, head) <= DistAt(order, head + 1);
    }
  }

  /** When the target is polled, its distance is the shortest distance from the start. */
  lemma PolledTargetIsShortest(s: Cell, t: Cell, order: seq<Entry>, index: map<Cell, nat>, visited: set<Cell>, head: nat)
    requires SearchState(s, t, order, index, visited, head)
    requires head < |order| && order[head].cell == t
    ensures ShortestDistance(s, t, order[head].dist)
  {
    assert Realised(s, order, head);
    assert SlotAt(order, index, head);
    forall p | Joins(p, s, t)
      ensures order[head].dist + 1 <= |p|
    {
      ShortWalksCovered(order, index, head, s, p, t);
    }
  }

  /** When the queue runs dry without polling the target, no safe walk reaches it. */
  lemma ExhaustedUnreachable(s: Cell, t: Cell, order: seq<Entry>, index: map<Cell, nat>, visited: set<Cell>)
    requires SearchState(s, t, order, index, visited, |order|)
    ensures !Reachable(s, t)
  {
    forall p | Joins(p, s, t)
      ensures t in index
    {
      ExpandedHoldsWalks(order, index, s, p, t);
    }
  }

  /**
   * What the inner loop of the journey search has done so far from the
   * polled entry `cur`: it has only appended, to the enqueued entries and to
   * the queue alike, entries one move further out than `cur`, and has marked
   * only safe neighbours of `cur`.
   */
  ghost predicate Grown(order: seq<Entry>, queue: seq<Entry>, visited: set<Cell>, cur: Entry,
                        order': seq<Entry>, queue': seq<Entry>, visited': set<Cell>) {
    && |order| <= |order'| && order'[..|order|] == order && queue' == queue + order'[|order|..]
    && (forall i :: |order| <= i < |order'| ==> order'[i].dist == cur.dist + 1)
    && (forall c :: c in visited' && c !in visited ==> IsSafeCell(c) && Adjacent(cur.cell, c))
  }

  /** Appending one more safe neighbour of `cur`, one move further out, keeps `Grown`. */
  lemma GrowOne(order: seq<Entry>, queue: seq<Entry>, visited: set<Cell>, cur: Entry,
                order0: seq<Entry>, queue0: seq<Entry>, visited0: set<Cell>, e: Entry,
                order': seq<Entry>, queue': seq<Entry>, visited': set<Cell>)
    requires Grown(order, queue, visited, cur, order0, queue0, visited0)
    requires e.dist == cur.dist + 1 && IsSafeCell(e.cell) && Adjacent(cur.cell, e.cell)
    requires order' == order0 + [e] && queue' == queue0 + [e] && visited' == visited0 + {e.cell}
    ensures Grown(order, queue, visited, cur, order', queue', visited')
  {
    assert order'[..|order|] == order0[..|order|];
    assert order'[|order|..] == order0[|order|..] + [e];
  }

  /**
   * The inner loop of the journey search: try the four moves from the polled
   * entry `current`, marking and enqueueing, one move further out, each
   * neighbour not yet visited that is safe. The polled entry is then expanded.
   */
  method VisitNeighbours(ghost s: Cell, ghost t: Cell, current: Entry, visited: set<Cell>, queue: seq<Entry>,
                         ghost order: seq<Entry>, ghost index: map<Cell, nat>, ghost head: nat)
    returns (visited': set<Cell>, queue': seq<Entry>, ghost order': seq<Entry>, ghost index': map<Cell, nat>)
    requires SearchState(s, t, order, index, visited, head)
    requires head < |order| && current == order[head] && current.cell != t
    requires queue == order[head + 1..] && Spread(order, DistAt(order, head) + 1)
    ensures SearchState(s, t, order', index', visited', head + 1)
    ensures queue' == order'[head + 1..]
    ensures head + 1 < |order'| ==> Spread(order', DistAt(order', head + 1) + 1)
    ensures visited <= visited' && (visited' == visited ==> queue' == queue)
    ensures |order| <= |order'| && order'[..|order|] == order && queue' == queue + order'[|order|..]
    ensures forall i :: |order| <= i < |order'| ==> order'[i].dist == current.dist + 1
    ensures forall c :: c in visited' && c !in visited ==> IsSafeCell(c) && Adjacent(current.cell, c)
    ensures forall k :: 0 <= k < |Directions| && IsSafeCell(Step(current.cell, k)) ==> Step(current.cell, k) in visited'
  {
    visited', queue', order', index' := visited, queue, order, index;
    for k := 0 to |Directions|
      invariant SearchState(s, t, order', index', visited', head)
      invariant head < |order'| && current == order'[head] && queue' == order'[head + 1..]
      invariant Spread(order', DistAt(order', head) + 1)
      invariant TriedMoves(order', index', current, k)
      invariant visited <= visited' && (visited' == visited ==> queue' == queue)
      invariant Grown(order, queue, visited, current, order', queue', visited')
    {
      var nx := current.cell.0 + Directions[k].0;
      var ny := current.cell.1 + Directions[k].1;
      if (nx, ny) !in visited' {
        var safe := IsSafe(nx, ny);
        if safe {
          var next := Entry((nx, ny), current.dist + 1);
          SuffixAppend(order', head + 1, next);
          ghost var order0, index0, visited0, queue0 := order', index', visited', queue';
          visited' := visited' + {(nx, ny)};
          queue' := queue' + [next];
          index' := index'[(nx, ny) := |order'|];
          order' := order' + [next];
          EnqueueKeepsState(s, t, order0, index0, visited0, head, current, k, next, order', index', visited');
          GrowOne(order, queue, visited, current, order0, queue0, visited0, next, order', queue', visited');
        } else {
          UnsafeNeighbourTried(order', index', current, k);
        }
      } else {
        VisitedNeighbourTried(order', index', head, k, (nx, ny));
      }
    }
    PollKeepsState(s, t, order', index', visited', head);
    forall k | 0 <= k < |Directions| && IsSafeCell(Step(current.cell, k))
      ensures Step(current.cell, k) in visited'
    {
      assert Covered(order', index', Step(current.cell, k), current.dist + 1);
    }
  }

  /**
   * The length of the shortest safe journey from (a, b) to (x, y), or -1
   * when either end is unsafe or no safe walk joins them.
   */
  method ShortestSafeJourney(a: int, b: int, x: int, y: int) returns (r: int)
    ensures !Safe(a, b) || !Safe(x, y) ==> r == -1
    ensures r == -1 <==> !Reachable((a, b), (x, y))
    ensures r != -1 ==> r >= 0 && ShortestDistance((a, b), (x, y), r)
    ensures (a, b) == (x, y) && Safe(a, b) ==> r == 0
  {
    var startSafe := IsSafe(a, b);
    if !startSafe {
      return -1;
    }
    var targetSafe := IsSafe(x, y);
    if !targetSafe {
      return -1;
    }
    var start, target := (a, b), (x, y);

    var visited: set<Cell> := {start};
    var queue: seq<Entry> := [Entry(start, 0)];
    ghost var order := queue;
    ghost var index: map<Cell, nat> := map[start := 0];
    ghost var head: nat := 0;
    InitialState(start, target);

    while queue != []
      invariant SearchState(start, target, order, index, visited, head)
      invariant queue == order[head..]
      invariant head < |order| ==> Spread(order, DistAt(order, head) + 1)
      decreases Grid() - visited, |queue|
    {
      var current := queue[0];
      queue := queue[1..];

      if current.cell == target {
        PolledTargetIsShortest(start, target, order, index, visited, head);
        ReachableWalk(start, target, current.dist);
        if start == target {
          assert Joins([start], start, target);
        }
        return current.dist;
      }

      ghost var before := visited;
      visited, queue, order, index := VisitNeighbours(start, target, current, visited, queue, order, index, head);
      if visited != before {
        FewerUnvisited(before, visited);
      }
      head := head + 1;
    }

    ExhaustedUnreachable(start, target, order, index, visited);
    return -1;
  }
}
