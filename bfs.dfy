/** graph_distance: breadth-first search over the adjacency map with a FIFO
    list as the queue and a set of visited cells. A cell is marked visited when
    it is popped, not when it is pushed, so the queue may hold the same cell
    more than once. */
module Bfs {
  import opened Grid

  datatype Option<T> = None | Some(value: T)

  /** A queue entry: a cell and the hop count it was reached with. */
  type Entry = (Cell, nat)

  /** Every listed neighbour has its own entry, so `graph[node]` is defined for
      every node the search can pop. */
  ghost predicate Closed(g: Graph) {
    forall c, n :: c in g && n in g[c] ==> n in g
  }

  /** The grid graph lists only cells that have their own entry. */
  lemma GridGraphClosed(g: Graph)
    requires IsGridGraph(g)
    ensures Closed(g)
  {
    GridGraphSymmetric(g);
  }

  /** The entries the inner `for neighbor in graph[node]` loop appends: each
      listed neighbour that is not yet visited, in list order, at hop count `d`. */
  function Unvisited(ns: seq<Cell>, visited: set<Cell>, d: nat): seq<Entry> {
    if ns == [] then []
    else
      var init, last := ns[..|ns| - 1], ns[|ns| - 1];
      Unvisited(init, visited, d) + (if last in visited then [] else [(last, d)])
  }

  /** Only unvisited listed neighbours are appended, each at hop count `d`. */
  lemma {:induction false} UnvisitedMembers(ns: seq<Cell>, visited: set<Cell>, d: nat)
    ensures forall e :: e in Unvisited(ns, visited, d) ==> e.0 in ns && e.0 !in visited && e.1 == d
  {
    if ns != [] {
      var init, last := ns[..|ns| - 1], ns[|ns| - 1];
      assert ns == init + [last];
      UnvisitedMembers(init, visited, d);
    }
  }

  /** Every unvisited listed neighbour is appended, at hop count `d`. */
  lemma {:induction false} UnvisitedHas(ns: seq<Cell>, visited: set<Cell>, d: nat, n: Cell)
    requires n in ns && n !in visited
    ensures (n, d) in Unvisited(ns, visited, d)
  {
    var init, last := ns[..|ns| - 1], ns[|ns| - 1];
    assert ns == init + [last];
    if n != last {
      UnvisitedHas(init, visited, d, n);
    }
  }

  /** Number of queue entries whose cell has already been visited. */
  function VisitedCount(q: seq<Entry>, visited: set<Cell>): nat {
    if q == [] then 0
    else (if q[0].0 in visited then 1 else 0) + VisitedCount(q[1..], visited)
  }

  /** The count is additive over concatenation. */
  lemma {:induction false} VisitedCountAppend(a: seq<Entry>, b: seq<Entry>, visited: set<Cell>)
    ensures VisitedCount(a + b, visited) == VisitedCount(a, visited) + VisitedCount(b, visited)
  {
    if a != [] {
      assert (a + b)[1..] == a[1..] + b;
      VisitedCountAppend(a[1..], b, visited);
    } else {
      assert a + b == b;
    }
  }

  /** A queue part naming no visited cell counts zero. */
  lemma {:induction false} VisitedCountNone(q: seq<Entry>, visited: set<Cell>)
    requires forall e :: e in q ==> e.0 !in visited
    ensures VisitedCount(q, visited) == 0
  {
    if q != [] {
      assert q[0] in q;
      assert forall e :: e in q[1..] ==> e in q;
      VisitedCountNone(q[1..], visited);
    }
  }

  /** Hop counts never decrease along the queue. */
  ghost predicate Sorted(q: seq<Entry>) {
    forall i, j :: 0 <= i < j < |q| ==> q[i].1 <= q[j].1
  }

  /** Every queued hop count is `level` or `level + 1`. */
  ghost predicate Within(q: seq<Entry>, level: nat) {
    forall e :: e in q ==> level <= e.1 <= level + 1
  }

  /** Each queued hop count is at least the Manhattan distance from start. */
  ghost predicate Reached(start: Cell, q: seq<Entry>) {
    forall e :: e in q ==> Manhattan(start, e.0) <= e.1
  }

  /** Every visited cell lies within `level` steps of start. */
  ghost predicate Settled(start: Cell, visited: set<Cell>, level: nat) {
    forall v :: v in visited ==> Manhattan(start, v) <= level
  }

  /** The entry lies on a shortest route from start to end. */
  ghost predicate OnShortestPath(start: Cell, end: Cell, e: Entry) {
    e.1 + Manhattan(e.0, end) == Manhattan(start, end)
  }

  /** When the front entry holds `end`, its hop count is the Manhattan distance. */
  lemma FrontIsShortest(start: Cell, end: Cell, q: seq<Entry>, good: Entry)
    requires q != [] && q[0].0 == end
    requires Sorted(q) && Reached(start, q)
    requires good in q && OnShortestPath(start, end, good)
    ensures q[0].1 == Manhattan(start, end)
  {
    var k :| 0 <= k < |q| && q[k] == good;
    assert q[0] in q;
  }

  /** The queue after one round that pops a cell other than `end`: the rest of
      the queue, then the popped cell's unvisited neighbours one hop further. */
  function Next(g: Graph, queue: seq<Entry>, visited: set<Cell>): seq<Entry>
    requires queue != [] && queue[0].0 in g
  {
    queue[1..] + Unvisited(g[queue[0].0], visited + {queue[0].0}, queue[0].1 + 1)
  }

  /** In a closed graph a round only queues cells of the graph. */
  lemma NextInGraph(g: Graph, queue: seq<Entry>, visited: set<Cell>)
    requires Closed(g) && queue != [] && forall e :: e in queue ==> e.0 in g
    ensures forall e :: e in Next(g, queue, visited) ==> e.0 in g
  {
    var node := queue[0].0;
    assert queue[0] in queue;
    UnvisitedMembers(g[node], visited + {node}, queue[0].1 + 1);
    assert forall e :: e in queue[1..] ==> e in queue;
  }

  /** Popping the front and appending entries one hop further keeps the queue
      sorted and within one level of the popped hop count. */
  lemma PopPushKeepsOrder(before: seq<Entry>, level: nat, pushed: seq<Entry>)
    requires before != [] && Sorted(before) && Within(before, level)
    requires forall e :: e in pushed ==> e.1 == before[0].1 + 1
    ensures Sorted(before[1..] + pushed) && Within(before[1..] + pushed, before[0].1)
  {
    var rest, d := before[1..], before[0].1;
    var q := rest + pushed;
    assert before[0] in before;
    forall i | 0 <= i < |rest| ensures d <= rest[i].1 <= d + 1 {
      assert rest[i] == before[i + 1] && rest[i] in before;
    }
    forall i, j | 0 <= i < j < |q|
      ensures q[i].1 <= q[j].1
    {
      if j < |rest| {
        assert q[i] == before[i + 1] && q[j] == before[j + 1];
      } else {
        assert q[j] == pushed[j - |rest|] && q[j] in pushed;
        if i >= |rest| {
          assert q[i] == pushed[i - |rest|] && q[i] in pushed;
        }
      }
    }
    forall e | e in q ensures d <= e.1 <= d + 1 {
      var k :| 0 <= k < |q| && q[k] == e;
      if k >= |rest| {
        assert q[k] == pushed[k - |rest|] && q[k] in pushed;
      }
    }
  }

  /** What the grid graph guarantees about the neighbour list of a cell
      being expanded: every listed cell is an orthogonal neighbour, and unless
      the cell is `end`, the step toward `end` is listed. */
  ghost predicate GridAt(g: Graph, node: Cell, end: Cell) {
    && node in g
    && (forall n :: n in g[node] ==> Adjacent(node, n))
    && (node != end ==> StepToward(node, end) in g[node])
  }

  /** Every cell of the grid graph has the neighbour list GridAt describes. */
  lemma GridGraphAt(g: Graph, node: Cell, end: Cell)
    requires IsGridGraph(g) && InBounds(end) && node in g
    ensures GridAt(g, node, end)
  {
    NeighborsExact(node);
  }

  /** A round keeps the queue sorted, within one level of the popped hop count. */
  lemma RoundKeepsOrder(g: Graph, before: seq<Entry>, visited: set<Cell>, level: nat)
    requires before != [] && before[0].0 in g && Sorted(before) && Within(before, level)
    ensures Sorted(Next(g, before, visited)) && Within(Next(g, before, visited), before[0].1)
  {
    var node, d := before[0].0, before[0].1;
    UnvisitedMembers(g[node], visited + {node}, d + 1);
    PopPushKeepsOrder(before, level, Unvisited(g[node], visited + {node}, d + 1));
  }

  /** The entries appended for the neighbours of a cell reached in `d` hops
      are reached in `d + 1` hops. */
  lemma PushedReached(g: Graph, start: Cell, end: Cell, node: Cell, d: nat, visited: set<Cell>)
    requires GridAt(g, node, end) && Manhattan(start, node) <= d
    ensures Reached(start, Unvisited(g[node], visited, d + 1))
  {
    var pushed := Unvisited(g[node], visited, d + 1);
    UnvisitedMembers(g[node], visited, d + 1);
    forall e | e in pushed ensures Manhattan(start, e.0) <= e.1 {
      assert Adjacent(node, e.0);
    }
  }

  /** A cell one step nearer to `end` than a cell on a shortest route, with
      every visited cell at most `level <= d` steps from start, is not
      visited, and lies on a shortest route in turn. */
  lemma StepTowardEndFresh(start: Cell, end: Cell, node: Cell, d: nat, seen: set<Cell>, level: nat)
    requires node != end && level <= d && Settled(start, seen, level)
    requires OnShortestPath(start, end, (node, d))
    ensures StepToward(node, end) !in seen
    ensures OnShortestPath(start, end, (StepToward(node, end), d + 1))
  {
    var next := StepToward(node, end);
    assert Manhattan(start, end) <= Manhattan(start, next) + Manhattan(next, end);
  }

  /** When the popped entry was the one on a shortest route to `end` (and is
      not `end` itself), its step toward `end` is appended and lies on a
      shortest route in turn. */
  lemma StepTowardEndPushed(g: Graph, start: Cell, end: Cell, node: Cell, d: nat,
                            seen: set<Cell>, level: nat)
    requires GridAt(g, node, end) && node != end
    requires level <= d && Settled(start, seen, level)
    requires OnShortestPath(start, end, (node, d))
    ensures var next := StepToward(node, end);
      && (next, d + 1) in Unvisited(g[node], seen + {node}, d + 1)
      && OnShortestPath(start, end, (next, d + 1))
  {
    var next := StepToward(node, end);
    StepTowardEndFresh(start, end, node, d, seen, level);
    assert next != node;
    UnvisitedHas(g[node], seen + {node}, d + 1, next);
  }

  /** Expanding the popped cell keeps the distance bounds and keeps some
      entry on a shortest route to `end` in the queue. */
  lemma ExpandKeepsShortestRoute(g: Graph, start: Cell, end: Cell, before: seq<Entry>,
                                 seen: set<Cell>, level: nat, good: Entry) returns (good': Entry)
    requires before != [] && GridAt(g, before[0].0, end) && before[0].0 != end
    requires Within(before, level)
    requires Reached(start, before) && Settled(start, seen, level)
    requires good in before && OnShortestPath(start, end, good)
    ensures Reached(start, Next(g, before, seen)) && Settled(start, seen + {before[0].0}, before[0].1)
    ensures good' in Next(g, before, seen) && OnShortestPath(start, end, good')
  {
    var node, d := before[0].0, before[0].1;
    var rest, pushed := before[1..], Unvisited(g[node], seen + {node}, d + 1);
    assert before[0] in before;
    PushedReached(g, start, end, node, d, seen + {node});
    forall e: Entry | e in rest + pushed ensures Manhattan(start, e.0) <= e.1 {
      if e in rest {
        assert e in before;
      }
    }
    if good in rest {
      good' := good;
    } else {
      assert good == before[0];
      StepTowardEndPushed(g, start, end, node, d, seen, level);
      good' := (StepToward(node, end), d + 1);
    }
  }

  /** The inner loop of graph_distance: append every neighbour that is not
      visited yet, at hop count `d`. */
  method AppendUnvisited(queue: seq<Entry>, neighbors: seq<Cell>, visited: set<Cell>, d: nat)
    returns (queue': seq<Entry>)
    ensures queue' == queue + Unvisited(neighbors, visited, d)
  {
    queue' := queue;
    for i := 0 to |neighbors|
      invariant queue' == queue + Unvisited(neighbors[..i], visited, d)
    {
      assert neighbors[..i + 1][..i] == neighbors[..i];
      if neighbors[i] !in visited {
        queue' := queue' + [(neighbors[i], d)];
      }
    }
    assert neighbors[..|neighbors|] == neighbors;
  }

  /** Visiting a new cell of the graph leaves one cell fewer unvisited. */
  lemma FewerUnvisited(keys: set<Cell>, visited: set<Cell>, node: Cell)
    requires node in keys && node !in visited
    ensures |keys - (visited + {node})| < |keys - visited|
  {
    assert keys - visited == (keys - (visited + {node})) + {node};
  }

  /** Popping an already visited cell lowers the number of queued entries
      of visited cells. */
  lemma FewerStale(g: Graph, queue: seq<Entry>, visited: set<Cell>)
    requires queue != [] && queue[0].0 in g && queue[0].0 in visited
    ensures VisitedCount(Next(g, queue, visited), visited) < VisitedCount(queue, visited)
  {
    var node := queue[0].0;
    var pushed := Unvisited(g[node], visited + {node}, queue[0].1 + 1);
    assert visited + {node} == visited;
    UnvisitedMembers(g[node], visited, queue[0].1 + 1);
    VisitedCountNone(pushed, visited);
    VisitedCountAppend(queue[1..], pushed, visited);
  }

  /** Each round decreases (unvisited cells, queued entries of visited cells)
      lexicographically. */
  lemma RoundDecreases(g: Graph, queue: seq<Entry>, visited: set<Cell>)
    requires queue != [] && queue[0].0 in g
    ensures var visited' := visited + {queue[0].0};
      || |g.Keys - visited'| < |g.Keys - visited|
      || (|g.Keys - visited'| == |g.Keys - visited|
          && VisitedCount(Next(g, queue, visited), visited') < VisitedCount(queue, visited))
  {
    var node := queue[0].0;
    if node !in visited {
      FewerUnvisited(g.Keys, visited, node);
    } else {
      assert visited + {node} == visited;
      FewerStale(g, queue, visited);
    }
  }

  /** What graph_distance's loop computes from a given queue and visited set:
      rounds are repeated until the front entry holds `end` (its hop count is
      the answer) or the queue runs out (None, Python's implicit return). */
  ghost function Search(g: Graph, end: Cell, queue: seq<Entry>, visited: set<Cell>): Option<nat>
    requires Closed(g) && forall e :: e in queue ==> e.0 in g
    decreases |g.Keys - visited|, VisitedCount(queue, visited)
  {
    if queue == [] then None
    else if queue[0].0 == end then Some(queue[0].1)
    else
      assert queue[0] in queue;
      NextInGraph(g, queue, visited);
      RoundDecreases(g, queue, visited);
      Search(g, end, Next(g, queue, visited), visited + {queue[0].0})
  }

  /** graph_distance(graph, start, end) as a value. */
  ghost function Distance(g: Graph, start: Cell, end: Cell): Option<nat>
    requires start in g && Closed(g)
  {
    Search(g, end, [(start, 0)], {})
  }

  /** On the grid, what holds of graph_distance's queue and visited set at
      the top of every round: the queue only names cells of the graph and is
      sorted by hop count within one level; hop counts bound the Manhattan
      distance from below, visited cells lie within `level` steps, and some
      queued entry, `good`, lies on a shortest route to `end`. */
  ghost predicate SearchInv(g: Graph, start: Cell, end: Cell, queue: seq<Entry>,
                            visited: set<Cell>, level: nat, good: Entry)
  {
    && (forall e :: e in queue ==> e.0 in g)
    && Sorted(queue) && Within(queue, level)
    && Reached(start, queue) && Settled(start, visited, level)
    && good in queue && OnShortestPath(start, end, good)
  }

  /** On the grid, one round that does not find `end` keeps SearchInv. */
  lemma RoundKeepsInv(g: Graph, start: Cell, end: Cell, queue: seq<Entry>,
                      visited: set<Cell>, level: nat, good: Entry) returns (good': Entry)
    requires Closed(g) && SearchInv(g, start, end, queue, visited, level, good)
    requires queue != [] && GridAt(g, queue[0].0, end) && queue[0].0 != end
    ensures SearchInv(g, start, end, Next(g, queue, visited), visited + {queue[0].0}, queue[0].1, good')
  {
    assert queue[0] in queue;
    RoundKeepsOrder(g, queue, visited, level);
    NextInGraph(g, queue, visited);
    good' := ExpandKeepsShortestRoute(g, start, end, queue, visited, level, good);
  }

  /** On the grid, a search whose queue and visited set satisfy SearchInv
      returns the Manhattan distance from start to end. */
  lemma {:induction false} SearchOnGrid(g: Graph, start: Cell, end: Cell, queue: seq<Entry>,
                                        visited: set<Cell>, level: nat, good: Entry)
    requires IsGridGraph(g) && InBounds(end) && Closed(g)
    requires SearchInv(g, start, end, queue, visited, level, good)
    ensures Search(g, end, queue, visited) == Some(Manhattan(start, end))
    decreases |g.Keys - visited|, VisitedCount(queue, visited)
  {
    assert queue != [];
    if queue[0].0 == end {
      FrontIsShortest(start, end, queue, good);
    } else {
      assert queue[0] in queue;
      GridGraphAt(g, queue[0].0, end);
      var good' := RoundKeepsInv(g, start, end, queue, visited, level, good);
      RoundDecreases(g, queue, visited);
      SearchOnGrid(g, start, end, Next(g, queue, visited), visited + {queue[0].0}, queue[0].1, good');
    }
  }

  /** On the graph build_graph returns, graph_distance between two cells of
      the grid is their Manhattan distance, which GreedyWalkIsShortest and
      WalkNoShorterThanManhattan show to be the shortest-path hop count. */
  lemma DistanceOnGrid(g: Graph, start: Cell, end: Cell)
    requires IsGridGraph(g) && Closed(g) && InBounds(start) && InBounds(end)
    ensures Distance(g, start, end) == Some(Manhattan(start, end))
  {
    SearchOnGrid(g, start, end, [(start, 0)], {}, 0, (start, 0));
  }

  /** On the graph build_graph returns, graph_distance finds the length of a
      shortest path: every walk from start to end takes at least that many
      hops, and the greedy walk takes exactly that many. */
  lemma DistanceIsShortestWalk(g: Graph, start: Cell, end: Cell)
    requires IsGridGraph(g) && Closed(g) && InBounds(start) && InBounds(end)
    ensures Distance(g, start, end).Some?
    ensures forall w :: IsWalk(g, w) && w[0] == start && w[|w| - 1] == end ==>
      |w| - 1 >= Distance(g, start, end).value
    ensures var w := GreedyWalk(start, end);
      IsWalk(g, w) && w[0] == start && w[|w| - 1] == end && |w| - 1 == Distance(g, start, end).value
  {
    DistanceOnGrid(g, start, end);
    forall w | IsWalk(g, w) && w[0] == start && w[|w| - 1] == end
      ensures |w| - 1 >= Distance(g, start, end).value
    {
      WalkNoShorterThanManhattan(g, w);
    }
    GreedyWalkIsShortest(g, start, end);
  }

  /** One round of graph_distance that does not find `end`: the search from
      the new queue and visited set has the same outcome, and the two numbers
      the loop's termination measure tracks decrease lexicographically. */
  lemma Round(g: Graph, end: Cell, before: seq<Entry>, seen: set<Cell>, after: seq<Entry>, u: nat, v: nat)
    returns (u': nat, v': nat)
    requires Closed(g) && before != [] && before[0].0 != end
    requires forall e :: e in before ==> e.0 in g
    requires after == before[1..] + Unvisited(g[before[0].0], seen + {before[0].0}, before[0].1 + 1)
    requires u == |g.Keys - seen| && v == VisitedCount(before, seen)
    ensures forall e :: e in after ==> e.0 in g
    ensures Search(g, end, after, seen + {before[0].0}) == Search(g, end, before, seen)
    ensures u' == |g.Keys - (seen + {before[0].0})| && v' == VisitedCount(after, seen + {before[0].0})
    ensures u' < u || (u' == u && v' < v)
  {
    assert before[0] in before;
    NextInGraph(g, before, seen);
    RoundDecreases(g, before, seen);
    u', v' := |g.Keys - (seen + {before[0].0})|, VisitedCount(after, seen + {before[0].0});
  }

  /** graph_distance(graph, start, end). It needs `graph[start]` (unless start
      is end) and `graph[n]` for every listed neighbour n. It computes
      Distance: 0 when the two cells coincide, and on the grid graph the
      Manhattan distance (DistanceOnGrid). */
  method GraphDistance(graph: Graph, start: Cell, end: Cell) returns (r: Option<nat>)
    requires start in graph && Closed(graph)
    ensures r == Distance(graph, start, end)
    ensures start == end ==> r == Some(0)
  {
    var visited: set<Cell> := {};
    var queue: seq<Entry> := [(start, 0)];
    ghost var unvisited := |graph.Keys - visited|;
    ghost var stale := VisitedCount(queue, visited);
    while queue != []
      invariant forall e :: e in queue ==> e.0 in graph
      invariant Search(graph, end, queue, visited) == Distance(graph, start, end)
      invariant unvisited == |graph.Keys - visited| && stale == VisitedCount(queue, visited)
      decreases unvisited, stale
    {
      ghost var before, seen := queue, visited;
      assert queue[0] in queue;
      var node, distance := queue[0].0, queue[0].1;
      queue := queue[1..];
      if node == end {
        return Some(distance);
      }
      visited := visited + {node};
      queue := AppendUnvisited(queue, graph[node], visited, distance + 1);
      unvisited, stale := Round(graph, end, before, seen, queue, unvisited, stale);
    }
    return None;
  }
}
