/** The playing field shared by both game variants: a ROWS x COLS grid whose
    cells are joined to their up, down, left and right neighbours, and the
    adjacency map that build_graph constructs over it. */
module Grid {

  const ROWS: int := 10
  const COLS: int := 10

  /** A grid position (the source's `(row, col)` tuple). */
  datatype Cell = Cell(row: int, col: int)

  predicate InBounds(c: Cell) {
    0 <= c.row < ROWS && 0 <= c.col < COLS
  }

  function Abs(x: int): nat {
    if x < 0 then -x else x
  }

  /** Number of orthogonal unit steps between two cells, ignoring the border. */
  function Manhattan(a: Cell, b: Cell): nat {
    Abs(a.row - b.row) + Abs(a.col - b.col)
  }

  /** `b` is exactly one cell up, down, left or right of `a`. */
  predicate Adjacent(a: Cell, b: Cell) {
    || (a.row == b.row && Abs(a.col - b.col) == 1)
    || (a.col == b.col && Abs(a.row - b.row) == 1)
  }

  /** The adjacency list build_graph stores for an in-bounds cell: up, down,
      left, right, each only when it stays on the grid. */
  function Neighbors(c: Cell): (ns: seq<Cell>)
    requires InBounds(c)
    ensures forall n :: n in ns ==> InBounds(n) && Adjacent(c, n)
  {
    (if c.row > 0 then [Cell(c.row - 1, c.col)] else [])
    + (if c.row < ROWS - 1 then [Cell(c.row + 1, c.col)] else [])
    + (if c.col > 0 then [Cell(c.row, c.col - 1)] else [])
    + (if c.col < COLS - 1 then [Cell(c.row, c.col + 1)] else [])
  }

  /** The list holds exactly the in-bounds orthogonal neighbours of the cell:
      two at a corner, three on an edge, four in the interior. */
  lemma NeighborsExact(c: Cell)
    requires InBounds(c)
    ensures forall n :: n in Neighbors(c) <==> InBounds(n) && Adjacent(c, n)
    ensures 2 <= |Neighbors(c)| <= 4
    ensures |Neighbors(c)| == 2 <==> (c.row == 0 || c.row == ROWS - 1) && (c.col == 0 || c.col == COLS - 1)
    ensures |Neighbors(c)| == 4 <==> 0 < c.row < ROWS - 1 && 0 < c.col < COLS - 1
  {
    forall n | InBounds(n) && Adjacent(c, n)
      ensures n in Neighbors(c)
    {
      if n.row == c.row - 1 {
        assert n == Cell(c.row - 1, c.col);
      } else if n.row == c.row + 1 {
        assert n == Cell(c.row + 1, c.col);
      } else if n.col == c.col - 1 {
        assert n == Cell(c.row, c.col - 1);
      } else {
        assert n == Cell(c.row, c.col + 1);
      }
    }
  }

  /** The cell main creates the player on: `Player(ROWS // 2, COLS // 2)`. */
  function Start(): (c: Cell)
    ensures InBounds(c) && c.row == ROWS / 2 && c.col == COLS / 2
  {
    Cell(ROWS / 2, COLS / 2)
  }

  /** The source's `graph` dictionary: cell -> list of neighbouring cells. */
  type Graph = map<Cell, seq<Cell>>

  /** `g` is the map build_graph returns: one entry per in-bounds cell, holding
      that cell's clipped neighbour list. */
  ghost predicate IsGridGraph(g: Graph) {
    && (forall c :: c in g <==> InBounds(c))
    && (forall c :: c in g ==> g[c] == Neighbors(c))
  }

  /** The cells build_graph has filled in before reaching (row, col). */
  predicate Filled(c: Cell, row: int, col: int) {
    || (0 <= c.row < row && 0 <= c.col < COLS)
    || (c.row == row && 0 <= c.col < col)
  }

  /** build_graph: nested loops over rows and columns filling the dictionary. */
  method BuildGraph() returns (graph: Graph)
    ensures IsGridGraph(graph)
  {
    graph := map[];
    for row := 0 to ROWS
      invariant forall c :: c in graph <==> Filled(c, row, 0)
      invariant forall c :: c in graph ==> InBounds(c) && graph[c] == Neighbors(c)
    {
      for col := 0 to COLS
        invariant forall c :: c in graph <==> Filled(c, row, col)
        invariant forall c :: c in graph ==> InBounds(c) && graph[c] == Neighbors(c)
      {
        var neighbors: seq<Cell> := [];
        if row > 0 {
          neighbors := neighbors + [Cell(row - 1, col)];
        }
        if row < ROWS - 1 {
          neighbors := neighbors + [Cell(row + 1, col)];
        }
        if col > 0 {
          neighbors := neighbors + [Cell(row, col - 1)];
        }
        if col < COLS - 1 {
          neighbors := neighbors + [Cell(row, col + 1)];
        }
        graph := graph[Cell(row, col) := neighbors];
      }
      assert forall c :: Filled(c, row, COLS) <==> Filled(c, row + 1, 0);
    }
  }

  /** The neighbour relation of the grid graph is symmetric and never leaves
      the grid. */
  lemma GridGraphSymmetric(g: Graph)
    requires IsGridGraph(g)
    ensures forall a, b :: a in g && b in g[a] ==> b in g && a in g[b]
  {
    forall a, b | a in g && b in g[a]
      ensures b in g && a in g[b]
    {
      NeighborsExact(a);
      NeighborsExact(b);
      assert Adjacent(b, a);
    }
  }

  /** One orthogonal step from `from` toward `to`, closing the row difference
      before the column difference, and no step when the two coincide. The
      step always gets exactly one cell closer, never leaves a rectangle that
      holds both ends, and moves vertically while the rows differ. */
  function StepToward(from: Cell, to: Cell): (next: Cell)
    ensures from == to ==> next == from
    ensures from != to ==> Adjacent(from, next) && Manhattan(next, to) == Manhattan(from, to) - 1
    ensures from.row != to.row ==> next.col == from.col && Abs(next.row - to.row) == Abs(from.row - to.row) - 1
    ensures from.row == to.row ==> next.row == from.row
    ensures InBounds(from) && InBounds(to) ==> InBounds(next)
  {
    if to.row < from.row then Cell(from.row - 1, from.col)
    else if to.row > from.row then Cell(from.row + 1, from.col)
    else if to.col < from.col then Cell(from.row, from.col - 1)
    else if to.col > from.col then Cell(from.row, from.col + 1)
    else from
  }

  /** `w` is a walk in `g`: every cell is followed by one of its listed neighbours. */
  ghost predicate IsWalk(g: Graph, w: seq<Cell>) {
    && |w| > 0
    && forall i :: 0 <= i < |w| - 1 ==> w[i] in g && w[i + 1] in g[w[i]]
  }

  /** A walk extended at the front by a cell listing its first cell as a
      neighbour is a walk. */
  lemma WalkCons(g: Graph, a: Cell, rest: seq<Cell>)
    requires IsWalk(g, rest) && a in g && rest[0] in g[a]
    ensures IsWalk(g, [a] + rest)
  {
    var w := [a] + rest;
    forall i | 0 <= i < |w| - 1
      ensures w[i] in g && w[i + 1] in g[w[i]]
    {
      if i > 0 {
        assert w[i] == rest[i - 1] && w[i + 1] == rest[i];
      }
    }
  }

  /** No walk in the grid graph is shorter than the Manhattan distance between
      its ends. */
  lemma {:induction false} WalkNoShorterThanManhattan(g: Graph, w: seq<Cell>)
    requires IsGridGraph(g) && IsWalk(g, w)
    ensures |w| - 1 >= Manhattan(w[0], w[|w| - 1])
  {
    if |w| > 1 {
      var tail := w[1..];
      forall i | 0 <= i < |tail| - 1
        ensures tail[i] in g && tail[i + 1] in g[tail[i]]
      {
        assert tail[i] == w[i + 1] && tail[i + 1] == w[i + 2];
      }
      WalkNoShorterThanManhattan(g, tail);
      assert w[1] in Neighbors(w[0]);
    }
  }

  /** The cells visited by stepping repeatedly with StepToward from `a` to `b`. */
  function GreedyWalk(a: Cell, b: Cell): (w: seq<Cell>)
    decreases Manhattan(a, b)
  {
    if a == b then [a] else [a] + GreedyWalk(StepToward(a, b), b)
  }

  /** Repeated greedy steps form a walk of exactly Manhattan(a, b) hops, so the
      Manhattan distance is the shortest-path hop count of the grid graph. */
  lemma {:induction false} GreedyWalkIsShortest(g: Graph, a: Cell, b: Cell)
    requires IsGridGraph(g) && InBounds(a) && InBounds(b)
    ensures var w := GreedyWalk(a, b);
      && IsWalk(g, w) && w[0] == a && w[|w| - 1] == b
      && |w| - 1 == Manhattan(a, b)
    decreases Manhattan(a, b)
  {
    if a != b {
      var next := StepToward(a, b);
      GreedyWalkIsShortest(g, next, b);
      var rest := GreedyWalk(next, b);
      NeighborsExact(a);
      assert next in g[a];
      WalkCons(g, a, rest);
    }
  }
}
