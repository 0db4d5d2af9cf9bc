/** The autonomous game: each frame the player picks the fruit nearest by
    graph distance (the first one on a tie, as `min` does) and takes one
    orthogonal step toward it, closing the row difference first. */
module FrutinVoraz {
  import opened Grid
  import opened Bfs
  import opened Fruits
  import opened Session

  /** Index of the first least element: `min` keeps its current best and
      replaces it only with a strictly smaller key, scanning left to right. */
  function FirstMin(keys: seq<nat>): (i: nat)
    requires |keys| > 0
    ensures i < |keys|
    ensures forall j :: 0 <= j < |keys| ==> keys[i] <= keys[j]
    ensures forall j :: 0 <= j < i ==> keys[j] > keys[i]
  {
    if |keys| == 1 then 0
    else
      var best := FirstMin(keys[..|keys| - 1]);
      if keys[|keys| - 1] < keys[best] then |keys| - 1 else best
  }

  /** The key `min` compares fruits by on the grid graph: the hop count from
      the player, which is the Manhattan distance. */
  function Distances(from: Cell, fruits: seq<Fruit>): seq<nat> {
    seq(|fruits|, i requires 0 <= i < |fruits| => Manhattan(from, fruits[i].pos))
  }

  /** The index of `closest_fruit` in the fruit list. */
  function Closest(from: Cell, fruits: seq<Fruit>): nat
    requires fruits != []
  {
    FirstMin(Distances(from, fruits))
  }

  /** The distance from `from` to the nearest fruit. */
  function Nearest(from: Cell, fruits: seq<Fruit>): nat
    requires fruits != []
  {
    Manhattan(from, fruits[Closest(from, fruits)].pos)
  }

  /** The chosen fruit is nearest, and no earlier fruit is as near. */
  lemma ClosestIsNearestFirst(from: Cell, fruits: seq<Fruit>)
    requires fruits != []
    ensures Closest(from, fruits) < |fruits|
    ensures forall f :: f in fruits ==> Nearest(from, fruits) <= Manhattan(from, f.pos)
    ensures forall j :: 0 <= j < Closest(from, fruits) ==> Manhattan(from, fruits[j].pos) > Nearest(from, fruits)
  {
    var ds := Distances(from, fruits);
    forall f | f in fruits
      ensures Nearest(from, fruits) <= Manhattan(from, f.pos)
    {
      var j :| 0 <= j < |fruits| && fruits[j] == f;
      assert ds[j] == Manhattan(from, f.pos);
    }
    forall j | 0 <= j < Closest(from, fruits)
      ensures Manhattan(from, fruits[j].pos) > Nearest(from, fruits)
    {
      assert ds[j] == Manhattan(from, fruits[j].pos);
    }
  }

  /** FirstMin is characterised by its contract: the only index whose key is
      least and strictly below every earlier key. */
  lemma FirstMinUnique(keys: seq<nat>, i: nat)
    requires i < |keys|
    requires forall j :: 0 <= j < |keys| ==> keys[i] <= keys[j]
    requires forall j :: 0 <= j < i ==> keys[j] > keys[i]
    ensures FirstMin(keys) == i
  {
  }

  /** One step of `min`'s scan: the next key replaces the best so far only
      when it is strictly smaller. */
  lemma {:induction false} FirstMinStep(keys: seq<nat>, k: nat)
    requires 0 < k < |keys|
    ensures FirstMin(keys[..k + 1]) == if keys[k] < keys[FirstMin(keys[..k])] then k else FirstMin(keys[..k])
  {
    var prefix := keys[..k + 1];
    assert prefix[..k] == keys[..k];
  }

  /** The key function `lambda fruit: graph_distance(graph, (player.row,
      player.col), (fruit.row, fruit.col))` on the graph build_graph returns. */
  method DistanceKey(graph: Graph, from: Cell, fruit: Fruit) returns (key: nat)
    requires IsGridGraph(graph) && InBounds(from) && InBounds(fruit.pos)
    ensures key == Manhattan(from, fruit.pos)
  {
    GridGraphClosed(graph);
    var d := GraphDistance(graph, from, fruit.pos);
    DistanceOnGrid(graph, from, fruit.pos);
    key := d.value;
  }

  /** The comparison loop inside `min`: the first key is the best so far,
      and a later key replaces it only when strictly smaller. */
  method MinScan(keys: seq<nat>) returns (idx: nat)
    requires |keys| > 0
    ensures idx == FirstMin(keys)
  {
    var best := keys[0];
    idx := 0;
    assert |keys[..1]| == 1;
    for k := 1 to |keys|
      invariant idx == FirstMin(keys[..k])
      invariant idx < k && best == keys[idx]
    {
      FirstMinStep(keys, k);
      if keys[k] < best {
        idx, best := k, keys[k];
      }
    }
    assert keys[..|keys|] == keys;
  }

  /** `closest_fruit = min(fruits, key=...)` on the graph build_graph
      returns: one breadth-first search per fruit, in list order, then `min`'s
      scan over those keys. The chosen fruit is the first of the nearest. */
  method ChooseTarget(graph: Graph, from: Cell, fruits: seq<Fruit>) returns (idx: nat)
    requires IsGridGraph(graph) && InBounds(from) && fruits != []
    requires forall f :: f in fruits ==> InBounds(f.pos)
    ensures idx == Closest(from, fruits) && idx < |fruits|
    ensures forall f :: f in fruits ==> Manhattan(from, fruits[idx].pos) <= Manhattan(from, f.pos)
    ensures forall j :: 0 <= j < idx ==> Manhattan(from, fruits[j].pos) > Manhattan(from, fruits[idx].pos)
  {
    var keys: seq<nat> := [];
    for k := 0 to |fruits|
      invariant |keys| == k
      invariant forall j :: 0 <= j < k ==> keys[j] == Manhattan(from, fruits[j].pos)
    {
      assert fruits[k] in fruits;
      var key := DistanceKey(graph, from, fruits[k]);
      keys := keys + [key];
    }
    assert keys == Distances(from, fruits);
    idx := MinScan(keys);
    ClosestIsNearestFirst(from, fruits);
  }

  /** The autonomous player: no path is kept, and `move` assigns whatever
      cell it is given. */
  class Player {
    var row: int
    var col: int
    var score: nat

    function Pos(): Cell
      reads this
    {
      Cell(row, col)
    }

    ghost predicate Valid()
      reads this
    {
      InBounds(Pos())
    }

    constructor (row: int, col: int)
      ensures Pos() == Cell(row, col) && score == 0
    {
      this.row, this.col := row, col;
      score := 0;
    }

    /** `move(new_row, new_col)`: no bounds check. */
    method Move(newRow: int, newCol: int)
      modifies this
      ensures Pos() == Cell(newRow, newCol) && score == old(score)
    {
      row, col := newRow, newCol;
    }
  }

  /** The step branch of main toward the chosen fruit's cell: it ends on
      StepToward's cell, so it moves exactly one cell unless already there,
      vertically while the rows differ, and never leaves the grid although
      `move` does not check. */
  method GreedyStep(player: Player, target: Cell)
    modifies player
    ensures player.Pos() == StepToward(old(player.Pos()), target)
    ensures player.score == old(player.score)
    ensures old(player.Valid()) && InBounds(target) ==> player.Valid()
  {
    if target.row < player.row {
      player.Move(player.row - 1, player.col);
    } else if target.row > player.row {
      player.Move(player.row + 1, player.col);
    } else if target.col < player.col {
      player.Move(player.row, player.col - 1);
    } else if target.col > player.col {
      player.Move(player.row, player.col + 1);
    }
  }

  /** The player's cell after the movement part of a frame. */
  function NextPos(from: Cell, fruits: seq<Fruit>): Cell {
    if fruits == [] then from else StepToward(from, fruits[Closest(from, fruits)].pos)
  }

  /** One greedy step brings the player exactly one cell nearer to the
      nearest fruit, unless it already stands on one. */
  lemma NearestDistanceDecreases(from: Cell, fruits: seq<Fruit>)
    requires fruits != []
    ensures Nearest(NextPos(from, fruits), fruits) == if Nearest(from, fruits) == 0 then 0 else Nearest(from, fruits) - 1
  {
    var m := Nearest(from, fruits);
    var target := fruits[Closest(from, fruits)].pos;
    var next := NextPos(from, fruits);
    ClosestIsNearestFirst(from, fruits);
    ClosestIsNearestFirst(next, fruits);
    var j := Closest(next, fruits);
    assert fruits[j] in fruits && fruits[Closest(from, fruits)] in fruits;
    if m == 0 {
      assert next == from;
    } else {
      assert Manhattan(next, target) == m - 1;
      assert Manhattan(next, fruits[j].pos) >= Manhattan(from, fruits[j].pos) - 1;
    }
  }

  /** The player's cell after `n` frames with the same fruit list. */
  function Pursue(from: Cell, fruits: seq<Fruit>, n: nat): Cell
    decreases n
  {
    if n == 0 then from else Pursue(NextPos(from, fruits), fruits, n - 1)
  }

  /** With the fruit list unchanged, the distance to the nearest fruit drops by
      one each frame until it is zero and then stays zero: the greedy player
      stands on a fruit after exactly that many frames. */
  lemma {:induction false} PursueReaches(from: Cell, fruits: seq<Fruit>, n: nat)
    requires fruits != []
    ensures Nearest(Pursue(from, fruits, n), fruits) == if n >= Nearest(from, fruits) then 0 else Nearest(from, fruits) - n
    decreases n
  {
    if n > 0 {
      NearestDistanceDecreases(from, fruits);
      PursueReaches(NextPos(from, fruits), fruits, n - 1);
    }
  }

  /** A player on the grid stays on the grid, and does not move when there
      are no fruits. */
  lemma NextPosStaysOnGrid(from: Cell, fruits: seq<Fruit>)
    requires InBounds(from) && forall f :: f in fruits ==> InBounds(f.pos)
    ensures InBounds(NextPos(from, fruits))
    ensures fruits == [] ==> NextPos(from, fruits) == from
  {
    if fruits != [] {
      ClosestIsNearestFirst(from, fruits);
      assert fruits[Closest(from, fruits)] in fruits;
    }
  }

  /** One frame of main: the greedy choice and step when fruits remain, then
      the collection loop on the player's new cell, then the countdown with
      its timeout, regeneration and win check. */
  method Tick(graph: Graph, player: Player, session: Session, draws: seq<Draw>)
    requires IsGridGraph(graph) && player.Valid() && session.Valid()
    requires session.status == Playing
    requires |draws| == BATCH_SIZE && forall d :: d in draws ==> ValidDraw(d)
    modifies player, session
    ensures player.Pos() == NextPos(old(player.Pos()), old(session.fruits))
    ensures player.score == old(player.score) + TotalValue(Eaten(old(session.fruits), player.Pos()))
    ensures session.Current() ==
      Countdown(old(session.Current()).(fruits := Uneaten(old(session.fruits), player.Pos())), Spawn(draws))
    ensures player.Valid() && session.Valid()
  {
    if session.fruits != [] {
      var idx := ChooseTarget(graph, player.Pos(), session.fruits);
      assert session.fruits[idx] in session.fruits;
      GreedyStep(player, session.fruits[idx].pos);
    }
    var gained := session.Collect(player.Pos());
    player.score := player.score + gained;
    session.EndOfTick(draws);
  }
}
