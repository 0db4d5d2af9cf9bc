/** The interactive game: the arrow keys move the player one cell at a time,
    moves off the grid are ignored, and every cell moved to is recorded in the
    player's path. */
module Frutin {
  import opened Grid
  import opened Fruits
  import opened Session

  /** The keys main reacts to; any other key is ignored. */
  datatype Key = Up | Down | Left | Right | Other

  /** The `(drow, dcol)` main passes to `player.move` for an arrow key. */
  function Delta(k: Key): (d: (int, int))
    requires k != Other
    ensures Abs(d.0) + Abs(d.1) == 1
  {
    match k
    case Up => (-1, 0)
    case Down => (1, 0)
    case Left => (0, -1)
    case Right => (0, 1)
  }

  /** The cell `player.move(drow, dcol)` aims at. */
  function Target(pos: Cell, drow: int, dcol: int): Cell {
    Cell(pos.row + drow, pos.col + dcol)
  }

  /** Where the player stands after one key. */
  function AfterKey(pos: Cell, k: Key): Cell {
    if k == Other then pos
    else
      var t := Target(pos, Delta(k).0, Delta(k).1);
      if InBounds(t) then t else pos
  }

  /** The cells one key appends to the path: the target, when the key is an
      arrow and the target is on the grid. */
  function KeyTrail(pos: Cell, k: Key): seq<Cell> {
    if k == Other then []
    else
      var t := Target(pos, Delta(k).0, Delta(k).1);
      if InBounds(t) then [t] else []
  }

  /** One key keeps an in-bounds player on the grid, and the player either
      stays or moves to an orthogonal neighbour, recording exactly the cell
      moved to. */
  lemma AfterKeyStep(pos: Cell, k: Key)
    requires InBounds(pos)
    ensures InBounds(AfterKey(pos, k))
    ensures AfterKey(pos, k) == pos || Adjacent(pos, AfterKey(pos, k))
    ensures KeyTrail(pos, k) == if AfterKey(pos, k) == pos then [] else [AfterKey(pos, k)]
  {
  }

  /** Where the player stands after the key events of a frame, in order. */
  function AfterKeys(pos: Cell, keys: seq<Key>): Cell {
    if keys == [] then pos
    else AfterKey(AfterKeys(pos, keys[..|keys| - 1]), keys[|keys| - 1])
  }

  /** The cells the key events of a frame append to the path, in order. */
  function Trail(pos: Cell, keys: seq<Key>): seq<Cell> {
    if keys == [] then []
    else
      var init := keys[..|keys| - 1];
      Trail(pos, init) + KeyTrail(AfterKeys(pos, init), keys[|keys| - 1])
  }

  /** Consecutive cells are orthogonal neighbours. */
  ghost predicate Chain(w: seq<Cell>) {
    forall i :: 0 <= i < |w| - 1 ==> Adjacent(w[i], w[i + 1])
  }

  /** After any sequence of keys the player is still on the grid, at most one
      cell per key from where it started; the recorded cells, preceded by the
      starting cell, form a chain of orthogonal steps on the grid that ends
      where the player stands. */
  lemma {:induction false} KeysTrace(pos: Cell, keys: seq<Key>)
    requires InBounds(pos)
    ensures InBounds(AfterKeys(pos, keys))
    ensures Manhattan(pos, AfterKeys(pos, keys)) <= |Trail(pos, keys)| <= |keys|
    ensures var w := [pos] + Trail(pos, keys);
      Chain(w) && w[|w| - 1] == AfterKeys(pos, keys) && forall c :: c in w ==> InBounds(c)
  {
    if keys != [] {
      var init, k := keys[..|keys| - 1], keys[|keys| - 1];
      KeysTrace(pos, init);
      var mid := AfterKeys(pos, init);
      AfterKeyStep(mid, k);
      var w0 := [pos] + Trail(pos, init);
      var step := KeyTrail(mid, k);
      assert [pos] + Trail(pos, keys) == w0 + step;
      var w := w0 + step;
      forall i | 0 <= i < |w| - 1
        ensures Adjacent(w[i], w[i + 1])
      {
        if i < |w0| - 1 {
          assert w[i] == w0[i] && w[i + 1] == w0[i + 1];
        }
      }
    }
  }

  /** A chain of in-bounds cells is a walk in the graph build_graph returns:
      the path drawn on screen only ever follows edges of that graph. */
  lemma ChainIsWalk(g: Graph, w: seq<Cell>)
    requires IsGridGraph(g) && |w| > 0 && Chain(w)
    requires forall c :: c in w ==> InBounds(c)
    ensures IsWalk(g, w)
  {
    forall i | 0 <= i < |w| - 1
      ensures w[i] in g && w[i + 1] in g[w[i]]
    {
      assert w[i] in w && w[i + 1] in w;
      NeighborsExact(w[i]);
    }
  }

  /** The interactive player: its cell, its score and the cells it has moved
      to. `origin`, the cell it started on, exists only for the proof that the
      path is a walk. */
  class Player {
    var row: int
    var col: int
    var score: nat
    var path: seq<Cell>
    ghost var origin: Cell

    function Pos(): Cell
      reads this
    {
      Cell(row, col)
    }

    /** On the grid, and the path is a chain of single steps from the
        starting cell to the current one. */
    ghost predicate Valid()
      reads this
    {
      var w := [origin] + path;
      && InBounds(Pos())
      && (forall c :: c in w ==> InBounds(c))
      && Chain(w)
      && w[|w| - 1] == Pos()
    }

    constructor (row: int, col: int)
      ensures Pos() == Cell(row, col) && score == 0 && path == [] && origin == Pos()
      ensures InBounds(Cell(row, col)) ==> Valid()
    {
      this.row, this.col := row, col;
      score := 0;
      path := [];
      origin := Cell(row, col);
    }

    /** `move(drow, dcol)`: a target on the grid becomes the new cell and is
        appended to the path; a target off the grid changes nothing. The score
        is never touched. */
    method Move(drow: int, dcol: int)
      modifies this
      ensures var t := Target(old(Pos()), drow, dcol);
        if InBounds(t) then Pos() == t && path == old(path) + [t]
        else Pos() == old(Pos()) && path == old(path)
      ensures score == old(score) && origin == old(origin)
      ensures old(Valid()) && Abs(drow) + Abs(dcol) == 1 ==> Valid()
    {
      var newRow := row + drow;
      var newCol := col + dcol;
      if 0 <= newRow < ROWS && 0 <= newCol < COLS {
        ghost var w0 := [origin] + path;
        row := newRow;
        col := newCol;
        path := path + [Cell(row, col)];
        assert [origin] + path == w0 + [Pos()];
      }
    }

    /** The key events of one frame, handled in order. */
    method HandleKeys(keys: seq<Key>)
      modifies this
      ensures Pos() == AfterKeys(old(Pos()), keys)
      ensures path == old(path) + Trail(old(Pos()), keys)
      ensures score == old(score) && origin == old(origin)
      ensures old(Valid()) ==> Valid()
    {
      ghost var start, before := Pos(), path;
      for i := 0 to |keys|
        invariant Pos() == AfterKeys(start, keys[..i])
        invariant path == before + Trail(start, keys[..i])
        invariant score == old(score) && origin == old(origin)
        invariant old(Valid()) ==> Valid()
      {
        var k := keys[i];
        assert keys[..i + 1][..i] == keys[..i] && keys[..i + 1][i] == k;
        if k != Other {
          var d := Delta(k);
          Move(d.0, d.1);
        }
      }
      assert keys[..|keys|] == keys;
    }
  }

  /** One frame of main: the key events, then the collection loop on the
      player's new cell, then the countdown with its timeout, regeneration and
      win check. The score rises by exactly the value of the fruits collected. */
  method Tick(player: Player, session: Session, keys: seq<Key>, draws: seq<Draw>)
    requires session.status == Playing
    requires |draws| == BATCH_SIZE && forall d :: d in draws ==> ValidDraw(d)
    modifies player, session
    ensures player.Pos() == AfterKeys(old(player.Pos()), keys)
    ensures player.path == old(player.path) + Trail(old(player.Pos()), keys)
    ensures player.score == old(player.score) + TotalValue(Eaten(old(session.fruits), player.Pos()))
    ensures session.Current() ==
      Countdown(old(session.Current()).(fruits := Uneaten(old(session.fruits), player.Pos())), Spawn(draws))
    ensures old(player.Valid()) ==> player.Valid()
    ensures old(session.Valid()) ==> session.Valid()
  {
    player.HandleKeys(keys);
    var gained := session.Collect(player.Pos());
    player.score := player.score + gained;
    session.EndOfTick(draws);
  }
}
