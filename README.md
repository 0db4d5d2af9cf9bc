# FRUTIN fruit-collecting games, modelled in Dafny

FRUTIN is a pair of small pygame games played on a 10 x 10 grid. Fruits
(apple 10 points, mango 20, blueberry 15) are scattered at random. The player
collects every fruit on the cell it stands on. A game gets three attempts of
60 seconds (3600 frames at 60 frames per second). When an attempt times out,
a fresh batch of ten fruits is generated. Clearing the field within an attempt
wins; running out of attempts is "Game Over".

- `frutin.py` is the interactive game: the arrow keys move the player one cell
  at a time, moves off the grid are ignored, and every cell moved to is
  recorded in the player's path.
- `frutin_voraz.py` is the autonomous ("greedy") game. Every frame the player
  picks the fruit nearest by breadth-first-search distance over the grid graph
  (the first such fruit on a tie, as `min` does). It then takes one orthogonal
  step toward it, closing the row difference first.

The modules follow the program's structure:

- `Grid` (grid.dfy): cells, bounds, Manhattan distance, `build_graph` and the
  greedy one-cell step.
- `Bfs` (bfs.dfy): `graph_distance`.
- `Fruits` (fruits.dfy): fruit types, `generate_fruits` and the per-frame
  collection loop.
- `Session` (session.dfy): the countdown, attempt, regeneration and win state
  machine that both main loops run.
- `Frutin` (frutin.dfy): the interactive player and its frame.
- `FrutinVoraz` (frutin_voraz.dfy): the greedy player, target choice and frame.

Both scripts contain their own copies of `build_graph`, `graph_distance`,
`generate_fruits`, the collection loop and the countdown. The copies are
identical apart from the audio calls at frutin.py:167 and frutin.py:204,
which frutin_voraz.py does not make (audio is left out), so each is modelled
once and cited from `frutin.py`.

| copy in frutin_voraz.py | same code in frutin.py |
|---|---|
| frutin_voraz.py:63-70 | frutin.py:93-100 |
| frutin_voraz.py:73-87 | frutin.py:103-117 |
| frutin_voraz.py:90-100 | frutin.py:120-130 |
| frutin_voraz.py:138-141 | frutin.py:164-168 |
| frutin_voraz.py:158-181 | frutin.py:185-209 |

`frutin.py` builds the graph (frutin.py:144) but never queries it, so
`Frutin.Tick` takes no graph.

Stateful code is modelled as classes:

- the players are `Frutin.Player` and `FrutinVoraz.Player`;
- the local variables of `main` (fruit list, time, attempts) are
  `Session.Session`.

Loops that update variables are methods with loop invariants, each proved
against a specification function:

- `build_graph` (`Grid.BuildGraph`);
- `graph_distance` (`Bfs.GraphDistance`, specified by `Bfs.Distance`);
- the append loop inside it (`Bfs.AppendUnvisited`);
- `generate_fruits` (`Fruits.GenerateFruits`);
- the collection loop (`Fruits.CollectAt`);
- the scan inside `min` (`FrutinVoraz.MinScan`);
- the event loop (`Frutin.Player.HandleKeys`).

Pure expressions are functions with lemmas:

- the key choice of `min` (`FrutinVoraz.FirstMin`, `FrutinVoraz.Closest`);
- the greedy step (`Grid.StepToward`);
- the countdown (`Session.Countdown`).

## Model

| member | source | states |
|---|---|---|
| Grid.Neighbors | frutin.py:107-116 | every listed neighbour of an in-bounds cell is on the grid and one orthogonal step away |
| Grid.NeighborsExact | frutin.py:108-115 | the list holds exactly the in-bounds orthogonal neighbours; it has 2 to 4 entries, 2 exactly at a corner and 4 exactly in the interior |
| Grid.Start | frutin.py:139 | the cell `main` creates the player on, `(ROWS // 2, COLS // 2)` (also frutin_voraz.py:109), is on the grid, so the first frame's player is valid |
| Grid.BuildGraph | frutin.py:103-117 | the map has an entry for exactly the in-bounds cells, and each entry is that cell's clipped neighbour list |
| Grid.GridGraphSymmetric | frutin.py:108-115 | the neighbour relation is symmetric and never leaves the grid |
| Grid.StepToward | frutin_voraz.py:127-135 | no move on the target; otherwise one orthogonal step that is exactly one cell nearer; vertical while the rows differ, horizontal only once they are equal; stays on the grid when both ends are on it |
| Grid.WalkNoShorterThanManhattan | frutin.py:120-130 | no walk in the grid graph is shorter than the Manhattan distance between its ends |
| Grid.GreedyWalkIsShortest | frutin.py:120-130 | repeated greedy steps form a walk in the grid graph of exactly Manhattan-distance hops |
| Bfs.GridGraphClosed | frutin.py:127-128 | every neighbour listed by build_graph has its own entry, so every `graph[node]` lookup of the search is defined |
| Bfs.UnvisitedMembers | frutin.py:128-130 | the inner loop appends only unvisited listed neighbours, each one hop further |
| Bfs.UnvisitedHas | frutin.py:128-130 | the inner loop appends every unvisited listed neighbour |
| Bfs.AppendUnvisited | frutin.py:128-130 | the loop appends exactly the unvisited neighbours in list order, after the existing queue |
| Bfs.RoundDecreases | frutin.py:123-130 | each round strictly lowers (unvisited cells, queued entries of visited cells) lexicographically, so the search terminates although cells can be queued twice |
| Bfs.RoundKeepsOrder | frutin.py:123-130 | the FIFO queue stays sorted by hop count, within one level of the hop count just popped |
| Bfs.StepTowardEndPushed | frutin.py:127-130 | expanding a cell on a shortest route queues its step toward the end, which lies on a shortest route in turn |
| Bfs.FrontIsShortest | frutin.py:124-126 | when the end cell reaches the front of the queue, its hop count is the Manhattan distance |
| Bfs.RoundKeepsInv | frutin.py:123-130 | on the grid, a round that does not find the end keeps the search invariant: sorted queue, hop counts at least the Manhattan distance, visited cells within the current level, and an entry on a shortest route |
| Bfs.SearchOnGrid | frutin.py:123-130 | on the grid, the search from any state satisfying the invariant returns the Manhattan distance |
| Bfs.DistanceOnGrid | frutin.py:120-130 | on the grid graph, graph_distance between two grid cells is their Manhattan distance |
| Bfs.DistanceIsShortestWalk | frutin.py:120-130 | on the grid graph, graph_distance is the length of a shortest walk: no walk is shorter and one walk is exactly that long |
| Bfs.Round | frutin.py:123-130 | a round that does not find the end keeps every queued cell in the graph, does not change the search's outcome and lowers the termination measure |
| Bfs.GraphDistance | frutin.py:120-130 | the loop computes Distance (the search as a function of graph, start and end), and returns 0 when start is end |
| Fruits.Value | frutin.py:21-25 | a fruit type is worth 10, 15 or 20 points |
| Fruits.GenerateFruits | frutin.py:93-100 | exactly n fruits, the i-th placed and typed by the i-th draw, all on the grid, each worth 10, 15 or 20 |
| Fruits.CollectMembership | frutin.py:164-168 | exactly the fruits on the cell are taken, and exactly the others are left |
| Fruits.RemoveFirst | frutin.py:168 | `list.remove` shortens the list by one |
| Fruits.RemoveFirstAfter | frutin.py:168 | `list.remove` drops the first equal element, leaving the elements before and after it in place |
| Fruits.CollectStep | frutin.py:164-168 | one iteration removes a fruit on the cell and adds its value, and leaves any other fruit in place |
| Fruits.CollectAt | frutin.py:164-168 | the list left is the input without the fruits on the cell, order kept; the points gained are exactly the values of the fruits removed |
| Fruits.CollectSplits | frutin.py:164-168 | the fruits taken and the fruits left are, together, exactly the fruits before |
| Fruits.CollectKeepsTotal | frutin.py:164-168 | the values taken and the values left add up to the value of the list before |
| Fruits.UneatenKeepsOrder | frutin.py:164-168 | filtering distributes over concatenation, so the fruits left keep their relative order |
| Fruits.CollectIdempotent | frutin.py:164-168 | collecting a second time on the same cell takes nothing and changes nothing |
| Fruits.UneatenUnchanged | frutin.py:164-168 | a list with no fruit on the cell is left as it is |
| Session.Countdown | frutin.py:185-209 | a timeout costs exactly one attempt and resets the clock; it ends the game when no attempt is left, and otherwise replaces the fruits with the new batch; the win (empty list) is reached only without a timeout; a sane state stays sane |
| Session.IdleRunsOut | frutin.py:185-200 | a game in which nothing is collected is still on for exactly FramesLeft frames and is then over |
| Session.NewGameLastsThreeAttempts | frutin.py:185-200 | a new game in which nothing is collected is on after 10799 frames and over after 10800 |
| Session.Session.constructor | frutin.py:140-142 | ten generated fruits, 3600 frames, three attempts, playing |
| Session.Session.Collect | frutin.py:164-168 | the session's fruit list loses exactly the fruits on the cell; the value gained is returned; the clock and attempts are untouched |
| Session.Session.EndOfTick | frutin.py:185-209 | the new state is Countdown of the old one, with the new batch generated from the draws |
| Frutin.Delta | frutin.py:154-161 | each arrow key moves by exactly one cell, orthogonally |
| Frutin.AfterKeyStep | frutin.py:65-71 | one key keeps the player on the grid; the player stays or moves to an orthogonal neighbour, and exactly that cell is recorded |
| Frutin.KeysTrace | frutin.py:149-161 | after any key sequence the player is on the grid, at most one cell per key away; the recorded path, preceded by the start cell, is a chain of orthogonal steps ending at the player |
| Frutin.ChainIsWalk | frutin.py:65-71 | the recorded path only follows edges of the graph build_graph returns |
| Frutin.Player.constructor | frutin.py:57-61 | given cell, score 0, empty path |
| Frutin.Player.Move | frutin.py:65-71 | an in-bounds target becomes the cell and is appended to the path; an out-of-bounds target changes nothing; the score is never touched |
| Frutin.Player.HandleKeys | frutin.py:149-161 | the key events of a frame, handled in order, move the player to AfterKeys and append Trail to the path |
| Frutin.Tick | frutin.py:146-209 | one frame: the keys, then collection on the new cell (the score rises by exactly the values collected), then the countdown; validity of player and session is kept |
| FrutinVoraz.FirstMin | frutin_voraz.py:126 | `min` returns the index of a least key, and every earlier key is strictly greater |
| FrutinVoraz.FirstMinUnique | frutin_voraz.py:126 | that is the only index with this property |
| FrutinVoraz.FirstMinStep | frutin_voraz.py:126 | one step of `min`'s scan replaces the best only with a strictly smaller key |
| FrutinVoraz.MinScan | frutin_voraz.py:126 | the scan over the keys computes FirstMin |
| FrutinVoraz.DistanceKey | frutin_voraz.py:126 | the key of a fruit is its Manhattan distance from the player |
| FrutinVoraz.ClosestIsNearestFirst | frutin_voraz.py:126 | the chosen fruit is at least as near as every fruit, and every earlier fruit is strictly farther |
| FrutinVoraz.ChooseTarget | frutin_voraz.py:125-126 | one search per fruit, then `min`: the result is a nearest fruit, and the first of the nearest |
| FrutinVoraz.Player.constructor | frutin_voraz.py:35-38 | given cell, score 0 |
| FrutinVoraz.Player.Move | frutin_voraz.py:42-44 | the player is placed on the given cell without any check; the score is untouched |
| FrutinVoraz.GreedyStep | frutin_voraz.py:127-135 | the player ends on StepToward's cell, with the score unchanged, and stays on the grid when the target is on it |
| FrutinVoraz.NearestDistanceDecreases | frutin_voraz.py:125-135 | one greedy step lowers the distance to the nearest fruit by exactly one, unless the player already stands on a fruit |
| FrutinVoraz.PursueReaches | frutin_voraz.py:125-135 | with the fruit list unchanged, the greedy player reaches a fruit after exactly as many frames as its distance to the nearest one |
| FrutinVoraz.NextPosStaysOnGrid | frutin_voraz.py:125 | the player stays on the grid, and does not move when the fruit list is empty |
| FrutinVoraz.Tick | frutin_voraz.py:116-181 | one frame: the greedy step, then collection on the new cell (the score rises by exactly the values collected), then the countdown; validity of player and session is kept |

## Left out

- Rendering is not modelled: the display, images, fonts, `draw` methods and `screen.blit`. It is presentation over a library outside this model.
- Audio is not modelled: `mixer`, `play_fruit_sound` and `play_win_sound`. These are calls into a library with no effect on the game state.
- `pygame.quit`, `sys.exit`, `clock.tick` and `pygame.time.wait` are not modelled. Game over and the win are the states `GameOver` and `Won`; the process exit that follows is left out.
- Event polling is a parameter. The key events of a frame are a list of `Key` values; keys other than the arrows are `Other`; the window-close event is left out with the exit.
- Randomness is a parameter. The values drawn by `random.randint` and `random.choice` are passed in as `Draw` values; their range is a precondition.
- Session.Countdown: counts whole frames (3600 per attempt), where the source subtracts 1/60 from a float. Rounding may make the float reach zero one frame earlier or later; that difference is not modelled.
- Bfs.GraphDistance: requires `start` to be a key of the graph and every listed neighbour to be a key. The source would raise KeyError otherwise, and it returns 0 for `start == end` even when `start` is not a key. The games only pass cells of the grid graph.
- FrutinVoraz.ChooseTarget: computes all keys in list order and then scans them. `min` interleaves the two, which is the same because graph_distance has no side effects. It also requires the grid graph and in-bounds cells, which are the only inputs `main` gives it. The case where graph_distance returns None, and `min` would fail comparing None, cannot arise there (Bfs.DistanceOnGrid).
- Fruits.CollectAt: models `list.remove`, which matches by object identity, as removal of the first equal value. The filtered front of the list holds no fruit on the player's cell, so the element removed is the one just visited either way.
- Frutin.Player.Move: keeps the path a chain of single steps only for unit moves, which are the only moves `main` makes.
- FrutinVoraz.Player has no path: the greedy game's player records none.
- The players' `image` attribute is left out, as part of rendering.
