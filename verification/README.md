# Treasure-Hunt-Maze in Dafny

Treasure-Hunt-Maze is a set of small maze games. Each game script carries
its own copy of the game logic; pygame and tkinter are used only for drawing.

- **The carved games** (classical, easy, hard and the two-player "friends"
  game) share one generator. It works on a grid of 0 (wall) and 1 (open),
  starts at (1,1), and carves a wall cell only when exactly one of its
  4-neighbours is open. At the end it forces the treasure cell
  (rows-2, cols-2) open.
- **main.py** builds its maze a different way. It runs Prim's algorithm over
  the 4-neighbour grid graph, and the result is a set of passages (edges).
- **Path finders:**
  - classical: breadth-first search for the fewest moves, or infinity;
  - easy mode's enemy: Dijkstra's algorithm, with a second breadth-first
    search as a fallback;
  - hard mode's enemy: A* with a Manhattan priority and parent links;
  - main.py: breadth-first search along passages.
- **Per-move game logic:**
  - player moves, both unchecked and bounds-checked;
  - the enemy policies and the gates that decide when an enemy acts;
  - keys and locks in the two-player game;
  - cycling through avatars on the selection screen.

The model gives one module per component:

- `Grid` holds the shared vocabulary: cells, directions, walks, reachability
  and the exact walking distance `IsDistance`.
- `Carve`, `Bfs`, `Dijkstra`, `Fallback`, `AStar` and `Prim` hold the
  algorithms.
- `Classic`, `Easy`, `Hard` and `Friends` hold the game steps. Each step is a
  function or method over an immutable state record.
- `Agree` runs the four grid path finders side by side.

Every path finder's contract is stated against the reference definitions in
`Grid`:

- "some walk exists" for reachability;
- "a walk of n steps exists and none is shorter" for distance.

The generator and the path finders leave choices to chance or to the heap.
The model turns each of these into an explicit choice or parameter:

- **Shuffle and pop, `random.choice` and `remove`:** an arbitrary element
  taken from a multiset.
- **Heap pops:** the extraction of any minimal entry.
- **Hard mode:** the random roll and the shuffled direction list become
  parameters.
- **Easy mode:** the clock becomes an integer parameter.

Several facts come out of the proofs:

- **Easy-mode fallback search.** It runs only when Dijkstra's search has
  found nothing, and then it also finds nothing (`Easy.MoveEnemy`).
- **Hard-mode pursuit.** The enemy never steps onto the player. In the random
  branch, however, it may.
- **The carved maze is a tree.** Before the treasure cell is forced open, the
  open cells form a tree hanging from (1,1). The treasure cell is reachable
  whenever one of its neighbours is open, but nothing in the generator
  guarantees that one is.

## Model

| member | source | states |
|---|---|---|
| Grid.AdjacentByOrder | classical.py:30 | in whatever order the four offsets are listed (hard mode reshuffles them), one of them leads from a to b exactly when b is a 4-neighbour of a |
| Grid.FreshMovesAreSteps | classical.py:63-67 | the neighbour loop picks out, once each, exactly the open 4-neighbours not yet marked |
| Grid.ShortestTail | easy_mode.py:204-205 | the second cell of a shortest path is one step nearer: the rest of the path is a shortest path from it |
| Grid.ClosedUnreachable | classical.py:68 | a cell set that holds the start but not the goal, and that no step leaves, shows the goal is unreachable |
| Carve.Blank | classical.py:34 | the generator starts from a rows x cols grid of 0/1 values with no open cell |
| Carve.Write | classical.py:45 | a grid write changes exactly one cell and keeps the grid's shape |
| Carve.WallMoves | classical.py:46-49 | the cells pushed after a carve are exactly the in-bounds neighbours that are still walls |
| Carve.CarveStep | classical.py:41-50 | one round only ever writes a 1. It carves exactly when the candidate is a wall with one open neighbour, and otherwise only drops that candidate. Each new candidate is an in-bounds wall next to the carved cell, and no other candidate is lost |
| Carve.SaturatedStep | classical.py:40-50 | each round keeps every wall next to an open cell either still a candidate or next to two open cells |
| Carve.LinksAdd | classical.py:44-45 | carving a cell with a single open neighbour adds exactly one open adjacent pair |
| Carve.CarvedState | classical.py:42-49 | a carve keeps the grid's shape, keeps every open cell reachable from (1,1), and keeps the number of open adjacent pairs one less than the number of open cells |
| Carve.CarveInvCarve | classical.py:41-49 | carving a wall with one open neighbour keeps the open cells a tree reachable from (1,1), with every wall touching it still a candidate or already past carving. It opens a new cell of the grid |
| Carve.CarveInvSkip | classical.py:40-42 | a candidate that is already open, or has more or fewer than one open neighbour, is only dropped, and the invariant holds without it |
| Carve.CarveMaze | classical.py:34-50 | the loop ends, by the measure walls left then candidates left. It leaves a rows x cols 0/1 grid that is a tree of open cells: every open cell is reachable from (1,1), there are open cells - 1 open adjacent pairs, and every wall touching the tree touches it at least twice |
| Carve.GenerateMaze | classical.py:32-53 | as above, plus the forced treasure cell: (1,1) and (rows-2, cols-2) are open, every other open cell is reachable from (1,1), and the treasure is reachable whenever one of its neighbours is open |
| Bfs.NextLayer | classical.py:63-66 | an open neighbour found from the head of the queue lies exactly one step further from the start than the head |
| Bfs.QueueOrder | classical.py:60-66 | the queue's step counts never decrease from front to back and span at most two consecutive values |
| Bfs.LogGrows | classical.py:65-67 | a cell is marked when enqueued, so each cell is enqueued at most once |
| Bfs.InvStep | classical.py:59-67 | each round keeps every recorded step count equal to the true distance and makes progress |
| Bfs.InvExhausted | classical.py:59-68 | when the queue runs dry the end cannot be reached, and every cell reachable from the start has been enqueued |
| Bfs.LogSound | classical.py:58-67 | every cell ever added to `visited` is reachable from the start, and none is added twice, so at most as many cells are enqueued as the grid has |
| Bfs.BfsShortestPath | classical.py:55-68 | the result is finite exactly when the end is reachable, it then equals the distance, and it is 0 when start and end coincide. The log of enqueued cells starts at the start, repeats no cell, holds only reachable cells and is no longer than the grid. When the result is infinite, it holds every reachable cell |
| Dijkstra.PopIsDistance | easy_mode.py:152-161 | the least heap entry of an unsettled cell carries that cell's true distance |
| Dijkstra.PendingStep | easy_mode.py:161-171 | after a cell is settled, every unsettled open neighbour is queued one step further on |
| Dijkstra.ExpandStep | easy_mode.py:153-171 | expanding the least entry keeps the invariant and settles one more cell, so each cell is expanded at most once |
| Dijkstra.SkipStep | easy_mode.py:158-159 | dropping an entry for a cell that is already settled keeps the invariant |
| Dijkstra.ExhaustedUnreachable | easy_mode.py:173 | an empty heap with the goal unsettled means the goal is unreachable |
| Dijkstra.ExpandedSound | easy_mode.py:158-161 | every cell recorded in `visited` is reachable from the start, and none is recorded twice, so at most as many cells are expanded as the grid has |
| Dijkstra.ExhaustedAll | easy_mode.py:152-173 | when the heap runs dry, every cell reachable from the start has been expanded |
| Dijkstra.DijkstraFindPath | easy_mode.py:136-173 | the result is empty exactly when the goal is unreachable. Otherwise it is a walk from start to goal of the shortest length, and it is [start] when start is the goal. The log of expanded cells repeats no cell, holds only reachable cells and is no longer than the grid. When the result is empty, it holds every reachable cell |
| Fallback.WeightDrops | easy_mode.py:181-189 | expanding an entry lowers a weight over the queue, so the search ends although a cell can be queued many times |
| Fallback.PathShort | easy_mode.py:185-189 | every queued path is shorter than the number of cells it can visit |
| Fallback.SimpleStep | easy_mode.py:186-189 | every queued path stays a walk from the start that repeats no cell |
| Fallback.CoveredStep | easy_mode.py:185-189 | every open neighbour of a visited cell is visited or waiting in the queue |
| Fallback.FindPath | easy_mode.py:175-190 | the result is empty exactly when the goal is unreachable, and otherwise is a walk from start to goal that repeats no cell |
| AStar.Relax | hard_mode.py:68-75 | relaxing one move changes the state exactly when the neighbour is open and uncosted or cheaper now. It then sets the new cost and parent link and pushes the cell |
| AStar.RelaxAll | hard_mode.py:67-75 | expanding a cell keeps its own cost and never raises a cost, and every open neighbour ends at most one above it |
| AStar.RelaxAllTree | hard_mode.py:70-75 | the parent links stay a tree rooted at the start: the start keeps cost 0 and no parent, and each parent is one step back at a lower cost |
| AStar.RelaxAllProgress | hard_mode.py:71-74 | expanding a cell only appends to the heap, and any push comes with a strictly lowered cost |
| AStar.FrontierStep | hard_mode.py:62-75 | every costed cell is still in the heap or has all its open neighbours costed |
| AStar.Explore | hard_mode.py:57-75 | the search loop ends, and then either the heap is empty or the goal has a cost. The parent links still form a tree and every costed cell is still in the heap or has all its open neighbours costed |
| AStar.ExploredReach | hard_mode.py:62-65 | when the loop has ended, the goal has a cost exactly when it is reachable from the start |
| AStar.Trace | hard_mode.py:77-81 | following parent links ends, because costs strictly drop along the chain, and yields a walk from the start |
| AStar.Reconstruct | hard_mode.py:77-82 | the rebuilt path ends at the goal. It is a walk from the start that repeats no cell when the goal was reached, and exactly [goal] otherwise |
| AStar.AStarSearch | hard_mode.py:57-82 | the result ends at the goal. It starts at the start exactly when the goal is reachable, and is then a walk that repeats no cell. It is [goal] when the goal is unreachable and [start] when start is the goal |
| Prim.BoxCard | main.py:23 | the rows x cols grid graph has rows * cols nodes |
| Prim.InvInit | main.py:27-30 | at the start, every neighbour of (0,0) has a pending edge into it |
| Prim.GrowStep | main.py:36-39 | an edge into an unvisited cell joins a visited cell to an adjacent unvisited one. Keeping it makes that cell visited and keeps the tree spanning the visited cells |
| Prim.SkipStep | main.py:33-36 | an edge into a visited cell is only dropped |
| Prim.Finish | main.py:32-41 | with no edge pending, every grid cell is visited |
| Prim.GenerateMaze | main.py:21-41 | the passages form a spanning tree of the rows x cols grid graph: each joins two 4-neighbours, every cell is connected to (0,0), and there are rows * cols - 1 of them |
| Prim.PassMovesAreSteps | main.py:54-58 | the neighbour loop finds, once each, exactly the unmarked cells that a passage joins to the current one, in either orientation |
| Prim.SearchStep | main.py:48-58 | each round keeps every queued path a passage walk from the start, and every neighbour of an expanded cell marked |
| Prim.BfsPath | main.py:43-60 | the result is empty exactly when no passage walk joins start and goal. Otherwise it is such a walk, and it is [start] when start is the goal |
| Prim.PlayerMove | main.py:100-113 | the player moves only across a passage to the arrow's neighbour. A key that is not an arrow changes nothing |
| Prim.PlayerMoveConnected | main.py:110-113 | a move keeps the player connected to (0,0) |
| Prim.NewGame | main.py:63-66 | the 15 x 15 maze has 224 passages, and the initial path from (0,0) to the treasure at (14,14) is a non-empty passage walk |
| Classic.Target | classical.py:140 | an arrow aims at a 4-neighbour and any other key at the player's own cell |
| Classic.UncheckedMove | classical.py:140-143 | a target off the grid is an indexing error. An open target becomes the position and counts one move, and a wall target changes nothing |
| Classic.MoveStaysOpen | classical.py:141-142 | a player on an open cell stays on open cells, one step at a time |
| Classic.OtherKeyCounts | classical.py:140-143 | a key that is not an arrow leaves the player in place yet adds a move |
| Classic.PressesStayOpen | classical.py:136-143 | over a frame the player stays on open cells, and each press adds at most one move |
| Classic.ClassicFrame | classical.py:136-146 | after the frame's presses the game stops exactly when the player stands on the treasure |
| Classic.ClassicStart | classical.py:114-119 | the classical game starts on a 21 x 21 0/1 maze with (1,1) and (19,19) open. Its optimal move count is finite exactly when the treasure is reachable, and is then the distance |
| Easy.MovePlayer | easy_mode.py:124-134 | the player moves exactly when the target is in bounds and open, and a move counts exactly one. Landing on the treasure wins even when the enemy is there, and landing on the enemy loses |
| Easy.Press | easy_mode.py:110-122 | keys other than the arrows change nothing |
| Easy.PressStaysOpen | easy_mode.py:124-128 | the player stays on open cells, one step at a time, and the move count rises exactly with position changes |
| Easy.MoveEnemy | easy_mode.py:192-209 | nothing happens until 3 time units have passed since the enemy last moved. Then the enemy moves exactly when it can reach a player it is not already on, by one step that leaves it one step nearer. The player is caught exactly when the enemy lands on the player's cell |
| Hard.FirstOpen | hard_mode.py:88-92 | the random branch picks the first open neighbour in the shuffled order, or none when no neighbour is open |
| Hard.MoveEnemy | hard_mode.py:84-96 | on the random roll with an open neighbour, the enemy takes the first open neighbour and the enemy move count stays the same. Otherwise it pursues: it moves only one step, only along a walk to a reachable player, and never onto the player. It does move whenever the player is reachable, elsewhere and not adjacent. The enemy move count rises whether or not it moved |
| Hard.HardFrame | hard_mode.py:136-155 | the enemy acts only when the move count is above 7 and a multiple of 5. When it is due, it acts: either the enemy move count rises, or it took the random first open neighbour. It never moves more than one step. Standing on the treasure wins before meeting the enemy loses |
| Friends.RemoveFirst | friends.py:255 | removing a listed cell drops one copy of it and nothing else |
| Friends.Advance | friends.py:251-269 | a key on the target is picked up. A lock there is opened with a key, or the press is abandoned without one. Otherwise the player moves, counting one move, exactly when the target is an in-bounds open cell |
| Friends.TreasureCheck | friends.py:304-306 | the game ends once either player is on the treasure, and red is the winner exactly when red is on it |
| Friends.HandlePress | friends.py:234-306 | a press blocked by a lock changes nothing and skips the treasure check. Any other press ends the game once a player stands on the treasure, naming red before blue |
| Friends.TokensKept | friends.py:254-262 | keys on the board plus keys held, minus locks still standing, never change |
| Friends.TokensKeptRun | friends.py:234-306 | over a whole game, keys on the board plus keys held plus locks opened equal the keys placed |
| Friends.BoardKept | friends.py:254-262 | keys and locks stay on distinct open cells |
| Friends.PressMovesOne | friends.py:266-269 | the mover goes only to the in-bounds open cell it aimed at, and then its move count rises by one. The other player is untouched |
| Friends.OtherPressStill | friends.py:303-306 | a press that is not a move key changes neither player nor the board |
| Friends.KeyPickedUp | friends.py:254-256 | stepping onto a key takes it off the board and gives the mover one more key |
| Friends.LockOpened | friends.py:259-262 | stepping onto a lock with a key costs one key and takes the lock off the board |
| Friends.Spaces | friends.py:201-202 | the candidate cells are exactly the open cells other than the two start cells and the treasure, listed once each |
| Friends.PlaceLocksAndKeys | friends.py:200-206 | at most two keys and two locks (as many as there is room for) lie on distinct open cells, none of them a start cell or the treasure |
| Friends.NewRace | friends.py:161-174 | the race starts on a 21 x 21 maze with red at (1,1), blue at (1,19), the treasure at (19,19), nobody holding a key, and a well-formed board |
| Friends.Select | friends.py:123-139 | A/D cycle red's avatar and the arrows cycle blue's, each into [0, 4), leaving the other untouched. Right moves the index one up and left one down, modulo 4. Space starts the game, and other keys change nothing |
| Friends.SelectInRange | friends.py:126-134 | starting in range, both avatar indices stay in [0, 4) |
| Friends.SelectUndo | friends.py:126-134 | for either player, cycling one way undoes cycling the other, and four presses return to the start |
| Agree.CompareFinders | easy_mode.py:137-146 | on one grid, the breadth-first count is the Dijkstra path length minus one, and no path from the fallback search or A* is shorter. All four finders agree on reachability |

## Left out

- server.py, and all drawing, images, fonts, pop-ups, countdowns and event pumping: these are presentation only. Quit events are left out too.
- Score persistence (classical.py:70-93): it is file input/output and float formatting.
- Wall-clock time: easy mode's enemy timer is an integer parameter, and the elapsed-time display is left out.
- Python's random numbers: they are nondeterministic choices or parameters. This covers hard mode's 0.2 roll, its in-place shuffle of the global direction list (a direction-order parameter), and the enemy's start cell drawn from the patrol list (hard_mode.py:130).
- networkx: the grid graph is defined directly.
- Heap tie-breaking on tuples: any minimal entry may be popped.
- Bounds: the grid searches and moves test bounds against the grid's own size rather than the ROWS and COLS constants. The two agree for every grid the games build.
- Start-up of easy and hard mode: only the classical, main.py and two-player start-ups are modelled (`ClassicStart`, `NewGame`, `NewRace`).
- Classic.UncheckedMove: a negative target index is reported as an indexing error like one past the edge. Python would instead wrap round to the far row or column.
- Carve.CarveMaze: requires rows, cols >= 2, because a smaller grid has no cell (1,1) to start from and the source would fail indexing it. Carve.GenerateMaze carries the same precondition.
- Prim.BfsPath: does not state that the path is shortest or repeats no cell, only that it is a passage walk from start to goal. The carved passages form a tree, so the walk is in fact the unique simple one, but proving that needs a uniqueness argument for tree paths that the model does not carry. Also, main.py:44-45 queues the start without marking it visited, so the start can be enqueued a second time. Therefore "no cell enters twice" does not hold as written.
- AStar.AStarSearch: does not state that the path is shortest; the source never promises it.
- Hard.MoveEnemy: pursuit is stated as one step along a walk that still reaches the player, not as a step along a shortest route.
