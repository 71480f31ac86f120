/** The unchecked player move shared by classical.py and hard_mode.py, and
    the classical game around it. The move indexes the grid at the target
    cell without a bounds test, so a target off the grid is an indexing
    error rather than a refused move; a key other than an arrow aims at the
    player's own cell and, when that cell is open, still counts as a move. */
module Classic {
  import opened Grid
  import Carve
  import Bfs

  /** The outcome of a step that indexes the grid without a bounds test. */
  datatype Result<T> = Ok(value: T) | IndexError

  /** The player's cell and the number of accepted moves. */
  datatype Walker = Walker(player: Pos, moves: nat)

  /** The cell a key aims at: the arrow's neighbour, or the player's own cell. */
  function Target(p: Pos, key: Key): (t: Pos)
    ensures key.Arrow? ==> Adjacent(p, t)
    ensures key.OtherKey? ==> t == p
  {
    match key
    case Arrow(d) => Move(p, d)
    case OtherKey => p
  }

  /** classical.py:140-143 and hard_mode.py:143-146. */
  function UncheckedMove(g: Maze, w: Walker, key: Key): (r: Result<Walker>)
    ensures r.IndexError? <==> !InBounds(g, Target(w.player, key))
    ensures r.Ok? && IsOpen(g, Target(w.player, key)) ==>
      r.value == Walker(Target(w.player, key), w.moves + 1)
    ensures r.Ok? && !IsOpen(g, Target(w.player, key)) ==> r.value == w
  {
    var t := Target(w.player, key);
    if !InBounds(g, t) then IndexError
    else if g[t.r][t.c] == 1 then Ok(Walker(t, w.moves + 1))
    else Ok(w)
  }

  /** The player only ever stands on an open cell, and a position change is one arrow step. */
  lemma MoveStaysOpen(g: Maze, w: Walker, key: Key)
    requires IsOpen(g, w.player)
    ensures var r := UncheckedMove(g, w, key);
      r.Ok? ==> IsOpen(g, r.value.player) && (r.value.player == w.player || Step(g, w.player, r.value.player))
  {
  }

  /** A key other than an arrow leaves the player in place yet counts a move. */
  lemma OtherKeyCounts(g: Maze, w: Walker)
    requires IsOpen(g, w.player)
    ensures UncheckedMove(g, w, OtherKey) == Ok(Walker(w.player, w.moves + 1))
  {
  }

  /** All key presses of one frame, in order; the first indexing error ends the frame. */
  function Presses(g: Maze, w: Walker, keys: seq<Key>): (r: Result<Walker>)
    decreases |keys|
  {
    if keys == [] then Ok(w)
    else match UncheckedMove(g, w, keys[0])
      case IndexError => IndexError
      case Ok(w') => Presses(g, w', keys[1..])
  }

  /** Over a frame the player stays on open cells, and each press adds at most one move. */
  lemma {:induction false} PressesStayOpen(g: Maze, w: Walker, keys: seq<Key>)
    requires IsOpen(g, w.player)
    ensures var r := Presses(g, w, keys);
      r.Ok? ==> IsOpen(g, r.value.player) && w.moves <= r.value.moves <= w.moves + |keys|
    decreases |keys|
  {
    if keys != [] {
      MoveStaysOpen(g, w, keys[0]);
      if UncheckedMove(g, w, keys[0]).Ok? {
        PressesStayOpen(g, UncheckedMove(g, w, keys[0]).value, keys[1..]);
      }
    }
  }

  /** A classical game in progress. */
  datatype Game = Game(walker: Walker, treasure: Pos, running: bool)

  /** classical.py:136-146: the frame's key presses, then the treasure check. */
  function ClassicFrame(g: Maze, s: Game, keys: seq<Key>): (r: Result<Game>)
    ensures r.IndexError? <==> Presses(g, s.walker, keys).IndexError?
    ensures r.Ok? ==> r.value.walker == Presses(g, s.walker, keys).value && r.value.treasure == s.treasure
    ensures r.Ok? ==> (r.value.running <==> s.running && r.value.walker.player != s.treasure)
  {
    match Presses(g, s.walker, keys)
    case IndexError => IndexError
    case Ok(w) => Ok(Game(w, s.treasure, s.running && w.player != s.treasure))
  }

  /** classical.py:114-119: a 21 x 21 maze, the player at (1,1), the treasure
      at (19,19), and the fewest steps between them (infinite when the
      treasure is cut off). */
  method ClassicStart() returns (g: Maze, s: Game, optimal: Bfs.Steps)
    ensures Carve.Rect(g, 21, 21) && Carve.Binary(g)
    ensures s == Game(Walker(Pos(1, 1), 0), Pos(19, 19), true)
    ensures IsOpen(g, s.walker.player) && IsOpen(g, s.treasure)
    ensures optimal.Finite? <==> Reachable(g, s.walker.player, s.treasure)
    ensures optimal.Finite? ==> IsDistance(g, s.walker.player, s.treasure, optimal.n)
  {
    g := Carve.GenerateMaze(21, 21);
    s := Game(Walker(Carve.Start, 0), Carve.Exit(21, 21), true);
    ghost var log;
    optimal, log := Bfs.BfsShortestPath(g, s.walker.player, s.treasure);
  }
}
