/** The hard mode of hard_mode.py: the unchecked player move, an enemy that
    sometimes steps to a random open neighbour and otherwise follows an A*
    path towards the player, and a frame that lets the enemy act only on
    certain move counts. The random roll and the in-place shuffle of the
    global direction list are parameters: `roll` says the random branch was
    taken, and `dirs` is the direction list after any shuffle, which the A*
    search then also uses. */
module Hard {
  import opened Seqs
  import opened Grid
  import opened Classic
  import AStar

  datatype Status = Running | Won | Lost

  datatype Hard = Hard(walker: Walker, enemy: Pos, treasure: Pos, enemyMoves: nat, status: Status)

  /** The player's head start: the enemy waits until more moves than this have been made. */
  const Headstart: nat := 7

  /** The enemy acts on frames where the move count is past the head start and a multiple of 5. */
  predicate EnemyDue(moves: nat) {
    moves > Headstart && moves % 5 == 0
  }

  /** The first move in dirs that lands on an open cell. */
  function FirstOpen(g: Maze, p: Pos, dirs: seq<Dir>): (r: Option<Pos>)
    ensures r.None? <==> forall i :: 0 <= i < |dirs| ==> !IsOpen(g, Move(p, dirs[i]))
    ensures r.Some? ==> exists i :: (0 <= i < |dirs| && r.value == Move(p, dirs[i]) && IsOpen(g, r.value)
      && forall j :: 0 <= j < i ==> !IsOpen(g, Move(p, dirs[j])))
  {
    if dirs == [] then None
    else if IsOpen(g, Move(p, dirs[0])) then
      Some(Move(p, dirs[0]))
    else
      var rest := FirstOpen(g, p, dirs[1..]);
      assert forall i :: 1 <= i < |dirs| ==> dirs[i] == dirs[1..][i - 1];
      if rest.Some? then
        var i :| 0 <= i < |dirs[1..]| && rest.value == Move(p, dirs[1..][i]) && IsOpen(g, rest.value)
          && forall j :: 0 <= j < i ==> !IsOpen(g, Move(p, dirs[1..][j]));
        assert rest.value == Move(p, dirs[i + 1]);
        assert forall j :: 0 <= j < i + 1 ==> !IsOpen(g, Move(p, dirs[j])) by {
          forall j | 0 <= j < i + 1
            ensures !IsOpen(g, Move(p, dirs[j]))
          {
            if j > 0 {
              assert dirs[j] == dirs[1..][j - 1];
            }
          }
        }
        rest
      else
        rest
  }

  /** hard_mode.py move_enemy. With the random roll and an open neighbour,
      the enemy steps to the first open neighbour in the shuffled order and
      the enemy move count is left alone; otherwise it pursues the player,
      stepping along the A* path exactly when that path has more than two
      cells (the player is reachable, elsewhere and not adjacent), and the
      count goes up whether or not it moved. */
  method MoveEnemy(g: Maze, h: Hard, roll: bool, dirs: seq<Dir>) returns (r: Hard)
    requires IsOrder(dirs)
    ensures r.walker == h.walker && r.treasure == h.treasure && r.status == h.status
    ensures r.enemy == h.enemy || Step(g, h.enemy, r.enemy)
    ensures roll && FirstOpen(g, h.enemy, dirs).Some? ==>
      r.enemy == FirstOpen(g, h.enemy, dirs).value && r.enemyMoves == h.enemyMoves
    ensures !(roll && FirstOpen(g, h.enemy, dirs).Some?) ==>
      && r.enemyMoves == h.enemyMoves + 1
      && (r.enemy != h.enemy ==>
            r.enemy != h.walker.player && Reachable(g, h.enemy, h.walker.player) && Reachable(g, r.enemy, h.walker.player))
      && (!Reachable(g, h.enemy, h.walker.player) || h.enemy == h.walker.player ==> r.enemy == h.enemy)
      && ((Reachable(g, h.enemy, h.walker.player) && h.enemy != h.walker.player
           && !Adjacent(h.enemy, h.walker.player)) ==> r.enemy != h.enemy)
  {
    if roll {
      var next := FirstOpen(g, h.enemy, dirs);
      if next.Some? {
        AdjacentByOrder(h.enemy, next.value, dirs);
        return h.(enemy := next.value);
      }
    }
    var path := AStar.AStarSearch(g, h.enemy, h.walker.player, dirs);
    if |path| <= 2 && Reachable(g, h.enemy, h.walker.player) && h.enemy != h.walker.player {
      assert |path| == 2 && Step(g, path[0], path[1]);
    }
    if |path| > 2 {
      WalkTail(g, path);
      assert path[1..][0] == path[1] && path[1..][|path[1..]| - 1] == h.walker.player;
      assert WalkFrom(g, path[1], h.walker.player, path[1..]);
      assert path[1] != path[|path| - 1];
      assert Step(g, path[0], path[1]);
      r := h.(enemy := path[1], enemyMoves := h.enemyMoves + 1);
    } else {
      r := h.(enemyMoves := h.enemyMoves + 1);
    }
    if h.enemy == h.walker.player {
      assert path == [h.enemy];
    }
  }

  /** hard_mode.py:136-155: the frame's key presses, then the enemy when its
      move count gate is open, then the win check before the loss check. */
  method HardFrame(g: Maze, h: Hard, keys: seq<Key>, roll: bool, dirs: seq<Dir>) returns (r: Result<Hard>)
    requires IsOrder(dirs)
    ensures r.IndexError? <==> Presses(g, h.walker, keys).IndexError?
    ensures r.Ok? ==> r.value.walker == Presses(g, h.walker, keys).value && r.value.treasure == h.treasure
    ensures r.Ok? && !EnemyDue(r.value.walker.moves) ==>
      r.value.enemy == h.enemy && r.value.enemyMoves == h.enemyMoves
    ensures r.Ok? && EnemyDue(r.value.walker.moves) ==>
      r.value.enemyMoves == h.enemyMoves + 1
      || (roll && FirstOpen(g, h.enemy, dirs).Some? && r.value.enemy == FirstOpen(g, h.enemy, dirs).value)
    ensures r.Ok? ==> (r.value.enemy == h.enemy || Step(g, h.enemy, r.value.enemy))
    ensures r.Ok? ==>
      r.value.status == (if r.value.walker.player == h.treasure then Won
                         else if r.value.walker.player == r.value.enemy then Lost
                         else h.status)
  {
    var moved := Presses(g, h.walker, keys);
    if moved.IndexError? {
      return IndexError;
    }
    var s := h.(walker := moved.value);
    if EnemyDue(s.walker.moves) {
      s := MoveEnemy(g, s, roll, dirs);
    }
    if s.walker.player == s.treasure {
      s := s.(status := Won);
    } else if s.walker.player == s.enemy {
      s := s.(status := Lost);
    }
    r := Ok(s);
  }
}
