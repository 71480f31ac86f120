/** The easy mode of easy_mode.py: a bounds-checked player move, and an
    enemy that, at most once every three time units, steps along a shortest
    path to the player (Dijkstra's search, with the breadth-first search as
    a fallback when it finds nothing). The clock is an integer parameter. */
module Easy {
  import opened Seqs
  import opened Grid
  import Dijkstra
  import Fallback

  datatype Status = Running | Won | Lost

  datatype Easy = Easy(player: Pos, enemy: Pos, treasure: Pos, moves: nat, status: Status, lastEnemyMove: int)

  /** Time units the enemy waits between two moves. */
  const EnemyDelay: int := 3

  /** easy_mode.py move_player: the player moves only onto an in-bounds open
      cell, which counts one move; the treasure check comes before the enemy
      check, so landing on both wins. */
  function MovePlayer(g: Maze, s: Easy, d: Dir): (r: Easy)
    ensures r.player != s.player <==> IsOpen(g, Move(s.player, d))
    ensures r.player != s.player ==> r.player == Move(s.player, d) && r.moves == s.moves + 1
    ensures r.player == s.player ==> r == s
    ensures r.enemy == s.enemy && r.treasure == s.treasure && r.lastEnemyMove == s.lastEnemyMove
    ensures r.player != s.player && r.player == s.treasure ==> r.status == Won
    ensures r.player != s.player && r.player != s.treasure && r.player == s.enemy ==> r.status == Lost
    ensures r.player != s.treasure && r.player != s.enemy ==> r.status == s.status
  {
    var t := Move(s.player, d);
    if IsOpen(g, t) then
      var s' := s.(player := t, moves := s.moves + 1);
      if t == s.treasure then s'.(status := Won)
      else if t == s.enemy then s'.(status := Lost)
      else s'
    else s
  }

  /** easy_mode.py:110-122: only the four arrow keys reach move_player. */
  function Press(g: Maze, s: Easy, key: Key): (r: Easy)
    ensures key.OtherKey? ==> r == s
  {
    match key
    case Arrow(d) => MovePlayer(g, s, d)
    case OtherKey => s
  }

  /** A player who starts on an open cell stays on open cells, one step at a time. */
  lemma PressStaysOpen(g: Maze, s: Easy, key: Key)
    requires IsOpen(g, s.player)
    ensures var r := Press(g, s, key);
      IsOpen(g, r.player) && (r.player == s.player || Step(g, s.player, r.player))
      && r.moves == s.moves + (if r.player == s.player then 0 else 1)
  {
  }

  /** easy_mode.py move_enemy. Nothing happens until EnemyDelay time units
      have passed since the last enemy move. Then the enemy takes the second
      cell of its path to the player, when the path has one, which puts it
      one step closer on a shortest route; the player is caught exactly when
      the enemy lands on the player's cell. */
  method MoveEnemy(g: Maze, s: Easy, now: int) returns (r: Easy)
    ensures now - s.lastEnemyMove < EnemyDelay ==> r == s
    ensures now - s.lastEnemyMove >= EnemyDelay ==>
      && r.lastEnemyMove == now
      && r.player == s.player && r.treasure == s.treasure && r.moves == s.moves
      && (r.enemy != s.enemy <==> Reachable(g, s.enemy, s.player) && s.enemy != s.player)
      && (r.enemy != s.enemy ==> Step(g, s.enemy, r.enemy))
      && (forall n: nat :: IsDistance(g, s.enemy, s.player, n) && r.enemy != s.enemy ==>
            n >= 1 && IsDistance(g, r.enemy, s.player, n - 1))
      && r.status == (if r.enemy != s.enemy && r.enemy == s.player then Lost else s.status)
  {
    if now - s.lastEnemyMove < EnemyDelay {
      return s;
    }
    r := s.(lastEnemyMove := now);
    ghost var expanded;
    var path;
    path, expanded := Dijkstra.DijkstraFindPath(g, s.enemy, s.player);
    if path == [] {
      path := Fallback.FindPath(g, s.enemy, s.player);
      assert path == [];
    }
    if |path| > 1 {
      ShortestTail(g, s.enemy, s.player, path);
      forall n: nat | IsDistance(g, s.enemy, s.player, n)
        ensures n >= 1 && IsDistance(g, path[1], s.player, n - 1)
      {
        DistanceUnique(g, s.enemy, s.player, n, |path| - 1);
      }
      r := r.(enemy := path[1]);
      if r.enemy == r.player {
        r := r.(status := Lost);
      }
    } else if path != [] {
      assert s.enemy == s.player by {
        assert path[0] == s.enemy && path[|path| - 1] == s.player;
      }
    }
  }
}
