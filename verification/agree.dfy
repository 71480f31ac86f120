/** The path finders side by side: on the same grid, the breadth-first
    distance of classical.py and the Dijkstra path of easy_mode.py agree on
    whether the goal can be reached and on how far away it is, and the
    fallback search and A* agree with them on reachability. */
module Agree {
  import opened Grid
  import Bfs
  import Dijkstra
  import Fallback
  import AStar

  method CompareFinders(g: Maze, start: Pos, goal: Pos, dirs: seq<Dir>)
    returns (steps: Bfs.Steps, shortest: seq<Pos>, fallback: seq<Pos>, astar: seq<Pos>)
    requires IsOrder(dirs)
    ensures steps.Finite? <==> shortest != []
    ensures steps.Finite? ==> steps.n == |shortest| - 1
    ensures shortest != [] <==> fallback != []
    ensures fallback != [] ==> |shortest| <= |fallback|
    ensures |astar| >= 1 && (shortest != [] <==> astar[0] == start)
    ensures shortest != [] ==> |shortest| <= |astar|
  {
    ghost var log, expanded;
    steps, log := Bfs.BfsShortestPath(g, start, goal);
    shortest, expanded := Dijkstra.DijkstraFindPath(g, start, goal);
    fallback := Fallback.FindPath(g, start, goal);
    astar := AStar.AStarSearch(g, start, goal, dirs);
    if steps.Finite? {
      DistanceUnique(g, start, goal, steps.n, |shortest| - 1);
      assert WalkFrom(g, start, goal, fallback);
      assert WalkFrom(g, start, goal, astar);
    }
  }
}
