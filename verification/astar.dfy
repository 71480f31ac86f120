/** The hard-mode enemy's path finder (hard_mode.py a_star_search): A* with
    the Manhattan distance to the goal as heuristic, a cost table and
    parent links. There is no closed set: a cell is pushed again whenever its
    cost improves, and popped cells are expanded every time. The path is
    rebuilt by following parent links from the goal, which yields just the
    goal when the goal was never reached. The neighbour order is the hard
    mode's DIRECTIONS list, which its enemy shuffles in place, so it is a
    parameter here. */
module AStar {
  import opened Seqs
  import opened Grid

  /** The search state: the heap of (priority, cell), came_from and cost_so_far. */
  datatype State = State(heap: seq<(int, Pos)>, cameFrom: map<Pos, Option<Pos>>, cost: map<Pos, nat>)

  function Abs(x: int): nat {
    if x < 0 then -x else x
  }

  function Manhattan(a: Pos, b: Pos): nat {
    Abs(a.r - b.r) + Abs(a.c - b.c)
  }

  /** The initial state: the start alone, at cost 0 and with no parent. */
  function Init(start: Pos): State {
    State([(0, start)], map[start := None], map[start := 0])
  }

  /** Relaxing the move d out of cur: an open neighbour gets cost cur + 1, is
      pushed and points back at cur, when it had no cost or a larger one. */
  function Relax(g: Maze, goal: Pos, cur: Pos, d: Dir, s: State): (r: State)
    requires cur in s.cost
    ensures var nxt := Move(cur, d);
      r != s <==> IsOpen(g, nxt) && (nxt !in s.cost || s.cost[cur] + 1 < s.cost[nxt])
    ensures var nxt := Move(cur, d);
      r != s ==> && r.cost == s.cost[nxt := s.cost[cur] + 1]
                 && r.cameFrom == s.cameFrom[nxt := Some(cur)]
                 && r.heap == s.heap + [(s.cost[cur] + 1 + Manhattan(goal, nxt), nxt)]
    ensures IsOpen(g, Move(cur, d)) ==> Move(cur, d) in r.cost && r.cost[Move(cur, d)] <= s.cost[cur] + 1
  {
    var nxt := Move(cur, d);
    if IsOpen(g, nxt) then
      var newCost := s.cost[cur] + 1;
      if nxt !in s.cost || newCost < s.cost[nxt] then
        assert nxt in s.cost ==> s.cost[nxt] != newCost;
        State(s.heap + [(newCost + Manhattan(goal, nxt), nxt)], s.cameFrom[nxt := Some(cur)], s.cost[nxt := newCost])
      else s
    else s
  }

  /** Relaxing each move of dirs in turn. */
  function RelaxAll(g: Maze, goal: Pos, cur: Pos, dirs: seq<Dir>, s: State): (r: State)
    requires cur in s.cost
    ensures cur in r.cost && r.cost[cur] == s.cost[cur]
    ensures forall n :: n in s.cost ==> n in r.cost && r.cost[n] <= s.cost[n]
    ensures forall i :: 0 <= i < |dirs| && IsOpen(g, Move(cur, dirs[i])) ==>
      Move(cur, dirs[i]) in r.cost && r.cost[Move(cur, dirs[i])] <= s.cost[cur] + 1
    decreases |dirs|
  {
    if dirs == [] then s
    else
      var s1 := Relax(g, goal, cur, dirs[0], s);
      assert Move(cur, dirs[0]) != cur;
      var r := RelaxAll(g, goal, cur, dirs[1..], s1);
      assert forall i :: 1 <= i < |dirs| ==> dirs[i] == dirs[1..][i - 1];
      r
  }

  /** The parent links form a tree rooted at the start whose costs strictly
      increase away from the root, along steps through open cells; every cost
      is below the number of costed cells, which all lie in the maze or are the start. */
  ghost predicate Tree(g: Maze, start: Pos, s: State) {
    && Rooted(start, s.cameFrom, s.cost)
    && Parents(g, s.cameFrom, s.cost)
    && Bounded(g, start, s.cost)
    && (forall i :: 0 <= i < |s.heap| ==> s.heap[i].1 in s.cost)
  }

  /** Exactly the costed cells have parent links, and only the start has none. */
  predicate Rooted(start: Pos, cameFrom: map<Pos, Option<Pos>>, cost: map<Pos, nat>) {
    && cameFrom.Keys == cost.Keys
    && start in cost && cost[start] == 0 && cameFrom[start] == None
    && (forall n :: n in cameFrom && cameFrom[n].None? ==> n == start)
  }

  /** Every parent link leads, by one step back, to a costed cell of smaller cost. */
  predicate Parents(g: Maze, cameFrom: map<Pos, Option<Pos>>, cost: map<Pos, nat>) {
    forall n :: n in cameFrom && n in cost && cameFrom[n].Some? ==>
      cameFrom[n].value in cost && cost[cameFrom[n].value] < cost[n] && Step(g, cameFrom[n].value, n)
  }

  /** Costs stay below the number of costed cells, all of them the start or maze cells. */
  predicate Bounded(g: Maze, start: Pos, cost: map<Pos, nat>) {
    && (forall n :: n in cost ==> cost[n] < |cost.Keys|)
    && cost.Keys <= Cells(g) + {start}
  }

  lemma RelaxTree(g: Maze, start: Pos, goal: Pos, cur: Pos, d: Dir, s: State)
    requires Tree(g, start, s) && cur in s.cost
    ensures Tree(g, start, Relax(g, goal, cur, d, s))
  {
    var r := Relax(g, goal, cur, d, s);
    var nxt := Move(cur, d);
    if r != s {
      assert nxt != start;
      UpdateRooted(start, s.cameFrom, s.cost, nxt, cur, s.cost[cur] + 1);
      UpdateParents(g, s.cameFrom, s.cost, nxt, cur, s.cost[cur] + 1);
      UpdateBounded(g, start, s.cost, nxt, s.cost[cur] + 1);
      forall i | 0 <= i < |r.heap|
        ensures r.heap[i].1 in r.cost
      {
        if i < |s.heap| {
          assert r.heap[i] == s.heap[i];
        }
      }
    }
  }

  lemma UpdateRooted(start: Pos, cameFrom: map<Pos, Option<Pos>>, cost: map<Pos, nat>, n: Pos, p: Pos, c: nat)
    requires Rooted(start, cameFrom, cost) && n != start
    ensures Rooted(start, cameFrom[n := Some(p)], cost[n := c])
  {
  }

  lemma UpdateParents(g: Maze, cameFrom: map<Pos, Option<Pos>>, cost: map<Pos, nat>, n: Pos, p: Pos, c: nat)
    requires Parents(g, cameFrom, cost) && p in cost && p != n
    requires c == cost[p] + 1 && Step(g, p, n) && (n !in cost || c < cost[n])
    ensures Parents(g, cameFrom[n := Some(p)], cost[n := c])
  {
  }

  lemma UpdateBounded(g: Maze, start: Pos, cost: map<Pos, nat>, n: Pos, c: nat)
    requires Bounded(g, start, cost) && IsOpen(g, n)
    requires (n !in cost && c <= |cost.Keys|) || (n in cost && c < cost[n])
    ensures Bounded(g, start, cost[n := c])
  {
    CellsInBounds(g, n);
    if n !in cost {
      assert cost[n := c].Keys == cost.Keys + {n};
    } else {
      assert cost[n := c].Keys == cost.Keys;
    }
  }

  lemma {:induction false} RelaxAllTree(g: Maze, start: Pos, goal: Pos, cur: Pos, dirs: seq<Dir>, s: State)
    requires Tree(g, start, s) && cur in s.cost
    ensures Tree(g, start, RelaxAll(g, goal, cur, dirs, s))
    decreases |dirs|
  {
    if dirs != [] {
      RelaxTree(g, start, goal, cur, dirs[0], s);
      RelaxAllTree(g, start, goal, cur, dirs[1..], Relax(g, goal, cur, dirs[0], s));
    }
  }

  /** The (cell, cost) pairs still open to improvement: a cell of u with no cost
      yet or a larger one, and a cost below n. */
  function Avail(u: set<Pos>, n: nat, cost: map<Pos, nat>): set<(Pos, nat)> {
    set x, c | x in u && 0 <= c < n && (x !in cost || c < cost[x]) :: (x, c)
  }

  /** Relaxation only appends to the heap and only lowers costs; when it changes
      anything, some cell's cost strictly drops. */
  lemma {:induction false} RelaxAllProgress(g: Maze, goal: Pos, cur: Pos, dirs: seq<Dir>, s: State)
    requires cur in s.cost
    ensures var r := RelaxAll(g, goal, cur, dirs, s);
      && |r.heap| >= |s.heap| && r.heap[..|s.heap|] == s.heap
      && (r.heap == s.heap ==> r.cost == s.cost)
      && (r.heap != s.heap ==> exists x :: x in r.cost && (x !in s.cost || r.cost[x] < s.cost[x]))
    decreases |dirs|
  {
    if dirs != [] {
      var s1 := Relax(g, goal, cur, dirs[0], s);
      RelaxAllProgress(g, goal, cur, dirs[1..], s1);
      var r := RelaxAll(g, goal, cur, dirs, s);
      assert r == RelaxAll(g, goal, cur, dirs[1..], s1);
      if s1 != s {
        var nxt := Move(cur, dirs[0]);
        assert |s1.heap| == |s.heap| + 1;
        assert r.heap[..|s.heap|] == r.heap[..|s1.heap|][..|s.heap|];
        assert nxt in r.cost && r.cost[nxt] <= s1.cost[nxt];
        assert r.heap != s.heap;
      }
    }
  }

  /** Lowering a cost, or adding one, below the bound removes a pair from Avail. */
  lemma AvailShrinks(u: set<Pos>, n: nat, cost: map<Pos, nat>, cost': map<Pos, nat>)
    requires forall x :: x in cost ==> x in cost' && cost'[x] <= cost[x]
    requires cost'.Keys <= u && forall x :: x in cost' ==> cost'[x] < n
    requires exists x :: x in cost' && (x !in cost || cost'[x] < cost[x])
    ensures Avail(u, n, cost') < Avail(u, n, cost)
  {
    var x :| x in cost' && (x !in cost || cost'[x] < cost[x]);
    assert (x, cost'[x]) in Avail(u, n, cost);
    assert (x, cost'[x]) !in Avail(u, n, cost');
  }

  /** A cell is waiting in the heap. */
  predicate InHeap(heap: seq<(int, Pos)>, n: Pos) {
    exists i :: 0 <= i < |heap| && heap[i].1 == n
  }

  /** Every costed cell is in the heap or has all its open neighbours costed,
      and the goal, once costed, is in the heap. */
  ghost predicate Frontier(g: Maze, goal: Pos, s: State) {
    && (forall n :: n in s.cost ==> InHeap(s.heap, n) || forall m :: Step(g, n, m) ==> m in s.cost)
    && (goal in s.cost ==> InHeap(s.heap, goal))
  }

  /** Entry i has the least priority of the heap. */
  predicate IsMin(heap: seq<(int, Pos)>, i: int) {
    0 <= i < |heap| && forall j :: 0 <= j < |heap| ==> heap[i].0 <= heap[j].0
  }

  lemma {:induction false} MinExists(heap: seq<(int, Pos)>)
    requires heap != []
    ensures exists i :: IsMin(heap, i)
  {
    if |heap| > 1 {
      MinExists(heap[1..]);
      var i :| IsMin(heap[1..], i);
      if heap[0].0 <= heap[i + 1].0 {
        assert IsMin(heap, 0);
      } else {
        assert IsMin(heap, i + 1);
      }
    } else {
      assert IsMin(heap, 0);
    }
  }

  /** The heap without entry i. */
  function Remove(heap: seq<(int, Pos)>, i: nat): (r: seq<(int, Pos)>)
    requires i < |heap|
    ensures |r| == |heap| - 1
    ensures forall j :: 0 <= j < |heap| && j != i ==> heap[j] == r[if j < i then j else j - 1]
  {
    heap[..i] + heap[i + 1..]
  }

  /** Expanding a popped cell other than the goal keeps the frontier invariant. */
  lemma FrontierStep(g: Maze, goal: Pos, s: State, i: nat, dirs: seq<Dir>)
    requires Frontier(g, goal, s) && i < |s.heap| && s.heap[i].1 != goal && s.heap[i].1 in s.cost
    requires IsOrder(dirs)
    ensures var cur := s.heap[i].1;
      Frontier(g, goal, RelaxAll(g, goal, cur, dirs, State(Remove(s.heap, i), s.cameFrom, s.cost)))
  {
    var cur := s.heap[i].1;
    var s0 := State(Remove(s.heap, i), s.cameFrom, s.cost);
    var r := RelaxAll(g, goal, cur, dirs, s0);
    RelaxAllProgress(g, goal, cur, dirs, s0);
    forall n | n in s0.cost && InHeap(s.heap, n) && n != cur
      ensures InHeap(r.heap, n)
    {
      var j :| 0 <= j < |s.heap| && s.heap[j].1 == n;
      var j' := if j < i then j else j - 1;
      assert s0.heap[j'] == s.heap[j];
      assert r.heap[j'] == r.heap[..|s0.heap|][j'];
    }
    forall m | Step(g, cur, m)
      ensures m in r.cost
    {
      AdjacentByOrder(cur, m, dirs);
    }
    forall n | n in r.cost
      ensures InHeap(r.heap, n) || forall m :: Step(g, n, m) ==> m in r.cost
    {
      if n in s.cost && n != cur && !InHeap(s.heap, n) {
        forall m | Step(g, n, m)
          ensures m in r.cost
        {
        }
      } else if n !in s.cost || (n in s.cost && n != cur && r.cost[n] < s.cost[n]) {
        PushedInHeap(g, goal, cur, dirs, s0, n);
      }
    }
    if goal in r.cost && goal !in s.cost {
      PushedInHeap(g, goal, cur, dirs, s0, goal);
    }
  }

  /** A cell whose cost relaxation lowered, or created, was pushed. */
  lemma {:induction false} PushedInHeap(g: Maze, goal: Pos, cur: Pos, dirs: seq<Dir>, s: State, n: Pos)
    requires cur in s.cost
    requires var r := RelaxAll(g, goal, cur, dirs, s);
      n in r.cost && (n !in s.cost || r.cost[n] < s.cost[n])
    ensures InHeap(RelaxAll(g, goal, cur, dirs, s).heap, n)
    decreases |dirs|
  {
    if dirs != [] {
      var s1 := Relax(g, goal, cur, dirs[0], s);
      var r := RelaxAll(g, goal, cur, dirs[1..], s1);
      RelaxAllProgress(g, goal, cur, dirs[1..], s1);
      if n in s1.cost && (n !in s.cost || s1.cost[n] < s.cost[n]) {
        var k := |s1.heap| - 1;
        assert s1.heap[k].1 == n;
        assert r.heap[k] == r.heap[..|s1.heap|][k];
      } else {
        PushedInHeap(g, goal, cur, dirs[1..], s1, n);
      }
    }
  }

  /** Popping entry i keeps every heap entry costed. */
  lemma RemoveTree(g: Maze, start: Pos, s: State, i: nat)
    requires Tree(g, start, s) && i < |s.heap|
    ensures Tree(g, start, State(Remove(s.heap, i), s.cameFrom, s.cost))
  {
    var s0 := State(Remove(s.heap, i), s.cameFrom, s.cost);
    forall k | 0 <= k < |s0.heap|
      ensures s0.heap[k].1 in s0.cost
    {
      var k' := if k < i then k else k + 1;
      assert s0.heap[k] == s.heap[k'];
    }
  }

  /** Relaxation from a popped cell either lowers some cost, shrinking Avail,
      or pushes nothing and so leaves the heap one entry shorter. */
  lemma ExpandProgress(g: Maze, start: Pos, goal: Pos, dirs: seq<Dir>, s: State, i: nat, u: set<Pos>, n: nat)
    requires i < |s.heap| && s.heap[i].1 in s.cost
    requires u == Cells(g) + {start} && n == |u|
    requires Tree(g, start, RelaxAll(g, goal, s.heap[i].1, dirs, State(Remove(s.heap, i), s.cameFrom, s.cost)))
    ensures var cur := s.heap[i].1;
      var r := RelaxAll(g, goal, cur, dirs, State(Remove(s.heap, i), s.cameFrom, s.cost));
      Avail(u, n, r.cost) < Avail(u, n, s.cost) || (Avail(u, n, r.cost) == Avail(u, n, s.cost) && |r.heap| < |s.heap|)
  {
    var cur := s.heap[i].1;
    var s0 := State(Remove(s.heap, i), s.cameFrom, s.cost);
    var r := RelaxAll(g, goal, cur, dirs, s0);
    RelaxAllProgress(g, goal, cur, dirs, s0);
    if r.heap != s0.heap {
      SubsetCard(r.cost.Keys, u);
      RelaxAllLowers(g, goal, cur, dirs, s0);
      AvailShrinks(u, n, s.cost, r.cost);
    }
  }

  /** Relaxation never raises a cost. */
  lemma RelaxAllLowers(g: Maze, goal: Pos, cur: Pos, dirs: seq<Dir>, s: State)
    requires cur in s.cost
    ensures var r := RelaxAll(g, goal, cur, dirs, s);
      forall x :: x in s.cost ==> x in r.cost && r.cost[x] <= s.cost[x]
  {
  }

  /** One expansion keeps the invariants and makes progress: either some cost
      strictly dropped, or nothing was pushed and the heap shrank. */
  lemma ExpandStep(g: Maze, start: Pos, goal: Pos, dirs: seq<Dir>, s: State, i: nat, u: set<Pos>, n: nat)
    requires Tree(g, start, s) && Frontier(g, goal, s) && IsOrder(dirs)
    requires i < |s.heap| && s.heap[i].1 != goal
    requires u == Cells(g) + {start} && n == |u|
    ensures var cur := s.heap[i].1;
      var r := RelaxAll(g, goal, cur, dirs, State(Remove(s.heap, i), s.cameFrom, s.cost));
      && Tree(g, start, r) && Frontier(g, goal, r)
      && (Avail(u, n, r.cost) < Avail(u, n, s.cost)
          || (Avail(u, n, r.cost) == Avail(u, n, s.cost) && |r.heap| < |s.heap|))
  {
    var cur := s.heap[i].1;
    var s0 := State(Remove(s.heap, i), s.cameFrom, s.cost);
    RemoveTree(g, start, s, i);
    RelaxAllTree(g, start, goal, cur, dirs, s0);
    FrontierStep(g, goal, s, i, dirs);
    ExpandProgress(g, start, goal, dirs, s, i, u, n);
  }

  /** The path back from n along parent links, from the start to n. Costs
      strictly increase along it, so it repeats no cell. */
  function Trace(g: Maze, start: Pos, cameFrom: map<Pos, Option<Pos>>, cost: map<Pos, nat>, n: Pos): (p: seq<Pos>)
    requires Rooted(start, cameFrom, cost) && Parents(g, cameFrom, cost) && n in cost
    ensures WalkFrom(g, start, n, p)
    ensures forall i :: 0 <= i < |p| ==> p[i] in cost && cost[p[i]] <= cost[n]
    ensures forall i, j :: 0 <= i < j < |p| ==> cost[p[i]] < cost[p[j]]
    decreases cost[n]
  {
    match cameFrom[n]
    case None => [n]
    case Some(q) =>
      var front := Trace(g, start, cameFrom, cost, q);
      WalkExtend(g, front, n);
      front + [n]
  }

  /** The reconstruction loop: follow parent links from the goal; a goal without one yields [goal]. */
  function Reconstruct(g: Maze, start: Pos, cameFrom: map<Pos, Option<Pos>>, cost: map<Pos, nat>, goal: Pos): (p: seq<Pos>)
    requires Rooted(start, cameFrom, cost) && Parents(g, cameFrom, cost)
    ensures |p| >= 1 && p[|p| - 1] == goal
    ensures goal in cost ==> WalkFrom(g, start, goal, p) && Distinct(p)
    ensures goal !in cost ==> p == [goal]
  {
    if goal in cameFrom then
      var p := Trace(g, start, cameFrom, cost, goal);
      assert forall i, j :: 0 <= i < j < |p| ==> p[i] != p[j] by {
        forall i, j | 0 <= i < j < |p|
          ensures p[i] != p[j]
        {
          assert cost[p[i]] < cost[p[j]];
        }
      }
      p
    else [goal]
  }

  /** The search loop of hard_mode.py a_star_search: pop a least-priority
      entry, stop at the goal, otherwise relax its neighbours. It ends either
      with the heap empty or with the goal costed. */
  method Explore(g: Maze, start: Pos, goal: Pos, dirs: seq<Dir>) returns (s: State)
    requires IsOrder(dirs)
    ensures Tree(g, start, s) && Frontier(g, goal, s)
    ensures s.heap == [] || goal in s.cost
  {
    s := Init(start);
    ghost var u := Cells(g) + {start};
    ghost var n := |u|;
    assert InHeap(s.heap, start) by { assert s.heap[0].1 == start; }
    while s.heap != []
      invariant Tree(g, start, s) && Frontier(g, goal, s)
      decreases Avail(u, n, s.cost), |s.heap|
    {
      MinExists(s.heap);
      var i :| IsMin(s.heap, i);
      var cur := s.heap[i].1;
      if cur == goal {
        return;
      }
      ExpandStep(g, start, goal, dirs, s, i, u, n);
      s := RelaxAll(g, goal, cur, dirs, State(Remove(s.heap, i), s.cameFrom, s.cost));
    }
  }

  /** A costed goal is reachable; a drained heap with the goal uncosted
      means every neighbour of a costed cell is costed, so the goal is not. */
  lemma ExploredReach(g: Maze, start: Pos, goal: Pos, s: State)
    requires Tree(g, start, s) && Frontier(g, goal, s)
    requires s.heap == [] || goal in s.cost
    ensures Reachable(g, start, goal) <==> goal in s.cost
  {
    if goal in s.cost {
      var p := Trace(g, start, s.cameFrom, s.cost, goal);
    } else {
      forall x, y | x in s.cost.Keys && Step(g, x, y)
        ensures y in s.cost.Keys
      {
        assert !InHeap(s.heap, x);
      }
      ClosedUnreachable(g, start, goal, s.cost.Keys);
    }
  }

  /** hard_mode.py a_star_search. The result always ends at the goal. It
      starts at the start exactly when the goal is reachable, and is then a
      walk with no repeated cell; otherwise it is just [goal]. */
  method AStarSearch(g: Maze, start: Pos, goal: Pos, dirs: seq<Dir>) returns (path: seq<Pos>)
    requires IsOrder(dirs)
    ensures |path| >= 1 && path[|path| - 1] == goal
    ensures start == goal ==> path == [start]
    ensures Reachable(g, start, goal) <==> path[0] == start
    ensures Reachable(g, start, goal) ==> WalkFrom(g, start, goal, path) && Distinct(path)
    ensures !Reachable(g, start, goal) ==> path == [goal]
  {
    var s := Explore(g, start, goal, dirs);
    path := Reconstruct(g, start, s.cameFrom, s.cost, goal);
    ExploredReach(g, start, goal, s);
    if start == goal {
      DistinctLoop(path);
    }
  }
}
