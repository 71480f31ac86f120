/** The breadth-first search of classical.py that computes the "optimal moves"
    baseline: the number of 4-neighbour steps through open cells from the
    entrance to the treasure, or infinity when the treasure cannot be reached. */
module Bfs {
  import opened Seqs
  import opened Grid

  /** The search's result: a step count, or float('inf'). */
  datatype Steps = Finite(n: nat) | Infinite

  /** A queue of the same cells, each paired with the step count k. */
  function Layer(cells: seq<Pos>, k: nat): (q: seq<(Pos, nat)>)
    ensures |q| == |cells|
    ensures forall i :: 0 <= i < |q| ==> q[i] == (cells[i], k)
    ensures Firsts(q) == Elems(cells)
  {
    if cells == [] then []
    else
      var rest := Layer(cells[1..], k);
      assert Elems(cells) == {cells[0]} + Elems(cells[1..]);
      FirstsTail([(cells[0], k)] + rest);
      assert ([(cells[0], k)] + rest)[1..] == rest;
      [(cells[0], k)] + rest
  }

  /** What holds of the search at the head of each round: every cell that was
      ever enqueued (visited) carries its true distance, the queue holds at
      most two consecutive distances in order, and every cell already taken
      off the queue (done) has all its open neighbours visited. */
  ghost predicate Inv(g: Maze, start: Pos, end: Pos, q: seq<(Pos, nat)>, visited: set<Pos>,
                      done: set<Pos>, dist: map<Pos, nat>, log: seq<Pos>)
  {
    DistInv(g, start, q, visited, done, dist) && FrontInv(g, start, end, q, visited, done, log)
  }

  /** Every visited cell's recorded distance is its true distance. */
  ghost predicate DistInv(g: Maze, start: Pos, q: seq<(Pos, nat)>, visited: set<Pos>,
                          done: set<Pos>, dist: map<Pos, nat>)
  {
    && start in visited
    && visited == done + Firsts(q)
    && dist.Keys == visited
    && Exact(g, start, dist)
    && Agrees(q, dist)
  }

  /** Each recorded step count is the true distance from the start. */
  ghost predicate Exact(g: Maze, start: Pos, dist: map<Pos, nat>) {
    forall x :: x in dist ==> IsDistance(g, start, x, dist[x])
  }

  /** The queue's step counts are the recorded ones. */
  predicate Agrees(q: seq<(Pos, nat)>, dist: map<Pos, nat>) {
    forall i :: 0 <= i < |q| ==> q[i].0 in dist && q[i].1 == dist[q[i].0]
  }

  /** The queue is ordered, done cells are closed, and the log lists the visited cells once each. */
  ghost predicate FrontInv(g: Maze, start: Pos, end: Pos, q: seq<(Pos, nat)>, visited: set<Pos>,
                           done: set<Pos>, log: seq<Pos>)
  {
    && Ordered(q)
    && Closed(g, done, visited)
    && end !in done
    && visited <= Cells(g) + {start}
    && Distinct(log) && Elems(log) == visited
  }

  /** A found open neighbour of the queue's head lies exactly one step further
      from the start than the head does. */
  lemma NextLayer(g: Maze, start: Pos, q: seq<(Pos, nat)>, visited: set<Pos>,
                  done: set<Pos>, dist: map<Pos, nat>, y: Pos)
    requires DistInv(g, start, q, visited, done, dist) && Ordered(q) && Closed(g, done, visited)
    requires q != []
    requires Step(g, q[0].0, y) && y !in visited
    ensures IsDistance(g, start, y, q[0].1 + 1)
  {
    var p, s := q[0].0, q[0].1;
    var w :| WalkFrom(g, start, p, w) && |w| == s + 1;
    WalkExtend(g, w, y);
    assert WalkFrom(g, start, y, w + [y]);
    forall v | WalkFrom(g, start, y, v)
      ensures |v| >= s + 2
    {
      var j := Frontier(g, v, visited, done);
      var i :| 0 <= i < |q| && q[i].0 == v[j];
      DistanceBelowPrefix(g, start, v, j, dist[v[j]]);
    }
  }

  /** The distance table after the cells of found were enqueued at distance k. */
  function Record(dist: map<Pos, nat>, found: seq<Pos>, k: nat): (d: map<Pos, nat>)
    ensures d.Keys == dist.Keys + Elems(found)
    ensures forall x :: x in dist ==> d[x] == dist[x]
    ensures forall x :: x in Elems(found) && x !in dist ==> d[x] == k
  {
    map x | x in dist.Keys + Elems(found) :: if x in dist then dist[x] else k
  }

  /** Every open neighbour of a done cell has been visited. */
  ghost predicate Closed(g: Maze, done: set<Pos>, visited: set<Pos>) {
    forall x, y :: x in done && Step(g, x, y) ==> y in visited
  }

  /** The queue's step counts never decrease and span at most two values. */
  predicate Ordered(q: seq<(Pos, nat)>) {
    forall i, j :: 0 <= i <= j < |q| ==> q[i].1 <= q[j].1 <= q[i].1 + 1
  }

  /** Popping the head and appending cells one step further keeps the queue
      ordered with at most two consecutive distances. */
  lemma QueueOrder(q: seq<(Pos, nat)>, news: seq<(Pos, nat)>, k: nat)
    requires q != [] && k == q[0].1 + 1
    requires Ordered(q)
    requires forall i :: 0 <= i < |news| ==> news[i].1 == k
    ensures Ordered(q[1..] + news)
  {
    var q' := q[1..] + news;
    forall i, j | 0 <= i <= j < |q'|
      ensures q'[i].1 <= q'[j].1 <= q'[i].1 + 1
    {
      if j < |q| - 1 {
        assert q'[i] == q[i + 1] && q'[j] == q[j + 1];
      } else if i < |q| - 1 {
        assert q'[i] == q[i + 1] && q'[j] == news[j - (|q| - 1)];
        assert q[0].1 <= q[i + 1].1;
      } else {
        assert q'[i] == news[i - (|q| - 1)] && q'[j] == news[j - (|q| - 1)];
      }
    }
  }

  /** Appending cells that were not yet visited keeps the log duplicate-free. */
  lemma LogGrows(log: seq<Pos>, found: seq<Pos>, visited: set<Pos>)
    requires Distinct(log) && Elems(log) == visited
    requires Distinct(found) && forall y :: y in found ==> y !in visited
    ensures Distinct(log + found) && Elems(log + found) == visited + Elems(found)
  {
    DistinctAppend(log, found);
    assert Elems(log + found) == Elems(log) + Elems(found);
  }

  /** found lists, once each, exactly the open neighbours of p not yet visited. */
  ghost predicate FoundFrom(g: Maze, p: Pos, visited: set<Pos>, found: seq<Pos>) {
    Distinct(found) && forall y :: y in found <==> Step(g, p, y) && y !in visited
  }

  /** One round of the search (the head is not the end) keeps the invariant. */
  lemma InvStep(g: Maze, start: Pos, end: Pos, q: seq<(Pos, nat)>, visited: set<Pos>,
                done: set<Pos>, dist: map<Pos, nat>, log: seq<Pos>)
    requires Inv(g, start, end, q, visited, done, dist, log) && q != [] && q[0].0 != end
    ensures var found := FreshMoves(g, q[0].0, Directions, visited);
      Inv(g, start, end, q[1..] + Layer(found, q[0].1 + 1), visited + Elems(found),
          done + {q[0].0}, Record(dist, found, q[0].1 + 1), log + found)
    ensures var found := FreshMoves(g, q[0].0, Directions, visited);
      && (found == [] ==> visited + Elems(found) == visited && |q[1..] + Layer(found, q[0].1 + 1)| < |q|)
      && (found != [] ==> Cells(g) + {start} - (visited + Elems(found)) < Cells(g) + {start} - visited)
  {
    var found := FreshMoves(g, q[0].0, Directions, visited);
    DirectionsIsOrder();
    FreshMovesAreSteps(g, q[0].0, Directions, visited);
    DistStep(g, start, q, visited, done, dist, found);
    FrontStep(g, start, end, q, visited, done, log, found);
  }

  lemma DistStep(g: Maze, start: Pos, q: seq<(Pos, nat)>, visited: set<Pos>,
                 done: set<Pos>, dist: map<Pos, nat>, found: seq<Pos>)
    requires DistInv(g, start, q, visited, done, dist) && Ordered(q) && Closed(g, done, visited)
    requires q != [] && FoundFrom(g, q[0].0, visited, found)
    ensures DistInv(g, start, q[1..] + Layer(found, q[0].1 + 1), visited + Elems(found),
                    done + {q[0].0}, Record(dist, found, q[0].1 + 1))
  {
    var news := Layer(found, q[0].1 + 1);
    FirstsTail(q);
    FirstsAppend(q[1..], news);
    VisitedSplit(visited, done, q[0].0, Firsts(q[1..]), Elems(found));
    ExactStep(g, start, q, visited, done, dist, found);
    AgreesStep(q, dist, found, q[0].1 + 1);
  }

  /** The visited cells stay the done cells plus the queued ones when the head moves to done. */
  lemma VisitedSplit(visited: set<Pos>, done: set<Pos>, head: Pos, rest: set<Pos>, found: set<Pos>)
    requires visited == done + ({head} + rest)
    ensures visited + found == (done + {head}) + (rest + found)
  {
  }

  /** The cells found from the head get their true distance. */
  lemma ExactStep(g: Maze, start: Pos, q: seq<(Pos, nat)>, visited: set<Pos>,
                  done: set<Pos>, dist: map<Pos, nat>, found: seq<Pos>)
    requires DistInv(g, start, q, visited, done, dist) && Ordered(q) && Closed(g, done, visited)
    requires q != [] && FoundFrom(g, q[0].0, visited, found)
    ensures Exact(g, start, Record(dist, found, q[0].1 + 1))
  {
    var dist' := Record(dist, found, q[0].1 + 1);
    forall x | x in dist'
      ensures IsDistance(g, start, x, dist'[x])
    {
      if x !in visited {
        NextLayer(g, start, q, visited, done, dist, x);
      }
    }
  }

  /** Popping the head and enqueueing new cells at step count k keeps the
      queue in agreement with the table once those cells are recorded at k. */
  lemma AgreesStep(q: seq<(Pos, nat)>, dist: map<Pos, nat>, found: seq<Pos>, k: nat)
    requires q != [] && Agrees(q, dist)
    requires forall y :: y in found ==> y !in dist
    ensures Agrees(q[1..] + Layer(found, k), Record(dist, found, k))
  {
    var news := Layer(found, k);
    var q' := q[1..] + news;
    var dist' := Record(dist, found, k);
    forall i | 0 <= i < |q'|
      ensures q'[i].0 in dist' && q'[i].1 == dist'[q'[i].0]
    {
      if i < |q| - 1 {
        assert q'[i] == q[i + 1];
      } else {
        assert q'[i] == news[i - (|q| - 1)];
        assert found[i - (|q| - 1)] in Elems(found);
      }
    }
  }

  lemma FrontStep(g: Maze, start: Pos, end: Pos, q: seq<(Pos, nat)>, visited: set<Pos>,
                  done: set<Pos>, log: seq<Pos>, found: seq<Pos>)
    requires FrontInv(g, start, end, q, visited, done, log) && q != [] && q[0].0 != end
    requires FoundFrom(g, q[0].0, visited, found)
    ensures FrontInv(g, start, end, q[1..] + Layer(found, q[0].1 + 1), visited + Elems(found),
                     done + {q[0].0}, log + found)
    ensures found == [] ==> visited + Elems(found) == visited && |q[1..] + Layer(found, q[0].1 + 1)| < |q|
    ensures found != [] ==> Cells(g) + {start} - (visited + Elems(found)) < Cells(g) + {start} - visited
  {
    QueueOrder(q, Layer(found, q[0].1 + 1), q[0].1 + 1);
    OpenInCells(g, found);
    LogGrows(log, found, visited);
    Shrinks(Cells(g) + {start}, visited, found);
    ClosedStep(g, done, visited, q[0].0, found);
  }

  /** Closing the head, whose fresh neighbours are now visited, keeps the done set closed. */
  lemma ClosedStep(g: Maze, done: set<Pos>, visited: set<Pos>, p: Pos, found: seq<Pos>)
    requires Closed(g, done, visited) && FoundFrom(g, p, visited, found)
    ensures Closed(g, done + {p}, visited + Elems(found))
  {
    forall x, y | x in done + {p} && Step(g, x, y)
      ensures y in visited + Elems(found)
    {
      if x == p && y !in visited {
        assert y in found;
      }
    }
  }

  lemma OpenInCells(g: Maze, found: seq<Pos>)
    requires forall y :: y in found ==> IsOpen(g, y)
    ensures Elems(found) <= Cells(g)
  {
    forall y | y in Elems(found)
      ensures y in Cells(g)
    {
      CellsInBounds(g, y);
    }
  }

  /** Adding unvisited cells of a finite universe shrinks what is left of it. */
  lemma Shrinks(u: set<Pos>, visited: set<Pos>, found: seq<Pos>)
    requires Elems(found) <= u
    requires forall y :: y in found ==> y !in visited
    ensures found == [] ==> visited + Elems(found) == visited
    ensures found != [] ==> u - (visited + Elems(found)) < u - visited
  {
    if found != [] {
      assert found[0] in u - visited;
    }
  }

  lemma InvInit(g: Maze, start: Pos, end: Pos)
    ensures Inv(g, start, end, [(start, 0)], {start}, {}, map[start := 0], [start])
  {
    DistanceZero(g, start);
    assert Elems([start]) == {start};
    FirstsTail([(start, 0)]);
  }

  /** When the head of the queue is the end, its step count is the distance. */
  lemma InvAtEnd(g: Maze, start: Pos, end: Pos, q: seq<(Pos, nat)>, visited: set<Pos>,
                 done: set<Pos>, dist: map<Pos, nat>, log: seq<Pos>)
    requires Inv(g, start, end, q, visited, done, dist, log) && q != [] && q[0].0 == end
    ensures IsDistance(g, start, end, q[0].1)
    ensures start == end ==> q[0].1 == 0
  {
    if start == end {
      DistanceZero(g, start);
      DistanceUnique(g, start, end, 0, q[0].1);
    }
  }

  /** When the queue runs dry, the end is out of reach and every reachable cell has been logged. */
  lemma InvExhausted(g: Maze, start: Pos, end: Pos, visited: set<Pos>,
                     done: set<Pos>, dist: map<Pos, nat>, log: seq<Pos>)
    requires Inv(g, start, end, [], visited, done, dist, log)
    ensures !Reachable(g, start, end)
    ensures forall c :: Reachable(g, start, c) ==> c in log
  {
    ClosedUnreachable(g, start, end, visited);
    forall c | Reachable(g, start, c)
      ensures c in log
    {
      if c !in visited {
        ClosedUnreachable(g, start, c, visited);
      }
      assert c in Elems(log);
    }
  }

  /** Every logged cell is reachable from the start, and having no repeats,
      the log is no longer than the grid has cells. */
  lemma LogSound(g: Maze, start: Pos, dist: map<Pos, nat>, log: seq<Pos>)
    requires Exact(g, start, dist) && Distinct(log) && Elems(log) == dist.Keys
    requires dist.Keys <= Cells(g) + {start}
    ensures forall c :: c in log ==> Reachable(g, start, c)
    ensures |log| <= |Cells(g) + {start}|
  {
    forall c | c in log
      ensures Reachable(g, start, c)
    {
      assert c in Elems(log);
      DistanceReachable(g, start, c, dist[c]);
    }
    forall i | 0 <= i < |log|
      ensures log[i] in Cells(g) + {start}
    {
      assert log[i] in Elems(log);
    }
    DistinctBound(log, Cells(g) + {start});
  }

  /** classical.py bfs_shortest_path. The result is finite exactly when the end
      is reachable, and then it is the shortest distance. The log lists the
      cells in the order they were enqueued: each is reachable and enters at
      most once, so it is no longer than the grid has cells; and when the
      search comes back empty-handed it has enqueued every cell
      reachable from the start. */
  method BfsShortestPath(g: Maze, start: Pos, end: Pos) returns (r: Steps, ghost log: seq<Pos>)
    ensures r.Finite? <==> Reachable(g, start, end)
    ensures r.Finite? ==> IsDistance(g, start, end, r.n)
    ensures start == end ==> r == Finite(0)
    ensures Distinct(log) && log != [] && log[0] == start
    ensures forall c :: c in log ==> Reachable(g, start, c)
    ensures |log| <= |Cells(g) + {start}|
    ensures r.Infinite? ==> forall c :: Reachable(g, start, c) ==> c in log
  {
    var queue: seq<(Pos, nat)> := [(start, 0)];
    var visited: set<Pos> := {start};
    ghost var done: set<Pos> := {};
    ghost var dist: map<Pos, nat> := map[start := 0];
    log := [start];
    InvInit(g, start, end);
    ghost var universe := Cells(g) + {start};
    while queue != []
      invariant Inv(g, start, end, queue, visited, done, dist, log)
      invariant log != [] && log[0] == start
      decreases universe - visited, |queue|
    {
      var p, steps := queue[0].0, queue[0].1;
      if p == end {
        InvAtEnd(g, start, end, queue, visited, done, dist, log);
        DistanceReachable(g, start, end, steps);
        LogSound(g, start, dist, log);
        return Finite(steps), log;
      }
      var found := FreshMoves(g, p, Directions, visited);
      InvStep(g, start, end, queue, visited, done, dist, log);
      queue := queue[1..] + Layer(found, steps + 1);
      visited := visited + Elems(found);
      done := done + {p};
      dist := Record(dist, found, steps + 1);
      log := log + found;
    }
    InvExhausted(g, start, end, visited, done, dist, log);
    LogSound(g, start, dist, log);
    r := Infinite;
  }
}
