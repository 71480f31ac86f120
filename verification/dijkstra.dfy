/** The enemy's path finder of easy_mode.py: Dijkstra's algorithm over open
    cells with unit step cost, a heap of (distance, cell, path-so-far)
    entries and a table of settled distances. A popped cell whose settled
    distance is no larger is skipped; neighbours are pushed only while they
    are unsettled. The heap's tie-breaking is not modelled: any entry of
    least distance may be popped. */
module Dijkstra {
  import opened Seqs
  import opened Grid

  /** A heap entry: its distance, its cell and the cells before it. */
  datatype Entry = Entry(d: nat, node: Pos, path: seq<Pos>)

  /** Entry i has the least distance of the heap. */
  predicate IsMin(pq: seq<Entry>, i: int) {
    0 <= i < |pq| && forall j :: 0 <= j < |pq| ==> pq[i].d <= pq[j].d
  }

  lemma {:induction false} MinExists(pq: seq<Entry>)
    requires pq != []
    ensures exists i :: IsMin(pq, i)
  {
    if |pq| > 1 {
      MinExists(pq[1..]);
      var i :| IsMin(pq[1..], i);
      if pq[0].d <= pq[i + 1].d {
        assert IsMin(pq, 0);
      } else {
        assert IsMin(pq, i + 1);
      }
    } else {
      assert IsMin(pq, 0);
    }
  }

  /** The heap without entry i. */
  function Remove(pq: seq<Entry>, i: nat): (r: seq<Entry>)
    requires i < |pq|
    ensures |r| == |pq| - 1
    ensures forall k :: 0 <= k < |r| ==> r[k] == pq[if k < i then k else k + 1]
    ensures forall j :: 0 <= j < |pq| && j != i ==> pq[j] == r[if j < i then j else j - 1]
  {
    pq[..i] + pq[i + 1..]
  }

  /** The entries pushed for cells, each at distance d with the given path. */
  function Pushes(cells: seq<Pos>, d: nat, path: seq<Pos>): (r: seq<Entry>)
    ensures |r| == |cells|
    ensures forall k :: 0 <= k < |r| ==> r[k] == Entry(d, cells[k], path)
  {
    if cells == [] then [] else [Entry(d, cells[0], path)] + Pushes(cells[1..], d, path)
  }

  /** Every entry's path followed by its cell is a walk from the start of that many steps. */
  predicate Sound(g: Maze, start: Pos, pq: seq<Entry>) {
    forall i :: 0 <= i < |pq| ==>
      WalkFrom(g, start, pq[i].node, pq[i].path + [pq[i].node]) && |pq[i].path| == pq[i].d
  }

  /** Every settled distance is the true distance. */
  ghost predicate Settled(g: Maze, start: Pos, visited: map<Pos, nat>) {
    forall x :: x in visited ==> IsDistance(g, start, x, visited[x])
  }

  /** Settled distances are at most every queued distance. */
  predicate Below(visited: map<Pos, nat>, pq: seq<Entry>) {
    forall x, i :: x in visited && 0 <= i < |pq| ==> visited[x] <= pq[i].d
  }

  /** Each unsettled open neighbour of a settled cell is queued one step further on or nearer. */
  ghost predicate Pending(g: Maze, visited: map<Pos, nat>, pq: seq<Entry>) {
    forall x, y :: x in visited && Step(g, x, y) && y !in visited ==>
      exists k :: 0 <= k < |pq| && pq[k].node == y && pq[k].d <= visited[x] + 1
  }

  /** Before anything is settled the heap is the initial one; afterwards the start is settled. */
  predicate Begun(start: Pos, visited: map<Pos, nat>, pq: seq<Entry>) {
    && (visited == map[] ==> pq == [Entry(0, start, [])])
    && (visited != map[] ==> start in visited)
  }

  /** The least entry of an unsettled cell carries that cell's true distance. */
  lemma PopIsDistance(g: Maze, start: Pos, visited: map<Pos, nat>, pq: seq<Entry>, i: int)
    requires Sound(g, start, pq) && Settled(g, start, visited) && Pending(g, visited, pq)
    requires Begun(start, visited, pq) && IsMin(pq, i) && pq[i].node !in visited
    ensures IsDistance(g, start, pq[i].node, pq[i].d)
  {
    var x, d := pq[i].node, pq[i].d;
    if visited == map[] {
      DistanceZero(g, start);
    } else {
      assert WalkFrom(g, start, x, pq[i].path + [x]);
      forall v | WalkFrom(g, start, x, v)
        ensures |v| >= d + 1
      {
        var j := Frontier(g, v, visited.Keys, {});
        var k :| 0 <= k < |pq| && pq[k].node == v[j + 1] && pq[k].d <= visited[v[j]] + 1;
        DistanceBelowPrefix(g, start, v, j, visited[v[j]]);
      }
    }
  }

  /** Popping an entry and pushing walks one step further keeps every entry a walk. */
  lemma SoundStep(g: Maze, start: Pos, pq: seq<Entry>, i: nat, found: seq<Pos>)
    requires Sound(g, start, pq) && i < |pq|
    requires forall y :: y in found ==> Step(g, pq[i].node, y)
    ensures Sound(g, start, Remove(pq, i) + Pushes(found, pq[i].d + 1, pq[i].path + [pq[i].node]))
  {
    var e := pq[i];
    var base := e.path + [e.node];
    var rest := Remove(pq, i);
    var news := Pushes(found, e.d + 1, base);
    var pq' := rest + news;
    forall k | 0 <= k < |pq'|
      ensures WalkFrom(g, start, pq'[k].node, pq'[k].path + [pq'[k].node]) && |pq'[k].path| == pq'[k].d
    {
      if k >= |rest| {
        var y := found[k - |rest|];
        assert pq'[k] == Entry(e.d + 1, y, base);
        assert y in found;
        WalkExtend(g, base, y);
      } else {
        assert pq'[k] == rest[k];
      }
    }
  }

  /** Skipping a popped entry keeps every entry a walk. */
  lemma SoundSkip(g: Maze, start: Pos, pq: seq<Entry>, i: nat)
    requires Sound(g, start, pq) && i < |pq|
    ensures Sound(g, start, Remove(pq, i))
  {
  }

  /** Settling the least entry at its distance keeps settled distances below the heap. */
  lemma BelowStep(visited: map<Pos, nat>, pq: seq<Entry>, i: nat, found: seq<Pos>)
    requires Below(visited, pq) && IsMin(pq, i)
    ensures Below(visited[pq[i].node := pq[i].d],
                  Remove(pq, i) + Pushes(found, pq[i].d + 1, pq[i].path + [pq[i].node]))
  {
    var e := pq[i];
    var rest := Remove(pq, i);
    var pq' := rest + Pushes(found, e.d + 1, e.path + [e.node]);
    var visited' := visited[e.node := e.d];
    forall x, k | x in visited' && 0 <= k < |pq'|
      ensures visited'[x] <= pq'[k].d
    {
      if k < |rest| {
        assert pq'[k] == rest[k];
      }
    }
  }

  lemma BelowSkip(visited: map<Pos, nat>, pq: seq<Entry>, i: nat)
    requires Below(visited, pq) && i < |pq|
    ensures Below(visited, Remove(pq, i))
  {
  }

  /** An entry other than the popped one survives into the next heap, at index k'. */
  lemma KeptEntry(pq: seq<Entry>, i: nat, news: seq<Entry>, k: nat) returns (k': nat)
    requires i < |pq| && k < |pq| && k != i
    ensures k' < |Remove(pq, i) + news| && (Remove(pq, i) + news)[k'] == pq[k]
  {
    k' := if k < i then k else k - 1;
    assert (Remove(pq, i) + news)[k'] == Remove(pq, i)[k'];
  }

  /** Each pushed cell has its entry in the next heap, at index k. */
  lemma PushedEntry(rest: seq<Entry>, found: seq<Pos>, d: nat, path: seq<Pos>, y: Pos) returns (k: nat)
    requires y in found
    ensures k < |rest + Pushes(found, d, path)| && (rest + Pushes(found, d, path))[k] == Entry(d, y, path)
  {
    var m :| 0 <= m < |found| && found[m] == y;
    k := |rest| + m;
    assert (rest + Pushes(found, d, path))[k] == Pushes(found, d, path)[m];
  }

  /** A neighbour queued before the expansion, other than the popped cell, is
      still queued, at index k' of the next heap. */
  lemma PendingOld(pq: seq<Entry>, i: nat, news: seq<Entry>, y: Pos, bound: int) returns (k': nat)
    requires i < |pq| && pq[i].node != y
    requires exists k :: 0 <= k < |pq| && pq[k].node == y && pq[k].d <= bound
    ensures k' < |Remove(pq, i) + news| && (Remove(pq, i) + news)[k'].node == y
    ensures (Remove(pq, i) + news)[k'].d <= bound
  {
    var k :| 0 <= k < |pq| && pq[k].node == y && pq[k].d <= bound;
    k' := KeptEntry(pq, i, news, k);
  }

  /** After settling the popped cell, an unsettled neighbour y of a settled
      cell x has an entry in the next heap, at index k, near enough to x. */
  lemma PendingWitness(g: Maze, visited: map<Pos, nat>, pq: seq<Entry>, i: nat, found: seq<Pos>,
                       x: Pos, y: Pos) returns (k: nat)
    requires Pending(g, visited, pq) && i < |pq| && pq[i].node !in visited
    requires forall y :: Step(g, pq[i].node, y) && y !in visited && y != pq[i].node ==> y in found
    requires x in visited[pq[i].node := pq[i].d] && Step(g, x, y) && y !in visited[pq[i].node := pq[i].d]
    ensures var pq' := Remove(pq, i) + Pushes(found, pq[i].d + 1, pq[i].path + [pq[i].node]);
      k < |pq'| && pq'[k].node == y && pq'[k].d <= visited[pq[i].node := pq[i].d][x] + 1
  {
    var e := pq[i];
    var news := Pushes(found, e.d + 1, e.path + [e.node]);
    if x == e.node {
      k := PushedEntry(Remove(pq, i), found, e.d + 1, e.path + [e.node], y);
    } else {
      assert x in visited && y !in visited;
      k := PendingOld(pq, i, news, y, visited[x] + 1);
    }
  }

  /** After settling the popped cell and pushing its unsettled open neighbours,
      every unsettled neighbour of a settled cell is still queued. */
  lemma PendingStep(g: Maze, visited: map<Pos, nat>, pq: seq<Entry>, i: nat, found: seq<Pos>)
    requires Pending(g, visited, pq) && i < |pq| && pq[i].node !in visited
    requires forall y :: Step(g, pq[i].node, y) && y !in visited && y != pq[i].node ==> y in found
    ensures Pending(g, visited[pq[i].node := pq[i].d],
                    Remove(pq, i) + Pushes(found, pq[i].d + 1, pq[i].path + [pq[i].node]))
  {
    var visited' := visited[pq[i].node := pq[i].d];
    var pq' := Remove(pq, i) + Pushes(found, pq[i].d + 1, pq[i].path + [pq[i].node]);
    forall x, y | x in visited' && Step(g, x, y) && y !in visited'
      ensures exists k :: 0 <= k < |pq'| && pq'[k].node == y && pq'[k].d <= visited'[x] + 1
    {
      var k := PendingWitness(g, visited, pq, i, found, x, y);
      assert pq'[k].node == y && pq'[k].d <= visited'[x] + 1;
    }
  }

  /** Skipping an entry of a settled cell keeps every pending neighbour queued. */
  lemma PendingSkip(g: Maze, visited: map<Pos, nat>, pq: seq<Entry>, i: nat)
    requires Pending(g, visited, pq) && i < |pq| && pq[i].node in visited
    ensures Pending(g, visited, Remove(pq, i))
  {
    var rest := Remove(pq, i);
    forall x, y | x in visited && Step(g, x, y) && y !in visited
      ensures exists k :: 0 <= k < |rest| && rest[k].node == y && rest[k].d <= visited[x] + 1
    {
      var k :| 0 <= k < |pq| && pq[k].node == y && pq[k].d <= visited[x] + 1;
      var k' := if k < i then k else k - 1;
      assert rest[k'] == pq[k];
    }
  }

  /** With the heap empty, the settled cells are closed under steps, so an
      unsettled goal is out of reach. */
  lemma ExhaustedUnreachable(g: Maze, start: Pos, goal: Pos, visited: map<Pos, nat>)
    requires Pending(g, visited, []) && Begun(start, visited, []) && goal !in visited
    ensures !Reachable(g, start, goal)
  {
    ClosedUnreachable(g, start, goal, visited.Keys);
  }

  /** Entries only hold the start or open cells. */
  lemma NodesInUniverse(g: Maze, start: Pos, pq: seq<Entry>, k: nat)
    requires Sound(g, start, pq) && k < |pq|
    ensures pq[k].node in Cells(g) + {start}
  {
    var w := pq[k].path + [pq[k].node];
    if |w| >= 2 {
      assert Step(g, w[|w| - 2], w[|w| - 1]);
      CellsInBounds(g, pq[k].node);
    }
  }

  /** The loop invariant of the search. */
  ghost predicate Inv(g: Maze, start: Pos, goal: Pos, visited: map<Pos, nat>, pq: seq<Entry>,
                      expanded: seq<Pos>, universe: set<Pos>)
  {
    && Sound(g, start, pq) && Settled(g, start, visited) && Below(visited, pq)
    && Pending(g, visited, pq) && Begun(start, visited, pq) && goal !in visited
    && visited.Keys <= universe
    && Distinct(expanded) && Elems(expanded) == visited.Keys
  }

  /** Settling the least entry of an unsettled cell keeps every settled
      distance true, and afterwards the start is settled. */
  lemma SettleStep(g: Maze, start: Pos, visited: map<Pos, nat>, pq: seq<Entry>, i: nat, rest: seq<Entry>)
    requires Sound(g, start, pq) && Settled(g, start, visited) && Below(visited, pq)
    requires Pending(g, visited, pq) && Begun(start, visited, pq)
    requires IsMin(pq, i) && pq[i].node !in visited
    ensures Settled(g, start, visited[pq[i].node := pq[i].d])
    ensures Begun(start, visited[pq[i].node := pq[i].d], rest)
  {
    PopIsDistance(g, start, visited, pq, i);
  }

  /** Expanding the least entry of an unsettled cell keeps the invariant and settles one more cell. */
  lemma ExpandStep(g: Maze, start: Pos, goal: Pos, visited: map<Pos, nat>, pq: seq<Entry>,
                   expanded: seq<Pos>, universe: set<Pos>, i: nat, found: seq<Pos>)
    requires Inv(g, start, goal, visited, pq, expanded, universe) && universe == Cells(g) + {start}
    requires IsMin(pq, i) && pq[i].node != goal && pq[i].node !in visited
    requires forall y :: y in found <==> Step(g, pq[i].node, y) && y !in visited[pq[i].node := pq[i].d]
    ensures Inv(g, start, goal, visited[pq[i].node := pq[i].d],
                Remove(pq, i) + Pushes(found, pq[i].d + 1, pq[i].path + [pq[i].node]),
                expanded + [pq[i].node], universe)
    ensures pq[i].node in universe - visited.Keys
  {
    var e := pq[i];
    SettleStep(g, start, visited, pq, i, Remove(pq, i) + Pushes(found, e.d + 1, e.path + [e.node]));
    NodesInUniverse(g, start, pq, i);
    SoundStep(g, start, pq, i, found);
    BelowStep(visited, pq, i, found);
    PendingStep(g, visited, pq, i, found);
    DistinctAppend(expanded, [e.node]);
    assert Elems(expanded + [e.node]) == Elems(expanded) + {e.node};
  }

  /** Skipping an entry of a settled cell keeps the invariant. */
  lemma SkipStep(g: Maze, start: Pos, goal: Pos, visited: map<Pos, nat>, pq: seq<Entry>,
                 expanded: seq<Pos>, universe: set<Pos>, i: nat)
    requires Inv(g, start, goal, visited, pq, expanded, universe)
    requires i < |pq| && pq[i].node in visited
    ensures Inv(g, start, goal, visited, Remove(pq, i), expanded, universe)
  {
    SoundSkip(g, start, pq, i);
    BelowSkip(visited, pq, i);
    PendingSkip(g, visited, pq, i);
  }

  lemma InvInit(g: Maze, start: Pos, goal: Pos)
    ensures Inv(g, start, goal, map[], [Entry(0, start, [])], [], Cells(g) + {start})
  {
    assert WalkFrom(g, start, start, [] + [start]);
  }

  /** Every expanded cell is reachable from the start, and having no repeats,
      the log is no longer than the grid has cells. */
  lemma ExpandedSound(g: Maze, start: Pos, goal: Pos, visited: map<Pos, nat>, pq: seq<Entry>,
                      expanded: seq<Pos>)
    requires Inv(g, start, goal, visited, pq, expanded, Cells(g) + {start})
    ensures forall c :: c in expanded ==> Reachable(g, start, c)
    ensures |expanded| <= |Cells(g) + {start}|
  {
    forall c | c in expanded
      ensures Reachable(g, start, c)
    {
      assert c in Elems(expanded);
      DistanceReachable(g, start, c, visited[c]);
    }
    forall i | 0 <= i < |expanded|
      ensures expanded[i] in Cells(g) + {start}
    {
      assert expanded[i] in Elems(expanded);
    }
    DistinctBound(expanded, Cells(g) + {start});
  }

  /** When the heap runs dry, every cell reachable from the start has been expanded. */
  lemma ExhaustedAll(g: Maze, start: Pos, goal: Pos, visited: map<Pos, nat>, expanded: seq<Pos>,
                     universe: set<Pos>)
    requires Inv(g, start, goal, visited, [], expanded, universe)
    ensures forall c :: Reachable(g, start, c) ==> c in expanded
  {
    forall c | Reachable(g, start, c)
      ensures c in expanded
    {
      if c !in visited {
        ClosedUnreachable(g, start, c, visited.Keys);
      }
      assert c in Elems(expanded);
    }
  }

  /** Popping the goal: its entry is a shortest walk, and just the start when the start is the goal. */
  lemma GoalFound(g: Maze, start: Pos, goal: Pos, visited: map<Pos, nat>, pq: seq<Entry>,
                  expanded: seq<Pos>, universe: set<Pos>, i: nat)
    requires Inv(g, start, goal, visited, pq, expanded, universe)
    requires IsMin(pq, i) && pq[i].node == goal
    ensures var r := pq[i].path + [pq[i].node];
      && WalkFrom(g, start, goal, r) && IsDistance(g, start, goal, |r| - 1)
      && Reachable(g, start, goal) && (start == goal ==> r == [start])
  {
    PopIsDistance(g, start, visited, pq, i);
    var r := pq[i].path + [pq[i].node];
    if start == goal {
      DistanceZero(g, start);
      DistanceUnique(g, start, goal, 0, pq[i].d);
      assert r == [start];
    }
  }

  /** easy_mode.py dijkstra_find_path. A non-empty result is a shortest walk
      from start to goal; the result is empty exactly when the goal cannot be
      reached. The log lists the cells in the order they were expanded: each
      is reachable and expanded at most once, so it is no longer than the
      grid has cells; and when the search comes back empty-handed it has
      expanded every cell reachable from the start. */
  method DijkstraFindPath(g: Maze, start: Pos, goal: Pos) returns (r: seq<Pos>, ghost expanded: seq<Pos>)
    ensures r != [] <==> Reachable(g, start, goal)
    ensures r != [] ==> WalkFrom(g, start, goal, r) && IsDistance(g, start, goal, |r| - 1)
    ensures start == goal ==> r == [start]
    ensures Distinct(expanded)
    ensures forall c :: c in expanded ==> Reachable(g, start, c)
    ensures |expanded| <= |Cells(g) + {start}|
    ensures r == [] ==> forall c :: Reachable(g, start, c) ==> c in expanded
  {
    var pq := [Entry(0, start, [])];
    var visited: map<Pos, nat> := map[];
    expanded := [];
    ghost var universe := Cells(g) + {start};
    InvInit(g, start, goal);
    while pq != []
      invariant Inv(g, start, goal, visited, pq, expanded, universe)
      decreases universe - visited.Keys, |pq|
    {
      MinExists(pq);
      var i :| IsMin(pq, i);
      var e := pq[i];
      if e.node == goal {
        GoalFound(g, start, goal, visited, pq, expanded, universe, i);
        ExpandedSound(g, start, goal, visited, pq, expanded);
        return e.path + [e.node], expanded;
      }
      if e.node in visited && visited[e.node] <= e.d {
        SkipStep(g, start, goal, visited, pq, expanded, universe, i);
        pq := Remove(pq, i);
        continue;
      }
      var visited' := visited[e.node := e.d];
      var found := FreshMoves(g, e.node, Directions, visited'.Keys);
      DirectionsIsOrder();
      FreshMovesAreSteps(g, e.node, Directions, visited'.Keys);
      ExpandStep(g, start, goal, visited, pq, expanded, universe, i, found);
      expanded := expanded + [e.node];
      visited := visited';
      pq := Remove(pq, i) + Pushes(found, e.d + 1, e.path + [e.node]);
    }
    ExhaustedUnreachable(g, start, goal, visited);
    ExpandedSound(g, start, goal, visited, pq, expanded);
    ExhaustedAll(g, start, goal, visited, expanded, universe);
    r := [];
  }
}
