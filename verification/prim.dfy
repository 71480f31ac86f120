/** The edge-based game of main.py. Its maze is not a grid of walls but a set
    of passages: edges of the rows x cols 4-neighbour grid graph, grown by
    Prim's algorithm from (0,0) by repeatedly taking any pending edge and
    keeping it when it leads to a cell not yet in the tree. A breadth-first
    search then finds a path along passages, and the player moves only
    through a passage. */
module Prim {
  import opened Seqs
  import opened Grid

  type Edge = (Pos, Pos)

  const Origin: Pos := Pos(0, 0)

  predicate InBox(rows: nat, cols: nat, p: Pos) {
    0 <= p.r < rows && 0 <= p.c < cols
  }

  /** The cells of the grid graph. */
  function Box(rows: nat, cols: nat): set<Pos> {
    set r, c | 0 <= r < rows && 0 <= c < cols :: Pos(r, c)
  }

  lemma BoxMember(rows: nat, cols: nat, p: Pos)
    ensures p in Box(rows, cols) <==> InBox(rows, cols, p)
  {
    if InBox(rows, cols, p) {
      assert Pos(p.r, p.c) in Box(rows, cols);
    }
  }

  /** The cells of row r. */
  function Row(r: int, cols: nat): set<Pos> {
    set c | 0 <= c < cols :: Pos(r, c)
  }

  lemma {:induction false} RowCard(r: int, cols: nat)
    ensures |Row(r, cols)| == cols
  {
    if cols > 0 {
      RowCard(r, cols - 1);
      assert Row(r, cols) == Row(r, cols - 1) + {Pos(r, cols - 1)};
    } else {
      assert Row(r, cols) == {};
    }
  }

  /** A grid is the grid one row shorter plus its last row. */
  lemma BoxSplit(rows: nat, cols: nat)
    requires rows > 0
    ensures Box(rows, cols) == Box(rows - 1, cols) + Row(rows - 1, cols)
    ensures Box(rows - 1, cols) !! Row(rows - 1, cols)
  {
    forall p | p in Box(rows, cols)
      ensures p in Box(rows - 1, cols) + Row(rows - 1, cols)
    {
      if p.r < rows - 1 {
        assert Pos(p.r, p.c) in Box(rows - 1, cols);
      } else {
        assert Pos(rows - 1, p.c) in Row(rows - 1, cols);
      }
    }
  }

  /** The grid graph has rows * cols cells. */
  lemma {:induction false} BoxCard(rows: nat, cols: nat)
    ensures |Box(rows, cols)| == rows * cols
  {
    if rows > 0 {
      BoxCard(rows - 1, cols);
      RowCard(rows - 1, cols);
      BoxSplit(rows, cols);
      assert |Box(rows, cols)| == |Box(rows - 1, cols)| + |Row(rows - 1, cols)|;
      assert (rows - 1) * cols + cols == rows * cols;
    } else {
      assert Box(rows, cols) == {};
    }
  }

  /** The grid neighbours of p, in the order dirs gives, that are not in seen. */
  function BoxMoves(rows: nat, cols: nat, p: Pos, dirs: seq<Dir>, seen: set<Pos>): (r: seq<Pos>)
    ensures forall q :: q in r <==>
      (InBox(rows, cols, q) && q !in seen && exists i :: 0 <= i < |dirs| && q == Move(p, dirs[i]))
  {
    if dirs == [] then []
    else
      var q := Move(p, dirs[0]);
      var rest := BoxMoves(rows, cols, p, dirs[1..], seen);
      assert forall i :: 1 <= i < |dirs| ==> dirs[i] == dirs[1..][i - 1];
      assert forall i :: 0 <= i < |dirs| - 1 ==> dirs[1..][i] == dirs[i + 1];
      if InBox(rows, cols, q) && q !in seen then [q] + rest else rest
  }

  /** The pending edges from p to each cell of cells. */
  function EdgesTo(p: Pos, cells: seq<Pos>): (r: seq<Edge>)
    ensures |r| == |cells|
    ensures forall k :: 0 <= k < |r| ==> r[k] == (p, cells[k])
  {
    if cells == [] then [] else [(p, cells[0])] + EdgesTo(p, cells[1..])
  }

  /** A passage joins a and b, stored in either orientation. */
  predicate Linked(maze: set<Edge>, a: Pos, b: Pos) {
    (a, b) in maze || (b, a) in maze
  }

  /** One move through the passage set: to a 4-neighbour joined by a passage. */
  predicate PassStep(maze: set<Edge>, a: Pos, b: Pos) {
    Adjacent(a, b) && Linked(maze, a, b)
  }

  predicate PassWalk(maze: set<Edge>, w: seq<Pos>) {
    |w| >= 1 && forall i :: 0 <= i < |w| - 1 ==> PassStep(maze, w[i], w[i + 1])
  }

  ghost predicate Connected(maze: set<Edge>, s: Pos, t: Pos) {
    exists w :: PassWalk(maze, w) && w[0] == s && w[|w| - 1] == t
  }

  lemma ConnectedExtend(maze: set<Edge>, maze': set<Edge>, s: Pos, a: Pos, b: Pos)
    requires maze <= maze' && Connected(maze, s, a) && PassStep(maze', a, b)
    ensures Connected(maze', s, b)
  {
    var w :| PassWalk(maze, w) && w[0] == s && w[|w| - 1] == a;
    var w' := w + [b];
    assert w'[0] == s && w'[|w'| - 1] == b;
    forall i | 0 <= i < |w'| - 1
      ensures PassStep(maze', w'[i], w'[i + 1])
    {
      if i < |w| - 1 {
        assert w'[i] == w[i] && w'[i + 1] == w[i + 1];
      }
    }
    assert PassWalk(maze', w');
  }

  lemma ConnectedMono(maze: set<Edge>, maze': set<Edge>, s: Pos, t: Pos)
    requires maze <= maze' && Connected(maze, s, t)
    ensures Connected(maze', s, t)
  {
    var w :| PassWalk(maze, w) && w[0] == s && w[|w| - 1] == t;
    assert PassWalk(maze', w);
  }

  /** Nothing outside a set closed under passages is connected to a cell inside it. */
  lemma {:induction false} ClosedWalk(maze: set<Edge>, w: seq<Pos>, v: set<Pos>)
    requires PassWalk(maze, w) && w[0] in v
    requires forall x, y :: x in v && PassStep(maze, x, y) ==> y in v
    ensures w[|w| - 1] in v
    decreases |w|
  {
    if |w| > 1 {
      ClosedWalk(maze, w[..|w| - 1], v);
      assert w[..|w| - 1][|w| - 2] == w[|w| - 2];
      assert PassStep(maze, w[|w| - 2], w[|w| - 1]);
    }
  }

  lemma ClosedUnconnected(maze: set<Edge>, s: Pos, t: Pos, v: set<Pos>)
    requires s in v && t !in v
    requires forall x, y :: x in v && PassStep(maze, x, y) ==> y in v
    ensures !Connected(maze, s, t)
  {
    if w :| PassWalk(maze, w) && w[0] == s && w[|w| - 1] == t {
      ClosedWalk(maze, w, v);
    }
  }

  /** A set holding (0,0) and closed under grid adjacency inside the box holds the whole box. */
  lemma {:induction false} ClosedHoldsBox(rows: nat, cols: nat, v: set<Pos>, r: nat, c: nat)
    requires Origin in v && r < rows && c < cols
    requires forall x, y :: x in v && InBox(rows, cols, y) && Adjacent(x, y) ==> y in v
    ensures Pos(r, c) in v
    decreases r + c
  {
    if c > 0 {
      ClosedHoldsBox(rows, cols, v, r, c - 1);
      assert Adjacent(Pos(r, c - 1), Pos(r, c));
    } else if r > 0 {
      ClosedHoldsBox(rows, cols, v, r - 1, c);
      assert Adjacent(Pos(r - 1, c), Pos(r, c));
    }
  }

  /** Every pending edge leaves a tree cell towards a 4-neighbour inside the grid. */
  predicate EdgesOk(rows: nat, cols: nat, visited: set<Pos>, edges: multiset<Edge>) {
    forall e :: e in edges ==> e.0 in visited && InBox(rows, cols, e.1) && Adjacent(e.0, e.1)
  }

  /** Every passage joins two 4-neighbour tree cells. */
  predicate MazeOk(visited: set<Pos>, maze: set<Edge>) {
    forall e :: e in maze ==> e.0 in visited && e.1 in visited && Adjacent(e.0, e.1)
  }

  /** Every tree cell is connected to the origin through passages. */
  ghost predicate Spans(maze: set<Edge>, visited: set<Pos>) {
    forall v :: v in visited ==> Connected(maze, Origin, v)
  }

  /** Every grid neighbour of the tree that is not yet in it has a pending edge into it. */
  ghost predicate Pending(rows: nat, cols: nat, visited: set<Pos>, edges: multiset<Edge>) {
    forall v, n :: v in visited && InBox(rows, cols, n) && Adjacent(v, n) && n !in visited ==>
      exists e :: e in edges && e.1 == n
  }

  /** The loop invariant of the generator. */
  ghost predicate Inv(rows: nat, cols: nat, visited: set<Pos>, maze: set<Edge>, edges: multiset<Edge>) {
    && Origin in visited && visited <= Box(rows, cols)
    && EdgesOk(rows, cols, visited, edges)
    && MazeOk(visited, maze)
    && |maze| == |visited| - 1
    && Spans(maze, visited)
    && Pending(rows, cols, visited, edges)
  }

  lemma PushedOk(rows: nat, cols: nat, p: Pos, seen: set<Pos>)
    ensures var ns := BoxMoves(rows, cols, p, Directions, seen);
      forall e :: e in multiset(EdgesTo(p, ns)) ==> e.0 == p && e.1 !in seen && InBox(rows, cols, e.1) && Adjacent(e.0, e.1)
  {
    var ns := BoxMoves(rows, cols, p, Directions, seen);
    var pushed := EdgesTo(p, ns);
    DirectionsIsOrder();
    forall k | 0 <= k < |ns|
      ensures ns[k] !in seen && InBox(rows, cols, ns[k]) && Adjacent(p, ns[k])
    {
      assert ns[k] in ns;
      var i :| 0 <= i < |Directions| && ns[k] == Move(p, Directions[i]);
    }
    forall e: Edge | e in multiset(pushed)
      ensures e.0 == p && e.1 !in seen && InBox(rows, cols, e.1) && Adjacent(e.0, e.1)
    {
      var k :| 0 <= k < |pushed| && pushed[k] == e;
    }
  }

  /** The edge from p to an unseen grid neighbour n is among those pushed from p. */
  lemma PushedCovers(rows: nat, cols: nat, p: Pos, seen: set<Pos>, n: Pos)
    requires InBox(rows, cols, n) && Adjacent(p, n) && n !in seen
    ensures (p, n) in multiset(EdgesTo(p, BoxMoves(rows, cols, p, Directions, seen)))
  {
    var ns := BoxMoves(rows, cols, p, Directions, seen);
    DirectionsIsOrder();
    AdjacentByOrder(p, n, Directions);
    assert n in ns;
    var k :| 0 <= k < |ns| && ns[k] == n;
    assert EdgesTo(p, ns)[k] in multiset(EdgesTo(p, ns));
  }

  /** At the start every grid neighbour of (0,0) has a pending edge into it. */
  lemma PendingInit(rows: nat, cols: nat)
    ensures Pending(rows, cols, {Origin}, multiset(EdgesTo(Origin, BoxMoves(rows, cols, Origin, Directions, {}))))
  {
    var edges := multiset(EdgesTo(Origin, BoxMoves(rows, cols, Origin, Directions, {})));
    forall v, n | v in {Origin} && InBox(rows, cols, n) && Adjacent(v, n) && n !in {Origin}
      ensures exists e :: e in edges && e.1 == n
    {
      PushedCovers(rows, cols, Origin, {}, n);
      assert (Origin, n) in edges;
    }
  }

  /** The tree of (0,0) alone, with no passage, spans its one cell. */
  lemma SpansInit()
    ensures Spans({}, {Origin})
  {
    assert PassWalk({}, [Origin]);
  }

  lemma InvInit(rows: nat, cols: nat)
    requires rows >= 1 && cols >= 1
    ensures Inv(rows, cols, {Origin}, {}, multiset(EdgesTo(Origin, BoxMoves(rows, cols, Origin, Directions, {}))))
  {
    BoxMember(rows, cols, Origin);
    SpansInit();
    PushedOk(rows, cols, Origin, {});
    PendingInit(rows, cols);
  }

  lemma SpansStep(maze: set<Edge>, visited: set<Pos>, e: Edge)
    requires Spans(maze, visited) && e.0 in visited && Adjacent(e.0, e.1)
    ensures Spans(maze + {e}, visited + {e.1})
  {
    forall v | v in visited + {e.1}
      ensures Connected(maze + {e}, Origin, v)
    {
      if v == e.1 {
        ConnectedExtend(maze, maze + {e}, Origin, e.0, e.1);
      } else {
        ConnectedMono(maze, maze + {e}, Origin, v);
      }
    }
  }

  /** A pending edge into n other than e survives taking e and pushing more. */
  lemma PendingKept(edges: multiset<Edge>, e: Edge, extra: multiset<Edge>, n: Pos) returns (x: Edge)
    requires e.1 != n && exists x :: x in edges && x.1 == n
    ensures x in edges - multiset{e} + extra && x.1 == n
  {
    x :| x in edges && x.1 == n;
  }

  /** After adding e.1, an unvisited box neighbour n of a tree cell v has an
      edge into it among the remaining and newly pushed edges. */
  lemma PendingWitness(rows: nat, cols: nat, visited: set<Pos>, edges: multiset<Edge>, e: Edge,
                       v: Pos, n: Pos) returns (x: Edge)
    requires Pending(rows, cols, visited, edges) && e in edges && e.1 !in visited
    requires v in visited + {e.1} && InBox(rows, cols, n) && Adjacent(v, n) && n !in visited + {e.1}
    ensures var ns := BoxMoves(rows, cols, e.1, Directions, visited + {e.1});
      x in edges - multiset{e} + multiset(EdgesTo(e.1, ns)) && x.1 == n
  {
    var pushed := multiset(EdgesTo(e.1, BoxMoves(rows, cols, e.1, Directions, visited + {e.1})));
    if v == e.1 {
      PushedCovers(rows, cols, e.1, visited + {e.1}, n);
      x := (e.1, n);
    } else {
      x := PendingKept(edges, e, pushed, n);
    }
  }

  lemma PendingStep(rows: nat, cols: nat, visited: set<Pos>, edges: multiset<Edge>, e: Edge)
    requires Pending(rows, cols, visited, edges) && e in edges && e.1 !in visited
    ensures var ns := BoxMoves(rows, cols, e.1, Directions, visited + {e.1});
      Pending(rows, cols, visited + {e.1}, edges - multiset{e} + multiset(EdgesTo(e.1, ns)))
  {
    var ns := BoxMoves(rows, cols, e.1, Directions, visited + {e.1});
    var visited' := visited + {e.1};
    var edges' := edges - multiset{e} + multiset(EdgesTo(e.1, ns));
    forall v, n | v in visited' && InBox(rows, cols, n) && Adjacent(v, n) && n !in visited'
      ensures exists x :: x in edges' && x.1 == n
    {
      var x := PendingWitness(rows, cols, visited, edges, e, v, n);
      assert x in edges';
    }
  }

  /** The edges pushed from a newly added cell keep every pending edge leaving the tree. */
  lemma EdgesGrow(rows: nat, cols: nat, visited: set<Pos>, edges: multiset<Edge>, e: Edge)
    requires EdgesOk(rows, cols, visited, edges) && e in edges
    ensures var ns := BoxMoves(rows, cols, e.1, Directions, visited + {e.1});
      EdgesOk(rows, cols, visited + {e.1}, edges - multiset{e} + multiset(EdgesTo(e.1, ns)))
  {
    PushedOk(rows, cols, e.1, visited + {e.1});
  }

  /** Adding the edge into a new cell adds one passage between two tree cells. */
  lemma MazeGrow(visited: set<Pos>, maze: set<Edge>, e: Edge)
    requires MazeOk(visited, maze) && |maze| == |visited| - 1
    requires e.0 in visited && e.1 !in visited && Adjacent(e.0, e.1)
    ensures MazeOk(visited + {e.1}, maze + {e}) && |maze + {e}| == |visited + {e.1}| - 1
  {
    assert e !in maze;
    assert |maze + {e}| == |maze| + 1;
    assert |visited + {e.1}| == |visited| + 1;
  }

  /** Taking a pending edge into a new cell grows the tree by that edge. */
  lemma GrowStep(rows: nat, cols: nat, visited: set<Pos>, maze: set<Edge>, edges: multiset<Edge>, e: Edge)
    requires Inv(rows, cols, visited, maze, edges) && e in edges && e.1 !in visited
    ensures var ns := BoxMoves(rows, cols, e.1, Directions, visited + {e.1});
      Inv(rows, cols, visited + {e.1}, maze + {e}, edges - multiset{e} + multiset(EdgesTo(e.1, ns)))
    ensures e.1 in Box(rows, cols) - visited
  {
    BoxMember(rows, cols, e.1);
    EdgesGrow(rows, cols, visited, edges, e);
    MazeGrow(visited, maze, e);
    SpansStep(maze, visited, e);
    PendingStep(rows, cols, visited, edges, e);
  }

  /** Taking a pending edge into a cell already in the tree only drops that edge. */
  lemma SkipStep(rows: nat, cols: nat, visited: set<Pos>, maze: set<Edge>, edges: multiset<Edge>, e: Edge)
    requires Inv(rows, cols, visited, maze, edges) && e in edges && e.1 in visited
    ensures Inv(rows, cols, visited, maze, edges - multiset{e})
  {
    forall v, n | v in visited && InBox(rows, cols, n) && Adjacent(v, n) && n !in visited
      ensures exists x :: x in edges - multiset{e} && x.1 == n
    {
      var x :| x in edges && x.1 == n;
      assert x != e;
    }
  }

  /** main.py generate_maze. The result is a spanning tree of the rows x cols
      grid graph: every passage joins two 4-neighbour cells of the grid, every
      cell is connected to (0,0), and there are rows * cols - 1 passages. */
  method GenerateMaze(rows: nat, cols: nat) returns (maze: set<Edge>)
    requires rows >= 1 && cols >= 1
    ensures forall e :: e in maze ==> InBox(rows, cols, e.0) && InBox(rows, cols, e.1) && Adjacent(e.0, e.1)
    ensures forall v :: InBox(rows, cols, v) ==> Connected(maze, Origin, v)
    ensures |maze| == rows * cols - 1
  {
    maze := {};
    var visited := {Origin};
    var edges := multiset(EdgesTo(Origin, BoxMoves(rows, cols, Origin, Directions, {})));
    InvInit(rows, cols);
    ghost var box := Box(rows, cols);
    while edges != multiset{}
      invariant Inv(rows, cols, visited, maze, edges)
      decreases box - visited, |edges|
    {
      var e :| e in edges;
      if e.1 !in visited {
        GrowStep(rows, cols, visited, maze, edges, e);
        var ns := BoxMoves(rows, cols, e.1, Directions, visited + {e.1});
        maze := maze + {e};
        visited := visited + {e.1};
        edges := edges - multiset{e} + multiset(EdgesTo(e.1, ns));
      } else {
        SkipStep(rows, cols, visited, maze, edges, e);
        edges := edges - multiset{e};
      }
    }
    Finish(rows, cols, visited, maze);
  }

  /** With nothing pending, the tree spans the whole grid. */
  lemma Finish(rows: nat, cols: nat, visited: set<Pos>, maze: set<Edge>)
    requires Inv(rows, cols, visited, maze, multiset{})
    ensures forall e :: e in maze ==> InBox(rows, cols, e.0) && InBox(rows, cols, e.1) && Adjacent(e.0, e.1)
    ensures forall v :: InBox(rows, cols, v) ==> Connected(maze, Origin, v)
    ensures |maze| == rows * cols - 1
  {
    forall v | InBox(rows, cols, v)
      ensures v in visited
    {
      ClosedHoldsBox(rows, cols, visited, v.r, v.c);
    }
    forall v | v in visited
      ensures InBox(rows, cols, v)
    {
      BoxMember(rows, cols, v);
    }
    assert visited == Box(rows, cols) by {
      forall v | v in Box(rows, cols)
        ensures v in visited
      {
        BoxMember(rows, cols, v);
      }
    }
    BoxCard(rows, cols);
  }

  /** main.py tries the moves in the order right, down, left, up. */
  const MainDirections: seq<Dir> := [Right, Down, Left, Up]

  lemma MainDirectionsIsOrder()
    ensures IsOrder(MainDirections)
  {
    forall d: Dir
      ensures d in MainDirections
    {
      match d
      case Right => assert MainDirections[0] == d;
      case Down => assert MainDirections[1] == d;
      case Left => assert MainDirections[2] == d;
      case Up => assert MainDirections[3] == d;
    }
  }

  /** The moves of p, in the order dirs gives, that cross a passage to a cell not in seen. */
  function PassMoves(maze: set<Edge>, p: Pos, dirs: seq<Dir>, seen: set<Pos>): (r: seq<Pos>)
    ensures forall q :: q in r <==>
      (q !in seen && Linked(maze, p, q) && exists i :: 0 <= i < |dirs| && q == Move(p, dirs[i]))
    ensures Distinct(dirs) ==> Distinct(r)
  {
    if dirs == [] then []
    else
      var q := Move(p, dirs[0]);
      var rest := PassMoves(maze, p, dirs[1..], seen);
      assert forall i :: 1 <= i < |dirs| ==> dirs[i] == dirs[1..][i - 1];
      assert forall i :: 0 <= i < |dirs| - 1 ==> dirs[1..][i] == dirs[i + 1];
      if Linked(maze, p, q) && q !in seen then [q] + rest else rest
  }

  /** With a full direction order, the passage moves are exactly the passage steps to unseen cells. */
  lemma PassMovesAreSteps(maze: set<Edge>, p: Pos, seen: set<Pos>)
    ensures forall q :: q in PassMoves(maze, p, MainDirections, seen) <==> PassStep(maze, p, q) && q !in seen
    ensures Distinct(PassMoves(maze, p, MainDirections, seen))
  {
    MainDirectionsIsOrder();
    forall q
      ensures q in PassMoves(maze, p, MainDirections, seen) <==> PassStep(maze, p, q) && q !in seen
    {
      AdjacentByOrder(p, q, MainDirections);
    }
  }

  /** Every cell some passage touches. */
  function Ends(maze: set<Edge>): (r: set<Pos>)
    ensures forall a, b :: Linked(maze, a, b) ==> a in r && b in r
  {
    (set e | e in maze :: e.0) + (set e | e in maze :: e.1)
  }

  /** A queue entry of the path search: a cell and the path that reached it. */
  datatype Entry = Entry(node: Pos, path: seq<Pos>)

  /** The entries queued for cells, each path extended by its cell. */
  function Entries(cells: seq<Pos>, path: seq<Pos>): (r: seq<Entry>)
    ensures |r| == |cells|
    ensures forall k :: 0 <= k < |r| ==> r[k] == Entry(cells[k], path + [cells[k]])
  {
    if cells == [] then [] else [Entry(cells[0], path + [cells[0]])] + Entries(cells[1..], path)
  }

  /** Every queued path is a passage walk from the start to its entry's cell. */
  predicate Walks(maze: set<Edge>, start: Pos, q: seq<Entry>) {
    forall i :: 0 <= i < |q| ==>
      PassWalk(maze, q[i].path) && q[i].path[0] == start && q[i].path[|q[i].path| - 1] == q[i].node
  }

  /** Each passage neighbour of an expanded cell has been marked. */
  ghost predicate Marked(maze: set<Edge>, expanded: set<Pos>, visited: set<Pos>) {
    forall x, y :: x in expanded && PassStep(maze, x, y) ==> y in visited
  }

  /** Each marked cell has been expanded or is waiting in the queue. */
  predicate Tracked(visited: set<Pos>, expanded: set<Pos>, q: seq<Entry>) {
    forall y :: y in visited ==> y in expanded || exists i :: 0 <= i < |q| && q[i].node == y
  }

  /** Before the first expansion the queue is the initial one; afterwards the start is expanded. */
  predicate Started(start: Pos, q: seq<Entry>, expanded: set<Pos>) {
    && (expanded == {} ==> q == [Entry(start, [start])])
    && (expanded != {} ==> start in expanded)
  }

  ghost predicate SearchInv(maze: set<Edge>, start: Pos, goal: Pos, q: seq<Entry>, visited: set<Pos>, expanded: set<Pos>) {
    && Walks(maze, start, q) && Marked(maze, expanded, visited) && Tracked(visited, expanded, q)
    && Started(start, q, expanded) && goal !in expanded && visited <= Ends(maze)
  }

  /** Popping the head and queueing its passage neighbours keeps every queued path a walk. */
  lemma WalksStep(maze: set<Edge>, start: Pos, q: seq<Entry>, found: seq<Pos>)
    requires Walks(maze, start, q) && q != []
    requires forall y :: y in found ==> PassStep(maze, q[0].node, y)
    ensures Walks(maze, start, q[1..] + Entries(found, q[0].path))
  {
    var e := q[0];
    var q' := q[1..] + Entries(found, e.path);
    forall i | 0 <= i < |q'|
      ensures PassWalk(maze, q'[i].path) && q'[i].path[0] == start && q'[i].path[|q'[i].path| - 1] == q'[i].node
    {
      if i < |q| - 1 {
        assert q'[i] == q[i + 1];
      } else {
        var y := found[i - (|q| - 1)];
        assert y in found;
        assert q'[i] == Entry(y, e.path + [y]);
        ConnectedExtendWalk(maze, e.path, y);
      }
    }
  }

  /** Popping the head into the expanded set and queueing the new cells keeps
      every marked cell expanded or queued. */
  lemma TrackedStep(visited: set<Pos>, expanded: set<Pos>, q: seq<Entry>, found: seq<Pos>, path: seq<Pos>)
    requires Tracked(visited, expanded, q) && q != []
    ensures Tracked(visited + Elems(found), expanded + {q[0].node}, q[1..] + Entries(found, path))
  {
    var q' := q[1..] + Entries(found, path);
    forall y | y in visited + Elems(found)
      ensures y in expanded + {q[0].node} || exists i :: 0 <= i < |q'| && q'[i].node == y
    {
      if y in found {
        var m :| 0 <= m < |found| && found[m] == y;
        assert q'[|q| - 1 + m] == Entries(found, path)[m];
      } else if y !in expanded && y != q[0].node {
        var i :| 0 <= i < |q| && q[i].node == y;
        assert q'[i - 1] == q[i];
      }
    }
  }

  lemma SearchStep(maze: set<Edge>, start: Pos, goal: Pos, q: seq<Entry>, visited: set<Pos>, expanded: set<Pos>)
    requires SearchInv(maze, start, goal, q, visited, expanded) && q != [] && q[0].node != goal
    ensures var found := PassMoves(maze, q[0].node, MainDirections, visited);
      SearchInv(maze, start, goal, q[1..] + Entries(found, q[0].path),
                visited + Elems(found), expanded + {q[0].node})
    ensures var found := PassMoves(maze, q[0].node, MainDirections, visited);
      found != [] ==> Ends(maze) - (visited + Elems(found)) < Ends(maze) - visited
  {
    var e := q[0];
    var found := PassMoves(maze, e.node, MainDirections, visited);
    PassMovesAreSteps(maze, e.node, visited);
    WalksStep(maze, start, q, found);
    TrackedStep(visited, expanded, q, found, e.path);
    if found != [] {
      assert found[0] in Ends(maze) - visited;
    }
  }

  lemma ConnectedExtendWalk(maze: set<Edge>, w: seq<Pos>, y: Pos)
    requires PassWalk(maze, w) && PassStep(maze, w[|w| - 1], y)
    ensures PassWalk(maze, w + [y])
  {
    var w' := w + [y];
    forall i | 0 <= i < |w'| - 1
      ensures PassStep(maze, w'[i], w'[i + 1])
    {
      if i < |w| - 1 {
        assert w'[i] == w[i] && w'[i + 1] == w[i + 1];
      }
    }
  }

  /** main.py bfs_path: a breadth-first search along passages that marks a
      cell when it is queued (the start itself is never marked). A non-empty
      result is a passage walk from start to goal; it is empty exactly when
      no such walk exists. */
  method BfsPath(maze: set<Edge>, start: Pos, goal: Pos) returns (r: seq<Pos>)
    ensures r != [] <==> Connected(maze, start, goal)
    ensures r != [] ==> PassWalk(maze, r) && r[0] == start && r[|r| - 1] == goal
    ensures start == goal ==> r == [start]
  {
    var queue := [Entry(start, [start])];
    var visited: set<Pos> := {};
    ghost var expanded: set<Pos> := {};
    assert PassWalk(maze, [start]);
    while queue != []
      invariant SearchInv(maze, start, goal, queue, visited, expanded)
      decreases Ends(maze) - visited, |queue|
    {
      var e := queue[0];
      if e.node == goal {
        return e.path;
      }
      var found := PassMoves(maze, e.node, MainDirections, visited);
      SearchStep(maze, start, goal, queue, visited, expanded);
      queue := queue[1..] + Entries(found, e.path);
      visited := visited + Elems(found);
      expanded := expanded + {e.node};
    }
    ClosedUnconnected(maze, start, goal, expanded);
    r := [];
  }

  /** main.py key handling: an arrow moves the player to the neighbouring
      cell when a passage joins the two; any other key aims at the player's
      own cell, which no passage joins to itself in a generated maze. */
  function PlayerMove(maze: set<Edge>, player: Pos, key: Key): (r: Pos)
    ensures r == player || (key.Arrow? && r == Move(player, key.d) && PassStep(maze, player, r))
    ensures key.Arrow? && Linked(maze, player, Move(player, key.d)) ==> r == Move(player, key.d)
  {
    var target := match key
      case Arrow(d) => Move(player, d)
      case OtherKey => player;
    if Linked(maze, player, target) then target else player
  }

  /** Moving keeps the player connected to the origin, and so inside the grid. */
  lemma PlayerMoveConnected(maze: set<Edge>, player: Pos, key: Key)
    requires Connected(maze, Origin, player)
    ensures Connected(maze, Origin, PlayerMove(maze, player, key))
  {
    var r := PlayerMove(maze, player, key);
    if r != player {
      ConnectedExtend(maze, maze, Origin, player, r);
    }
  }

  /** main.py start-up: a 15 x 15 maze, the player at (0,0), the treasure in
      the far corner, and the breadth-first path between them. The path is
      never empty, because the maze spans the grid. */
  method NewGame() returns (maze: set<Edge>, player: Pos, treasure: Pos, path: seq<Pos>)
    ensures player == Origin && treasure == Pos(14, 14)
    ensures |maze| == 15 * 15 - 1
    ensures path != [] && PassWalk(maze, path) && path[0] == player && path[|path| - 1] == treasure
  {
    maze := GenerateMaze(15, 15);
    treasure := Pos(15 - 1, 15 - 1);
    player := Origin;
    path := BfsPath(maze, player, treasure);
  }
}
