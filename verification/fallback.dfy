/** The fallback path finder of easy_mode.py (find_path): a breadth-first
    search that carries each cell's path in the queue and marks a cell
    visited only when it is taken off the queue. A cell can therefore be
    queued, and expanded, more than once; every queued path is still simple,
    because only unvisited cells are appended to a path of visited cells. */
module Fallback {
  import opened Seqs
  import opened Grid

  /** A queue entry: a cell and the cells before it. */
  datatype Item = Item(node: Pos, path: seq<Pos>)

  /** The entries queued for cells, each after the given path. */
  function Items(cells: seq<Pos>, path: seq<Pos>): (r: seq<Item>)
    ensures |r| == |cells|
    ensures forall k :: 0 <= k < |r| ==> r[k] == Item(cells[k], path)
  {
    if cells == [] then [] else [Item(cells[0], path)] + Items(cells[1..], path)
  }

  function Pow5(e: nat): (r: nat)
    ensures r >= 1
  {
    if e == 0 then 1 else 5 * Pow5(e - 1)
  }

  /** Termination weight of a queue: an entry whose path has k cells weighs 5^(n-k).
      Expanding an entry replaces it by at most four entries one cell longer, so
      the weight drops while paths stay shorter than the n cells they can visit. */
  function Weight(n: nat, q: seq<Item>): nat {
    if q == [] then 0
    else Pow5(if |q[0].path| <= n then n - |q[0].path| else 0) + Weight(n, q[1..])
  }

  lemma {:induction false} WeightAppend(n: nat, a: seq<Item>, b: seq<Item>)
    ensures Weight(n, a + b) == Weight(n, a) + Weight(n, b)
  {
    if a != [] {
      assert (a + b)[1..] == a[1..] + b;
      WeightAppend(n, a[1..], b);
    } else {
      assert a + b == b;
    }
  }

  lemma {:induction false} WeightItems(n: nat, cells: seq<Pos>, path: seq<Pos>)
    requires |path| <= n
    ensures Weight(n, Items(cells, path)) == |cells| * Pow5(n - |path|)
  {
    if cells != [] {
      assert Items(cells, path)[1..] == Items(cells[1..], path);
      WeightItems(n, cells[1..], path);
    }
  }

  /** Replacing the head, whose path is shorter than n, by at most four entries one cell longer lowers the weight. */
  lemma WeightDrops(n: nat, q: seq<Item>, cells: seq<Pos>)
    requires q != [] && |q[0].path| < n && |cells| <= 4
    ensures Weight(n, q[1..] + Items(cells, q[0].path + [q[0].node])) < Weight(n, q)
  {
    var k := n - |q[0].path|;
    var p := Pow5(k - 1);
    WeightAppend(n, q[1..], Items(cells, q[0].path + [q[0].node]));
    WeightItems(n, cells, q[0].path + [q[0].node]);
    assert Pow5(k) == 5 * p;
    assert |cells| * p <= 4 * p by {
      MulMono(|cells|, 4, p);
    }
    assert Weight(n, q) == Pow5(k) + Weight(n, q[1..]);
  }

  lemma MulMono(a: nat, b: nat, c: nat)
    requires a <= b
    ensures a * c <= b * c
  {
  }

  /** Every entry is a simple walk from the start whose earlier cells are all visited. */
  predicate Simple(g: Maze, start: Pos, q: seq<Item>, visited: set<Pos>) {
    forall i :: 0 <= i < |q| ==>
      && WalkFrom(g, start, q[i].node, q[i].path + [q[i].node])
      && Distinct(q[i].path + [q[i].node])
      && Elems(q[i].path) <= visited
  }

  /** Each open neighbour of a visited cell is visited or waiting in the queue. */
  ghost predicate Covered(g: Maze, q: seq<Item>, visited: set<Pos>) {
    forall x, y :: x in visited && Step(g, x, y) ==>
      y in visited || exists i :: 0 <= i < |q| && q[i].node == y
  }

  /** Before anything is visited the queue is the initial one; afterwards the start is visited. */
  predicate Begun(start: Pos, q: seq<Item>, visited: set<Pos>) {
    && (visited == {} ==> q == [Item(start, [])])
    && (visited != {} ==> start in visited)
  }

  ghost predicate Inv(g: Maze, start: Pos, goal: Pos, q: seq<Item>, visited: set<Pos>) {
    Simple(g, start, q, visited) && Covered(g, q, visited) && Begun(start, q, visited) && goal !in visited
  }

  /** A queued path is no longer than the cells it can visit. */
  lemma PathShort(g: Maze, start: Pos, q: seq<Item>, visited: set<Pos>, i: nat)
    requires Simple(g, start, q, visited) && i < |q|
    ensures |q[i].path| < |Cells(g) + {start}|
  {
    var w := q[i].path + [q[i].node];
    WalkCells(g, start, w);
    DistinctBound(w, Cells(g) + {start});
  }

  lemma SimpleStep(g: Maze, start: Pos, q: seq<Item>, visited: set<Pos>, found: seq<Pos>)
    requires Simple(g, start, q, visited) && q != []
    requires forall y :: y in found ==> Step(g, q[0].node, y) && y !in visited + {q[0].node}
    ensures Simple(g, start, q[1..] + Items(found, q[0].path + [q[0].node]), visited + {q[0].node})
  {
    var e := q[0];
    var base := e.path + [e.node];
    var visited' := visited + {e.node};
    var news := Items(found, base);
    var q' := q[1..] + news;
    forall i | 0 <= i < |q'|
      ensures WalkFrom(g, start, q'[i].node, q'[i].path + [q'[i].node])
      ensures Distinct(q'[i].path + [q'[i].node])
      ensures Elems(q'[i].path) <= visited'
    {
      if i < |q| - 1 {
        assert q'[i] == q[i + 1];
      } else {
        var y := found[i - (|q| - 1)];
        assert q'[i] == Item(y, base);
        assert y in found;
        WalkExtend(g, base, y);
        assert Elems(base) == Elems(e.path) + {e.node};
        DistinctAppend(base, [y]);
      }
    }
  }

  lemma CoveredStep(g: Maze, q: seq<Item>, visited: set<Pos>, found: seq<Pos>)
    requires Covered(g, q, visited) && q != []
    requires forall y :: Step(g, q[0].node, y) && y !in visited + {q[0].node} ==> y in found
    ensures Covered(g, q[1..] + Items(found, q[0].path + [q[0].node]), visited + {q[0].node})
  {
    var e := q[0];
    var visited' := visited + {e.node};
    var news := Items(found, e.path + [e.node]);
    var q' := q[1..] + news;
    forall x, y | x in visited' && Step(g, x, y) && y !in visited'
      ensures exists i :: 0 <= i < |q'| && q'[i].node == y
    {
      if x == e.node {
        var m :| 0 <= m < |found| && found[m] == y;
        assert q'[|q| - 1 + m] == news[m];
      } else {
        var i :| 0 <= i < |q| && q[i].node == y;
        assert i != 0;
        assert q'[i - 1] == q[i];
      }
    }
  }

  /** easy_mode.py find_path. A non-empty result is a simple walk from start
      to goal; the result is empty exactly when the goal cannot be reached. */
  method FindPath(g: Maze, start: Pos, goal: Pos) returns (r: seq<Pos>)
    ensures r != [] <==> Reachable(g, start, goal)
    ensures r != [] ==> WalkFrom(g, start, goal, r) && Distinct(r)
    ensures start == goal ==> r == [start]
  {
    var queue := [Item(start, [])];
    var visited: set<Pos> := {};
    ghost var n := |Cells(g) + {start}|;
    assert WalkFrom(g, start, start, [] + [start]);
    while queue != []
      invariant Inv(g, start, goal, queue, visited)
      decreases Weight(n, queue)
    {
      var e := queue[0];
      if e.node == goal {
        if start == goal {
          DistinctLoop(e.path + [e.node]);
        }
        return e.path + [e.node];
      }
      var found := FreshMoves(g, e.node, Directions, visited + {e.node});
      DirectionsIsOrder();
      FreshMovesAreSteps(g, e.node, Directions, visited + {e.node});
      PathShort(g, start, queue, visited, 0);
      WeightDrops(n, queue, found);
      SimpleStep(g, start, queue, visited, found);
      CoveredStep(g, queue, visited, found);
      visited := visited + {e.node};
      queue := queue[1..] + Items(found, e.path + [e.node]);
    }
    ClosedUnreachable(g, start, goal, visited);
    r := [];
  }
}
