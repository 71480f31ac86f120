/** Grid geometry shared by every game variant: cells, the four moves, the
    bounds and open tests (a maze stores 0 for a wall and 1 for an open cell),
    and walks through open cells. Walks are the reference every path finder is
    specified against: a shortest distance is the length of a walk that no
    other walk undercuts. */
module Grid {
  import opened Seqs

  datatype Pos = Pos(r: int, c: int)
  datatype Dir = Up | Down | Left | Right
  datatype Option<T> = None | Some(value: T)

  /** A key press: an arrow key, or any other key. */
  datatype Key = Arrow(d: Dir) | OtherKey

  /** A maze as the games store it: a list of rows, 0 for wall and 1 for open. */
  type Maze = seq<seq<int>>

  /** The DIRECTIONS list of the classical, easy, hard and two-player games. */
  const Directions: seq<Dir> := [Up, Down, Left, Right]

  function Move(p: Pos, d: Dir): Pos {
    match d
    case Up => Pos(p.r - 1, p.c)
    case Down => Pos(p.r + 1, p.c)
    case Left => Pos(p.r, p.c - 1)
    case Right => Pos(p.r, p.c + 1)
  }

  /** 4-neighbourhood: the two cells differ by one in exactly one coordinate. */
  predicate Adjacent(a: Pos, b: Pos) {
    || (a.r == b.r && (a.c == b.c + 1 || b.c == a.c + 1))
    || (a.c == b.c && (a.r == b.r + 1 || b.r == a.r + 1))
  }

  /** Some arrangement of the four moves (hard mode shuffles its list in place). */
  predicate IsOrder(dirs: seq<Dir>) {
    |dirs| == 4 && (forall d: Dir :: d in dirs) && Distinct(dirs)
  }

  lemma DirectionsIsOrder()
    ensures IsOrder(Directions)
  {
    forall d: Dir
      ensures d in Directions
    {
      match d
      case Up => assert Directions[0] == d;
      case Down => assert Directions[1] == d;
      case Left => assert Directions[2] == d;
      case Right => assert Directions[3] == d;
    }
  }

  /** Whatever the order, b is adjacent to a exactly when one of its moves takes a to b. */
  lemma AdjacentByOrder(a: Pos, b: Pos, dirs: seq<Dir>)
    requires IsOrder(dirs)
    ensures Adjacent(a, b) <==> exists i :: 0 <= i < |dirs| && b == Move(a, dirs[i])
  {
    if Adjacent(a, b) {
      var d := if b.r == a.r - 1 then Up else if b.r == a.r + 1 then Down
               else if b.c == a.c - 1 then Left else Right;
      assert b == Move(a, d);
      assert d in dirs;
      var i :| 0 <= i < |dirs| && dirs[i] == d;
    }
  }

  predicate InBounds(g: Maze, p: Pos) {
    0 <= p.r < |g| && 0 <= p.c < |g[p.r]|
  }

  predicate IsOpen(g: Maze, p: Pos) {
    InBounds(g, p) && g[p.r][p.c] == 1
  }

  /** One move of a walk: to an adjacent, in-bounds, open cell. */
  predicate Step(g: Maze, a: Pos, b: Pos) {
    Adjacent(a, b) && IsOpen(g, b)
  }

  /** Every in-bounds cell of the maze. */
  function Cells(g: Maze): set<Pos> {
    set r, c | 0 <= r < |g| && 0 <= c < |g[r]| :: Pos(r, c)
  }

  lemma CellsInBounds(g: Maze, p: Pos)
    ensures p in Cells(g) <==> InBounds(g, p)
  {
    if InBounds(g, p) {
      assert Pos(p.r, p.c) in Cells(g);
    }
  }

  /** A walk: each cell after the first is an open 4-neighbour of its predecessor.
      The first cell is not checked, as none of the searches checks its start. */
  predicate IsWalk(g: Maze, w: seq<Pos>) {
    |w| >= 1 && forall i :: 0 <= i < |w| - 1 ==> Step(g, w[i], w[i + 1])
  }

  predicate WalkFrom(g: Maze, s: Pos, t: Pos, w: seq<Pos>) {
    IsWalk(g, w) && w[0] == s && w[|w| - 1] == t
  }

  ghost predicate Reachable(g: Maze, s: Pos, t: Pos) {
    exists w :: WalkFrom(g, s, t, w)
  }

  /** n steps reach t from s, and no walk from s to t is shorter. */
  ghost predicate IsDistance(g: Maze, s: Pos, t: Pos, n: nat) {
    && (exists w :: WalkFrom(g, s, t, w) && |w| == n + 1)
    && (forall w :: WalkFrom(g, s, t, w) ==> |w| >= n + 1)
  }

  lemma WalkPrefix(g: Maze, w: seq<Pos>, k: nat)
    requires IsWalk(g, w) && 1 <= k <= |w|
    ensures IsWalk(g, w[..k])
  {
    forall i | 0 <= i < k - 1
      ensures Step(g, w[..k][i], w[..k][i + 1])
    {
      assert w[..k][i] == w[i] && w[..k][i + 1] == w[i + 1];
    }
  }

  lemma WalkExtend(g: Maze, w: seq<Pos>, q: Pos)
    requires IsWalk(g, w) && Step(g, w[|w| - 1], q)
    ensures IsWalk(g, w + [q])
  {
    var w' := w + [q];
    forall i | 0 <= i < |w'| - 1
      ensures Step(g, w'[i], w'[i + 1])
    {
      if i < |w| - 1 {
        assert w'[i] == w[i] && w'[i + 1] == w[i + 1];
      }
    }
  }

  lemma WalkTail(g: Maze, w: seq<Pos>)
    requires IsWalk(g, w) && |w| >= 2
    ensures IsWalk(g, w[1..])
  {
    forall i | 0 <= i < |w| - 2
      ensures Step(g, w[1..][i], w[1..][i + 1])
    {
      assert w[1..][i] == w[i + 1] && w[1..][i + 1] == w[i + 2];
    }
  }

  /** The shortest distance is unique. */
  lemma DistanceUnique(g: Maze, s: Pos, t: Pos, n: nat, m: nat)
    requires IsDistance(g, s, t, n) && IsDistance(g, s, t, m)
    ensures n == m
  {
    var w :| WalkFrom(g, s, t, w) && |w| == n + 1;
    var v :| WalkFrom(g, s, t, v) && |v| == m + 1;
  }

  lemma DistanceZero(g: Maze, s: Pos)
    ensures IsDistance(g, s, s, 0)
  {
    assert WalkFrom(g, s, s, [s]);
  }

  lemma DistanceReachable(g: Maze, s: Pos, t: Pos, n: nat)
    requires IsDistance(g, s, t, n)
    ensures Reachable(g, s, t)
  {
  }

  /** A distance is at most the length of any walk of the same ends, prefixes included. */
  lemma DistanceBelowPrefix(g: Maze, s: Pos, w: seq<Pos>, j: nat, n: nat)
    requires IsWalk(g, w) && w[0] == s && j < |w|
    requires IsDistance(g, s, w[j], n)
    ensures n <= j
  {
    WalkPrefix(g, w, j + 1);
    assert WalkFrom(g, s, w[j], w[..j + 1]);
  }

  /** A walk that leaves a set V crosses its boundary: some cell of V that is
      not in the closed part D is followed by a cell outside V. */
  lemma {:induction false} Frontier(g: Maze, w: seq<Pos>, V: set<Pos>, D: set<Pos>) returns (j: nat)
    requires IsWalk(g, w) && w[0] in V && w[|w| - 1] !in V
    requires forall x, y :: x in D && Step(g, x, y) ==> y in V
    ensures j < |w| - 1 && w[j] in V && w[j] !in D && w[j + 1] !in V
    ensures Step(g, w[j], w[j + 1])
  {
    var k := |w| - 2;
    if w[k] in V {
      j := k;
    } else {
      WalkPrefix(g, w, |w| - 1);
      j := Frontier(g, w[..|w| - 1], V, D);
    }
  }

  /** Nothing outside a set closed under steps is reachable from inside it. */
  lemma ClosedUnreachable(g: Maze, s: Pos, t: Pos, V: set<Pos>)
    requires s in V && t !in V
    requires forall x, y :: x in V && Step(g, x, y) ==> y in V
    ensures !Reachable(g, s, t)
  {
    if w :| WalkFrom(g, s, t, w) {
      var j := Frontier(g, w, V, V);
    }
  }

  /** Dropping the first cell of a shortest walk leaves a shortest walk. */
  lemma ShortestTail(g: Maze, s: Pos, t: Pos, w: seq<Pos>)
    requires WalkFrom(g, s, t, w) && |w| >= 2
    requires IsDistance(g, s, t, |w| - 1)
    ensures IsDistance(g, w[1], t, |w| - 2)
  {
    WalkTail(g, w);
    assert WalkFrom(g, w[1], t, w[1..]);
    forall v | WalkFrom(g, w[1], t, v)
      ensures |v| >= |w| - 1
    {
      var u := [s] + v;
      forall i | 0 <= i < |u| - 1
        ensures Step(g, u[i], u[i + 1])
      {
        if i > 0 {
          assert u[i] == v[i - 1] && u[i + 1] == v[i];
        }
      }
      assert WalkFrom(g, s, t, u);
    }
  }

  /** The moves of p, in the order dirs gives, that land on an open cell not in seen. */
  function FreshMoves(g: Maze, p: Pos, dirs: seq<Dir>, seen: set<Pos>): (r: seq<Pos>)
    ensures forall q :: q in r <==>
      (q !in seen && IsOpen(g, q) && exists i :: 0 <= i < |dirs| && q == Move(p, dirs[i]))
    ensures Distinct(dirs) ==> Distinct(r)
    ensures |r| <= |dirs|
  {
    if dirs == [] then []
    else
      var q := Move(p, dirs[0]);
      var rest := FreshMoves(g, p, dirs[1..], seen);
      assert forall i :: 1 <= i < |dirs| ==> dirs[i] == dirs[1..][i - 1];
      assert forall i :: 0 <= i < |dirs| - 1 ==> dirs[1..][i] == dirs[i + 1];
      if IsOpen(g, q) && q !in seen then [q] + rest else rest
  }

  /** With a full direction order, the fresh moves are exactly the fresh open neighbours. */
  lemma FreshMovesAreSteps(g: Maze, p: Pos, dirs: seq<Dir>, seen: set<Pos>)
    requires IsOrder(dirs)
    ensures forall q :: q in FreshMoves(g, p, dirs, seen) <==> Step(g, p, q) && q !in seen
    ensures Distinct(FreshMoves(g, p, dirs, seen))
  {
    forall q
      ensures q in FreshMoves(g, p, dirs, seen) <==> Step(g, p, q) && q !in seen
    {
      AdjacentByOrder(p, q, dirs);
    }
  }

  /** Every cell of a walk from s is s itself or an open cell. */
  lemma WalkCells(g: Maze, s: Pos, w: seq<Pos>)
    requires IsWalk(g, w) && w[0] == s
    ensures forall i :: 0 <= i < |w| ==> w[i] in Cells(g) + {s}
  {
    forall i | 0 <= i < |w|
      ensures w[i] in Cells(g) + {s}
    {
      if i > 0 {
        assert Step(g, w[i - 1], w[i]);
        CellsInBounds(g, w[i]);
      }
    }
  }
}
