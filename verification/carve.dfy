/** The wall-carving maze generator shared by the classical, easy, hard and
    two-player games. Starting from an all-wall grid with (1,1) open, it keeps
    a bag of candidate cells; it takes any candidate out, and carves it when
    exactly one of its in-bounds neighbours is already open, adding that
    cell's wall neighbours as new candidates. At the end it forces
    (rows-2, cols-2) open as the treasure cell.

    The shuffle-then-pop of the source picks an arbitrary candidate, so the
    model keeps the candidates as a multiset and takes any element of it. */
module Carve {
  import opened Seqs
  import opened Grid

  const Start: Pos := Pos(1, 1)

  /** rows x cols, every entry 0 or 1. */
  predicate Rect(g: Maze, rows: nat, cols: nat) {
    |g| == rows && forall r :: 0 <= r < rows ==> |g[r]| == cols
  }

  predicate Binary(g: Maze) {
    forall r, c :: 0 <= r < |g| && 0 <= c < |g[r]| ==> g[r][c] == 0 || g[r][c] == 1
  }

  /** The all-wall grid the generator starts from. */
  function Blank(rows: nat, cols: nat): (g: Maze)
    ensures Rect(g, rows, cols) && Binary(g)
    ensures forall p :: !IsOpen(g, p)
  {
    seq(rows, _ => seq(cols, _ => 0))
  }

  /** The grid with cell p set to v; every other cell and the shape are unchanged. */
  function Write(g: Maze, p: Pos, v: int): (r: Maze)
    requires InBounds(g, p)
    ensures |r| == |g| && forall i :: 0 <= i < |g| ==> |r[i]| == |g[i]|
    ensures r[p.r][p.c] == v
    ensures forall q :: InBounds(g, q) && q != p ==> r[q.r][q.c] == g[q.r][q.c]
  {
    g[p.r := g[p.r][p.c := v]]
  }

  /** The in-bounds neighbours of p, in the order dirs gives, that are still walls:
      the candidates the generator pushes after carving p. */
  function WallMoves(g: Maze, p: Pos, dirs: seq<Dir>): (r: seq<Pos>)
    ensures forall q :: q in r <==>
      (InBounds(g, q) && g[q.r][q.c] == 0 && exists i :: 0 <= i < |dirs| && q == Move(p, dirs[i]))
  {
    if dirs == [] then []
    else
      var q := Move(p, dirs[0]);
      var rest := WallMoves(g, p, dirs[1..]);
      assert forall i :: 1 <= i < |dirs| ==> dirs[i] == dirs[1..][i - 1];
      assert forall i :: 0 <= i < |dirs| - 1 ==> dirs[1..][i] == dirs[i + 1];
      if InBounds(g, q) && g[q.r][q.c] == 0 then [q] + rest else rest
  }

  /** The number of open in-bounds neighbours (the length of the source's neighbour list). */
  function OpenCount(g: Maze, p: Pos): nat {
    |FreshMoves(g, p, Directions, {})|
  }

  /** Cells the order relation puts first; an undirected link is stored once, smaller end first. */
  predicate Before(a: Pos, b: Pos) {
    a.r < b.r || (a.r == b.r && a.c < b.c)
  }

  function Edge(a: Pos, b: Pos): (Pos, Pos) {
    if Before(a, b) then (a, b) else (b, a)
  }

  /** The adjacent pairs of cells of s, each pair once. */
  function Links(s: set<Pos>): set<(Pos, Pos)> {
    set a, b | a in s && b in s && Adjacent(a, b) && Before(a, b) :: (a, b)
  }

  /** The open cells of g. */
  function OpenSet(g: Maze): (s: set<Pos>)
    ensures forall p :: p in s <==> IsOpen(g, p)
  {
    var s := set r, c | 0 <= r < |g| && 0 <= c < |g[r]| && g[r][c] == 1 :: Pos(r, c);
    assert forall p :: IsOpen(g, p) ==> Pos(p.r, p.c) in s;
    s
  }

  /** Every cell of the rows x cols box. */
  function Box(rows: nat, cols: nat): set<Pos> {
    set r, c | 0 <= r < rows && 0 <= c < cols :: Pos(r, c)
  }

  /** Every wall cell next to an open cell is still a candidate, or already has
      two open neighbours and so can never be carved. */
  ghost predicate Saturated(g: Maze, walls: multiset<Pos>) {
    forall c :: InBounds(g, c) && g[c.r][c.c] == 0 && OpenCount(g, c) >= 1 ==>
      c in walls || OpenCount(g, c) >= 2
  }

  /** One round of the loop: take candidate w out; carve it iff it is a wall with
      exactly one open neighbour, and then add its wall neighbours. */
  function CarveStep(g: Maze, walls: multiset<Pos>, w: Pos): (r: (Maze, multiset<Pos>))
    requires w in walls && InBounds(g, w)
    ensures r.0 == g || r.0 == Write(g, w, 1)
    ensures r.0 != g <==> g[w.r][w.c] == 0 && OpenCount(g, w) == 1
    ensures r.0 == g ==> r.1 == walls - multiset{w}
    ensures forall x :: x in r.1 && x !in walls ==> InBounds(r.0, x) && r.0[x.r][x.c] == 0 && Adjacent(w, x)
    ensures forall x :: x in walls && x != w ==> x in r.1
  {
    if g[w.r][w.c] == 0 && OpenCount(g, w) == 1 then
      var g' := Write(g, w, 1);
      var pushed := WallMoves(g', w, Directions);
      assert forall x :: x in pushed ==> Adjacent(w, x);
      (g', walls - multiset{w} + multiset(pushed))
    else
      (g, walls - multiset{w})
  }

  /** Cells whose moves avoid w see the same fresh moves after w is rewritten. */
  lemma {:induction false} FreshMovesAway(g: Maze, w: Pos, v: int, c: Pos, dirs: seq<Dir>, seen: set<Pos>)
    requires InBounds(g, w)
    requires forall i :: 0 <= i < |dirs| ==> Move(c, dirs[i]) != w
    ensures FreshMoves(Write(g, w, v), c, dirs, seen) == FreshMoves(g, c, dirs, seen)
  {
    if dirs != [] {
      var q := Move(c, dirs[0]);
      assert IsOpen(Write(g, w, v), q) == IsOpen(g, q);
      FreshMovesAway(g, w, v, c, dirs[1..], seen);
    }
  }

  lemma AdjacentSym(a: Pos, b: Pos)
    ensures Adjacent(a, b) <==> Adjacent(b, a)
  {
  }

  /** The carving loop's state after a round still has every wall cell next to an
      open cell accounted for. */
  lemma SaturatedStep(g: Maze, walls: multiset<Pos>, w: Pos)
    requires w in walls && InBounds(g, w) && Saturated(g, walls)
    ensures Saturated(CarveStep(g, walls, w).0, CarveStep(g, walls, w).1)
  {
    var (g', walls') := CarveStep(g, walls, w);
    DirectionsIsOrder();
    forall c | InBounds(g', c) && g'[c.r][c.c] == 0 && OpenCount(g', c) >= 1
      ensures c in walls' || OpenCount(g', c) >= 2
    {
      if g' == g {
        if c == w {
          assert OpenCount(g, w) != 1;
        } else {
          assert c in walls || OpenCount(g, c) >= 2;
          assert c in walls ==> c in walls';
        }
      } else {
        assert g' == Write(g, w, 1);
        assert c != w;
        AdjacentByOrder(c, w, Directions);
        AdjacentSym(c, w);
        if Adjacent(w, c) {
          AdjacentByOrder(w, c, Directions);
          assert c in WallMoves(g', w, Directions);
        } else {
          FreshMovesAway(g, w, 1, c, Directions, {});
          assert c in walls || OpenCount(g, c) >= 2;
          assert c in walls ==> c in walls';
        }
      }
    }
  }

  /** Adding w, whose only neighbour in s is n, adds exactly the link between n and w. */
  lemma LinksAdd(s: set<Pos>, w: Pos, n: Pos)
    requires w !in s && n in s && Adjacent(w, n)
    requires forall q :: q in s && Adjacent(w, q) ==> q == n
    ensures Links(s + {w}) == Links(s) + {Edge(n, w)}
    ensures Edge(n, w) !in Links(s)
    ensures |Links(s + {w})| == |Links(s)| + 1
  {
    forall e | e in Links(s + {w})
      ensures e in Links(s) + {Edge(n, w)}
    {
      var (a, b) := e;
      if a == w {
        assert b == n;
      } else if b == w {
        assert a == n;
      }
    }
    assert Edge(n, w) in Links(s + {w});
  }

  /** Opening cells keeps every walk a walk, so reachability only grows. */
  lemma ReachMono(g: Maze, g': Maze, s: Pos, t: Pos)
    requires forall p :: IsOpen(g, p) ==> IsOpen(g', p)
    requires Reachable(g, s, t)
    ensures Reachable(g', s, t)
  {
    var w :| WalkFrom(g, s, t, w);
    assert WalkFrom(g', s, t, w);
  }

  /** A freshly carved cell hangs off a reachable open neighbour. */
  lemma ReachCarved(g: Maze, g': Maze, s: Pos, n: Pos, w: Pos)
    requires forall p :: IsOpen(g, p) ==> IsOpen(g', p)
    requires Reachable(g, s, n) && Step(g', n, w)
    ensures Reachable(g', s, w)
  {
    ReachMono(g, g', s, n);
    var v :| WalkFrom(g', s, n, v);
    WalkExtend(g', v, w);
    assert WalkFrom(g', s, w, v + [w]);
  }

  /** The generator's state right after (1,1) is openCells. */
  lemma InitState(rows: nat, cols: nat)
    requires rows >= 2 && cols >= 2
    ensures var g := Write(Blank(rows, cols), Start, 1);
      && Rect(g, rows, cols) && Binary(g)
      && (forall p :: p in {Start} <==> IsOpen(g, p))
      && Reachable(g, Start, Start)
      && |Links({Start})| == 0
  {
    var g := Write(Blank(rows, cols), Start, 1);
    assert WalkFrom(g, Start, Start, [Start]);
    assert Links({Start}) == {};
  }

  /** Right after (1,1) is opened, every wall next to it is a candidate. */
  lemma InitSaturated(rows: nat, cols: nat)
    requires rows >= 2 && cols >= 2
    ensures var g := Write(Blank(rows, cols), Start, 1);
      Saturated(g, multiset(WallMoves(g, Start, Directions)))
  {
    var g := Write(Blank(rows, cols), Start, 1);
    DirectionsIsOrder();
    forall c | InBounds(g, c) && g[c.r][c.c] == 0 && OpenCount(g, c) >= 1
      ensures c in multiset(WallMoves(g, Start, Directions))
    {
      var fm := FreshMoves(g, c, Directions, {});
      assert fm[0] in fm;
      FreshMovesAreSteps(g, c, Directions, {});
      assert fm[0] == Start;
      AdjacentByOrder(Start, c, Directions);
    }
  }

  /** Carving w keeps the shape, the tree and its reachability from (1,1). */
  lemma CarvedState(g: Maze, w: Pos, openCells: set<Pos>, universe: set<Pos>, rows: nat, cols: nat)
    requires Rect(g, rows, cols) && Binary(g) && InBounds(g, w) && universe == Box(rows, cols)
    requires forall p :: p in openCells <==> IsOpen(g, p)
    requires forall p :: p in openCells ==> Reachable(g, Start, p)
    requires |Links(openCells)| == |openCells| - 1
    requires g[w.r][w.c] == 0 && OpenCount(g, w) == 1
    ensures var g' := Write(g, w, 1);
      && Rect(g', rows, cols) && Binary(g')
      && w !in openCells && w in universe
      && (forall p :: p in openCells + {w} <==> IsOpen(g', p))
      && (forall p :: p in openCells + {w} ==> Reachable(g', Start, p))
      && |Links(openCells + {w})| == |openCells + {w}| - 1
  {
    assert Pos(w.r, w.c) in Box(rows, cols);
    WriteOpen(g, w, rows, cols);
    CarvedTree(g, w, openCells);
  }

  /** The tree part of CarvedState: the carved cell hangs off its single open
      neighbour, adding one cell and one link. */
  lemma CarvedTree(g: Maze, w: Pos, openCells: set<Pos>)
    requires InBounds(g, w)
    requires forall p :: p in openCells <==> IsOpen(g, p)
    requires forall p :: p in openCells ==> Reachable(g, Start, p)
    requires |Links(openCells)| == |openCells| - 1
    requires g[w.r][w.c] == 0 && OpenCount(g, w) == 1
    ensures w !in openCells
    ensures forall p :: p in openCells + {w} ==> Reachable(Write(g, w, 1), Start, p)
    ensures |Links(openCells + {w})| == |openCells + {w}| - 1
  {
    assert w !in openCells;
    assert |openCells + {w}| == |openCells| + 1;
    var n := SoleNeighbour(g, w, openCells);
    LinksAdd(openCells, w, n);
    CarvedReach(g, w, openCells, n);
  }

  /** Writing a 1 opens exactly that cell and keeps the grid a rows x cols 0/1 grid. */
  lemma WriteOpen(g: Maze, w: Pos, rows: nat, cols: nat)
    requires Rect(g, rows, cols) && Binary(g) && InBounds(g, w)
    ensures Rect(Write(g, w, 1), rows, cols) && Binary(Write(g, w, 1))
    ensures forall p :: IsOpen(Write(g, w, 1), p) <==> IsOpen(g, p) || p == w
  {
    var g' := Write(g, w, 1);
    forall r, c | 0 <= r < |g'| && 0 <= c < |g'[r]|
      ensures g'[r][c] == 0 || g'[r][c] == 1
    {
      if Pos(r, c) != w {
        assert g'[r][c] == g[r][c];
      }
    }
  }

  /** A cell with exactly one open neighbour: that neighbour is the only open cell adjacent to it. */
  lemma SoleNeighbour(g: Maze, w: Pos, openCells: set<Pos>) returns (n: Pos)
    requires forall p :: p in openCells <==> IsOpen(g, p)
    requires OpenCount(g, w) == 1
    ensures n in openCells && Adjacent(w, n)
    ensures forall q :: q in openCells && Adjacent(w, q) ==> q == n
  {
    var fm := FreshMoves(g, w, Directions, {});
    n := fm[0];
    DirectionsIsOrder();
    FreshMovesAreSteps(g, w, Directions, {});
    assert n in fm;
    forall q | q in openCells && Adjacent(w, q)
      ensures q == n
    {
      assert q in fm;
      var k :| 0 <= k < |fm| && fm[k] == q;
    }
  }

  lemma CarvedReach(g: Maze, w: Pos, openCells: set<Pos>, n: Pos)
    requires InBounds(g, w)
    requires forall p :: p in openCells <==> IsOpen(g, p)
    requires forall p :: p in openCells ==> Reachable(g, Start, p)
    requires n in openCells && Adjacent(w, n)
    ensures forall p :: p in openCells + {w} ==> Reachable(Write(g, w, 1), Start, p)
  {
    var g' := Write(g, w, 1);
    assert forall p :: IsOpen(g, p) ==> IsOpen(g', p);
    forall p | p in openCells + {w}
      ensures Reachable(g', Start, p)
    {
      if p == w {
        AdjacentSym(n, w);
        ReachCarved(g, g', Start, n, w);
      } else {
        ReachMono(g, g', Start, p);
      }
    }
  }

  /** The carving loop's invariant: a rows x cols 0/1 grid whose open cells
      are openCells, a tree hanging off (1,1), with every candidate in bounds
      and every wall next to the tree either a candidate or past carving. */
  ghost predicate CarveInv(g: Maze, walls: multiset<Pos>, openCells: set<Pos>, rows: nat, cols: nat) {
    && Rect(g, rows, cols) && Binary(g)
    && (forall p :: p in openCells <==> IsOpen(g, p))
    && Start in openCells && openCells <= Box(rows, cols)
    && (forall p :: p in openCells ==> Reachable(g, Start, p))
    && |Links(openCells)| == |openCells| - 1
    && (forall x :: x in walls ==> InBounds(g, x))
    && Saturated(g, walls)
  }

  /** A round that carves keeps the invariant and opens a new cell of the box. */
  lemma CarveInvCarve(g: Maze, walls: multiset<Pos>, openCells: set<Pos>, rows: nat, cols: nat, w: Pos)
    requires CarveInv(g, walls, openCells, rows, cols) && w in walls
    requires g[w.r][w.c] == 0 && OpenCount(g, w) == 1
    ensures var step := CarveStep(g, walls, w);
      && CarveInv(step.0, step.1, openCells + {w}, rows, cols)
      && w in Box(rows, cols) && w !in openCells
  {
    SaturatedStep(g, walls, w);
    var step := CarveStep(g, walls, w);
    CarvedState(g, w, openCells, Box(rows, cols), rows, cols);
    assert forall x :: x in step.1 ==> InBounds(step.0, x);
  }

  /** A round that does not carve keeps the invariant and drops the candidate. */
  lemma CarveInvSkip(g: Maze, walls: multiset<Pos>, openCells: set<Pos>, rows: nat, cols: nat, w: Pos)
    requires CarveInv(g, walls, openCells, rows, cols) && w in walls
    requires !(g[w.r][w.c] == 0 && OpenCount(g, w) == 1)
    ensures var step := CarveStep(g, walls, w);
      && step.0 == g && CarveInv(g, step.1, openCells, rows, cols) && |step.1| < |walls|
  {
    SaturatedStep(g, walls, w);
  }

  /** generate_maze up to, but not including, forcing the treasure cell open.
      The open cells form a tree hanging off (1,1): all are reachable from it
      and there is one adjacent open pair fewer than open cells. The carving
      stops only when no wall cell can be carved any more: a wall next to an
      open cell has at least two open neighbours. */
  method CarveMaze(rows: nat, cols: nat) returns (g: Maze)
    requires rows >= 2 && cols >= 2
    ensures Rect(g, rows, cols) && Binary(g)
    ensures IsOpen(g, Start)
    ensures forall p :: IsOpen(g, p) ==> Reachable(g, Start, p)
    ensures |Links(OpenSet(g))| == |OpenSet(g)| - 1
    ensures forall c :: InBounds(g, c) && g[c.r][c.c] == 0 && OpenCount(g, c) >= 1 ==> OpenCount(g, c) >= 2
  {
    g := Write(Blank(rows, cols), Start, 1);
    var walls := multiset(WallMoves(g, Start, Directions));
    ghost var openCells := {Start};
    InitState(rows, cols);
    InitSaturated(rows, cols);
    assert Pos(1, 1) in Box(rows, cols);
    while walls != multiset{}
      invariant CarveInv(g, walls, openCells, rows, cols)
      decreases Box(rows, cols) - openCells, |walls|
    {
      var w :| w in walls;
      var step := CarveStep(g, walls, w);
      if g[w.r][w.c] == 0 && OpenCount(g, w) == 1 {
        CarveInvCarve(g, walls, openCells, rows, cols, w);
        openCells := openCells + {w};
      } else {
        CarveInvSkip(g, walls, openCells, rows, cols, w);
      }
      g, walls := step.0, step.1;
    }
    assert OpenSet(g) == openCells;
  }

  /** The treasure cell every game forces open. */
  function Exit(rows: nat, cols: nat): Pos {
    Pos(rows - 2, cols - 2)
  }

  /** generate_maze: the carved maze with (rows-2, cols-2) forced open. Every
      open cell other than the treasure cell is reachable from (1,1); the
      treasure cell is reachable as soon as one of its neighbours is open. */
  method GenerateMaze(rows: nat, cols: nat) returns (g: Maze)
    requires rows >= 2 && cols >= 2
    ensures Rect(g, rows, cols) && Binary(g)
    ensures IsOpen(g, Start) && IsOpen(g, Exit(rows, cols))
    ensures forall p :: IsOpen(g, p) && p != Exit(rows, cols) ==> Reachable(g, Start, p)
    ensures forall y :: Adjacent(Exit(rows, cols), y) && IsOpen(g, y) ==> Reachable(g, Start, Exit(rows, cols))
  {
    var carved := CarveMaze(rows, cols);
    var exit := Exit(rows, cols);
    g := Write(carved, exit, 1);
    WriteOpen(carved, exit, rows, cols);
    forall p | IsOpen(g, p) && p != exit
      ensures Reachable(g, Start, p)
    {
      ReachMono(carved, g, Start, p);
    }
    forall y | Adjacent(exit, y) && IsOpen(g, y)
      ensures Reachable(g, Start, exit)
    {
      AdjacentSym(exit, y);
      ReachCarved(carved, g, Start, y, exit);
    }
  }
}
