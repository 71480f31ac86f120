/** The two-player race of friends.py. Red moves with W/A/S/D and blue with
    the arrow keys over the same carved maze. Up to two keys and two locks
    lie on open cells; stepping onto a key picks it up, and stepping onto a
    lock needs a key, which the lock consumes — without one the press is
    ignored. The first player on the treasure wins, red taking precedence. */
module Friends {
  import opened Seqs
  import opened Grid
  import Carve

  /** A key press of the two-player game or of its avatar selection screen. */
  datatype Press = RedKey(d: Dir) | BlueKey(d: Dir) | SpaceKey | OtherPress

  datatype Side = Red | Blue

  /** A player's cell, accepted moves and keys held. */
  datatype Player = Player(pos: Pos, moves: nat, keys: nat)

  datatype Race = Race(red: Player, blue: Player, keys: seq<Pos>, locks: seq<Pos>,
                       treasure: Pos, running: bool, winner: Option<Side>)

  /** Python's list.remove on a list that holds x: drop its first occurrence. */
  function RemoveFirst(s: seq<Pos>, x: Pos): (r: seq<Pos>)
    requires x in s
    ensures |r| == |s| - 1
    ensures multiset(r) == multiset(s) - multiset{x}
  {
    assert s == [s[0]] + s[1..];
    if s[0] == x then s[1..]
    else [s[0]] + RemoveFirst(s[1..], x)
  }

  /** The result of one player's press on that player and on the board. */
  datatype Turn = Turn(player: Player, keys: seq<Pos>, locks: seq<Pos>, blocked: bool)

  /** friends.py:251-269 (red) and 283-301 (blue): pick up a key on the
      target cell, then face a lock there — open it with a key, or give up
      the rest of the press without one — then move if the target is an
      in-bounds open cell. */
  function Advance(g: Maze, p: Player, d: Dir, keys: seq<Pos>, locks: seq<Pos>): (r: Turn)
    ensures var t := Move(p.pos, d);
      var held := p.keys + (if t in keys then 1 else 0);
      && r.keys == (if t in keys then RemoveFirst(keys, t) else keys)
      && (r.blocked <==> t in locks && held == 0)
      && (r.blocked ==> r.player == p.(keys := held) && r.locks == locks)
      && (!r.blocked && t in locks ==> r.locks == RemoveFirst(locks, t) && r.player.keys == held - 1)
      && (!r.blocked && t !in locks ==> r.locks == locks && r.player.keys == held)
      && (!r.blocked && IsOpen(g, t) ==> r.player.pos == t && r.player.moves == p.moves + 1)
      && (!r.blocked && !IsOpen(g, t) ==> r.player.pos == p.pos && r.player.moves == p.moves)
    ensures multiset(r.keys) <= multiset(keys) && multiset(r.locks) <= multiset(locks)
  {
    var t := Move(p.pos, d);
    var p1 := if t in keys then p.(keys := p.keys + 1) else p;
    var keys1 := if t in keys then RemoveFirst(keys, t) else keys;
    if t in locks && p1.keys == 0 then Turn(p1, keys1, locks, true)
    else
      var p2 := if t in locks then p1.(keys := p1.keys - 1) else p1;
      var locks2 := if t in locks then RemoveFirst(locks, t) else locks;
      if IsOpen(g, t) then Turn(p2.(pos := t, moves := p2.moves + 1), keys1, locks2, false)
      else Turn(p2, keys1, locks2, false)
  }

  /** friends.py:304-306 with the winner of friends.py:214-217: the game ends
      once either player stands on the treasure, and red is named when red is on it. */
  function TreasureCheck(s: Race): (r: Race)
    ensures r.red == s.red && r.blue == s.blue && r.keys == s.keys && r.locks == s.locks && r.treasure == s.treasure
    ensures s.red.pos == s.treasure ==> !r.running && r.winner == Some(Red)
    ensures s.red.pos != s.treasure && s.blue.pos == s.treasure ==> !r.running && r.winner == Some(Blue)
    ensures s.red.pos != s.treasure && s.blue.pos != s.treasure ==> r == s
  {
    if s.red.pos == s.treasure || s.blue.pos == s.treasure then
      s.(running := false, winner := Some(if s.red.pos == s.treasure then Red else Blue))
    else s
  }

  /** The player a side controls. */
  function Of(s: Race, side: Side): Player {
    match side
    case Red => s.red
    case Blue => s.blue
  }

  /** The press that moves a side's player in direction d. */
  function Pressed(side: Side, d: Dir): Press {
    match side
    case Red => RedKey(d)
    case Blue => BlueKey(d)
  }

  /** The press aims at a lock while its mover, even after any key pickup there, holds no key. */
  predicate Blocked(s: Race, side: Side, d: Dir) {
    var t := Move(Of(s, side).pos, d);
    t in s.locks && t !in s.keys && Of(s, side).keys == 0
  }

  /** friends.py:234-306: one key press of the race. A blocked press changes
      nothing at all; any other press ends the game when a player is then on
      the treasure, naming red if red is there. */
  function HandlePress(g: Maze, s: Race, press: Press): (r: Race)
    ensures r.treasure == s.treasure
    ensures (press.RedKey? && Blocked(s, Red, press.d)) || (press.BlueKey? && Blocked(s, Blue, press.d)) ==> r == s
    ensures !((press.RedKey? && Blocked(s, Red, press.d)) || (press.BlueKey? && Blocked(s, Blue, press.d))) ==>
      && (r.red.pos == s.treasure ==> !r.running && r.winner == Some(Red))
      && (r.red.pos != s.treasure && r.blue.pos == s.treasure ==> !r.running && r.winner == Some(Blue))
      && (r.red.pos != s.treasure && r.blue.pos != s.treasure ==> r.running == s.running && r.winner == s.winner)
  {
    match press
    case RedKey(d) =>
      var t := Advance(g, s.red, d, s.keys, s.locks);
      var s' := s.(red := t.player, keys := t.keys, locks := t.locks);
      if t.blocked then s' else TreasureCheck(s')
    case BlueKey(d) =>
      var t := Advance(g, s.blue, d, s.keys, s.locks);
      var s' := s.(blue := t.player, keys := t.keys, locks := t.locks);
      if t.blocked then s' else TreasureCheck(s')
    case _ => TreasureCheck(s)
  }

  /** Keys on the board plus keys held, minus locks still standing: every key
      is on the board, held, or spent on exactly one lock. */
  function Tokens(s: Race): int {
    |s.keys| + s.red.keys + s.blue.keys - |s.locks|
  }

  /** One player's press moves a key from the board to the player, or from
      the player into a lock, or leaves both alone. */
  lemma AdvanceTokens(g: Maze, p: Player, d: Dir, keys: seq<Pos>, locks: seq<Pos>)
    ensures var r := Advance(g, p, d, keys, locks);
      |r.keys| + r.player.keys - |r.locks| == |keys| + p.keys - |locks|
  {
  }

  /** The treasure check leaves the players and the board alone. */
  lemma TreasureTokens(s: Race)
    ensures Tokens(TreasureCheck(s)) == Tokens(s)
  {
  }

  /** No press creates or destroys a key. */
  lemma {:induction false} TokensKept(g: Maze, s: Race, press: Press)
    ensures Tokens(HandlePress(g, s, press)) == Tokens(s)
  {
    match press
    case RedKey(d) =>
      var t := Advance(g, s.red, d, s.keys, s.locks);
      AdvanceTokens(g, s.red, d, s.keys, s.locks);
      var s' := s.(red := t.player, keys := t.keys, locks := t.locks);
      assert Tokens(s') == Tokens(s);
      TreasureTokens(s');
    case BlueKey(d) =>
      var t := Advance(g, s.blue, d, s.keys, s.locks);
      AdvanceTokens(g, s.blue, d, s.keys, s.locks);
      var s' := s.(blue := t.player, keys := t.keys, locks := t.locks);
      assert Tokens(s') == Tokens(s);
      TreasureTokens(s');
    case _ =>
  }

  /** The presses of a game, in order. */
  function Run(g: Maze, s: Race, presses: seq<Press>): (r: Race)
    decreases |presses|
  {
    if presses == [] then s else Run(g, HandlePress(g, s, presses[0]), presses[1..])
  }

  /** Over a whole game, keys on the board plus keys held plus locks opened
      equal the keys placed at the start. */
  lemma {:induction false} TokensKeptRun(g: Maze, s: Race, presses: seq<Press>)
    ensures var r := Run(g, s, presses);
      |r.keys| + r.red.keys + r.blue.keys + (|s.locks| - |r.locks|) == |s.keys| + s.red.keys + s.blue.keys
    decreases |presses|
  {
    if presses != [] {
      TokensKept(g, s, presses[0]);
      TokensKeptRun(g, HandlePress(g, s, presses[0]), presses[1..]);
    }
  }

  /** Keys and locks lie on distinct open cells. */
  predicate BoardOk(g: Maze, s: Race) {
    Distinct(s.keys + s.locks) && forall p :: p in s.keys + s.locks ==> IsOpen(g, p)
  }

  /** A press only ever takes keys and locks off the board. */
  lemma PressShrinks(g: Maze, s: Race, press: Press)
    ensures var r := HandlePress(g, s, press);
      multiset(r.keys) <= multiset(s.keys) && multiset(r.locks) <= multiset(s.locks)
  {
    match press
    case RedKey(d) =>
      var t := Advance(g, s.red, d, s.keys, s.locks);
      assert HandlePress(g, s, press).keys == t.keys && HandlePress(g, s, press).locks == t.locks;
    case BlueKey(d) =>
      var t := Advance(g, s.blue, d, s.keys, s.locks);
      assert HandlePress(g, s, press).keys == t.keys && HandlePress(g, s, press).locks == t.locks;
    case _ =>
  }

  /** Taking keys and locks off a well-formed board leaves it well formed. */
  lemma BoardSub(g: Maze, keys: seq<Pos>, locks: seq<Pos>, keys': seq<Pos>, locks': seq<Pos>)
    requires Distinct(keys + locks) && forall p :: p in keys + locks ==> IsOpen(g, p)
    requires multiset(keys') <= multiset(keys) && multiset(locks') <= multiset(locks)
    ensures Distinct(keys' + locks') && forall p :: p in keys' + locks' ==> IsOpen(g, p)
  {
    assert multiset(keys' + locks') <= multiset(keys + locks);
    DistinctSub(keys + locks, keys' + locks');
    forall p | p in keys' + locks'
      ensures IsOpen(g, p)
    {
      assert p in multiset(keys' + locks');
    }
  }

  /** Presses only take keys and locks off the board, so the board stays well formed. */
  lemma BoardKept(g: Maze, s: Race, press: Press)
    requires BoardOk(g, s)
    ensures BoardOk(g, HandlePress(g, s, press))
  {
    var r := HandlePress(g, s, press);
    PressShrinks(g, s, press);
    BoardSub(g, s.keys, s.locks, r.keys, r.locks);
  }

  /** The mover's position changes only to the in-bounds open cell it aimed
      at, and then that player's move count rises by exactly one; the other
      player is untouched. */
  lemma PressMovesOne(g: Maze, s: Race, side: Side, d: Dir)
    ensures var r := HandlePress(g, s, Pressed(side, d));
      var p, p' := Of(s, side), Of(r, side);
      && Of(r, if side == Red then Blue else Red) == Of(s, if side == Red then Blue else Red)
      && (p'.pos != p.pos ==> p'.pos == Move(p.pos, d) && IsOpen(g, p'.pos))
      && p'.moves == p.moves + (if p'.pos != p.pos then 1 else 0)
  {
  }

  /** Any press other than a move leaves both players, the keys and the locks alone. */
  lemma OtherPressStill(g: Maze, s: Race, press: Press)
    requires !press.RedKey? && !press.BlueKey?
    ensures var r := HandlePress(g, s, press);
      r.red == s.red && r.blue == s.blue && r.keys == s.keys && r.locks == s.locks
  {
  }

  /** A key on the target is taken off the board and added to the mover's keys. */
  lemma KeyPickedUp(g: Maze, s: Race, side: Side, d: Dir)
    requires Move(Of(s, side).pos, d) in s.keys && Move(Of(s, side).pos, d) !in s.locks
    ensures var r := HandlePress(g, s, Pressed(side, d));
      && Of(r, side).keys == Of(s, side).keys + 1
      && multiset(r.keys) == multiset(s.keys) - multiset{Move(Of(s, side).pos, d)}
      && r.locks == s.locks
  {
  }

  /** A lock faced with a key costs the mover one key and takes the lock off the board. */
  lemma LockOpened(g: Maze, s: Race, side: Side, d: Dir)
    requires Move(Of(s, side).pos, d) in s.locks && Move(Of(s, side).pos, d) !in s.keys && Of(s, side).keys > 0
    ensures var r := HandlePress(g, s, Pressed(side, d));
      && Of(r, side).keys == Of(s, side).keys - 1
      && multiset(r.locks) == multiset(s.locks) - multiset{Move(Of(s, side).pos, d)}
      && r.keys == s.keys
  {
  }

  /** The open cells of rows [x, |g|), row by row, leaving out the cells of excluded. */
  function Spaces(g: Maze, x: nat, excluded: set<Pos>): (r: seq<Pos>)
    ensures forall p :: p in r <==> IsOpen(g, p) && p.r >= x && p !in excluded
    ensures Distinct(r)
    decreases |g| - x
  {
    if x >= |g| then []
    else
      var row := RowSpaces(g, x, 0, excluded);
      var rest := Spaces(g, x + 1, excluded);
      DistinctAppend(row, rest);
      row + rest
  }

  /** The open cells of row x from column y on, leaving out the cells of excluded. */
  function RowSpaces(g: Maze, x: nat, y: nat, excluded: set<Pos>): (r: seq<Pos>)
    requires x < |g|
    ensures forall p :: p in r <==> IsOpen(g, p) && p.r == x && p.c >= y && p !in excluded
    ensures Distinct(r)
    decreases |g[x]| - y
  {
    if y >= |g[x]| then []
    else
      var rest := RowSpaces(g, x, y + 1, excluded);
      var p := Pos(x, y);
      if g[x][y] == 1 && p !in excluded then
        DistinctAppend([p], rest);
        [p] + rest
      else rest
  }

  /** friends.py place_locks_and_keys: shuffle the open cells other than the
      two start cells and the treasure, then take the first two as keys and
      the next two as locks. The shuffle is any permutation. */
  method PlaceLocksAndKeys(g: Maze, red: Pos, blue: Pos, treasure: Pos) returns (keys: seq<Pos>, locks: seq<Pos>)
    ensures |keys| <= 2 && |locks| <= 2
    ensures Distinct(keys + locks)
    ensures forall p :: p in keys + locks ==> IsOpen(g, p) && p != red && p != blue && p != treasure
    ensures var n := |Spaces(g, 0, {red, blue, treasure})|;
      |keys| == (if n < 2 then n else 2) && |locks| == (if n < 4 then n - |keys| else 2)
  {
    var spaces := Spaces(g, 0, {red, blue, treasure});
    var shuffled :| multiset(shuffled) == multiset(spaces);
    DistinctSub(spaces, shuffled);
    var k := if |shuffled| < 2 then |shuffled| else 2;
    var l := if |shuffled| < 4 then |shuffled| else 4;
    keys := shuffled[..k];
    locks := shuffled[k..l];
    assert keys + locks == shuffled[..l];
    DistinctPrefix(shuffled, l);
    forall p | p in keys + locks
      ensures IsOpen(g, p) && p != red && p != blue && p != treasure
    {
      assert p in multiset(shuffled);
    }
  }

  /** friends.py:161-174: a 21 x 21 carved maze, red at (1,1), blue at
      (1,19), the treasure at (19,19), then keys and locks placed on other
      open cells; nobody holds a key yet. */
  method NewRace() returns (g: Maze, s: Race)
    ensures Carve.Rect(g, 21, 21) && Carve.Binary(g)
    ensures s.red == Player(Pos(1, 1), 0, 0) && s.blue == Player(Pos(1, 19), 0, 0) && s.treasure == Pos(19, 19)
    ensures s.running && s.winner == None
    ensures BoardOk(g, s) && |s.keys| <= 2 && |s.locks| <= 2
    ensures forall p :: p in s.keys + s.locks ==> p != s.red.pos && p != s.blue.pos && p != s.treasure
  {
    g := Carve.GenerateMaze(21, 21);
    var red, blue, treasure := Pos(1, 1), Pos(1, 21 - 2), Pos(21 - 2, 21 - 2);
    var keys, locks := PlaceLocksAndKeys(g, red, blue, treasure);
    s := Race(Player(red, 0, 0), Player(blue, 0, 0), keys, locks, treasure, true, None);
  }

  /** A sequence whose elements, with multiplicity, come from a duplicate-free one has no duplicates. */
  lemma {:induction false} DistinctSub(a: seq<Pos>, b: seq<Pos>)
    requires Distinct(a) && multiset(b) <= multiset(a)
    ensures Distinct(b)
  {
    forall i, j | 0 <= i < j < |b|
      ensures b[i] != b[j]
    {
      if b[i] == b[j] {
        assert b == b[..i] + [b[i]] + b[i + 1..j] + [b[j]] + b[j + 1..];
        assert multiset(b)[b[i]] >= 2;
        MultiplicityOne(a, b[i]);
      }
    }
  }

  lemma {:induction false} MultiplicityOne(a: seq<Pos>, x: Pos)
    requires Distinct(a)
    ensures multiset(a)[x] <= 1
  {
    if a != [] {
      assert a == [a[0]] + a[1..];
      MultiplicityOne(a[1..], x);
      if a[0] == x {
        assert x !in a[1..];
      }
    }
  }

  lemma DistinctPrefix(s: seq<Pos>, n: nat)
    requires Distinct(s) && n <= |s|
    ensures Distinct(s[..n])
  {
  }

  /** friends.py:116-134: the avatar choices on the selection screen. */
  datatype Avatars = Avatars(red: int, blue: int)

  /** Four avatars per player. */
  const AvatarCount: int := 4

  /** The presses that cycle an avatar on the selection screen. */
  predicate Cycles(press: Press) {
    (press.RedKey? || press.BlueKey?) && (press.d == Left || press.d == Right)
  }

  /** One press on the selection screen: A/D cycle red's avatar, the left and
      right arrows cycle blue's, and space starts the game. The cycled index
      is taken modulo four, so it lands in range whatever it was. */
  function Select(a: Avatars, press: Press): (r: (Avatars, bool))
    ensures r.1 <==> press.SpaceKey?
    ensures Cycles(press) && press.RedKey? ==> 0 <= r.0.red < AvatarCount && r.0.blue == a.blue
    ensures Cycles(press) && press.BlueKey? ==> 0 <= r.0.blue < AvatarCount && r.0.red == a.red
    ensures !Cycles(press) ==> r.0 == a
    ensures press == RedKey(Right) ==> r.0.red == (a.red + 1) % AvatarCount
    ensures press == RedKey(Left) ==> r.0.red == (a.red - 1) % AvatarCount
    ensures press == BlueKey(Right) ==> r.0.blue == (a.blue + 1) % AvatarCount
    ensures press == BlueKey(Left) ==> r.0.blue == (a.blue - 1) % AvatarCount
  {
    match press
    case RedKey(Left) => (a.(red := (a.red - 1) % AvatarCount), false)
    case RedKey(Right) => (a.(red := (a.red + 1) % AvatarCount), false)
    case BlueKey(Left) => (a.(blue := (a.blue - 1) % AvatarCount), false)
    case BlueKey(Right) => (a.(blue := (a.blue + 1) % AvatarCount), false)
    case SpaceKey => (a, true)
    case _ => (a, false)
  }

  /** Starting from avatar 0, both indices stay in [0, 4) whatever is pressed. */
  lemma SelectInRange(a: Avatars, press: Press)
    requires 0 <= a.red < AvatarCount && 0 <= a.blue < AvatarCount
    ensures var r := Select(a, press).0;
      0 <= r.red < AvatarCount && 0 <= r.blue < AvatarCount
  {
  }

  /** Modulo four, a step back undoes a step forward and four steps go round. */
  lemma CycleMod(x: int)
    requires 0 <= x < AvatarCount
    ensures ((x - 1) % AvatarCount + 1) % AvatarCount == x
    ensures ((x + 1) % AvatarCount - 1) % AvatarCount == x
    ensures ((((x + 1) % AvatarCount + 1) % AvatarCount + 1) % AvatarCount + 1) % AvatarCount == x
  {
    if x == 0 {
    } else if x == 1 {
    } else if x == 2 {
    } else {
      assert x == 3;
    }
  }

  /** Red's avatar: a step one way undone by a step back, and four steps right go round. */
  lemma RedUndo(a: Avatars)
    requires 0 <= a.red < AvatarCount
    ensures Select(Select(a, RedKey(Left)).0, RedKey(Right)).0 == a
    ensures Select(Select(a, RedKey(Right)).0, RedKey(Left)).0 == a
    ensures Select(Select(Select(Select(a, RedKey(Right)).0, RedKey(Right)).0, RedKey(Right)).0, RedKey(Right)).0 == a
  {
    CycleMod(a.red);
    var r1 := Select(a, RedKey(Right)).0;
    var r2 := Select(r1, RedKey(Right)).0;
    var r3 := Select(r2, RedKey(Right)).0;
    assert r3 == a.(red := (((a.red + 1) % AvatarCount + 1) % AvatarCount + 1) % AvatarCount);
  }

  /** Blue's avatar: a step one way undone by a step back, and four steps right go round. */
  lemma BlueUndo(a: Avatars)
    requires 0 <= a.blue < AvatarCount
    ensures Select(Select(a, BlueKey(Left)).0, BlueKey(Right)).0 == a
    ensures Select(Select(a, BlueKey(Right)).0, BlueKey(Left)).0 == a
    ensures Select(Select(Select(Select(a, BlueKey(Right)).0, BlueKey(Right)).0, BlueKey(Right)).0, BlueKey(Right)).0 == a
  {
    CycleMod(a.blue);
    var b1 := Select(a, BlueKey(Right)).0;
    var b2 := Select(b1, BlueKey(Right)).0;
    var b3 := Select(b2, BlueKey(Right)).0;
    assert b3 == a.(blue := (((a.blue + 1) % AvatarCount + 1) % AvatarCount + 1) % AvatarCount);
  }

  /** Cycling one way and then back returns to the same avatar, and four presses go full circle. */
  lemma SelectUndo(a: Avatars)
    requires 0 <= a.red < AvatarCount && 0 <= a.blue < AvatarCount
    ensures Select(Select(a, RedKey(Left)).0, RedKey(Right)).0 == a
    ensures Select(Select(a, RedKey(Right)).0, RedKey(Left)).0 == a
    ensures Select(Select(a, BlueKey(Left)).0, BlueKey(Right)).0 == a
    ensures Select(Select(a, BlueKey(Right)).0, BlueKey(Left)).0 == a
    ensures Select(Select(Select(Select(a, RedKey(Right)).0, RedKey(Right)).0, RedKey(Right)).0, RedKey(Right)).0 == a
    ensures Select(Select(Select(Select(a, BlueKey(Right)).0, BlueKey(Right)).0, BlueKey(Right)).0, BlueKey(Right)).0 == a
  {
    RedUndo(a);
    BlueUndo(a);
  }
}
