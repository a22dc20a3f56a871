/**
 One game session: a fresh game with two spawned tiles, key presses that move
 the board, spawn a tile and then look for a win or a loss, and the best
 score carried from game to game. Every random choice is a caller-supplied
 draw, so the whole session is a pure function of its inputs.
 */
module Session {
  import opened Lines
  import opened Boards
  import opened Terminal
  import opened Spawn

  /** The tile value that wins the game. */
  const Target: nat := 2048

  /** The board, the running score, the best score, and the two end flags. */
  datatype Game = Game(board: seq<seq<nat>>, score: nat, best: nat, won: bool, over: bool)

  datatype Option<T> = None | Some(value: T)

  /** One key press together with the two draws a spawn after it would use. */
  datatype Input = Input(key: string, cellDraw: Draw, valueDraw: Draw)

  predicate ValidInput(x: Input)
  {
    x.cellDraw.Valid() && x.valueDraw.Valid()
  }

  /**
   The invariant of a game in progress or finished: a 4x4 board of tiles
   with at least one tile, a win only with a 2048 tile on the board, game
   over only on a board where no move is possible, never both, and a move
   still possible while the game is in play.
   */
  predicate Valid(g: Game)
  {
    && IsBoard(g.board)
    && AllBoardTiles(g.board)
    && HasTile(g.board)
    && (g.won ==> HasValue(g.board, Target))
    && (g.over ==> !CanMove(g.board))
    && !(g.won && g.over)
    && (!g.won && !g.over ==> CanMove(g.board))
  }

  /** The source's init: an empty board, two spawns, score zero, both flags down; the best score is kept. */
  function Init(best: nat, cell1: Draw, value1: Draw, cell2: Draw, value2: Draw): (g: Game)
    requires cell1.Valid() && value1.Valid() && cell2.Valid() && value2.Valid()
    ensures IsBoard(g.board) && g.score == 0 && g.best == best && !g.won && !g.over
  {
    var once := AddNewTile(EmptyBoard(), cell1, value1);
    Game(AddNewTile(once, cell2, value2), 0, best, false, false)
  }

  /**
   The source's checkGameState: a 2048 tile wins (once); otherwise, when no
   move is left, the game is over and a strictly higher score becomes the
   best score.
   */
  function CheckGameState(g: Game): (r: Game)
    requires IsBoard(g.board)
    ensures r.board == g.board && r.score == g.score
  {
    if HasValue(g.board, Target) && !g.won then g.(won := true)
    else if !CanMove(g.board) then
      g.(over := true, best := if g.score > g.best then g.score else g.best)
    else g
  }

  /**
   The source's checkGameState as written: a row-by-row scan for a 2048 tile
   that returns at the first one, then the canMove scans.
   */
  method CheckGameStateScan(g: Game) returns (r: Game)
    requires IsBoard(g.board)
    ensures r == CheckGameState(g)
  {
    for i := 0 to Size
      invariant forall i', j :: 0 <= i' < i && 0 <= j < Size ==> !(g.board[i'][j] == Target && !g.won)
    {
      for j := 0 to Size
        invariant forall j' :: 0 <= j' < j ==> !(g.board[i][j'] == Target && !g.won)
      {
        if g.board[i][j] == Target && !g.won {
          return g.(won := true);
        }
      }
    }
    var movable := CanMoveScan(g.board);
    if !movable {
      var best := g.best;
      if g.score > g.best {
        best := g.score;
      }
      return g.(over := true, best := best);
    }
    return g;
  }

  /** The source's handling of one arrow key: ignored once the game has ended; a spawn and a state check only after a real move. */
  function Press(g: Game, d: Direction, cellDraw: Draw, valueDraw: Draw): (r: Game)
    requires IsBoard(g.board) && cellDraw.Valid() && valueDraw.Valid()
    ensures IsBoard(r.board) && r.score >= g.score
  {
    if g.over || g.won then g
    else
      var m := Move(g.board, d);
      if m.moved then CheckGameState(Spawned(g, d, cellDraw, valueDraw))
      else g.(board := m.board, score := g.score + m.gain)
  }

  /** ASCII upper case to lower case; every other character is kept. */
  function LowerChar(c: char): (l: char)
  {
    if 'A' <= c <= 'Z' then (c as int + 32) as char else c
  }

  function Lower(s: string): (l: string)
    ensures |l| == |s| && forall k :: 0 <= k < |s| ==> l[k] == LowerChar(s[k])
  {
    seq(|s|, k requires 0 <= k < |s| => LowerChar(s[k]))
  }

  /** The source's arrowMap, looked up with the lower-cased key name. */
  function KeyDirection(key: string): Option<Direction>
  {
    var k := Lower(key);
    if k == "arrowup" || k == "w" then Some(Up)
    else if k == "arrowdown" || k == "s" then Some(Down)
    else if k == "arrowleft" || k == "a" then Some(Left)
    else if k == "arrowright" || k == "d" then Some(Right)
    else None
  }

  /** The source's handleKeyPress: keys outside the map change nothing. */
  function HandleKey(g: Game, x: Input): (r: Game)
    requires IsBoard(g.board) && ValidInput(x)
    ensures IsBoard(r.board)
  {
    match KeyDirection(x.key)
    case None => g
    case Some(d) => Press(g, d, x.cellDraw, x.valueDraw)
  }

  /** A session: the key presses applied one after another. */
  function Play(g: Game, xs: seq<Input>): (r: Game)
    requires IsBoard(g.board) && forall k :: 0 <= k < |xs| ==> ValidInput(xs[k])
    ensures IsBoard(r.board)
    decreases |xs|
  {
    if |xs| == 0 then g
    else
      var next := HandleKey(g, xs[0]);
      assert forall k :: 0 <= k < |xs[1..]| ==> ValidInput(xs[1..][k]) by {
        forall k | 0 <= k < |xs[1..]| ensures ValidInput(xs[1..][k]) {
          assert xs[1..][k] == xs[k + 1];
        }
      }
      Play(next, xs[1..])
  }

  // ---------------------------------------------------------------------
  // A fresh game
  // ---------------------------------------------------------------------

  lemma EmptyBoardFacts()
    ensures AllBoardTiles(EmptyBoard()) && BoardOccupied(EmptyBoard()) == 0
  {
    var z := [0, 0, 0, 0];
    assert EmptyBoard() == [z, z, z, z];
    assert Occupied(z) == 0 by {
      assert z[1..] == [0, 0, 0];
      assert z[2..] == [0, 0];
      assert z[3..] == [0];
    }
  }

  /** The facts about one spawn on a board with room, with the cell it filled. */
  lemma SpawnStep(b: seq<seq<nat>>, cellDraw: Draw, valueDraw: Draw) returns (i: nat, j: nat)
    requires IsBoard(b) && cellDraw.Valid() && valueDraw.Valid() && HasEmpty(b) && AllBoardTiles(b)
    ensures var r := AddNewTile(b, cellDraw, valueDraw);
      && i < Size && j < Size && SpawnedAt(b, r, i, j, SpawnValue(valueDraw))
      && (SpawnValue(valueDraw) == 2 || SpawnValue(valueDraw) == 4)
      && AllBoardTiles(r) && BoardOccupied(r) == BoardOccupied(b) + 1
  {
    var r := AddNewTile(b, cellDraw, valueDraw);
    AddNewTileFillsOneEmptyCell(b, cellDraw, valueDraw);
    AddNewTileKeepsTiles(b, cellDraw, valueDraw);
    i, j :| i < Size && j < Size && SpawnedAt(b, r, i, j, SpawnValue(valueDraw));
  }

  /** A board with exactly one tile still has an empty cell. */
  lemma OneSpawnLeavesRoom(b: seq<seq<nat>>, r: seq<seq<nat>>, i: nat, j: nat, v: nat)
    requires IsBoard(b) && IsBoard(r) && i < Size && j < Size && SpawnedAt(b, r, i, j, v)
    requires forall i', j' :: 0 <= i' < Size && 0 <= j' < Size ==> b[i'][j'] == 0
    ensures HasEmpty(r)
  {
    var j' := if j == 0 then 1 else 0;
    assert r[i][j'] == 0;
  }

  /** Every cell is empty, a 2 or a 4: the values a spawn can produce. */
  predicate SpawnValuesOnly(b: seq<seq<nat>>)
    requires IsBoard(b)
  {
    forall i, j :: 0 <= i < Size && 0 <= j < Size ==> b[i][j] == 0 || b[i][j] == 2 || b[i][j] == 4
  }

  /** A spawn onto a board of 2s and 4s leaves a board of 2s and 4s, with one more tile. */
  lemma SpawnKeepsSpawnValues(b: seq<seq<nat>>, cellDraw: Draw, valueDraw: Draw)
    requires IsBoard(b) && cellDraw.Valid() && valueDraw.Valid() && HasEmpty(b) && AllBoardTiles(b)
    requires SpawnValuesOnly(b)
    ensures var r := AddNewTile(b, cellDraw, valueDraw);
      SpawnValuesOnly(r) && AllBoardTiles(r) && HasTile(r) && BoardOccupied(r) == BoardOccupied(b) + 1
  {
    var i, j := SpawnStep(b, cellDraw, valueDraw);
    assert AddNewTile(b, cellDraw, valueDraw)[i][j] != 0;
  }

  /** The first spawn of a game leaves one tile and room for the second. */
  lemma FirstSpawn(cellDraw: Draw, valueDraw: Draw)
    requires cellDraw.Valid() && valueDraw.Valid()
    ensures var once := AddNewTile(EmptyBoard(), cellDraw, valueDraw);
      && SpawnValuesOnly(once) && AllBoardTiles(once) && HasEmpty(once) && BoardOccupied(once) == 1
  {
    var e := EmptyBoard();
    EmptyBoardFacts();
    var i, j := SpawnStep(e, cellDraw, valueDraw);
    OneSpawnLeavesRoom(e, AddNewTile(e, cellDraw, valueDraw), i, j, SpawnValue(valueDraw));
  }

  /**
   A new game is valid and holds exactly two tiles, each a 2 or a 4, with
   score zero, both flags down and the best score carried over.
   */
  lemma InitValid(best: nat, cell1: Draw, value1: Draw, cell2: Draw, value2: Draw)
    requires cell1.Valid() && value1.Valid() && cell2.Valid() && value2.Valid()
    ensures var g := Init(best, cell1, value1, cell2, value2);
      Valid(g) && BoardOccupied(g.board) == 2 && SpawnValuesOnly(g.board)
  {
    FirstSpawn(cell1, value1);
    SpawnKeepsSpawnValues(AddNewTile(EmptyBoard(), cell1, value1), cell2, value2);
  }

  // ---------------------------------------------------------------------
  // One key press
  // ---------------------------------------------------------------------

  /** Once the game is won or over, a key press changes nothing at all. */
  lemma FinishedIgnoresInput(g: Game, x: Input)
    requires IsBoard(g.board) && ValidInput(x) && (g.won || g.over)
    ensures HandleKey(g, x) == g
  {
  }

  /** A key outside the arrow and WASD keys changes nothing. */
  lemma UnmappedKeyIgnored(g: Game, x: Input)
    requires IsBoard(g.board) && ValidInput(x) && KeyDirection(x.key) == None
    ensures HandleKey(g, x) == g
  {
  }

  /** A press that does not move the board spawns nothing, scores nothing and checks nothing. */
  lemma UnmovedPressChangesNothing(g: Game, d: Direction, cellDraw: Draw, valueDraw: Draw)
    requires IsBoard(g.board) && cellDraw.Valid() && valueDraw.Valid() && !Move(g.board, d).moved
    ensures Press(g, d, cellDraw, valueDraw) == g
  {
    UnmovedEarnsNothing(g.board, d);
  }

  /**
   A press that moves the board adds the merge points to the score and then
   puts exactly one new 2 or 4 into an empty cell of the moved board.
   */
  lemma MovedPressSpawnsOne(g: Game, d: Direction, cellDraw: Draw, valueDraw: Draw)
    requires IsBoard(g.board) && cellDraw.Valid() && valueDraw.Valid()
    requires !g.won && !g.over && Move(g.board, d).moved
    ensures var m := Move(g.board, d);
      var r := Press(g, d, cellDraw, valueDraw);
      && r.score == g.score + m.gain
      && BoardOccupied(r.board) == BoardOccupied(m.board) + 1
      && exists i: nat, j: nat :: i < Size && j < Size && SpawnedAt(m.board, r.board, i, j, SpawnValue(valueDraw))
  {
    var m := Move(g.board, d);
    MovedLeavesRoom(g.board, d);
    AddNewTileFillsOneEmptyCell(m.board, cellDraw, valueDraw);
  }

  /**
   A win is checked before a loss: a board that just reached 2048 is won and
   not over, even when no move is left, and the best score is not touched.
   */
  lemma WinBeforeLoss(g: Game)
    requires IsBoard(g.board) && HasValue(g.board, Target) && !g.won && !g.over
    ensures var r := CheckGameState(g);
      r.won && !r.over && r.best == g.best
  {
  }

  /**
   The game ends exactly when no move is possible and no fresh win applies,
   and then the best score becomes the larger of the old best and the final
   score; otherwise the best score is left alone.
   */
  lemma OverExactlyWhenStuck(g: Game)
    requires IsBoard(g.board) && !g.over
    ensures var r := CheckGameState(g);
      && (r.over <==> !CanMove(g.board) && (g.won || !HasValue(g.board, Target)))
      && (r.over ==> r.best == if g.score > g.best then g.score else g.best)
      && (!r.over ==> r.best == g.best)
  {
  }

  /** The state check turns a running game with a tiled board into a valid game. */
  lemma CheckKeepsValid(g: Game)
    requires IsBoard(g.board) && AllBoardTiles(g.board) && HasTile(g.board) && !g.won && !g.over
    ensures Valid(CheckGameState(g))
  {
  }

  /** The game a moving press leaves: merge points scored and a tile spawned, before the state check. */
  function Spawned(g: Game, d: Direction, cellDraw: Draw, valueDraw: Draw): (r: Game)
    requires IsBoard(g.board) && cellDraw.Valid() && valueDraw.Valid()
  {
    var m := Move(g.board, d);
    g.(board := AddNewTile(m.board, cellDraw, valueDraw), score := g.score + m.gain)
  }

  lemma SpawnedKeepsTiles(g: Game, d: Direction, cellDraw: Draw, valueDraw: Draw)
    requires Valid(g) && cellDraw.Valid() && valueDraw.Valid() && Move(g.board, d).moved
    ensures var s := Spawned(g, d, cellDraw, valueDraw);
      IsBoard(s.board) && AllBoardTiles(s.board) && HasTile(s.board)
  {
    var m := Move(g.board, d);
    MoveKeepsTiles(g.board, d);
    MovedLeavesRoom(g.board, d);
    var i, j := SpawnStep(m.board, cellDraw, valueDraw);
    assert AddNewTile(m.board, cellDraw, valueDraw)[i][j] != 0;
  }

  /** A valid game stays valid through any key press. */
  lemma PressKeepsValid(g: Game, d: Direction, cellDraw: Draw, valueDraw: Draw)
    requires Valid(g) && cellDraw.Valid() && valueDraw.Valid()
    ensures Valid(Press(g, d, cellDraw, valueDraw))
  {
    if !g.over && !g.won {
      if Move(g.board, d).moved {
        var s := Spawned(g, d, cellDraw, valueDraw);
        SpawnedKeepsTiles(g, d, cellDraw, valueDraw);
        CheckKeepsValid(s);
      } else {
        UnmovedPressChangesNothing(g, d, cellDraw, valueDraw);
      }
    }
  }

  lemma HandleKeyKeepsValid(g: Game, x: Input)
    requires Valid(g) && ValidInput(x)
    ensures Valid(HandleKey(g, x))
  {
    match KeyDirection(x.key)
    case None =>
    case Some(d) => PressKeepsValid(g, d, x.cellDraw, x.valueDraw);
  }

  /** On every board a valid game can hold, canMove agrees with trying the four moves. */
  lemma CanMoveMatchesMoves(g: Game)
    requires Valid(g)
    ensures CanMove(g.board) <==> exists d :: Move(g.board, d).moved
  {
    CanMoveIffSomeDirectionMoves(g.board);
  }

  /** A valid game still in play always offers a move: some direction changes its board. */
  lemma InPlayHasMove(g: Game)
    requires Valid(g) && !g.won && !g.over
    ensures exists d :: Move(g.board, d).moved
  {
    CanMoveIffSomeDirectionMoves(g.board);
  }

  /** A finished game offers no move: every direction leaves its board as it is. */
  lemma OverMeansNoMove(g: Game)
    requires Valid(g) && g.over
    ensures forall d :: !Move(g.board, d).moved
  {
    CanMoveIffSomeDirectionMoves(g.board);
  }

  /**
   The best score never falls, and it changes only when the game has just
   ended with a score strictly above the old best, which it then equals.
   */
  lemma BestScoreRule(g: Game, x: Input)
    requires IsBoard(g.board) && ValidInput(x)
    ensures var r := HandleKey(g, x);
      && r.best >= g.best
      && (r.best != g.best ==> !g.over && r.over && r.score > g.best && r.best == r.score)
  {
  }

  // ---------------------------------------------------------------------
  // A whole session
  // ---------------------------------------------------------------------

  /** Every game reached by a session from a valid game is valid. */
  lemma {:induction false} PlayKeepsValid(g: Game, xs: seq<Input>)
    requires Valid(g) && forall k :: 0 <= k < |xs| ==> ValidInput(xs[k])
    ensures Valid(Play(g, xs))
    decreases |xs|
  {
    if |xs| > 0 {
      HandleKeyKeepsValid(g, xs[0]);
      PlayKeepsValid(HandleKey(g, xs[0]), xs[1..]);
    }
  }

  /** After a win or a loss no further input has any effect, so the win fires only once. */
  lemma {:induction false} FinishedGameIsFinal(g: Game, xs: seq<Input>)
    requires IsBoard(g.board) && (g.won || g.over) && forall k :: 0 <= k < |xs| ==> ValidInput(xs[k])
    ensures Play(g, xs) == g
    decreases |xs|
  {
    if |xs| > 0 {
      FinishedIgnoresInput(g, xs[0]);
      FinishedGameIsFinal(g, xs[1..]);
    }
  }

  /** Over a session the score and the best score never fall. */
  lemma {:induction false} PlayNeverLowersScores(g: Game, xs: seq<Input>)
    requires IsBoard(g.board) && forall k :: 0 <= k < |xs| ==> ValidInput(xs[k])
    ensures Play(g, xs).score >= g.score && Play(g, xs).best >= g.best
    decreases |xs|
  {
    if |xs| > 0 {
      BestScoreRule(g, xs[0]);
      PlayNeverLowersScores(HandleKey(g, xs[0]), xs[1..]);
    }
  }

  // ---------------------------------------------------------------------
  // Keys
  // ---------------------------------------------------------------------

  lemma LowerTwice(s: string)
    ensures Lower(Lower(s)) == Lower(s)
  {
  }

  /** Key names are matched without regard to ASCII case. */
  lemma KeyDirectionIgnoresCase(key: string)
    ensures KeyDirection(Lower(key)) == KeyDirection(key)
  {
    LowerTwice(key);
  }

  /** The browser's key names map as the arrow keys and WASD suggest. */
  lemma KeyNames()
    ensures KeyDirection("ArrowUp") == Some(Up) && KeyDirection("W") == Some(Up)
    ensures KeyDirection("ArrowDown") == Some(Down) && KeyDirection("s") == Some(Down)
    ensures KeyDirection("ArrowLeft") == Some(Left) && KeyDirection("A") == Some(Left)
    ensures KeyDirection("ArrowRight") == Some(Right) && KeyDirection("d") == Some(Right)
    ensures KeyDirection("Enter") == None
  {
    assert Lower("ArrowUp") == "arrowup";
    assert Lower("W") == "w";
    assert Lower("ArrowDown") == "arrowdown";
    assert Lower("s") == "s";
    assert Lower("ArrowLeft") == "arrowleft";
    assert Lower("A") == "a";
    assert Lower("ArrowRight") == "arrowright";
    assert Lower("d") == "d";
    assert Lower("Enter") == "enter";
  }
}
