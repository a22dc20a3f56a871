/**
 Terminal-state detection: whether any move is still possible. The source's
 canMove answers yes when a cell is empty or two orthogonally adjacent cells
 hold the same value; this module proves that this test agrees with actually
 trying the four moves, on every board that holds a tile.
 */
module Terminal {
  import opened Lines
  import opened Boards

  /** Cell (i, j) equals its right or its lower neighbour. */
  predicate MatchesNeighbour(b: seq<seq<nat>>, i: nat, j: nat)
    requires IsBoard(b) && i < Size && j < Size
  {
    (j < Size - 1 && b[i][j] == b[i][j + 1]) || (i < Size - 1 && b[i][j] == b[i + 1][j])
  }

  /** Two horizontally or vertically adjacent cells hold the same value. */
  predicate HasEqualAdjacent(b: seq<seq<nat>>)
    requires IsBoard(b)
  {
    exists i: nat, j: nat :: i < Size && j < Size && MatchesNeighbour(b, i, j)
  }

  /** The source's canMove: an empty cell, or a pair of equal neighbours. */
  predicate CanMove(b: seq<seq<nat>>)
    requires IsBoard(b)
  {
    HasEmpty(b) || HasEqualAdjacent(b)
  }

  /**
   The source's two scans: first for an empty cell, then row by row for a
   cell equal to its right or lower neighbour, answering as soon as one is
   found.
   */
  method CanMoveScan(b: seq<seq<nat>>) returns (r: bool)
    requires IsBoard(b)
    ensures r == CanMove(b)
  {
    for i := 0 to Size
      invariant forall i', j :: 0 <= i' < i && 0 <= j < Size ==> b[i'][j] != 0
    {
      for j := 0 to Size
        invariant forall j' :: 0 <= j' < j ==> b[i][j'] != 0
      {
        if b[i][j] == 0 {
          return true;
        }
      }
    }
    for i := 0 to Size
      invariant forall i': nat, j: nat :: i' < i && j < Size ==> !MatchesNeighbour(b, i', j)
    {
      for j := 0 to Size
        invariant forall j': nat :: j' < j ==> !MatchesNeighbour(b, i, j')
      {
        var current := b[i][j];
        if (j < Size - 1 && current == b[i][j + 1]) || (i < Size - 1 && current == b[i + 1][j]) {
          assert MatchesNeighbour(b, i, j);
          return true;
        }
      }
    }
    return false;
  }

  /** A changed line means a changed board. */
  lemma LineChangeMoves(b: seq<seq<nat>>, d: Direction, k: nat)
    requires IsBoard(b) && k < Size
    requires SlideLine(Line(b, d, k), d).line != Line(b, d, k)
    ensures Move(b, d).moved
  {
    MoveActsOnLines(b, d);
    MoveUnfold(b, d);
  }

  /**
   A stuck board (full, no equal neighbours) is left exactly as it is by
   every move, which earns nothing.
   */
  lemma StuckBoardStaysPut(b: seq<seq<nat>>, d: Direction)
    requires IsBoard(b) && !CanMove(b)
    ensures Move(b, d) == MoveResult(b, 0, false)
  {
    var r := Move(b, d);
    MoveActsOnLines(b, d);
    forall k | 0 <= k < Size
      ensures Line(r.board, d, k) == Line(b, d, k)
    {
      StuckLineStays(b, d, k);
    }
    LinesDetermineBoard(r.board, b, d);
    UnmovedEarnsNothing(b, d);
  }

  /** Every line of a stuck board is full and has no equal neighbours, so no slide changes it. */
  lemma StuckLineStays(b: seq<seq<nat>>, d: Direction, k: nat)
    requires IsBoard(b) && !CanMove(b) && k < Size
    ensures SlideLine(Line(b, d, k), d) == Slide(Line(b, d, k), 0)
  {
    var s := Line(b, d, k);
    forall m | 0 <= m < Size
      ensures s[m] != 0
    {
      if Horizontal(d) {
        assert s[m] == b[k][m];
      } else {
        assert s[m] == b[m][k];
      }
    }
    forall m | 0 <= m < Size - 1
      ensures s[m] != s[m + 1]
    {
      if Horizontal(d) {
        assert !MatchesNeighbour(b, k, m);
      } else {
        assert !MatchesNeighbour(b, m, k);
      }
    }
    SlideLineSettled(s, d);
  }

  /** A line holding both an empty cell and a tile changes when moved one way or the other. */
  lemma MixedLineMoves(s: seq<nat>, z: nat, n: nat)
    requires |s| == Size && z < Size && n < Size && s[z] == 0 && s[n] != 0
    ensures SlideLine(s, Left).line != s || SlideLine(s, Right).line != s
  {
    if SlideLine(s, Left).line == s {
      SlideAndMergeShape(s);
      assert s[Size - 1] == 0 by {
        if z < Size - 1 {
          assert Packed(s);
        }
      }
      var r := Reverse(s);
      assert r[Size - 1 - n] != 0;
      OccupiedFacts(r);
      SlideLeadsWithTile(r);
      assert SlideLine(s, Right).line[Size - 1] != 0;
    }
  }

  /**
   On a board with a tile, an empty cell puts some row or column in the mixed
   case; the witness is a direction toward the line's start and the line's index.
   */
  lemma MixedLineExists(b: seq<seq<nat>>) returns (d: Direction, k: nat, z: nat, n: nat)
    requires IsBoard(b) && HasEmpty(b) && HasTile(b)
    ensures TowardStart(d) && k < Size && z < Size && n < Size
    ensures Line(b, d, k)[z] == 0 && Line(b, d, k)[n] != 0
  {
    var i: nat, j: nat :| i < Size && j < Size && b[i][j] == 0;
    var i': nat, j': nat :| i' < Size && j' < Size && b[i'][j'] != 0;
    if b[i][j'] != 0 {
      d, k, z, n := Left, i, j, j';
    } else {
      d, k, z, n := Up, j', i, i';
    }
  }

  /**
   Equal neighbouring tiles in a line force a merge, so sliding toward the
   line's start changes it.
   */
  lemma EqualTilesMove(s: seq<nat>, m: nat, d: Direction)
    requires |s| == Size && m + 1 < Size && s[m] != 0 && s[m] == s[m + 1] && TowardStart(d)
    ensures SlideLine(s, d).line != s
  {
    CompressKeepsEqualNeighbours(s, m);
    SlideWithoutMerge(s);
    SlideGainMeansFewerTiles(s);
  }

  /**
   The detector agrees with the engine: on a board holding at least one tile,
   canMove holds exactly when some direction changes the board.
   */
  lemma CanMoveIffSomeDirectionMoves(b: seq<seq<nat>>)
    requires IsBoard(b) && HasTile(b)
    ensures CanMove(b) <==> exists d :: Move(b, d).moved
  {
    if !CanMove(b) {
      forall d
        ensures !Move(b, d).moved
      {
        StuckBoardStaysPut(b, d);
      }
    } else if HasEmpty(b) {
      var d, k, z, n := MixedLineExists(b);
      var s := Line(b, d, k);
      MixedLineMoves(s, z, n);
      var opposite := Opposite(d);
      if SlideLine(s, Left).line != s {
        assert SlideLine(s, d) == SlideLine(s, Left);
        LineChangeMoves(b, d, k);
      } else {
        assert SlideLine(s, opposite) == SlideLine(s, Right);
        assert Line(b, opposite, k) == s;
        LineChangeMoves(b, opposite, k);
      }
    } else {
      var i: nat, j: nat :| i < Size && j < Size && MatchesNeighbour(b, i, j);
      if j < Size - 1 && b[i][j] == b[i][j + 1] {
        EqualTilesMove(b[i], j, Left);
        LineChangeMoves(b, Left, i);
      } else {
        var c := Column(b, j);
        EqualTilesMove(c, i, Up);
        LineChangeMoves(b, Up, j);
      }
    }
  }

  /** The board with no tile at all. */
  function EmptyBoard(): (e: seq<seq<nat>>)
    ensures IsBoard(e) && forall i, j :: 0 <= i < Size && 0 <= j < Size ==> e[i][j] == 0
  {
    var z := [0, 0, 0, 0];
    [z, z, z, z]
  }

  /** Every move leaves the empty board as it is. */
  lemma EmptyBoardStaysPut(d: Direction)
    ensures !Move(EmptyBoard(), d).moved
  {
    var e := EmptyBoard();
    forall k | 0 <= k < Size
      ensures SlideLine(Line(e, d, k), d).line == Line(e, d, k)
    {
      assert Line(e, d, k) == [0, 0, 0, 0];
      EmptyLineStays(d);
    }
    MoveActsOnLines(e, d);
    LinesDetermineBoard(Move(e, d).board, e, d);
    MoveUnfold(e, d);
  }

  /** An empty line stays empty whichever way it slides. */
  lemma EmptyLineStays(d: Direction)
    ensures SlideLine([0, 0, 0, 0], d) == Slide([0, 0, 0, 0], 0)
  {
    var z := [0, 0, 0, 0];
    assert SlideAndMerge(z) == Slide(z, 0) by {
      CompressZeros(4);
      assert z == Zeros(4);
      assert Pad([]) == z;
    }
    if !TowardStart(d) {
      assert Reverse(z) == z;
      SlideLineReversed(z, d);
    }
  }

  /**
   The one board the equivalence leaves out: with no tile, canMove holds (every
   cell is empty) yet no direction changes anything.
   */
  lemma EmptyBoardCanMoveButNothingMoves()
    ensures CanMove(EmptyBoard()) && forall d :: !Move(EmptyBoard(), d).moved
  {
    assert EmptyBoard()[0][0] == 0;
    forall d
      ensures !Move(EmptyBoard(), d).moved
    {
      EmptyBoardStaysPut(d);
    }
  }

  /** A full board of alternating 2s and 4s has no move left: the game is over. */
  lemma CheckerboardIsStuck()
    ensures var b := [[2, 4, 2, 4], [4, 2, 4, 2], [2, 4, 2, 4], [4, 2, 4, 2]];
      && IsBoard(b) && !CanMove(b) && forall d :: !Move(b, d).moved
  {
    var b := [[2, 4, 2, 4], [4, 2, 4, 2], [2, 4, 2, 4], [4, 2, 4, 2]];
    assert forall i: nat, j: nat :: i < Size && j < Size ==> b[i][j] == if (i + j) % 2 == 0 then 2 else 4;
    forall d
      ensures !Move(b, d).moved
    {
      StuckBoardStaysPut(b, d);
    }
  }
}
