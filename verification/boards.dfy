/**
 The 4x4 board and a move in one of the four directions. Left and right slide
 every row, up and down every column; right and down reverse the line, slide
 it toward its start and reverse it back, so one slide-and-merge rule serves
 all four directions.
 */
module Boards {
  import opened Lines

  datatype Direction = Up | Down | Left | Right

  /** The new board, the points its merges earned, and whether any cell changed. */
  datatype MoveResult = MoveResult(board: seq<seq<nat>>, gain: nat, moved: bool)

  /** A board is four rows of four cells; cell (i, j) is row i, column j. */
  predicate IsBoard(b: seq<seq<nat>>)
  {
    |b| == Size && forall i :: 0 <= i < Size ==> |b[i]| == Size
  }

  /** Some cell is empty. */
  predicate HasEmpty(b: seq<seq<nat>>)
    requires IsBoard(b)
  {
    exists i, j :: 0 <= i < Size && 0 <= j < Size && b[i][j] == 0
  }

  /** Some cell holds the value v. */
  predicate HasValue(b: seq<seq<nat>>, v: nat)
    requires IsBoard(b)
  {
    exists i, j :: 0 <= i < Size && 0 <= j < Size && b[i][j] == v
  }

  /** Some cell holds a tile. */
  predicate HasTile(b: seq<seq<nat>>)
    requires IsBoard(b)
  {
    exists i, j :: 0 <= i < Size && 0 <= j < Size && b[i][j] != 0
  }

  /** Every cell is empty or a power of two no smaller than 2. */
  predicate AllBoardTiles(b: seq<seq<nat>>)
    requires IsBoard(b)
  {
    forall i :: 0 <= i < Size ==> AllTiles(b[i])
  }

  /** Total face value on the board. */
  function BoardSum(b: seq<seq<nat>>): nat
    requires IsBoard(b)
  {
    Sum(b[0]) + Sum(b[1]) + Sum(b[2]) + Sum(b[3])
  }

  /** Number of tiles on the board. */
  function BoardOccupied(b: seq<seq<nat>>): nat
    requires IsBoard(b)
  {
    Occupied(b[0]) + Occupied(b[1]) + Occupied(b[2]) + Occupied(b[3])
  }

  /** Column j, read top to bottom. */
  function Column(b: seq<seq<nat>>, j: nat): (c: seq<nat>)
    requires IsBoard(b) && j < Size
    ensures |c| == Size && forall i :: 0 <= i < Size ==> c[i] == b[i][j]
  {
    [b[0][j], b[1][j], b[2][j], b[3][j]]
  }

  /** The board with rows and columns exchanged. */
  function Transpose(b: seq<seq<nat>>): (t: seq<seq<nat>>)
    requires IsBoard(b)
    ensures IsBoard(t)
    ensures forall i, j :: 0 <= i < Size && 0 <= j < Size ==> t[i][j] == b[j][i]
  {
    [Column(b, 0), Column(b, 1), Column(b, 2), Column(b, 3)]
  }

  /** A line read back to front. */
  function Reverse(s: seq<nat>): (r: seq<nat>)
    ensures |r| == |s| && forall k :: 0 <= k < |s| ==> r[k] == s[|s| - 1 - k]
  {
    seq(|s|, k requires 0 <= k < |s| => s[|s| - 1 - k])
  }

  /** Left and up push tiles toward the start of each line. */
  predicate TowardStart(d: Direction)
  {
    d == Left || d == Up
  }

  /** Left and right act on rows, up and down on columns. */
  predicate Horizontal(d: Direction)
  {
    d == Left || d == Right
  }

  /** The direction that pushes tiles the other way along the same lines. */
  function Opposite(d: Direction): Direction
  {
    match d
    case Up => Down
    case Down => Up
    case Left => Right
    case Right => Left
  }

  /**
   One line slid in direction d. Left and up slide it toward its start; right
   and down reverse it, slide it the opposite way and reverse it back.
   */
  function SlideLine(s: seq<nat>, d: Direction): (r: Slide)
    ensures |s| == Size ==> |r.line| == Size
    decreases if TowardStart(d) then 0 else 1
  {
    if TowardStart(d) then SlideAndMerge(s)
    else
      var r := SlideLine(Reverse(s), Opposite(d));
      Slide(Reverse(r.line), r.gain)
  }

  /** Every row slid in direction d, with the points all four earned. */
  function SlideRows(b: seq<seq<nat>>, d: Direction): (r: (seq<seq<nat>>, nat))
    requires IsBoard(b)
    ensures IsBoard(r.0)
  {
    (seq(Size, k requires 0 <= k < Size => SlideLine(b[k], d).line),
     SlideLine(b[0], d).gain + SlideLine(b[1], d).gain + SlideLine(b[2], d).gain + SlideLine(b[3], d).gain)
  }

  /**
   The source's move: rows for left and right, columns (by transposing) for up
   and down; `moved` compares the whole new board with the old one.
   */
  function Move(b: seq<seq<nat>>, d: Direction): (r: MoveResult)
    requires IsBoard(b)
    ensures IsBoard(r.board)
    ensures r.moved <==> exists i, j :: 0 <= i < Size && 0 <= j < Size && r.board[i][j] != b[i][j]
  {
    var shifted :=
      if Horizontal(d) then SlideRows(b, d)
      else
        var t := SlideRows(Transpose(b), d);
        (Transpose(t.0), t.1);
    var board := shifted.0;
    BoardsDiffer(board, b);
    MoveResult(board, shifted.1, board != b)
  }

  /** Two boards differ exactly when some cell differs. */
  lemma BoardsDiffer(a: seq<seq<nat>>, b: seq<seq<nat>>)
    requires IsBoard(a) && IsBoard(b)
    ensures a != b <==> exists i, j :: 0 <= i < Size && 0 <= j < Size && a[i][j] != b[i][j]
  {
    if a != b {
      var i :| 0 <= i < Size && a[i] != b[i];
      var j :| 0 <= j < Size && a[i][j] != b[i][j];
    }
  }

  /** Line k of the board as direction d sees it: row k or column k. */
  function Line(b: seq<seq<nat>>, d: Direction, k: nat): (s: seq<nat>)
    requires IsBoard(b) && k < Size
    ensures |s| == Size
  {
    if Horizontal(d) then b[k] else Column(b, k)
  }

  lemma ReverseTwice(s: seq<nat>)
    ensures Reverse(Reverse(s)) == s
  {
  }

  lemma ColumnOfTranspose(t: seq<seq<nat>>, k: nat)
    requires IsBoard(t) && k < Size
    ensures Column(Transpose(t), k) == t[k]
  {
  }

  /** Two boards agreeing on every line of one orientation are equal. */
  lemma LinesDetermineBoard(b: seq<seq<nat>>, c: seq<seq<nat>>, d: Direction)
    requires IsBoard(b) && IsBoard(c)
    requires forall k :: 0 <= k < Size ==> Line(b, d, k) == Line(c, d, k)
    ensures b == c
  {
    forall i | 0 <= i < Size
      ensures b[i] == c[i]
    {
      forall j | 0 <= j < Size
        ensures b[i][j] == c[i][j]
      {
        assert Line(b, d, if Horizontal(d) then i else j) == Line(c, d, if Horizontal(d) then i else j);
      }
    }
  }

  /** Row k of the slid rows is row k slid. */
  lemma SlideRowsRows(b: seq<seq<nat>>, d: Direction)
    requires IsBoard(b)
    ensures forall k :: 0 <= k < Size ==> SlideRows(b, d).0[k] == SlideLine(b[k], d).line
    ensures SlideRows(b, d).1 == SlideLine(b[0], d).gain + SlideLine(b[1], d).gain
                                 + SlideLine(b[2], d).gain + SlideLine(b[3], d).gain
  {
  }

  /** The move, unfolded: the slid rows of the board or of its transpose. */
  lemma MoveUnfold(b: seq<seq<nat>>, d: Direction)
    requires IsBoard(b)
    ensures Horizontal(d) ==> Move(b, d).board == SlideRows(b, d).0 && Move(b, d).gain == SlideRows(b, d).1
    ensures !Horizontal(d) ==>
              Move(b, d).board == Transpose(SlideRows(Transpose(b), d).0) && Move(b, d).gain == SlideRows(Transpose(b), d).1
    ensures Move(b, d).moved == (Move(b, d).board != b)
  {
  }

  /**
   A move rewrites each line of its orientation on its own: line k of the new
   board is line k of the old one slid in the move's direction, and the points
   earned are the four lines' points together.
   */
  lemma MoveActsOnLines(b: seq<seq<nat>>, d: Direction)
    requires IsBoard(b)
    ensures forall k :: 0 <= k < Size ==> Line(Move(b, d).board, d, k) == SlideLine(Line(b, d, k), d).line
    ensures Move(b, d).gain == SlideLine(Line(b, d, 0), d).gain + SlideLine(Line(b, d, 1), d).gain
                               + SlideLine(Line(b, d, 2), d).gain + SlideLine(Line(b, d, 3), d).gain
  {
    if Horizontal(d) {
      MoveActsOnRows(b, d);
    } else {
      MoveActsOnColumns(b, d);
    }
  }

  lemma MoveActsOnRows(b: seq<seq<nat>>, d: Direction)
    requires IsBoard(b) && Horizontal(d)
    ensures forall k :: 0 <= k < Size ==> Move(b, d).board[k] == SlideLine(b[k], d).line
    ensures Move(b, d).gain == SlideLine(b[0], d).gain + SlideLine(b[1], d).gain
                               + SlideLine(b[2], d).gain + SlideLine(b[3], d).gain
  {
    MoveUnfold(b, d);
    SlideRowsRows(b, d);
  }

  lemma MoveActsOnColumns(b: seq<seq<nat>>, d: Direction)
    requires IsBoard(b) && !Horizontal(d)
    ensures forall k :: 0 <= k < Size ==> Column(Move(b, d).board, k) == SlideLine(Column(b, k), d).line
    ensures Move(b, d).gain == SlideLine(Column(b, 0), d).gain + SlideLine(Column(b, 1), d).gain
                               + SlideLine(Column(b, 2), d).gain + SlideLine(Column(b, 3), d).gain
  {
    forall k | 0 <= k < Size
      ensures Column(Move(b, d).board, k) == SlideLine(Column(b, k), d).line
    {
      MoveActsOnColumn(b, d, k);
    }
    MoveUnfold(b, d);
    var src := Transpose(b);
    SlideRowsRows(src, d);
    assert src[0] == Column(b, 0) && src[1] == Column(b, 1);
    assert src[2] == Column(b, 2) && src[3] == Column(b, 3);
  }

  lemma MoveActsOnColumn(b: seq<seq<nat>>, d: Direction, k: nat)
    requires IsBoard(b) && !Horizontal(d) && k < Size
    ensures Column(Move(b, d).board, k) == SlideLine(Column(b, k), d).line
  {
    MoveUnfold(b, d);
    var src := Transpose(b);
    SlideRowsRows(src, d);
    ColumnOfTranspose(SlideRows(src, d).0, k);
    assert src[k] == Column(b, k);
  }

  /** Right and down are reverse, then slide toward the start, then reverse back. */
  lemma SlideLineReversed(s: seq<nat>, d: Direction)
    requires !TowardStart(d)
    ensures SlideLine(s, d).line == Reverse(SlideAndMerge(Reverse(s)).line)
    ensures SlideLine(s, d).gain == SlideAndMerge(Reverse(s)).gain
  {
  }

  /** Every tile comes after every empty cell: the tiles form a suffix. */
  predicate PackedAtEnd(s: seq<nat>)
  {
    forall i, j :: 0 <= i < j < |s| && s[j] == 0 ==> s[i] == 0
  }

  /**
   In every direction a slid line keeps its four cells and its face value, and
   its tiles sit against the side the move pushes toward: at the start for left
   and up, at the end for right and down.
   */
  lemma SlideLineShape(s: seq<nat>, d: Direction)
    requires |s| == Size
    ensures |SlideLine(s, d).line| == Size
    ensures Sum(SlideLine(s, d).line) == Sum(s)
    ensures TowardStart(d) ==> Packed(SlideLine(s, d).line)
    ensures !TowardStart(d) ==> PackedAtEnd(SlideLine(s, d).line)
  {
    SlideLineConservesSum(s, d);
    if TowardStart(d) {
      SlideAndMergeShape(s);
    } else {
      SlideAndMergeShape(Reverse(s));
      SlideLineReversed(s, d);
    }
  }

  lemma Sum4(s: seq<nat>)
    requires |s| == Size
    ensures Sum(s) == s[0] + s[1] + s[2] + s[3]
  {
    assert s[1..][1..] == s[2..] && s[2..][1..] == s[3..] && s[3..][1..] == [];
    assert Sum(s[3..]) == s[3];
    assert Sum(s[2..]) == s[2] + s[3];
    assert Sum(s[1..]) == s[1] + s[2] + s[3];
  }

  lemma SlideLineConservesSum(s: seq<nat>, d: Direction)
    requires |s| == Size
    ensures Sum(SlideLine(s, d).line) == Sum(s)
  {
    if TowardStart(d) {
      SlideAndMergeShape(s);
    } else {
      var r := SlideAndMerge(Reverse(s)).line;
      SlideAndMergeShape(Reverse(s));
      Sum4(s);
      Sum4(Reverse(s));
      Sum4(r);
      Sum4(Reverse(r));
    }
  }

  lemma TransposeSum(b: seq<seq<nat>>)
    requires IsBoard(b)
    ensures BoardSum(Transpose(b)) == BoardSum(b)
  {
    var t := Transpose(b);
    forall i | 0 <= i < Size
      ensures Sum(t[i]) == t[i][0] + t[i][1] + t[i][2] + t[i][3]
      ensures Sum(b[i]) == b[i][0] + b[i][1] + b[i][2] + b[i][3]
    {
      Sum4(t[i]);
      Sum4(b[i]);
    }
  }

  /** A move neither creates nor destroys face value: merging 2 tiles of v gives one of 2v. */
  lemma MoveConservesSum(b: seq<seq<nat>>, d: Direction)
    requires IsBoard(b)
    ensures BoardSum(Move(b, d).board) == BoardSum(b)
  {
    MoveUnfold(b, d);
    if Horizontal(d) {
      SlideRowsConserveSum(b, d);
    } else {
      TransposeSum(b);
      SlideRowsConserveSum(Transpose(b), d);
      TransposeSum(SlideRows(Transpose(b), d).0);
    }
  }

  lemma SlideRowsConserveSum(b: seq<seq<nat>>, d: Direction)
    requires IsBoard(b)
    ensures BoardSum(SlideRows(b, d).0) == BoardSum(b)
  {
    SlideRowsRows(b, d);
    SlideLineConservesSum(b[0], d);
    SlideLineConservesSum(b[1], d);
    SlideLineConservesSum(b[2], d);
    SlideLineConservesSum(b[3], d);
  }

  /** A line slid with points earned is a different line. */
  lemma SlideLineGainChanges(s: seq<nat>, d: Direction)
    requires SlideLine(s, d).gain > 0
    ensures SlideLine(s, d).line != s
  {
    if TowardStart(d) {
      SlideGainMeansFewerTiles(s);
    } else {
      SlideGainMeansFewerTiles(Reverse(s));
      if SlideLine(s, d).line == s {
        ReverseTwice(SlideAndMerge(Reverse(s)).line);
      }
    }
  }

  /** Earning points means the board changed, so a tile will be spawned. */
  lemma MoveGainImpliesMoved(b: seq<seq<nat>>, d: Direction)
    requires IsBoard(b)
    ensures Move(b, d).gain > 0 ==> Move(b, d).moved
  {
    var r := Move(b, d);
    MoveActsOnLines(b, d);
    if r.gain > 0 {
      var k: nat :| k < Size && SlideLine(Line(b, d, k), d).gain > 0;
      SlideLineGainChanges(Line(b, d, k), d);
      assert Line(r.board, d, k) != Line(b, d, k);
    }
  }

  /** A move that changed nothing earned nothing. */
  lemma UnmovedEarnsNothing(b: seq<seq<nat>>, d: Direction)
    requires IsBoard(b) && !Move(b, d).moved
    ensures Move(b, d).gain == 0 && Move(b, d).board == b
  {
    MoveGainImpliesMoved(b, d);
  }

  lemma ReverseKeepsTiles(s: seq<nat>)
    ensures AllTiles(s) <==> AllTiles(Reverse(s))
    ensures AllOccupied(s) <==> AllOccupied(Reverse(s))
  {
    if AllTiles(Reverse(s)) {
      assert forall k :: 0 <= k < |s| ==> s[k] == Reverse(s)[|s| - 1 - k];
    }
    if AllOccupied(Reverse(s)) {
      assert forall k :: 0 <= k < |s| ==> s[k] == Reverse(s)[|s| - 1 - k];
    }
  }

  lemma SlideLineKeepsTiles(s: seq<nat>, d: Direction)
    requires AllTiles(s)
    ensures AllTiles(SlideLine(s, d).line)
  {
    if TowardStart(d) {
      SlideKeepsTiles(s);
    } else {
      ReverseKeepsTiles(s);
      SlideKeepsTiles(Reverse(s));
      ReverseKeepsTiles(SlideAndMerge(Reverse(s)).line);
    }
  }

  /** The tile invariant holds of a board exactly when it holds of each of its lines. */
  lemma TilesByLines(b: seq<seq<nat>>, d: Direction)
    requires IsBoard(b)
    ensures AllBoardTiles(b) <==> forall k :: 0 <= k < Size ==> AllTiles(Line(b, d, k))
  {
    if !Horizontal(d) {
      if AllBoardTiles(b) {
        forall k | 0 <= k < Size
          ensures AllTiles(Line(b, d, k))
        {
          var c := Column(b, k);
          forall i | 0 <= i < Size
            ensures IsTile(c[i])
          {
            assert AllTiles(b[i]);
          }
          assert Line(b, d, k) == c;
        }
      }
      if forall k :: 0 <= k < Size ==> AllTiles(Line(b, d, k)) {
        forall i | 0 <= i < Size
          ensures AllTiles(b[i])
        {
          forall j | 0 <= j < Size
            ensures IsTile(b[i][j])
          {
            assert AllTiles(Line(b, d, j));
            assert Line(b, d, j) == Column(b, j);
            assert b[i][j] == Column(b, j)[i];
          }
        }
      }
    } else {
      assert forall k :: 0 <= k < Size ==> Line(b, d, k) == b[k];
    }
  }

  /** Every cell stays empty or a power of two: tiles only merge with equal tiles. */
  lemma MoveKeepsTiles(b: seq<seq<nat>>, d: Direction)
    requires IsBoard(b) && AllBoardTiles(b)
    ensures AllBoardTiles(Move(b, d).board)
  {
    MoveActsOnLines(b, d);
    var r := Move(b, d).board;
    TilesByLines(b, d);
    forall k | 0 <= k < Size
      ensures AllTiles(Line(r, d, k))
    {
      SlideLineKeepsTiles(Line(b, d, k), d);
    }
    TilesByLines(r, d);
  }

  /** A line that is still full after sliding was left exactly as it was. */
  lemma SlideLineFull(s: seq<nat>, d: Direction)
    requires |s| == Size && AllOccupied(SlideLine(s, d).line)
    ensures SlideLine(s, d) == Slide(s, 0)
  {
    if TowardStart(d) {
      SlideOfFullLine(s);
    } else {
      ReverseKeepsTiles(SlideAndMerge(Reverse(s)).line);
      SlideOfFullLine(Reverse(s));
      ReverseTwice(s);
    }
  }

  /**
   A move that changed the board left an empty cell behind, so the tile spawn
   that follows it always has somewhere to go.
   */
  lemma MovedLeavesRoom(b: seq<seq<nat>>, d: Direction)
    requires IsBoard(b)
    ensures Move(b, d).moved ==> HasEmpty(Move(b, d).board)
  {
    var r := Move(b, d);
    if !HasEmpty(r.board) {
      MoveActsOnLines(b, d);
      forall k | 0 <= k < Size
        ensures Line(r.board, d, k) == Line(b, d, k)
      {
        SlideLineFull(Line(b, d, k), d);
      }
      LinesDetermineBoard(r.board, b, d);
    }
  }

  /** A full line without equal neighbours is a fixpoint of the slide toward its start. */
  lemma SettledTowardStart(s: seq<nat>)
    requires |s| == Size && AllOccupied(s) && !HasEqualNeighbours(s)
    ensures SlideAndMerge(s) == Slide(s, 0)
  {
    CompressOccupied(s);
    MergeIffEqualNeighbours(s);
    assert Pad(s) == s;
  }

  /** A full line without equal neighbours stays as it is in every direction. */
  lemma SlideLineSettled(s: seq<nat>, d: Direction)
    requires |s| == Size && AllOccupied(s) && !HasEqualNeighbours(s)
    ensures SlideLine(s, d) == Slide(s, 0)
  {
    if TowardStart(d) {
      SettledTowardStart(s);
    } else {
      var r := Reverse(s);
      ReverseKeepsTiles(s);
      forall k | 0 <= k < |r| - 1
        ensures r[k] != r[k + 1]
      {
        assert r[k] == s[Size - 1 - k] && r[k + 1] == s[Size - 2 - k];
      }
      SettledTowardStart(r);
      SlideLineReversed(s, d);
      ReverseTwice(s);
    }
  }

  /** A slide that earned nothing in direction d is settled: sliding it again that way changes nothing. */
  lemma SlideLineSettles(s: seq<nat>, d: Direction)
    requires |s| == Size && SlideLine(s, d).gain == 0
    ensures SlideLine(SlideLine(s, d).line, d) == Slide(SlideLine(s, d).line, 0)
  {
    if TowardStart(d) {
      SlideSettles(s);
    } else {
      var r := SlideAndMerge(Reverse(s));
      SlideLineReversed(s, d);
      SlideSettles(Reverse(s));
      ReverseTwice(r.line);
      SlideLineReversed(SlideLine(s, d).line, d);
    }
  }

  /** A board each of whose lines is settled in direction d does not move that way. */
  lemma SettledBoardStaysPut(c: seq<seq<nat>>, d: Direction)
    requires IsBoard(c)
    requires forall k :: 0 <= k < Size ==> SlideLine(Line(c, d, k), d).line == Line(c, d, k)
    ensures Move(c, d) == MoveResult(c, 0, false)
  {
    MoveActsOnLines(c, d);
    LinesDetermineBoard(Move(c, d).board, c, d);
    MoveUnfold(c, d);
    UnmovedEarnsNothing(c, d);
  }

  /** Line gains adding up to nothing means no line earned anything. */
  lemma LinesEarnNothing(b: seq<seq<nat>>, d: Direction)
    requires IsBoard(b)
    requires SlideLine(Line(b, d, 0), d).gain + SlideLine(Line(b, d, 1), d).gain
             + SlideLine(Line(b, d, 2), d).gain + SlideLine(Line(b, d, 3), d).gain == 0
    ensures forall k :: 0 <= k < Size ==> SlideLine(Line(b, d, k), d).gain == 0
  {
    forall k | 0 <= k < Size
      ensures SlideLine(Line(b, d, k), d).gain == 0
    {
      assert k == 0 || k == 1 || k == 2 || k == 3;
    }
  }

  /**
   A move that earned nothing is settled: repeating it on its own result
   leaves that board as it is and earns nothing.
   */
  lemma MoveSettles(b: seq<seq<nat>>, d: Direction)
    requires IsBoard(b) && Move(b, d).gain == 0
    ensures Move(Move(b, d).board, d) == MoveResult(Move(b, d).board, 0, false)
  {
    var c := Move(b, d).board;
    MoveActsOnLines(b, d);
    LinesEarnNothing(b, d);
    forall k | 0 <= k < Size
      ensures SlideLine(Line(c, d, k), d).line == Line(c, d, k)
    {
      SlideLineSettles(Line(b, d, k), d);
    }
    SettledBoardStaysPut(c, d);
  }
}
