/**
 Tile spawning: list the empty cells in row-major order, pick one with a
 uniform draw and fill it with a 2, or with a 4 when a second draw is not
 below 0.9. Both draws come from the caller, so spawning is a function.
 */
module Spawn {
  import opened Lines
  import opened Boards

  /** A draw of the random source in [0, 1), given as the fraction num / den. */
  datatype Draw = Draw(num: nat, den: nat) {
    predicate Valid()
    {
      num < den
    }
  }

  /** A cell position: row, then column. */
  datatype Cell = Cell(row: nat, col: nat)

  /** Position of a cell in the row-by-row scan order. */
  function Index(c: Cell): nat
  {
    Size * c.row + c.col
  }

  /** The cell at scan position p. */
  function CellAt(p: nat): (c: Cell)
    requires p < Size * Size
    ensures c.row < Size && c.col < Size && Index(c) == p
  {
    Cell(p / Size, p % Size)
  }

  /** The empty cells at scan positions p and later, in scan order. */
  function EmptyCellsFrom(b: seq<seq<nat>>, p: nat): (r: seq<Cell>)
    requires IsBoard(b) && p <= Size * Size
    decreases Size * Size - p
  {
    if p == Size * Size then []
    else
      var c := CellAt(p);
      (if b[c.row][c.col] == 0 then [c] else []) + EmptyCellsFrom(b, p + 1)
  }

  /** The source's emptyTiles list. */
  function EmptyCells(b: seq<seq<nat>>): seq<Cell>
    requires IsBoard(b)
  {
    EmptyCellsFrom(b, 0)
  }

  /** Math.floor(draw * n): an index below n. */
  function PickIndex(draw: Draw, n: nat): (k: nat)
    requires draw.Valid() && n > 0
    ensures k < n
  {
    PickBelow(draw.num, draw.den, n);
    draw.num * n / draw.den
  }

  lemma PickBelow(num: nat, den: nat, n: nat)
    requires num < den && n > 0
    ensures num * n / den < n
  {
    MulMonotone(n, num + 1, den);
    DivBelow(num * n, den, n);
  }

  /** Multiplying by a positive number keeps order. */
  lemma MulMonotone(n: nat, a: nat, b: nat)
    ensures a <= b ==> a * n <= b * n
  {
    if a <= b {
      assert b * n == a * n + (b - a) * n;
    }
  }

  lemma DivBelow(x: nat, d: nat, n: nat)
    requires d > 0 && x < d * n
    ensures x / d < n
  {
    var q := x / d;
    assert d * q <= x;
    MulMonotone(d, n, q);
  }

  /** A 2 when the draw is below 0.9, otherwise a 4. */
  function SpawnValue(draw: Draw): (v: nat)
    requires draw.Valid()
  {
    if 10 * draw.num < 9 * draw.den then 2 else 4
  }

  /** The empty cell a uniform draw picks out of the empty-cell list. */
  function Chosen(b: seq<seq<nat>>, cellDraw: Draw): (c: Cell)
    requires IsBoard(b) && cellDraw.Valid() && |EmptyCells(b)| > 0
    ensures c.row < Size && c.col < Size && b[c.row][c.col] == 0
  {
    var empty := EmptyCells(b);
    EmptyCellsFromSound(b, 0);
    empty[PickIndex(cellDraw, |empty|)]
  }

  /** The board with cell c set to v. */
  function Place(b: seq<seq<nat>>, c: Cell, v: nat): (r: seq<seq<nat>>)
    requires IsBoard(b) && c.row < Size && c.col < Size
    ensures IsBoard(r) && r[c.row][c.col] == v
    ensures forall i, j :: 0 <= i < Size && 0 <= j < Size && (i, j) != (c.row, c.col) ==> r[i][j] == b[i][j]
  {
    var row: seq<nat> := b[c.row][c.col := v];
    b[c.row := row]
  }

  /** The source's addNewTile: one empty cell gets a new tile; a full board is left alone. */
  function AddNewTile(b: seq<seq<nat>>, cellDraw: Draw, valueDraw: Draw): (r: seq<seq<nat>>)
    requires IsBoard(b) && cellDraw.Valid() && valueDraw.Valid()
    ensures IsBoard(r)
  {
    if |EmptyCells(b)| == 0 then b
    else Place(b, Chosen(b, cellDraw), SpawnValue(valueDraw))
  }

  /** From scan position p on, every listed cell is an empty cell of the board at position p or later. */
  lemma {:induction false} EmptyCellsFromSound(b: seq<seq<nat>>, p: nat)
    requires IsBoard(b) && p <= Size * Size
    ensures forall x :: 0 <= x < |EmptyCellsFrom(b, p)| ==>
              var c := EmptyCellsFrom(b, p)[x];
              c.row < Size && c.col < Size && p <= Index(c) && b[c.row][c.col] == 0
    decreases Size * Size - p
  {
    if p < Size * Size {
      EmptyCellsFromSound(b, p + 1);
    }
  }

  /** From scan position p on, every empty cell at position p or later is listed; x is where. */
  lemma {:induction false} FindFrom(b: seq<seq<nat>>, p: nat, c: Cell) returns (x: nat)
    requires IsBoard(b) && c.row < Size && c.col < Size && b[c.row][c.col] == 0 && p <= Index(c)
    ensures x < |EmptyCellsFrom(b, p)| && EmptyCellsFrom(b, p)[x] == c
    decreases Size * Size - p
  {
    var here := CellAt(p);
    var head := if b[here.row][here.col] == 0 then [here] else [];
    assert EmptyCellsFrom(b, p) == head + EmptyCellsFrom(b, p + 1);
    if Index(c) == p {
      assert c == here;
      x := 0;
    } else {
      var y := FindFrom(b, p + 1, c);
      x := |head| + y;
    }
  }

  /** From scan position p on, the list is in strictly increasing scan order. */
  lemma {:induction false} EmptyCellsFromOrdered(b: seq<seq<nat>>, p: nat)
    requires IsBoard(b) && p <= Size * Size
    ensures forall x, y :: 0 <= x < y < |EmptyCellsFrom(b, p)| ==>
              Index(EmptyCellsFrom(b, p)[x]) < Index(EmptyCellsFrom(b, p)[y])
    decreases Size * Size - p
  {
    if p < Size * Size {
      EmptyCellsFromOrdered(b, p + 1);
      EmptyCellsFromSound(b, p + 1);
    }
  }

  /**
   The empty-cell list is exactly the empty cells, each once, in the order the
   source's nested loops push them: row by row, left to right.
   */
  lemma EmptyCellsSpec(b: seq<seq<nat>>)
    requires IsBoard(b)
    ensures forall c :: c in EmptyCells(b) <==> c.row < Size && c.col < Size && b[c.row][c.col] == 0
    ensures forall x, y :: 0 <= x < y < |EmptyCells(b)| ==> Index(EmptyCells(b)[x]) < Index(EmptyCells(b)[y])
  {
    EmptyCellsFromSound(b, 0);
    EmptyCellsFromOrdered(b, 0);
    forall c: Cell | c.row < Size && c.col < Size && b[c.row][c.col] == 0
      ensures c in EmptyCells(b)
    {
      var x := FindFrom(b, 0, c);
    }
  }

  lemma RoomIsListed(b: seq<seq<nat>>)
    requires IsBoard(b) && HasEmpty(b)
    ensures |EmptyCells(b)| > 0
  {
    var i: nat, j: nat :| i < Size && j < Size && b[i][j] == 0;
    var x := FindFrom(b, 0, Cell(i, j));
  }

  lemma ListedIsRoom(b: seq<seq<nat>>)
    requires IsBoard(b) && |EmptyCells(b)| > 0
    ensures HasEmpty(b)
  {
    EmptyCellsFromSound(b, 0);
    var c := EmptyCells(b)[0];
    assert c.row < Size && c.col < Size && b[c.row][c.col] == 0;
  }

  /** The empty-cell list is non-empty exactly when the board has room. */
  lemma EmptyCellsIffRoom(b: seq<seq<nat>>)
    requires IsBoard(b)
    ensures |EmptyCells(b)| > 0 <==> HasEmpty(b)
  {
    if HasEmpty(b) {
      RoomIsListed(b);
    }
    if |EmptyCells(b)| > 0 {
      ListedIsRoom(b);
    }
  }

  /**
   Cell (i, j), empty before, now holds v, and every other cell is as it was.
   */
  predicate SpawnedAt(b: seq<seq<nat>>, r: seq<seq<nat>>, i: nat, j: nat, v: nat)
    requires IsBoard(b) && IsBoard(r) && i < Size && j < Size
  {
    && b[i][j] == 0
    && r[i][j] == v
    && forall i', j' :: 0 <= i' < Size && 0 <= j' < Size && (i', j') != (i, j) ==> r[i'][j'] == b[i'][j']
  }

  /** One more tile on the row: a cell that was empty is now occupied. */
  lemma {:induction false} OccupiedFill(s: seq<nat>, k: nat, v: nat)
    requires k < |s| && s[k] == 0 && v != 0
    ensures Occupied(s[k := v]) == Occupied(s) + 1
  {
    if k > 0 {
      OccupiedFill(s[1..], k - 1, v);
      assert s[k := v][1..] == s[1..][k - 1 := v];
    } else {
      assert s[k := v][1..] == s[1..];
    }
  }

  /**
   On a board with room, a spawn puts a 2 or a 4 into one previously empty
   cell, leaves every other cell alone and so adds exactly one tile.
   */
  lemma AddNewTileFillsOneEmptyCell(b: seq<seq<nat>>, cellDraw: Draw, valueDraw: Draw)
    requires IsBoard(b) && cellDraw.Valid() && valueDraw.Valid() && HasEmpty(b)
    ensures var r := AddNewTile(b, cellDraw, valueDraw);
      && (exists i: nat, j: nat :: i < Size && j < Size && SpawnedAt(b, r, i, j, SpawnValue(valueDraw)))
      && (SpawnValue(valueDraw) == 2 || SpawnValue(valueDraw) == 4)
      && BoardOccupied(r) == BoardOccupied(b) + 1
  {
    EmptyCellsIffRoom(b);
    var c := Chosen(b, cellDraw);
    var v := SpawnValue(valueDraw);
    var r := AddNewTile(b, cellDraw, valueDraw);
    assert SpawnedAt(b, r, c.row, c.col, v);
    OccupiedFill(b[c.row], c.col, v);
  }

  /** On a full board a spawn changes nothing. */
  lemma AddNewTileOnFullBoard(b: seq<seq<nat>>, cellDraw: Draw, valueDraw: Draw)
    requires IsBoard(b) && cellDraw.Valid() && valueDraw.Valid() && !HasEmpty(b)
    ensures AddNewTile(b, cellDraw, valueDraw) == b
  {
    EmptyCellsIffRoom(b);
  }

  /** A spawn keeps every cell empty or a power of two. */
  lemma AddNewTileKeepsTiles(b: seq<seq<nat>>, cellDraw: Draw, valueDraw: Draw)
    requires IsBoard(b) && cellDraw.Valid() && valueDraw.Valid() && AllBoardTiles(b)
    ensures AllBoardTiles(AddNewTile(b, cellDraw, valueDraw))
  {
    var r := AddNewTile(b, cellDraw, valueDraw);
    assert IsPowerOfTwo(4);
    if HasEmpty(b) {
      AddNewTileFillsOneEmptyCell(b, cellDraw, valueDraw);
      var i: nat, j: nat :| i < Size && j < Size && SpawnedAt(b, r, i, j, SpawnValue(valueDraw));
      forall i' | 0 <= i' < Size
        ensures AllTiles(r[i'])
      {
        forall j' | 0 <= j' < Size
          ensures IsTile(r[i'][j'])
        {
          if (i', j') != (i, j) {
            assert IsTile(b[i'][j']);
          }
        }
      }
    } else {
      AddNewTileOnFullBoard(b, cellDraw, valueDraw);
    }
  }

  /**
   Every empty cell and both tile values can come up: for each there are
   draws that make the spawn put that value in that cell.
   */
  lemma EveryEmptyCellReachable(b: seq<seq<nat>>, i: nat, j: nat, v: nat)
    requires IsBoard(b) && i < Size && j < Size && b[i][j] == 0 && (v == 2 || v == 4)
    ensures exists cellDraw: Draw, valueDraw: Draw :: cellDraw.Valid() && valueDraw.Valid()
              && AddNewTile(b, cellDraw, valueDraw)[i][j] == v
  {
    var p := ListedAt(b, i, j);
    var n := |EmptyCells(b)|;
    var cellDraw := Draw(p, n);
    var valueDraw := if v == 2 then Draw(0, 1) else Draw(9, 10);
    assert SpawnValue(valueDraw) == v;
    PickExact(p, n);
    AddNewTileAtPick(b, cellDraw, valueDraw, Cell(i, j));
    assert AddNewTile(b, cellDraw, valueDraw)[i][j] == v;
  }

  /** Where an empty cell sits in the empty-cell list. */
  lemma ListedAt(b: seq<seq<nat>>, i: nat, j: nat) returns (p: nat)
    requires IsBoard(b) && i < Size && j < Size && b[i][j] == 0
    ensures p < |EmptyCells(b)| && EmptyCells(b)[p] == Cell(i, j)
  {
    p := FindFrom(b, 0, Cell(i, j));
  }

  /** A draw of p / n picks index p out of n. */
  lemma PickExact(p: nat, n: nat)
    requires p < n
    ensures PickIndex(Draw(p, n), n) == p
  {
    MulDivCancel(p, n);
  }

  lemma MulDivCancel(p: nat, n: nat)
    requires n > 0
    ensures p * n / n == p
  {
    var q, r := p * n / n, p * n % n;
    assert (p - q) * n == r;
    MulBelow(p - q, n);
  }

  /** The only multiple of n in [0, n) is 0. */
  lemma MulBelow(k: int, n: nat)
    requires n > 0 && 0 <= k * n < n
    ensures k == 0
  {
  }

  /** The picked empty cell holds the drawn value afterwards. */
  lemma AddNewTileAtPick(b: seq<seq<nat>>, cellDraw: Draw, valueDraw: Draw, c: Cell)
    requires IsBoard(b) && cellDraw.Valid() && valueDraw.Valid() && |EmptyCells(b)| > 0
    requires c == EmptyCells(b)[PickIndex(cellDraw, |EmptyCells(b)|)]
    ensures c.row < Size && c.col < Size
    ensures AddNewTile(b, cellDraw, valueDraw)[c.row][c.col] == SpawnValue(valueDraw)
  {
    assert c == Chosen(b, cellDraw);
  }
}
