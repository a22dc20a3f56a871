/**
 One line of the 2048 board (a row or a column, read in the direction the
 tiles travel) and the slide-and-merge rule applied to it: drop the empty
 cells, merge equal neighbours in one left-to-right pass in which a merged
 tile never merges again, and pad the line back to four cells with empties.
 An empty cell is 0; a tile is a power of two no smaller than 2.
 */
module Lines {

  /** Number of cells in a line, and of lines on the board. */
  const Size: nat := 4

  /** A slid line together with the points its merges earned. */
  datatype Slide = Slide(line: seq<nat>, gain: nat)

  /** Total face value of the tiles in a line. */
  function Sum(s: seq<nat>): nat
  {
    if |s| == 0 then 0 else s[0] + Sum(s[1..])
  }

  /** Number of occupied (nonzero) cells in a line. */
  function Occupied(s: seq<nat>): nat
  {
    if |s| == 0 then 0 else (if s[0] == 0 then 0 else 1) + Occupied(s[1..])
  }

  predicate AllOccupied(s: seq<nat>)
  {
    forall k :: 0 <= k < |s| ==> s[k] != 0
  }

  /** Every empty cell comes after every tile: the tiles form a prefix. */
  predicate Packed(s: seq<nat>)
  {
    forall i, j :: 0 <= i < j < |s| && s[i] == 0 ==> s[j] == 0
  }

  /** Two adjacent cells of the line hold the same value. */
  predicate HasEqualNeighbours(s: seq<nat>)
  {
    exists k :: 0 <= k < |s| - 1 && s[k] == s[k + 1]
  }

  /** A power of two that can appear on a tile: 2, 4, 8, ... */
  predicate IsPowerOfTwo(v: nat)
    decreases v
  {
    v == 2 || (v > 2 && v % 2 == 0 && IsPowerOfTwo(v / 2))
  }

  /** A legal cell value: empty, or a tile. */
  predicate IsTile(v: nat)
  {
    v == 0 || IsPowerOfTwo(v)
  }

  predicate AllTiles(s: seq<nat>)
  {
    forall k :: 0 <= k < |s| ==> IsTile(s[k])
  }

  function Zeros(n: nat): (z: seq<nat>)
    ensures |z| == n && forall k :: 0 <= k < n ==> z[k] == 0
  {
    seq(n, _ => 0)
  }

  lemma {:induction false} SumConcat(a: seq<nat>, b: seq<nat>)
    ensures Sum(a + b) == Sum(a) + Sum(b)
    ensures Occupied(a + b) == Occupied(a) + Occupied(b)
  {
    if |a| == 0 {
      assert a + b == b;
    } else {
      assert (a + b)[1..] == a[1..] + b;
      SumConcat(a[1..], b);
    }
  }

  lemma {:induction false} SumZeros(n: nat)
    ensures Sum(Zeros(n)) == 0 && Occupied(Zeros(n)) == 0
  {
    if n > 0 {
      assert Zeros(n)[1..] == Zeros(n - 1);
      SumZeros(n - 1);
    }
  }

  /** The nonzero cells of a line, in order (the source's filter step). */
  function Compress(s: seq<nat>): seq<nat>
  {
    if |s| == 0 then []
    else if s[0] == 0 then Compress(s[1..])
    else [s[0]] + Compress(s[1..])
  }

  /** The line padded on the trailing side with empty cells up to the width. */
  function Pad(s: seq<nat>): (r: seq<nat>)
    ensures |r| == if |s| < Size then Size else |s|
    ensures r[..|s|] == s
    ensures forall k :: |s| <= k < |r| ==> r[k] == 0
  {
    if |s| < Size then s + Zeros(Size - |s|) else s
  }

  /**
   The single merge pass over a compressed line: scanning left to right, two
   equal neighbours become one tile of twice the value, which earns that value
   and is not looked at again.
   */
  function Merge(s: seq<nat>): Slide
    decreases |s|
  {
    if |s| < 2 then Slide(s, 0)
    else if s[0] == s[1] then
      var rest := Merge(s[2..]);
      Slide([2 * s[0]] + rest.line, 2 * s[0] + rest.gain)
    else
      var rest := Merge(s[1..]);
      Slide([s[0]] + rest.line, rest.gain)
  }

  /** The source's slideAndMerge, with the score it adds returned as `gain`. */
  function SlideAndMerge(s: seq<nat>): (r: Slide)
    ensures |s| <= Size ==> |r.line| == Size
  {
    var m := Merge(Compress(s));
    MergeFacts(Compress(s));
    CompressFacts(s);
    OccupiedFacts(s);
    Slide(Pad(m.line), m.gain)
  }

  /** A line never holds more tiles than cells; it holds none exactly when all are empty. */
  lemma {:induction false} OccupiedFacts(s: seq<nat>)
    ensures Occupied(s) <= |s|
    ensures Occupied(s) == 0 <==> forall k :: 0 <= k < |s| ==> s[k] == 0
  {
    if |s| > 0 {
      OccupiedFacts(s[1..]);
      assert forall k :: 1 <= k < |s| ==> s[k] == s[1..][k - 1];
    }
  }

  /**
   Compression keeps exactly the tiles: no empties remain, one cell per tile,
   the same face value, and nothing that was not already a tile.
   */
  lemma {:induction false} CompressFacts(s: seq<nat>)
    ensures AllOccupied(Compress(s))
    ensures |Compress(s)| == Occupied(s)
    ensures Sum(Compress(s)) == Sum(s)
    ensures AllTiles(s) ==> AllTiles(Compress(s))
  {
    if |s| > 0 {
      var rest := Compress(s[1..]);
      CompressFacts(s[1..]);
      if s[0] != 0 {
        assert ([s[0]] + rest)[1..] == rest;
      }
    }
  }

  /** Padding adds only empty cells. */
  lemma PadFacts(s: seq<nat>)
    ensures Sum(Pad(s)) == Sum(s) && Occupied(Pad(s)) == Occupied(s)
  {
    if |s| < Size {
      SumConcat(s, Zeros(Size - |s|));
      SumZeros(Size - |s|);
    }
  }

  /**
   The merge pass keeps the face value, shortens the line by at most half
   (each output tile absorbs at most two input tiles), and keeps lines free
   of empties.
   */
  lemma {:induction false} MergeFacts(s: seq<nat>)
    ensures Sum(Merge(s).line) == Sum(s)
    ensures |Merge(s).line| <= |s| <= 2 * |Merge(s).line|
    ensures AllOccupied(s) ==> AllOccupied(Merge(s).line)
    decreases |s|
  {
    if |s| >= 2 {
      if s[0] == s[1] {
        var rest := Merge(s[2..]);
        MergeFacts(s[2..]);
        assert s[1..][1..] == s[2..];
        assert ([2 * s[0]] + rest.line)[1..] == rest.line;
      } else {
        var rest := Merge(s[1..]);
        MergeFacts(s[1..]);
        assert ([s[0]] + rest.line)[1..] == rest.line;
      }
    }
  }

  /**
   A slid line of a row or column has four cells, all its tiles before all
   its empties, the same face value, and no more tiles than before.
   */
  lemma SlideAndMergeShape(s: seq<nat>)
    ensures |s| <= Size ==> |SlideAndMerge(s).line| == Size
    ensures Packed(SlideAndMerge(s).line)
    ensures Sum(SlideAndMerge(s).line) == Sum(s)
    ensures Occupied(SlideAndMerge(s).line) <= Occupied(s)
  {
    var m := Merge(Compress(s));
    CompressFacts(s);
    MergeFacts(Compress(s));
    PadFacts(m.line);
    SlideOccupancy(s);
    var p := Pad(m.line);
    assert forall k :: 0 <= k < |m.line| ==> p[k] == m.line[k] != 0;
  }

  /** The compressed line behind a slide has |line| tiles and no empties. */
  lemma SlideOccupancy(s: seq<nat>)
    ensures Occupied(SlideAndMerge(s).line) == |Merge(Compress(s)).line|
  {
    var m := Merge(Compress(s));
    var p := Pad(m.line);
    CompressFacts(s);
    MergeFacts(Compress(s));
    SumConcat(p[..|m.line|], p[|m.line|..]);
    assert p == p[..|m.line|] + p[|m.line|..];
    OccupiedFacts(p[|m.line|..]);
    AllOccupiedCount(m.line);
  }

  lemma {:induction false} AllOccupiedCount(s: seq<nat>)
    requires AllOccupied(s)
    ensures Occupied(s) == |s|
  {
    if |s| > 0 {
      AllOccupiedCount(s[1..]);
    }
  }

  lemma {:induction false} CompressOccupied(s: seq<nat>)
    requires AllOccupied(s)
    ensures Compress(s) == s
  {
    if |s| > 0 {
      CompressOccupied(s[1..]);
    }
  }

  lemma {:induction false} CompressConcat(a: seq<nat>, b: seq<nat>)
    ensures Compress(a + b) == Compress(a) + Compress(b)
  {
    if |a| == 0 {
      assert a + b == b;
    } else {
      assert (a + b)[1..] == a[1..] + b;
      CompressConcat(a[1..], b);
    }
  }

  lemma {:induction false} CompressZeros(n: nat)
    ensures Compress(Zeros(n)) == []
  {
    if n > 0 {
      assert Zeros(n)[1..] == Zeros(n - 1);
      CompressZeros(n - 1);
    }
  }

  /** A packed-and-padded run of tiles compresses back to the run. */
  lemma CompressPad(s: seq<nat>)
    requires AllOccupied(s)
    ensures Compress(Pad(s)) == s
  {
    CompressOccupied(s);
    if |s| < Size {
      CompressConcat(s, Zeros(Size - |s|));
      CompressZeros(Size - |s|);
    }
  }

  /** Two equal neighbours force at least one merge, which shortens the line. */
  lemma {:induction false} MergeShrinks(s: seq<nat>)
    requires HasEqualNeighbours(s)
    ensures |Merge(s).line| < |s|
    decreases |s|
  {
    var k :| 0 <= k < |s| - 1 && s[k] == s[k + 1];
    if s[0] != s[1] {
      assert 0 <= k - 1 < |s[1..]| - 1 && s[1..][k - 1] == s[1..][k];
      MergeShrinks(s[1..]);
    } else {
      MergeFacts(s[2..]);
    }
  }

  /** Without equal neighbours the merge pass changes nothing and earns nothing. */
  lemma {:induction false} MergeWithoutEqualNeighbours(s: seq<nat>)
    requires !HasEqualNeighbours(s)
    ensures Merge(s) == Slide(s, 0)
    decreases |s|
  {
    if |s| >= 2 {
      assert s[0] != s[1];
      assert !HasEqualNeighbours(s[1..]) by {
        forall k | 0 <= k < |s[1..]| - 1
          ensures s[1..][k] != s[1..][k + 1]
        {
          assert s[k + 1] != s[k + 2];
        }
      }
      MergeWithoutEqualNeighbours(s[1..]);
      assert [s[0]] + s[1..] == s;
    }
  }

  /** On tiles, a merge earns points exactly when it shortens the line. */
  lemma {:induction false} MergeGainMeansMerged(s: seq<nat>)
    requires AllOccupied(s)
    ensures Merge(s).gain > 0 <==> |Merge(s).line| < |s|
    decreases |s|
  {
    if |s| >= 2 {
      if s[0] != s[1] {
        MergeGainMeansMerged(s[1..]);
      } else {
        MergeFacts(s[2..]);
      }
    }
  }

  /**
   On a line of tiles the merge pass earns points, shortens the line and
   differs from the identity exactly when two neighbours are equal.
   */
  lemma MergeIffEqualNeighbours(s: seq<nat>)
    requires AllOccupied(s)
    ensures HasEqualNeighbours(s) <==> Merge(s).gain > 0
    ensures HasEqualNeighbours(s) <==> |Merge(s).line| < |s|
    ensures !HasEqualNeighbours(s) <==> Merge(s) == Slide(s, 0)
  {
    MergeGainMeansMerged(s);
    if HasEqualNeighbours(s) {
      MergeShrinks(s);
    } else {
      MergeWithoutEqualNeighbours(s);
    }
  }

  /**
   A line whose tiles have no equal neighbours (once the empties are dropped)
   only slides: the result is the compressed line padded, and nothing is
   earned. Conversely a slide that earns nothing merged nothing.
   */
  lemma SlideWithoutMerge(s: seq<nat>)
    ensures !HasEqualNeighbours(Compress(s)) <==> SlideAndMerge(s) == Slide(Pad(Compress(s)), 0)
    ensures !HasEqualNeighbours(Compress(s)) <==> SlideAndMerge(s).gain == 0
  {
    CompressFacts(s);
    MergeIffEqualNeighbours(Compress(s));
  }

  /** Points are earned exactly when tiles disappear, and then the line changed. */
  lemma SlideGainMeansFewerTiles(s: seq<nat>)
    ensures SlideAndMerge(s).gain > 0 <==> Occupied(SlideAndMerge(s).line) < Occupied(s)
    ensures SlideAndMerge(s).gain > 0 ==> SlideAndMerge(s).line != s
  {
    CompressFacts(s);
    MergeGainMeansMerged(Compress(s));
    SlideOccupancy(s);
  }

  /** A slide that earned nothing is settled: sliding it again is a no-op. */
  lemma SlideSettles(s: seq<nat>)
    requires SlideAndMerge(s).gain == 0
    ensures SlideAndMerge(SlideAndMerge(s).line) == Slide(SlideAndMerge(s).line, 0)
  {
    var c := Compress(s);
    CompressFacts(s);
    MergeIffEqualNeighbours(c);
    CompressPad(c);
  }

  /** A slide of a full line that stays full kept every tile and moved none. */
  lemma SlideOfFullLine(s: seq<nat>)
    requires |s| == Size
    requires AllOccupied(SlideAndMerge(s).line)
    ensures SlideAndMerge(s) == Slide(s, 0)
  {
    var c := Compress(s);
    CompressFacts(s);
    MergeFacts(c);
    OccupiedFacts(s);
    SlideOccupancy(s);
    AllOccupiedCount(SlideAndMerge(s).line);
    assert |Merge(c).line| == Size;
    MergeIffEqualNeighbours(c);
    assert AllOccupied(s) by {
      if !AllOccupied(s) {
        var k :| 0 <= k < |s| && s[k] == 0;
        OccupiedBelowLength(s, k);
      }
    }
    CompressOccupied(s);
  }

  lemma {:induction false} OccupiedBelowLength(s: seq<nat>, k: nat)
    requires k < |s| && s[k] == 0
    ensures Occupied(s) < |s|
  {
    if k > 0 {
      OccupiedBelowLength(s[1..], k - 1);
    } else {
      OccupiedFacts(s[1..]);
    }
  }

  /** A line with a tile slides to a line whose first cell holds a tile. */
  lemma SlideLeadsWithTile(s: seq<nat>)
    requires Occupied(s) > 0
    ensures |SlideAndMerge(s).line| > 0 && SlideAndMerge(s).line[0] != 0
  {
    var m := Merge(Compress(s));
    assert |m.line| > 0;
    assert Pad(m.line)[..|m.line|] == m.line;
  }

  /**
   Compression keeps neighbouring tiles neighbours, so an equal pair of
   adjacent tiles survives into the compressed line.
   */
  lemma {:induction false} CompressKeepsEqualNeighbours(s: seq<nat>, k: nat)
    requires k + 1 < |s| && s[k] != 0 && s[k] == s[k + 1]
    ensures HasEqualNeighbours(Compress(s))
  {
    if k == 0 {
      var c := Compress(s);
      assert s[1..][0] == s[1];
      assert Compress(s[1..]) == [s[1]] + Compress(s[2..]) by {
        assert s[1..][1..] == s[2..];
      }
      assert c[0] == c[1];
    } else {
      CompressKeepsEqualNeighbours(s[1..], k - 1);
      var r := Compress(s[1..]);
      var m :| 0 <= m < |r| - 1 && r[m] == r[m + 1];
      if s[0] != 0 {
        assert Compress(s)[m + 1] == Compress(s)[m + 2];
      }
    }
  }

  /** Merging preserves the tile invariant: the double of a power of two is one. */
  lemma {:induction false} MergeKeepsTiles(s: seq<nat>)
    requires AllTiles(s)
    ensures AllTiles(Merge(s).line)
    decreases |s|
  {
    if |s| >= 2 {
      if s[0] == s[1] {
        MergeKeepsTiles(s[2..]);
        assert s[0] == 0 || IsPowerOfTwo(2 * s[0]);
        if s[0] == 0 {
          assert IsTile(2 * s[0]);
        }
      } else {
        MergeKeepsTiles(s[1..]);
      }
    }
  }

  /** Every cell of a slid line is empty or a tile when the input's were. */
  lemma SlideKeepsTiles(s: seq<nat>)
    requires AllTiles(s)
    ensures AllTiles(SlideAndMerge(s).line)
  {
    var m := Merge(Compress(s));
    CompressFacts(s);
    MergeKeepsTiles(Compress(s));
    assert forall k :: 0 <= k < |m.line| ==> Pad(m.line)[k] == m.line[k];
  }

  // ---------------------------------------------------------------------
  // An independent description of the merge pass: a greedy pairing.
  // ---------------------------------------------------------------------

  /** A group of input tiles that become one output tile. */
  datatype Block = Single(v: nat) | Pair(v: nat)

  /** The input tiles a block consumes. */
  function Consumed(b: Block): seq<nat>
  {
    match b
    case Single(v) => [v]
    case Pair(v) => [v, v]
  }

  /** The output tile a block produces. */
  function Produced(b: Block): nat
  {
    match b
    case Single(v) => v
    case Pair(v) => 2 * v
  }

  /** All input tiles consumed by a sequence of blocks, in order. */
  function Tiles(bs: seq<Block>): seq<nat>
  {
    if |bs| == 0 then [] else Consumed(bs[0]) + Tiles(bs[1..])
  }

  /** The output tiles, one per block. */
  function Results(bs: seq<Block>): seq<nat>
  {
    if |bs| == 0 then [] else [Produced(bs[0])] + Results(bs[1..])
  }

  /** The sum of the tiles created by merging. */
  function Earned(bs: seq<Block>): nat
  {
    if |bs| == 0 then 0 else (if bs[0].Pair? then Produced(bs[0]) else 0) + Earned(bs[1..])
  }

  /**
   Left-to-right priority: a tile left on its own is never followed by an
   equal tile (otherwise the pass would have merged the two).
   */
  predicate Greedy(bs: seq<Block>)
  {
    forall k :: 0 <= k < |bs| - 1 && bs[k].Single? ==> bs[k].v != bs[k + 1].v
  }

  /** The greedy pairing of a line exists. */
  function GreedyBlocks(s: seq<nat>): (bs: seq<Block>)
    ensures Tiles(bs) == s
    ensures Greedy(bs)
    ensures |bs| > 0 ==> |s| > 0 && bs[0].v == s[0]
    decreases |s|
  {
    if |s| == 0 then []
    else if |s| >= 2 && s[0] == s[1] then
      var rest := GreedyBlocks(s[2..]);
      assert ([Pair(s[0])] + rest)[1..] == rest;
      assert s == [s[0], s[0]] + s[2..];
      [Pair(s[0])] + rest
    else
      var rest := GreedyBlocks(s[1..]);
      assert ([Single(s[0])] + rest)[1..] == rest;
      assert s == [s[0]] + s[1..];
      [Single(s[0])] + rest
  }

  /**
   The merge pass is the greedy pairing: for ANY split of the line into single
   tiles and equal pairs that leaves no single tile beside an equal one, the
   pass produces one tile per block and earns the sum of the pairs' doubles.
   In particular each input tile takes part in at most one merge.
   */
  lemma {:induction false} MergeIsGreedyPairing(s: seq<nat>, bs: seq<Block>)
    requires Tiles(bs) == s && Greedy(bs)
    ensures Merge(s) == Slide(Results(bs), Earned(bs))
    decreases |bs|
  {
    if |bs| > 0 {
      var rest := bs[1..];
      assert Greedy(rest) by {
        forall k | 0 <= k < |rest| - 1 && rest[k].Single?
          ensures rest[k].v != rest[k + 1].v
        {
          assert bs[k + 1] == rest[k] && bs[k + 2] == rest[k + 1];
        }
      }
      match bs[0]
      case Pair(v) =>
        assert s[2..] == Tiles(rest);
        MergeIsGreedyPairing(s[2..], rest);
      case Single(v) =>
        assert s[1..] == Tiles(rest);
        MergeIsGreedyPairing(s[1..], rest);
        if |rest| > 0 {
          assert Tiles(rest)[0] == rest[0].v;
          assert s[1] == bs[1].v;
        }
    }
  }

  /**
   The slid line is the greedy pairing of its tiles, padded with empties; the
   score it adds is the sum of the merged tiles.
   */
  lemma SlideIsGreedyPairing(s: seq<nat>, bs: seq<Block>)
    requires Tiles(bs) == Compress(s) && Greedy(bs)
    ensures SlideAndMerge(s) == Slide(Pad(Results(bs)), Earned(bs))
  {
    MergeIsGreedyPairing(Compress(s), bs);
  }

  /** One step of the in-place pass that merges cell i into its right neighbour. */
  lemma MergeStepJoin(s: seq<nat>, i: nat)
    requires i + 1 < |s| && s[i] == s[i + 1]
    ensures var t := s[..i] + [2 * s[i]] + s[i + 2..];
      && t[..i + 1] + Merge(t[i + 1..]).line == s[..i] + Merge(s[i..]).line
      && 2 * s[i] + Merge(t[i + 1..]).gain == Merge(s[i..]).gain
  {
    var t := s[..i] + [2 * s[i]] + s[i + 2..];
    var tail := s[i..];
    assert tail[0] == s[i] && tail[1] == s[i + 1];
    assert tail[2..] == s[i + 2..];
    assert t[i + 1..] == s[i + 2..];
    assert t[..i + 1] == s[..i] + [2 * s[i]];
  }

  /** One step of the in-place pass that leaves cell i alone. */
  lemma MergeStepKeep(s: seq<nat>, i: nat)
    requires i + 1 < |s| && s[i] != s[i + 1]
    ensures s[..i + 1] + Merge(s[i + 1..]).line == s[..i] + Merge(s[i..]).line
    ensures Merge(s[i + 1..]).gain == Merge(s[i..]).gain
  {
    var tail := s[i..];
    assert tail[0] == s[i] && tail[1] == s[i + 1];
    assert tail[1..] == s[i + 1..];
    assert s[..i + 1] == s[..i] + [s[i]];
  }

  /**
   The source's loop, step for step: filter out empties, merge in place with
   a splice while scanning left to right, then push empties until the line
   has four cells.
   */
  method SlideAndMergeInPlace(line: seq<nat>) returns (newLine: seq<nat>, gained: nat)
    ensures Slide(newLine, gained) == SlideAndMerge(line)
  {
    var merged;
    merged, gained := MergeInPlace(Compress(line));
    newLine := PushEmpties(merged);
  }

  /** The merge loop: merge cell i into cell i+1's place and splice it out. */
  method MergeInPlace(c: seq<nat>) returns (newLine: seq<nat>, gained: nat)
    ensures Slide(newLine, gained) == Merge(c)
  {
    newLine := c;
    gained := 0;
    var i := 0;
    while i < |newLine| - 1
      invariant 0 <= i <= |newLine|
      invariant newLine[..i] + Merge(newLine[i..]).line == Merge(c).line
      invariant gained + Merge(newLine[i..]).gain == Merge(c).gain
      decreases |newLine| - i
    {
      if newLine[i] == newLine[i + 1] {
        var doubled := 2 * newLine[i];
        MergeStepJoin(newLine, i);
        newLine := newLine[..i] + [doubled] + newLine[i + 2..];
        gained := gained + doubled;
      } else {
        MergeStepKeep(newLine, i);
      }
      i := i + 1;
    }
    assert newLine[..i] + newLine[i..] == newLine;
  }

  /** The padding loop: push empty cells until the line is four cells long. */
  method PushEmpties(merged: seq<nat>) returns (newLine: seq<nat>)
    ensures newLine == Pad(merged)
  {
    newLine := merged;
    while |newLine| < Size
      invariant |merged| <= |newLine| <= if |merged| < Size then Size else |merged|
      invariant newLine[..|merged|] == merged
      invariant forall k :: |merged| <= k < |newLine| ==> newLine[k] == 0
      decreases Size - |newLine|
    {
      newLine := newLine + [0];
    }
  }

  /** [2,2,2,2] slides to [4,4,0,0] earning 8: the new 4s do not merge again. */
  lemma FourTwos()
    ensures SlideAndMerge([2, 2, 2, 2]) == Slide([4, 4, 0, 0], 8)
  {
    var s := [2, 2, 2, 2];
    CompressOccupied(s);
    assert s[2..] == [2, 2];
    assert Merge([2, 2]) == Slide([4], 4) by {
      assert [2, 2][2..] == [];
    }
  }

  /** [2,0,2,2] slides to [4,2,0,0] earning 4: the trailing 2 stays single. */
  lemma GapThenPair()
    ensures SlideAndMerge([2, 0, 2, 2]) == Slide([4, 2, 0, 0], 4)
  {
    assert Compress([2, 0, 2, 2]) == [2, 2, 2] by {
      CompressConcat([2, 0], [2, 2]);
      CompressOccupied([2, 2]);
      assert [2, 0][1..] == [0];
    }
    var bs := [Pair(2), Single(2)];
    assert Tiles(bs) == [2, 2, 2];
    MergeIsGreedyPairing([2, 2, 2], bs);
  }
}
