/**
 * The seeder `new_grid`: an empty board on which PLACEMENTS rounds each place
 * one cell of every colour, at positions taken in turn from a shuffled list of
 * all cells.  The random shuffles are inputs: `order` is the shuffled position
 * list (as flat row-major indices) and `palettes[r]` the colour order of round r.
 */
module Seeder {
  import opened Grid
  import Histogram

  /** An entry of `positions`: `[column, row]`. */
  datatype Position = Position(col: nat, row: nat)

  /** The unshuffled `positions[k]`: `[k % RES[0], k / RES[0]]`, row-major order. */
  function PositionOf(k: nat): (p: Position)
    ensures p.col < Width && p.row * Width + p.col == k
  {
    Position(k % Width, k / Width)
  }

  /** A flat index of the board names a cell in range. */
  lemma RowInRange(k: nat)
    requires k < Width * Height
    ensures PositionOf(k).row < Height
  {
    var p := PositionOf(k);
    if p.row >= Height {
      MulStep(Height - 1, p.row);
      assert false;
    }
  }

  /** The row-major index of cell (row, col): the inverse of PositionOf. */
  function FlatIndex(row: nat, col: nat): (k: nat)
    requires row < Height && col < Width
    ensures k < Width * Height
    ensures PositionOf(k) == Position(col, row)
  {
    MulStep(row, Height);
    RowMajorUnique(row, col, row * Width + col);
    row * Width + col
  }

  /** The cell at flat row-major index k. */
  function At(g: Board, k: nat): (cell: Cell)
    requires IsGrid(g) && k < Width * Height
  {
    RowInRange(k);
    g[PositionOf(k).row][PositionOf(k).col]
  }

  /** The outcome of `positions.shuffle(rng)`: a permutation of the flat cell indices. */
  predicate IsShuffle(order: seq<nat>)
  {
    && |order| == Width * Height
    && (forall k :: 0 <= k < |order| ==> order[k] < Width * Height)
    && (forall a, b :: 0 <= a < b < |order| ==> order[a] != order[b])
  }

  /** `colors` before any shuffle: `array_init(|i| i)`. */
  function Palette(): (p: seq<Color>)
    ensures |p| == ColorCount
  {
    seq(ColorCount, c requires 0 <= c < ColorCount => c)
  }

  /** The outcome of `colors.shuffle(rng)`: a reordering of the palette. */
  predicate IsPaletteOrder(p: seq<Color>)
  {
    |p| == ColorCount && multiset(p) == multiset(Palette())
  }

  /** One colour order of COLOR_COUNT entries for each of the PLACEMENTS rounds. */
  predicate AreRounds(palettes: seq<seq<Color>>)
  {
    |palettes| == Placements && forall r :: 0 <= r < |palettes| ==> |palettes[r]| == ColorCount
  }

  /** The successive outcomes of `colors.shuffle(rng)`, one per round. */
  predicate ArePaletteOrders(palettes: seq<seq<Color>>)
  {
    AreRounds(palettes) && forall r :: 0 <= r < |palettes| ==> IsPaletteOrder(palettes[r])
  }

  /** The colour of placement k: entry k % COLOR_COUNT of round k / COLOR_COUNT. */
  function ColourOf(palettes: seq<seq<Color>>, k: nat): (c: Color)
    requires AreRounds(palettes) && k < Placements * ColorCount
  {
    palettes[k / ColorCount][k % ColorCount]
  }

  /** n empty cells: the flattened `[[None; RES[0]]; RES[1]]` when n is Width * Height. */
  function Blank(n: nat): (s: seq<Cell>)
    ensures |s| == n && forall k :: 0 <= k < n ==> s[k] == None
  {
    if n == 0 then [] else Blank(n - 1) + [None]
  }

  /** The board, flattened row-major, after the first n placements. */
  function Seeded(order: seq<nat>, palettes: seq<seq<Color>>, n: nat): (s: seq<Cell>)
    requires IsShuffle(order) && AreRounds(palettes) && n <= Placements * ColorCount
    ensures |s| == Width * Height
  {
    if n == 0 then Blank(|order|)
    else Seeded(order, palettes, n - 1)[order[n - 1] := Some(ColourOf(palettes, n - 1))]
  }

  /** After n placements, the k-th shuffled position holds the k-th colour for
      k < n, and every position not yet reached is empty. */
  lemma {:induction false} SeededAt(order: seq<nat>, palettes: seq<seq<Color>>, n: nat)
    requires IsShuffle(order) && AreRounds(palettes) && n <= Placements * ColorCount
    ensures forall k :: 0 <= k < n ==> Seeded(order, palettes, n)[order[k]] == Some(ColourOf(palettes, k))
    ensures forall k :: n <= k < |order| ==> Seeded(order, palettes, n)[order[k]] == None
  {
    if n > 0 {
      SeededAt(order, palettes, n - 1);
    }
  }

  /** The placements among the first n that have colour c. */
  function Placed(palettes: seq<seq<Color>>, n: nat, c: Color): (placed: nat)
    requires AreRounds(palettes) && n <= Placements * ColorCount
  {
    if n == 0 then 0 else Placed(palettes, n - 1, c) + (if ColourOf(palettes, n - 1) == c then 1 else 0)
  }

  /** A cell sequence with nothing placed holds |s| empty cells. */
  lemma {:induction false} AllEmptyCount(s: seq<Cell>)
    requires forall k :: 0 <= k < |s| ==> s[k] == None
    ensures multiset(s)[None] == |s|
  {
    if s != [] {
      assert s == s[..|s| - 1] + [None];
      AllEmptyCount(s[..|s| - 1]);
    }
  }

  /** Placement n lands on a cell that the first n placements left empty. */
  lemma NextPlacementIsEmpty(order: seq<nat>, palettes: seq<seq<Color>>, n: nat)
    requires IsShuffle(order) && AreRounds(palettes) && n < Placements * ColorCount
    ensures Seeded(order, palettes, n)[order[n]] == None
  {
    SeededAt(order, palettes, n);
  }

  /** Filling an empty cell with v removes one empty cell and adds one v. */
  lemma FillEmpty(s: seq<Cell>, o: nat, v: Cell, x: Cell)
    requires o < |s| && s[o] == None
    ensures multiset(s[o := v])[x] == multiset(s)[x] - (if x == None then 1 else 0) + (if v == x then 1 else 0)
  {
  }

  /** Each placement fills a distinct empty cell: after n placements the board
      holds Placed(n, c) cells of colour c. */
  lemma {:induction false} SeededColourCount(order: seq<nat>, palettes: seq<seq<Color>>, n: nat, c: Color)
    requires IsShuffle(order) && AreRounds(palettes) && n <= Placements * ColorCount
    ensures multiset(Seeded(order, palettes, n))[Some(c)] == Placed(palettes, n, c)
  {
    if n == 0 {
      AllEmptyCount(Seeded(order, palettes, 0));
    } else {
      SeededColourCount(order, palettes, n - 1, c);
      NextPlacementIsEmpty(order, palettes, n - 1);
      FillEmpty(Seeded(order, palettes, n - 1), order[n - 1], Some(ColourOf(palettes, n - 1)), Some(c));
    }
  }

  /** After n placements the board holds Width * Height - n empty cells. */
  lemma {:induction false} SeededEmptyCount(order: seq<nat>, palettes: seq<seq<Color>>, n: nat)
    requires IsShuffle(order) && AreRounds(palettes) && n <= Placements * ColorCount
    ensures multiset(Seeded(order, palettes, n))[None] == Width * Height - n
  {
    if n == 0 {
      AllEmptyCount(Seeded(order, palettes, 0));
    } else {
      SeededEmptyCount(order, palettes, n - 1);
      NextPlacementIsEmpty(order, palettes, n - 1);
      FillEmpty(Seeded(order, palettes, n - 1), order[n - 1], Some(ColourOf(palettes, n - 1)), None);
    }
  }

  /** Every reordering of the palette holds each colour exactly once. */
  lemma PaletteOrderHoldsEachOnce(p: seq<Color>, c: Color)
    requires IsPaletteOrder(p)
    ensures multiset(p)[c] == 1
  {
    assert Palette() == [0, 1, 2];
  }

  /** Placement r * COLOR_COUNT + t is entry t of round r. */
  lemma PlacementIndex(r: nat, t: nat)
    requires t < ColorCount
    ensures (r * ColorCount + t) / ColorCount == r && (r * ColorCount + t) % ColorCount == t
  {
  }

  /** Within round r, the first t placements of colour c are those of the
      earlier rounds plus the occurrences of c among the first t palette entries. */
  lemma {:induction false} PlacedWithinRound(palettes: seq<seq<Color>>, r: nat, t: nat, c: Color)
    requires AreRounds(palettes) && r < Placements && t <= ColorCount
    ensures Placed(palettes, r * ColorCount + t, c) == Placed(palettes, r * ColorCount, c) + multiset(palettes[r][..t])[c]
  {
    if t > 0 {
      var m := r * ColorCount + t - 1;
      PlacedWithinRound(palettes, r, t - 1, c);
      PlacementIndex(r, t - 1);
      assert ColourOf(palettes, m) == palettes[r][t - 1];
      assert Placed(palettes, m + 1, c) == Placed(palettes, m, c) + (if palettes[r][t - 1] == c then 1 else 0);
      CountPrefix(palettes[r], c, t);
    }
  }

  /** Every full round places exactly one cell of each colour. */
  lemma {:induction false} PlacedPerRound(palettes: seq<seq<Color>>, r: nat, c: Color)
    requires ArePaletteOrders(palettes) && r <= Placements
    ensures Placed(palettes, r * ColorCount, c) == r
  {
    if r > 0 {
      PlacedPerRound(palettes, r - 1, c);
      PlacedWithinRound(palettes, r - 1, ColorCount, c);
      assert palettes[r - 1][..ColorCount] == palettes[r - 1];
      PaletteOrderHoldsEachOnce(palettes[r - 1], c);
    }
  }

  /** A board whose cell (i, j) is entry i * Width + j of s flattens to s. */
  lemma FlattenIsRowMajor(g: Board, s: seq<Cell>)
    requires IsGrid(g) && |s| == Width * Height
    requires forall i, j :: 0 <= i < Height && 0 <= j < Width ==> g[i][j] == s[i * Width + j]
    ensures Flatten(g) == s
  {
    FlattenLength(g);
    forall k | 0 <= k < |s|
      ensures Flatten(g)[k] == s[k]
    {
      var p := PositionOf(k);
      FlattenAt(g, p.row, p.col);
    }
  }

  /** Row-major indices are unique: cell (row, col) of a Width-wide board is flat index k
      exactly when row and col are k's quotient and remainder by Width. */
  lemma RowMajorUnique(row: nat, col: nat, k: nat)
    requires col < Width
    ensures row * Width + col == k <==> row == k / Width && col == k % Width
  {
  }

  /** A board whose cell (row, col) is entry FlatIndex(row, col) of the cells
      seeded by the first n placements: those placements sit at the shuffled
      positions in order and every other cell is empty. */
  lemma SeededBoardCells(g: Board, order: seq<nat>, palettes: seq<seq<Color>>, n: nat)
    requires IsShuffle(order) && AreRounds(palettes) && IsGrid(g) && n <= Placements * ColorCount
    requires forall row, col :: 0 <= row < Height && 0 <= col < Width ==>
      g[row][col] == Seeded(order, palettes, n)[FlatIndex(row, col)]
    ensures forall k :: 0 <= k < n ==> At(g, order[k]) == Some(ColourOf(palettes, k))
    ensures forall k :: n <= k < Width * Height ==> At(g, order[k]) == None
  {
    var s := Seeded(order, palettes, n);
    SeededAt(order, palettes, n);
    forall k | 0 <= k < Width * Height
      ensures At(g, order[k]) == s[order[k]]
    {
      var p := PositionOf(order[k]);
      RowInRange(order[k]);
      assert FlatIndex(p.row, p.col) == order[k];
    }
  }

  /** The same board, flattened row-major, is the seeded cell sequence. */
  lemma SeededFlatten(g: Board, order: seq<nat>, palettes: seq<seq<Color>>, n: nat)
    requires IsShuffle(order) && AreRounds(palettes) && IsGrid(g) && n <= Placements * ColorCount
    requires forall row, col :: 0 <= row < Height && 0 <= col < Width ==>
      g[row][col] == Seeded(order, palettes, n)[FlatIndex(row, col)]
    ensures Flatten(g) == Seeded(order, palettes, n)
  {
    var s := Seeded(order, palettes, n);
    forall i, j | 0 <= i < Height && 0 <= j < Width
      ensures g[i][j] == s[i * Width + j]
    {
      assert FlatIndex(i, j) == i * Width + j;
    }
    FlattenIsRowMajor(g, s);
  }

  /** Once all rounds are placed, the board holds exactly Placements cells of
      each colour, so Placements * ColorCount occupied cells in all. */
  lemma SeededBoardCounts(g: Board, order: seq<nat>, palettes: seq<seq<Color>>, n: nat)
    requires IsShuffle(order) && ArePaletteOrders(palettes) && IsGrid(g) && n == Placements * ColorCount
    requires forall row, col :: 0 <= row < Height && 0 <= col < Width ==>
      g[row][col] == Seeded(order, palettes, n)[FlatIndex(row, col)]
    ensures forall c: Color :: Histogram.ColourCount(g, c) == Placements
    ensures Histogram.Total(g) == Placements * ColorCount
  {
    SeededFlatten(g, order, palettes, n);
    forall c: Color
      ensures Histogram.ColourCount(g, c) == Placements
    {
      Histogram.ColourCountIsCellCount(g, c);
      SeededColourCount(order, palettes, n, c);
      PlacedPerRound(palettes, Placements, c);
    }
    SeededEmptyCount(order, palettes, n);
    Histogram.TotalIsOccupied(g);
  }

  /** `positions` after the shuffle: entry k is the cell at flat index order[k]. */
  function ShuffledPositions(order: seq<nat>): (ps: seq<Position>)
    ensures |ps| == |order|
    ensures forall k :: 0 <= k < |order| ==> ps[k] == PositionOf(order[k])
  {
    seq(|order|, k requires 0 <= k < |order| => PositionOf(order[k]))
  }

  /** The set of values a sequence takes. */
  ghost function Values(s: seq<nat>): (vs: set<nat>)
    ensures forall x :: x in vs <==> x in s
  {
    set x | x in s
  }

  /** The naturals below n. */
  ghost function Below(n: nat): (xs: set<nat>)
    ensures forall x: nat :: x in xs <==> x < n
  {
    if n == 0 then {} else Below(n - 1) + {n - 1}
  }

  /** The values of a sequence without repeats are as many as its entries. */
  lemma {:induction false} DistinctCard(s: seq<nat>)
    requires forall a, b :: 0 <= a < b < |s| ==> s[a] != s[b]
    ensures |Values(s)| == |s|
  {
    if s != [] {
      var init, last := s[..|s| - 1], s[|s| - 1];
      DistinctCard(init);
      assert s == init + [last];
      assert Values(s) == Values(init) + {last};
      assert last !in init;
    }
  }

  /** There are n naturals below n. */
  lemma {:induction false} RangeCard(n: nat)
    ensures |Below(n)| == n
  {
    if n > 0 {
      RangeCard(n - 1);
      var prev := Below(n - 1);
      assert n - 1 !in prev;
      assert |prev + {n - 1}| == |prev| + 1;
    }
  }

  /** A subset is no larger than its superset. */
  lemma {:induction false} SubsetCard(a: set<nat>, b: set<nat>)
    requires a <= b
    ensures |a| <= |b|
    decreases a
  {
    if a != {} {
      var x :| x in a;
      SubsetCard(a - {x}, b - {x});
    }
  }

  /** Pigeonhole: n distinct values below n take every value below n. */
  lemma DistinctCovers(s: seq<nat>, n: nat)
    requires |s| == n
    requires forall k :: 0 <= k < |s| ==> s[k] < n
    requires forall a, b :: 0 <= a < b < |s| ==> s[a] != s[b]
    ensures forall x :: 0 <= x < n ==> x in s
  {
    DistinctCard(s);
    RangeCard(n);
    forall x | 0 <= x < n
      ensures x in s
    {
      var others := Below(n) - {x};
      assert |others| == n - 1;
      if x !in s {
        SubsetCard(Values(s), others);
        assert false;
      }
    }
  }

  /** `positions.shuffle(rng)` leaves a permutation of all cells: every entry is
      on the board, no cell appears twice, and every cell appears. */
  lemma ShuffledPositionsCoverBoard(order: seq<nat>)
    requires IsShuffle(order)
    ensures forall k :: 0 <= k < |order| ==>
      ShuffledPositions(order)[k].row < Height && ShuffledPositions(order)[k].col < Width
    ensures forall a, b :: 0 <= a < b < |order| ==> ShuffledPositions(order)[a] != ShuffledPositions(order)[b]
    ensures forall row: nat, col: nat :: row < Height && col < Width ==>
      Position(col, row) in ShuffledPositions(order)
  {
    var ps := ShuffledPositions(order);
    forall k | 0 <= k < |order|
      ensures ps[k].row < Height && ps[k].col < Width
    {
      RowInRange(order[k]);
    }
    DistinctCovers(order, Width * Height);
    forall row: nat, col: nat | row < Height && col < Width
      ensures Position(col, row) in ps
    {
      var f := FlatIndex(row, col);
      assert f in order;
      var k :| 0 <= k < |order| && order[k] == f;
      assert ps[k] == Position(col, row);
    }
  }

  /** The Height x Width array `grid` holds, cell by cell, the row-major cells s. */
  ghost predicate Holds(grid: array2<Cell>, s: seq<Cell>)
    reads grid
  {
    && grid.Length0 == Height && grid.Length1 == Width && |s| == Width * Height
    && forall row, col :: 0 <= row < Height && 0 <= col < Width ==> grid[row, col] == s[FlatIndex(row, col)]
  }

  /** Row `row` of the array `grid` as a sequence of cells. */
  function RowOf(grid: array2<Cell>, row: nat): (line: seq<Cell>)
    reads grid
    requires row < grid.Length0
    ensures |line| == grid.Length1
    ensures forall col :: 0 <= col < grid.Length1 ==> line[col] == grid[row, col]
  {
    seq(grid.Length1, col requires 0 <= col < grid.Length1 reads grid => grid[row, col])
  }

  /** The board an array `grid` holds, row by row. */
  function Snapshot(grid: array2<Cell>): (g: Board)
    reads grid
    ensures |g| == grid.Length0
    ensures forall row :: 0 <= row < grid.Length0 ==> g[row] == RowOf(grid, row)
  {
    seq(grid.Length0, row requires 0 <= row < grid.Length0 reads grid => RowOf(grid, row))
  }

  /** A Height x Width array holding the seeded cells s snapshots to a board
      whose cell (row, col) is s[FlatIndex(row, col)]. */
  lemma SnapshotHolds(grid: array2<Cell>, s: seq<Cell>)
    requires Holds(grid, s)
    ensures IsGrid(Snapshot(grid))
    ensures forall row, col :: 0 <= row < Height && 0 <= col < Width ==>
      Snapshot(grid)[row][col] == s[FlatIndex(row, col)]
  {
  }

  /** `positions`: every cell as [column, row] in row-major order, then
      `positions.shuffle(rng)`, whose outcome is given by `order`. */
  method NewPositions(order: seq<nat>) returns (positions: array<Position>)
    requires IsShuffle(order)
    ensures fresh(positions)
    ensures positions[..] == ShuffledPositions(order)
  {
    positions := new Position[Width * Height](k requires 0 <= k => PositionOf(k));
    var unshuffled := positions[..];
    forall k | 0 <= k < positions.Length {
      positions[k] := unshuffled[order[k]];
    }
  }

  /** `new_grid`: start from an empty board, take the shuffled positions in
      order, and in each of PLACEMENTS rounds place the colours in that round's
      order.  Exactly PLACEMENTS cells of each colour are placed and all other
      cells stay empty. */
  method NewGrid(order: seq<nat>, palettes: seq<seq<Color>>) returns (g: Board)
    requires IsShuffle(order) && ArePaletteOrders(palettes)
    ensures IsGrid(g)
    ensures forall k :: 0 <= k < Placements * ColorCount ==>
      At(g, order[k]) == Some(ColourOf(palettes, k))
    ensures forall k :: Placements * ColorCount <= k < Width * Height ==>
      At(g, order[k]) == None
    ensures forall c: Color :: Histogram.ColourCount(g, c) == Placements
    ensures Histogram.Total(g) == Placements * ColorCount
  {
    var grid := new Cell[Height, Width]((_, _) => None);
    assert Holds(grid, Seeded(order, palettes, 0));

    var positions := NewPositions(order);

    var i := 0;
    var colors := new Color[ColorCount](c requires 0 <= c < ColorCount => c);

    for r := 0 to Placements
      invariant i == r * ColorCount
      invariant positions[..] == ShuffledPositions(order)
      invariant Holds(grid, Seeded(order, palettes, i))
    {
      // colors.shuffle(rng), with the outcome of round r given by `palettes[r]`
      forall t | 0 <= t < ColorCount {
        colors[t] := palettes[r][t];
      }
      for t := 0 to ColorCount
        invariant i == r * ColorCount + t
        invariant colors[..] == palettes[r]
        invariant positions[..] == ShuffledPositions(order)
        invariant Holds(grid, Seeded(order, palettes, i))
      {
        PlacementIndex(r, t);
        var color := colors[t];
        var p := positions[i];
        RowInRange(order[i]);
        grid[p.row, p.col] := Some(color);
        i := i + 1;
      }
    }

    g := Snapshot(grid);
    SnapshotHolds(grid, Seeded(order, palettes, i));
    SeededBoardCells(g, order, palettes, i);
    SeededBoardCounts(g, order, palettes, i);
  }
}
