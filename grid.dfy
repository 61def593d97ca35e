/**
 * The board of the three-colour Game of Life: its fixed dimensions, the cell
 * type, bounds-checked access and the small arithmetic helpers (sums, row-major
 * flattening) that the other modules share.
 *
 * The source declares the board as `[[Option<usize>; RES[0]]; RES[1]]`: the outer
 * index is the row (Height = RES[1]) and the inner index the column
 * (Width = RES[0]).  Here a board is a sequence of rows.
 */
module Grid {

  datatype Option<T> = None | Some(value: T)

  /** RES[0] = 630 / 5, the number of columns. */
  const Width: nat := 126
  /** RES[1] = 480 / 5, the number of rows. */
  const Height: nat := 96
  /** COLOR_COUNT, the size of the palette. */
  const ColorCount: nat := 3
  /** PLACEMENTS, the cells seeded per colour (see PlacementsFormula). */
  const Placements: nat := 896

  /** The constants are the source's expressions evaluated: RES = [630 / 5, 480 / 5]
      and PLACEMENTS = RES[0] * RES[1] * 2 / 9 / COLOR_COUNT with truncating
      division from left to right.  The seeder's PLACEMENTS rounds of
      COLOR_COUNT cells fit on the board. */
  lemma PlacementsFormula()
    ensures Width == 630 / 5 && Height == 480 / 5
    ensures Placements == Width * Height * 2 / 9 / ColorCount
    ensures Placements * ColorCount <= Width * Height
  {
  }

  /** A palette index.  The update rule indexes `n[c]` with a cell's colour, so a
      colour outside the palette would abort the source; the type rules it out. */
  type Color = c: nat | c < ColorCount

  type Cell = Option<Color>

  type Board = seq<seq<Cell>>

  /** A board has Height rows of Width cells each. */
  predicate IsGrid(g: Board) {
    |g| == Height && forall i :: 0 <= i < |g| ==> |g[i]| == Width
  }

  /** Bounds-checked read: a position outside the board (negative, or past the
      last row or column) reads as empty, as `grid.get(i).and_then(...)` does. */
  function Get(g: Board, i: int, j: int): (r: Cell)
    ensures r.Some? ==> 0 <= i < |g| && 0 <= j < |g[i]| && r == g[i][j]
    ensures 0 <= i < |g| && 0 <= j < |g[i]| ==> r == g[i][j]
  {
    if 0 <= i < |g| && 0 <= j < |g[i]| then g[i][j] else None
  }

  /** No cell of the board is occupied. */
  predicate IsEmpty(g: Board) {
    forall i, j :: 0 <= i < |g| && 0 <= j < |g[i]| ==> g[i][j] == None
  }

  /** The board with no occupied cell. */
  function EmptyGrid(): (g: Board)
    ensures IsGrid(g)
    ensures IsEmpty(g)
  {
    seq(Height, _ => seq(Width, _ => None))
  }

  /** The sum of a sequence of counts (`iter().reduce(|a, b| a + b).unwrap_or(0)`). */
  function Sum(s: seq<nat>): (total: nat)
  {
    if s == [] then 0 else Sum(s[..|s| - 1]) + s[|s| - 1]
  }

  /** Every entry is at most the sum. */
  lemma {:induction false} SumAtLeastEntry(s: seq<nat>, c: int)
    requires 0 <= c < |s|
    ensures s[c] <= Sum(s)
  {
    if c < |s| - 1 {
      SumAtLeastEntry(s[..|s| - 1], c);
    }
  }

  /** Two distinct entries together are at most the sum. */
  lemma {:induction false} SumAtLeastPair(s: seq<nat>, c: int, d: int)
    requires 0 <= c < |s| && 0 <= d < |s| && c != d
    ensures s[c] + s[d] <= Sum(s)
  {
    var last := |s| - 1;
    if c == last {
      SumAtLeastEntry(s[..last], d);
    } else if d == last {
      SumAtLeastEntry(s[..last], c);
    } else {
      SumAtLeastPair(s[..last], c, d);
    }
  }

  /** The cells of a board, row after row. */
  function Flatten(g: Board): (f: seq<Cell>)
    ensures |g| == 0 ==> f == []
  {
    if g == [] then [] else Flatten(g[..|g| - 1]) + g[|g| - 1]
  }

  /** On a board of the right shape, cell (i, j) sits at row-major index i * Width + j. */
  lemma {:induction false} FlattenAt(g: Board, i: int, j: int)
    requires forall r :: 0 <= r < |g| ==> |g[r]| == Width
    requires 0 <= i < |g| && 0 <= j < Width
    ensures |Flatten(g)| == |g| * Width
    ensures Flatten(g)[i * Width + j] == g[i][j]
  {
    var last := |g| - 1;
    FlattenLength(g);
    FlattenLength(g[..last]);
    assert Flatten(g) == Flatten(g[..last]) + g[last];
    if i < last {
      assert i * Width + j < last * Width by { MulStep(i, last); }
      FlattenAt(g[..last], i, j);
    } else {
      assert i * Width + j == |Flatten(g[..last])| + j;
    }
  }

  /** Rows before row r take up fewer than r * Width cells. */
  lemma MulStep(i: int, r: int)
    requires 0 <= i < r
    ensures i * Width + Width <= r * Width
  {
  }

  /** A board of the right shape flattens to |g| * Width cells. */
  lemma {:induction false} FlattenLength(g: Board)
    requires forall r :: 0 <= r < |g| ==> |g[r]| == Width
    ensures |Flatten(g)| == |g| * Width
  {
    if g != [] {
      FlattenLength(g[..|g| - 1]);
    }
  }

  /** Growing a prefix by one entry adds one occurrence of that entry. */
  lemma CountPrefix<T>(s: seq<T>, x: T, k: int)
    requires 0 < k <= |s|
    ensures multiset(s[..k])[x] == multiset(s[..k - 1])[x] + (if s[k - 1] == x then 1 else 0)
  {
    assert s[..k] == s[..k - 1] + [s[k - 1]];
  }

  /** How many cells of each palette colour a sequence of cells holds. */
  function ColourTally(s: seq<Cell>): (t: seq<nat>)
    ensures |t| == ColorCount
    ensures forall c :: 0 <= c < ColorCount ==> t[c] == multiset(s)[Some(c)]
  {
    seq(ColorCount, c requires 0 <= c < ColorCount => multiset(s)[Some(c)])
  }

  /** The cells of s that hold a colour below k. */
  function OccupiedBelow(s: seq<Cell>, k: nat): (occupied: nat)
  {
    if s == [] then 0
    else OccupiedBelow(s[..|s| - 1], k) + (if s[|s| - 1].Some? && s[|s| - 1].value < k then 1 else 0)
  }

  lemma {:induction false} OccupiedBelowStep(s: seq<Cell>, k: nat)
    requires k < ColorCount
    ensures OccupiedBelow(s, k + 1) == OccupiedBelow(s, k) + multiset(s)[Some(k)]
  {
    if s != [] {
      var init, last := s[..|s| - 1], s[|s| - 1];
      assert s == init + [last];
      OccupiedBelowStep(init, k);
    }
  }

  lemma {:induction false} OccupiedBelowAll(s: seq<Cell>)
    ensures OccupiedBelow(s, ColorCount) == |s| - multiset(s)[None]
  {
    if s != [] {
      var init, last := s[..|s| - 1], s[|s| - 1];
      assert s == init + [last];
      OccupiedBelowAll(init);
    }
  }

  lemma {:induction false} TallyPrefixSum(s: seq<Cell>, k: nat)
    requires k <= ColorCount
    ensures Sum(ColourTally(s)[..k]) == OccupiedBelow(s, k)
  {
    if k == 0 {
      OccupiedBelowNone(s);
    } else {
      var t := ColourTally(s);
      assert t[..k][..k - 1] == t[..k - 1];
      TallyPrefixSum(s, k - 1);
      OccupiedBelowStep(s, k - 1);
    }
  }

  lemma {:induction false} OccupiedBelowNone(s: seq<Cell>)
    ensures OccupiedBelow(s, 0) == 0
  {
    if s != [] {
      OccupiedBelowNone(s[..|s| - 1]);
    }
  }

  /** Summed over the palette, the tally counts exactly the occupied cells. */
  lemma TallySum(s: seq<Cell>)
    ensures Sum(ColourTally(s)) == |s| - multiset(s)[None]
    ensures Sum(ColourTally(s)) <= |s|
  {
    var t := ColourTally(s);
    assert t[..ColorCount] == t;
    TallyPrefixSum(s, ColorCount);
    OccupiedBelowAll(s);
  }
}
