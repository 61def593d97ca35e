/**
 * The rule engine: one active tick first translates the whole board by the
 * drift vector, then computes every cell of a fresh board from the translated
 * one (survival, death and birth with colour choice).
 */
module Rules {
  import opened Grid
  import opened Drift

  // ---------------------------------------------------------------------------
  // Step A: translate
  // ---------------------------------------------------------------------------

  /** Cell (i, j) of the result takes the old cell (i - dy, j - dx); a source
      position off the board gives an empty cell, so nothing wraps around.
      The source first rejects i < dy or j < dx (which would make the unsigned
      source index negative) and then reads with a bounds-checked `get`. */
  function Translate(g: Board, m: Shift): (t: Board)
    requires IsGrid(g)
    ensures IsGrid(t)
    ensures forall i, j :: 0 <= i < Height && 0 <= j < Width ==>
      t[i][j] == (if 0 <= i - m.dy < Height && 0 <= j - m.dx < Width then g[i - m.dy][j - m.dx] else None)
  {
    seq(Height, i => seq(Width, j => Shifted(g, m, i, j)))
  }

  /** Cell (i, j) of the translated board, as the closure passed to `array_init` computes it. */
  function Shifted(g: Board, m: Shift, i: int, j: int): (cell: Cell)
    requires IsGrid(g)
    ensures cell == (if 0 <= i - m.dy < Height && 0 <= j - m.dx < Width then g[i - m.dy][j - m.dx] else None)
  {
    if i < m.dy || j < m.dx then None else Get(g, i - m.dy, j - m.dx)
  }

  /** A zero shift leaves the board as it is. */
  lemma TranslateByZero(g: Board)
    requires IsGrid(g)
    ensures Translate(g, Shift(0, 0)) == g
  {
    var t := Translate(g, Shift(0, 0));
    forall i | 0 <= i < Height
      ensures t[i] == g[i]
    {
    }
  }

  /** Shifting back restores every cell that the first shift did not push off
      the board, and leaves empty exactly those it did: content is clipped,
      never wrapped to the opposite edge. */
  lemma TranslateBack(g: Board, m: Shift)
    requires IsGrid(g)
    ensures forall i, j :: 0 <= i < Height && 0 <= j < Width ==>
      Translate(Translate(g, m), Shift(-m.dx, -m.dy))[i][j] ==
        (if 0 <= i + m.dy < Height && 0 <= j + m.dx < Width then g[i][j] else None)
  {
    var t := Translate(g, m);
    var back := Translate(t, Shift(-m.dx, -m.dy));
    forall i, j | 0 <= i < Height && 0 <= j < Width
      ensures back[i][j] == (if 0 <= i + m.dy < Height && 0 <= j + m.dx < Width then g[i][j] else None)
    {
      if 0 <= i + m.dy < Height && 0 <= j + m.dx < Width {
        assert back[i][j] == t[i + m.dy][j + m.dx];
      }
    }
  }

  // ---------------------------------------------------------------------------
  // Step B: neighbour counts
  // ---------------------------------------------------------------------------

  /** One step of the loop nest: offset (di, dj) adds one to n[c] when it is not
      the cell itself and the cell at (i - di, j - dj) is on the board and holds c. */
  function Hit(g: Board, i: int, j: int, c: Color, di: int, dj: int): (hit: nat)
  {
    if (di != 0 || dj != 0) && Get(g, i - di, j - dj) == Some(c) then 1 else 0
  }

  /** The hits of offsets (di, -1) .. (di, dj - 1): the inner loop after it has run up to dj. */
  function RowHits(g: Board, i: int, j: int, c: Color, di: int, dj: int): (hits: nat)
    requires -1 <= dj <= 2
    decreases dj + 1
  {
    if dj == -1 then 0 else RowHits(g, i, j, c, di, dj - 1) + Hit(g, i, j, c, di, dj - 1)
  }

  /** The hits of rows -1 .. di - 1 of offsets: the middle loop after it has run up to di. */
  function WindowHits(g: Board, i: int, j: int, c: Color, di: int): (hits: nat)
    requires -1 <= di <= 2
    decreases di + 1
  {
    if di == -1 then 0 else WindowHits(g, i, j, c, di - 1) + RowHits(g, i, j, c, di - 1, 2)
  }

  /** `n[c]` for cell (i, j): what the loop nest over di, dj in -1..=1 counts. */
  function NeighbourCount(g: Board, i: int, j: int, c: Color): (hits: nat)
  {
    WindowHits(g, i, j, c, 2)
  }

  /** The Moore neighbourhood of (i, j), excluding the cell itself; a position
      off the board reads as empty. */
  function MooreNeighbours(g: Board, i: int, j: int): (s: seq<Cell>)
    ensures |s| == 8
  {
    [Get(g, i - 1, j - 1), Get(g, i - 1, j), Get(g, i - 1, j + 1),
     Get(g, i, j - 1),                       Get(g, i, j + 1),
     Get(g, i + 1, j - 1), Get(g, i + 1, j), Get(g, i + 1, j + 1)]
  }

  /** The per-colour counts `n` of cell (i, j). */
  function NeighbourCounts(g: Board, i: int, j: int): (n: seq<nat>)
    ensures |n| == ColorCount
    ensures forall c: Color :: n[c] == NeighbourCount(g, i, j, c)
  {
    seq(ColorCount, c requires 0 <= c < ColorCount => NeighbourCount(g, i, j, c))
  }

  /** n[c] counts exactly the on-board Moore neighbours, the cell itself
      excluded, that hold colour c. */
  lemma NeighbourCountIsMooreCount(g: Board, i: int, j: int, c: Color)
    ensures NeighbourCount(g, i, j, c) == multiset(MooreNeighbours(g, i, j))[Some(c)]
  {
    var s := MooreNeighbours(g, i, j);
    var x := Some(c);
    // di = -1 reads row i + 1, di = 1 reads row i - 1 (the source subtracts the offset).
    assert RowHits(g, i, j, c, -1, 2) ==
      (if s[7] == x then 1 else 0) + (if s[6] == x then 1 else 0) + (if s[5] == x then 1 else 0);
    assert RowHits(g, i, j, c, 0, 2) == (if s[4] == x then 1 else 0) + (if s[3] == x then 1 else 0);
    assert RowHits(g, i, j, c, 1, 2) ==
      (if s[2] == x then 1 else 0) + (if s[1] == x then 1 else 0) + (if s[0] == x then 1 else 0);
    CountInEight(s, x);
  }

  /** How often x occurs among eight cells, term by term. */
  lemma CountInEight(s: seq<Cell>, x: Cell)
    requires |s| == 8
    ensures multiset(s)[x] ==
      (if s[0] == x then 1 else 0) + (if s[1] == x then 1 else 0) + (if s[2] == x then 1 else 0) +
      (if s[3] == x then 1 else 0) + (if s[4] == x then 1 else 0) + (if s[5] == x then 1 else 0) +
      (if s[6] == x then 1 else 0) + (if s[7] == x then 1 else 0)
  {
    CountPrefix(s, x, 8);
    CountPrefix(s, x, 7);
    CountPrefix(s, x, 6);
    CountPrefix(s, x, 5);
    CountPrefix(s, x, 4);
    CountPrefix(s, x, 3);
    CountPrefix(s, x, 2);
    CountPrefix(s, x, 1);
    assert s[..8] == s;
    assert s[..0] == [];
  }

  /** The counts n of a cell are the colour tally of its Moore neighbourhood. */
  lemma NeighbourCountsAreTally(g: Board, i: int, j: int)
    ensures NeighbourCounts(g, i, j) == ColourTally(MooreNeighbours(g, i, j))
  {
    var n, t := NeighbourCounts(g, i, j), ColourTally(MooreNeighbours(g, i, j));
    forall c | 0 <= c < ColorCount
      ensures n[c] == t[c]
    {
      NeighbourCountIsMooreCount(g, i, j, c);
      assert n[c] == NeighbourCount(g, i, j, c);
    }
  }

  /** `n_sum`, the sum of the per-colour counts, is the number of occupied
      Moore neighbours, hence at most 8. */
  lemma NeighbourSum(g: Board, i: int, j: int)
    ensures Sum(NeighbourCounts(g, i, j)) == 8 - multiset(MooreNeighbours(g, i, j))[None]
    ensures Sum(NeighbourCounts(g, i, j)) <= 8
  {
    NeighbourCountsAreTally(g, i, j);
    TallySum(MooreNeighbours(g, i, j));
  }

  // ---------------------------------------------------------------------------
  // Step B: the cell rule
  // ---------------------------------------------------------------------------

  /** The colours whose count equals v, in increasing order (the
      `enumerate().filter_map(..).collect()` over the first k counts). */
  function IndicesBelow(n: seq<nat>, v: nat, k: nat): (r: seq<nat>)
    requires k <= |n|
    ensures forall x :: x in r <==> 0 <= x < k && n[x] == v
    ensures forall a, b :: 0 <= a < b < |r| ==> r[a] < r[b]
  {
    if k == 0 then []
    else
      var r := IndicesBelow(n, v, k - 1);
      assert forall a :: 0 <= a < |r| ==> r[a] in r;
      r + (if n[k - 1] == v then [k - 1] else [])
  }

  /** All colours whose count equals v, in increasing order. */
  function Indices(n: seq<nat>, v: nat): (r: seq<nat>)
    ensures forall x :: x in r <==> 0 <= x < |n| && n[x] == v
    ensures forall a, b :: 0 <= a < b < |r| ==> r[a] < r[b]
  {
    IndicesBelow(n, v, |n|)
  }

  /** The next value of a cell holding `cell`, given its per-colour neighbour counts n. */
  function NextCell(cell: Cell, n: seq<nat>): (r: Cell)
    requires |n| == ColorCount
    ensures cell.Some? ==> r == cell || r == None
    ensures cell.None? && r.Some? ==> Sum(n) == 3 && n[r.value] >= 2
  {
    match cell
    case Some(c) => if n[c] < 2 || Sum(n) > 3 then None else cell
    case None =>
      if Sum(n) == 3 then
        var c3 := Indices(n, 3);
        if |c3| == 1 then assert c3[0] in c3; Some(c3[0] as Color)
        else
          var c2 := Indices(n, 2);
          if |c2| == 1 then assert c2[0] in c2; Some(c2[0] as Color) else None
      else None
  }

  /** An increasing sequence whose elements are exactly {x} is [x]. */
  lemma SingletonIndices(r: seq<nat>, x: nat)
    requires forall y :: y in r <==> y == x
    requires forall a, b :: 0 <= a < b < |r| ==> r[a] < r[b]
    ensures r == [x]
  {
    assert x in r;
    if |r| > 1 {
      FirstTwoIn(r);
      assert false;
    }
  }

  /** The head of a non-empty sequence is one of its elements.  These two
      lemmas name the entries an impossible branch needs before `assert false`. */
  lemma HeadIn(r: seq<nat>)
    requires |r| > 0
    ensures r[0] in r
  {
  }

  /** The first two entries of a sequence of length two or more are elements of it. */
  lemma FirstTwoIn(r: seq<nat>)
    requires |r| > 1
    ensures r[0] in r && r[1] in r
  {
  }

  /** No colour has count v, so no index is collected. */
  lemma NoIndices(n: seq<nat>, v: nat)
    requires forall x :: 0 <= x < |n| ==> n[x] != v
    ensures Indices(n, v) == []
  {
    var r := Indices(n, v);
    if r != [] {
      HeadIn(r);
      assert false;
    }
  }

  /** Survival: an occupied cell of colour c keeps c exactly when it has at least
      two neighbours of colour c and at most three occupied neighbours in all;
      otherwise it dies.  It never changes colour. */
  lemma SurvivalRule(c: Color, n: seq<nat>)
    requires |n| == ColorCount
    ensures NextCell(Some(c), n) == Some(c) <==> n[c] >= 2 && Sum(n) <= 3
    ensures NextCell(Some(c), n) != Some(c) ==> NextCell(Some(c), n) == None
  {
  }

  /** Birth: an empty cell becomes colour c exactly when it has three occupied
      neighbours in all and at least two of them have colour c.  With three
      neighbours at most one colour can reach two, so the "unique colour with
      three, else unique colour with two" choice of the source is this one. */
  lemma {:induction false} BirthRule(n: seq<nat>, c: Color)
    requires |n| == ColorCount
    ensures NextCell(None, n) == Some(c) <==> Sum(n) == 3 && n[c] >= 2
  {
    if Sum(n) == 3 && n[c] >= 2 {
      forall d | 0 <= d < ColorCount && d != c
        ensures n[d] <= 1
      {
        SumAtLeastPair(n, c, d);
      }
      if n[c] == 3 {
        SingletonIndices(Indices(n, 3), c);
      } else {
        assert Sum(n) >= n[c] by { SumAtLeastEntry(n, c); }
        NoIndices(n, 3);
        SingletonIndices(Indices(n, 2), c);
      }
    }
  }

  /** An empty cell stays empty unless it has exactly three occupied neighbours
      of which two share a colour; in particular a 1/1/1 split stays empty. */
  lemma {:induction false} NoBirthRule(n: seq<nat>)
    requires |n| == ColorCount
    ensures NextCell(None, n) == None <==> Sum(n) != 3 || forall c :: 0 <= c < ColorCount ==> n[c] <= 1
  {
    if NextCell(None, n).Some? {
      BirthRule(n, NextCell(None, n).value);
    } else if Sum(n) == 3 && exists c :: 0 <= c < ColorCount && n[c] > 1 {
      var c :| 0 <= c < ColorCount && n[c] > 1;
      BirthRule(n, c);
    }
  }

  /** The two inner loops of the nest that fills `n`, for one colour c: each
      offset (di, dj) other than (0, 0) whose neighbour (i - di, j - dj) is on
      the board and holds c adds one to n[c]. */
  method CountColour(g: Board, i: int, j: int, c: Color) returns (hits: nat)
    requires IsGrid(g) && 0 <= i < Height && 0 <= j < Width
    ensures hits == NeighbourCount(g, i, j, c)
  {
    hits := 0;
    for di := -1 to 2
      invariant hits == WindowHits(g, i, j, c, di)
    {
      for dj := -1 to 2
        invariant hits == WindowHits(g, i, j, c, di) + RowHits(g, i, j, c, di, dj)
      {
        if di != 0 || dj != 0 {
          var i0 := i - di;
          var j0 := j - dj;
          if i0 >= 0 && j0 >= 0 && Get(g, i0, j0) == Some(c) {
            hits := hits + 1;
          }
        }
      }
    }
  }

  /** The loop nest that fills `n` for cell (i, j), one colour at a time. */
  method CountNeighbours(g: Board, i: int, j: int) returns (count: seq<nat>)
    requires IsGrid(g) && 0 <= i < Height && 0 <= j < Width
    ensures count == NeighbourCounts(g, i, j)
  {
    var n := new nat[ColorCount](_ => 0);
    for c := 0 to ColorCount
      invariant forall d :: 0 <= d < c ==> n[d] == NeighbourCount(g, i, j, d)
    {
      n[c] := CountColour(g, i, j, c);
    }
    count := n[..];
  }

  /** The per-cell body of the update: count the neighbours, then apply the
      survival and birth rules, reading only the (translated) board g. */
  method NextColour(g: Board, i: int, j: int) returns (color: Cell)
    requires IsGrid(g) && 0 <= i < Height && 0 <= j < Width
    ensures color == NextCell(g[i][j], NeighbourCounts(g, i, j))
  {
    color := g[i][j];
    var n := CountNeighbours(g, i, j);
    var nSum := Sum(n);
    match color
    case Some(c) =>
      if n[c] < 2 || nSum > 3 {
        color := None;
      }
    case None =>
      if nSum == 3 {
        var c3 := Indices(n, 3);
        if |c3| == 1 {
          assert c3[0] in c3;
          color := Some(c3[0] as Color);
        } else {
          var c2 := Indices(n, 2);
          if |c2| == 1 {
            assert c2[0] in c2;
            color := Some(c2[0] as Color);
          }
        }
      }
  }

  /** Step B on the whole board: every cell of a fresh board from the old one. */
  function Update(g: Board): (r: Board)
    requires IsGrid(g)
    ensures IsGrid(r)
    ensures forall i, j :: 0 <= i < Height && 0 <= j < Width ==> r[i][j] == NextCell(g[i][j], NeighbourCounts(g, i, j))
  {
    seq(Height, i requires 0 <= i < Height => UpdateRow(g, i))
  }

  /** Row i of the updated board. */
  function UpdateRow(g: Board, i: int): (row: seq<Cell>)
    requires IsGrid(g) && 0 <= i < Height
    ensures |row| == Width
    ensures forall j :: 0 <= j < Width ==> row[j] == NextCell(g[i][j], NeighbourCounts(g, i, j))
  {
    seq(Width, j requires 0 <= j < Width => NextCell(g[i][j], NeighbourCounts(g, i, j)))
  }

  /** One active tick: drift, translate, update. */
  function Advance(g: Board): (r: Board)
    requires IsGrid(g)
    ensures IsGrid(r)
  {
    Update(Translate(g, WorldMove(g)))
  }

  /** Across a whole update an occupied cell either keeps its colour or empties,
      and a cell that becomes occupied had exactly three occupied neighbours, at
      least two of them of its new colour. */
  lemma UpdateCell(g: Board, i: int, j: int)
    requires IsGrid(g) && 0 <= i < Height && 0 <= j < Width
    ensures g[i][j].Some? ==> Update(g)[i][j] in {g[i][j], None}
    ensures g[i][j].None? && Update(g)[i][j].Some? ==>
      8 - multiset(MooreNeighbours(g, i, j))[None] == 3 &&
      multiset(MooreNeighbours(g, i, j))[Update(g)[i][j]] >= 2
  {
    NeighbourSum(g, i, j);
    var r := Update(g)[i][j];
    if r.Some? {
      NeighbourCountIsMooreCount(g, i, j, r.value);
    }
  }

  /** The update leaves a board with no occupied cell as it is: no birth without neighbours. */
  lemma UpdateEmpty(g: Board)
    requires IsGrid(g) && IsEmpty(g)
    ensures Update(g) == g
  {
    var r := Update(g);
    forall i | 0 <= i < Height
      ensures r[i] == g[i]
    {
      var row := UpdateRow(g, i);
      assert r[i] == row;
      forall j | 0 <= j < Width
        ensures row[j] == g[i][j]
      {
        NoNeighboursNoBirth(g, i, j);
      }
    }
  }

  /** On an empty board every cell has no occupied neighbour and stays empty. */
  lemma NoNeighboursNoBirth(g: Board, i: int, j: int)
    requires IsGrid(g) && IsEmpty(g) && 0 <= i < Height && 0 <= j < Width
    ensures NextCell(g[i][j], NeighbourCounts(g, i, j)) == None
  {
    NeighbourSum(g, i, j);
    var s := MooreNeighbours(g, i, j);
    assert s == [None, None, None, None, None, None, None, None];
    CountInEight(s, None);
  }

  /** A board with no occupied cell stays empty: no drift, no birth. */
  lemma AdvanceEmpty(g: Board)
    requires IsGrid(g) && IsEmpty(g)
    ensures Advance(g) == g
  {
    EmptyBoardDoesNotDrift(g);
    TranslateByZero(g);
    UpdateEmpty(g);
  }

  /** A cell the rule leaves as it is: an occupied cell of colour c with at
      least two c-neighbours and at most three occupied neighbours, or an empty
      cell that does not have three occupied neighbours two of which share a colour. */
  predicate StillCell(cell: Cell, n: seq<nat>)
    requires |n| == ColorCount
  {
    match cell
    case Some(c) => n[c] >= 2 && Sum(n) <= 3
    case None => Sum(n) != 3 || forall c :: 0 <= c < ColorCount ==> n[c] <= 1
  }

  /** The rule leaves a cell unchanged exactly when the cell is still. */
  lemma StillCellIsFixed(cell: Cell, n: seq<nat>)
    requires |n| == ColorCount
    ensures NextCell(cell, n) == cell <==> StillCell(cell, n)
  {
    match cell
    case Some(c) => SurvivalRule(c, n);
    case None => NoBirthRule(n);
  }

  /** A still life: every cell of the board is still. */
  predicate StillLife(g: Board)
    requires IsGrid(g)
  {
    forall i, j :: 0 <= i < Height && 0 <= j < Width ==> StillCell(g[i][j], NeighbourCounts(g, i, j))
  }

  /** The update leaves a board unchanged exactly when the board is a still life. */
  lemma UpdateFixedIffStillLife(g: Board)
    requires IsGrid(g)
    ensures Update(g) == g <==> StillLife(g)
  {
    var r := Update(g);
    forall i, j | 0 <= i < Height && 0 <= j < Width
      ensures r[i][j] == g[i][j] <==> StillCell(g[i][j], NeighbourCounts(g, i, j))
    {
      StillCellIsFixed(g[i][j], NeighbourCounts(g, i, j));
    }
    if StillLife(g) {
      forall i | 0 <= i < Height
        ensures r[i] == g[i]
      {
      }
    }
  }

  /** A still life that does not drift is a fixed point of the whole tick. */
  lemma AdvanceStillLife(g: Board)
    requires IsGrid(g) && WorldMove(g) == Shift(0, 0) && StillLife(g)
    ensures Advance(g) == g
  {
    TranslateByZero(g);
    UpdateFixedIffStillLife(g);
  }
}
