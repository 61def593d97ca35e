/**
 * The border-drift calculator: every active tick the board is shifted by at
 * most one cell per axis; content moves away from the border line that holds
 * more "streak hits" (three aligned cells of one colour centred on a border
 * cell), and does not move along an axis whose two border lines tie.
 */
module Drift {
  import opened Grid

  /** `world_move`: dx = world_move[0] shifts columns, dy = world_move[1] shifts rows. */
  datatype Shift = Shift(dx: int, dy: int)

  /** Position k of a border line is a streak hit when it and both of its
      neighbours along the line hold the same colour.  Only interior positions
      are centres: the range scanned is 1 .. |line| - 1. */
  predicate StreakHit(line: seq<Cell>, k: int)
    requires 1 <= k < |line| - 1
  {
    match (line[k], line[k - 1], line[k + 1])
    case (Some(c0), Some(c1), Some(c2)) => c0 == c1 && c0 == c2
    case _ => false
  }

  /** The streak hits among the centres 1 .. k - 1 (`filter(..).count()` over a prefix of the range). */
  function CountHits(line: seq<Cell>, k: nat): (r: nat)
    requires 1 <= k < |line|
    ensures r <= k - 1
    decreases k
  {
    if k == 1 then 0
    else CountHits(line, k - 1) + (if StreakHit(line, k - 1) then 1 else 0)
  }

  /** The number of streak hits on a whole border line. */
  function Hits(line: seq<Cell>): (hits: nat)
    requires |line| >= 2
  {
    CountHits(line, |line| - 1)
  }

  /** The streak-hit centres of a line: interior positions only. */
  ghost function HitSet(line: seq<Cell>): (hits: set<int>)
  {
    set k | 1 <= k < |line| - 1 && StreakHit(line, k)
  }

  /** The counting function counts exactly the centres below k that are hits. */
  lemma {:induction false} CountHitsCountsHitCentres(line: seq<Cell>, k: nat)
    requires 1 <= k < |line|
    ensures CountHits(line, k) == |set x | 1 <= x < k && StreakHit(line, x)|
  {
    var below := set x | 1 <= x < k && StreakHit(line, x);
    if k == 1 {
      assert below == {};
    } else {
      var fewer := set x | 1 <= x < k - 1 && StreakHit(line, x);
      CountHitsCountsHitCentres(line, k - 1);
      if StreakHit(line, k - 1) {
        assert below == fewer + {k - 1};
        assert k - 1 !in fewer;
      } else {
        assert below == fewer;
      }
    }
  }

  /** A border line's hit count is the size of its set of hit centres, and a
      hit is an interior position whose two neighbours along the line share its colour. */
  lemma HitsIsHitSetSize(line: seq<Cell>)
    requires |line| >= 2
    ensures Hits(line) == |HitSet(line)|
    ensures Hits(line) <= |line| - 2
    ensures forall k :: k in HitSet(line) <==>
      1 <= k < |line| - 1 && line[k].Some? && line[k] == line[k - 1] && line[k] == line[k + 1]
  {
    CountHitsCountsHitCentres(line, |line| - 1);
  }

  /** A line with no occupied cell has no hit. */
  lemma {:induction false} NoOccupiedNoHits(line: seq<Cell>, k: nat)
    requires 1 <= k < |line|
    requires forall x :: 0 <= x < |line| ==> line[x] == None
    ensures CountHits(line, k) == 0
  {
    if k > 1 {
      NoOccupiedNoHits(line, k - 1);
    }
  }

  /** Column j of the board, top to bottom. */
  function Column(g: Board, j: int): (line: seq<Cell>)
    requires IsGrid(g) && 0 <= j < Width
    ensures |line| == Height
    ensures forall i :: 0 <= i < Height ==> line[i] == g[i][j]
  {
    seq(Height, i requires 0 <= i < Height => g[i][j])
  }

  /** Row i of the board, left to right. */
  function Row(g: Board, i: int): (line: seq<Cell>)
    requires IsGrid(g) && 0 <= i < Height
    ensures |line| == Width
    ensures forall j :: 0 <= j < Width ==> line[j] == g[i][j]
  {
    g[i]
  }

  /** `c0.cmp(&c1)` mapped to +1, 0, -1. */
  function Compare(c0: nat, c1: nat): (s: int)
    ensures -1 <= s <= 1
    ensures s == 1 <==> c0 > c1
    ensures s == -1 <==> c0 < c1
    ensures s == 0 <==> c0 == c1
  {
    if c0 > c1 then 1 else if c0 == c1 then 0 else -1
  }

  /** `world_move`: the column shift compares the left column (c0) with the right
      column (c1); the row shift compares the top row (c0) with the bottom row (c1). */
  function WorldMove(g: Board): (m: Shift)
    requires IsGrid(g)
    ensures -1 <= m.dx <= 1 && -1 <= m.dy <= 1
    ensures m.dx == 1 <==> Hits(Column(g, 0)) > Hits(Column(g, Width - 1))
    ensures m.dx == -1 <==> Hits(Column(g, 0)) < Hits(Column(g, Width - 1))
    ensures m.dy == 1 <==> Hits(Row(g, 0)) > Hits(Row(g, Height - 1))
    ensures m.dy == -1 <==> Hits(Row(g, 0)) < Hits(Row(g, Height - 1))
  {
    Shift(Compare(Hits(Column(g, 0)), Hits(Column(g, Width - 1))),
          Compare(Hits(Row(g, 0)), Hits(Row(g, Height - 1))))
  }

  /** A board with no occupied cell does not drift. */
  lemma EmptyBoardDoesNotDrift(g: Board)
    requires IsGrid(g) && IsEmpty(g)
    ensures WorldMove(g) == Shift(0, 0)
  {
    var left, right, top, bottom := Column(g, 0), Column(g, Width - 1), Row(g, 0), Row(g, Height - 1);
    NoOccupiedNoHits(left, Height - 1);
    NoOccupiedNoHits(right, Height - 1);
    NoOccupiedNoHits(top, Width - 1);
    NoOccupiedNoHits(bottom, Width - 1);
  }
}
