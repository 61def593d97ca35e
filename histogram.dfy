/**
 * The colour histogram read by the status bars: per-colour cell counts, the
 * total number of occupied cells, and the set of leading colours shown in the
 * top bar.  The fractions themselves are f64 and are not modelled; the leading
 * colours are computed over the integer counts, which orders them the same way.
 */
module Histogram {
  import opened Grid

  /** `count[c]`: for each row the cells equal to Some(c), summed over the rows. */
  function ColourCount(g: Board, c: Color): (cells: nat)
  {
    if g == [] then 0 else ColourCount(g[..|g| - 1], c) + multiset(g[|g| - 1])[Some(c)]
  }

  /** The histogram `count`, one entry per palette colour. */
  function Counts(g: Board): (count: seq<nat>)
    ensures |count| == ColorCount
  {
    seq(ColorCount, c requires 0 <= c < ColorCount => ColourCount(g, c))
  }

  /** `count_tot`, the sum of the histogram. */
  function Total(g: Board): (total: nat)
  {
    Sum(Counts(g))
  }

  /** count[c] is the number of cells of the whole board that hold colour c. */
  lemma {:induction false} ColourCountIsCellCount(g: Board, c: Color)
    ensures ColourCount(g, c) == multiset(Flatten(g))[Some(c)]
  {
    if g != [] {
      ColourCountIsCellCount(g[..|g| - 1], c);
    }
  }

  /** The histogram is the colour tally of all cells of the board. */
  lemma CountsAreTally(g: Board)
    ensures Counts(g) == ColourTally(Flatten(g))
  {
    var count, t := Counts(g), ColourTally(Flatten(g));
    forall c | 0 <= c < ColorCount
      ensures count[c] == t[c]
    {
      ColourCountIsCellCount(g, c);
    }
  }

  /** `count_tot` is the number of occupied cells, so at most Height * Width. */
  lemma TotalIsOccupied(g: Board)
    requires IsGrid(g)
    ensures Total(g) == Height * Width - multiset(Flatten(g))[None]
    ensures Total(g) <= Height * Width
  {
    CountsAreTally(g);
    TallySum(Flatten(g));
    FlattenLength(g);
  }

  // ---------------------------------------------------------------------------
  // Leading colours (the top bar)
  // ---------------------------------------------------------------------------

  /** `b0 == b1` on the fractions count / total: a fraction 0/0 is NaN, and NaN
      equals nothing. */
  predicate FractionEq(a: nat, b: nat, total: nat)
  {
    total > 0 && a == b
  }

  /** `b0 > b1` on the fractions count / total (false when they are NaN). */
  predicate FractionGt(a: nat, b: nat, total: nat)
  {
    total > 0 && a > b
  }

  /** The `reduce` over (vec![c], bar[c]) after the first k colours: the colours
      kept so far and the count of the best of them. */
  function LeadFold(count: seq<nat>, total: nat, k: nat): (acc: (seq<nat>, nat))
    requires 1 <= k <= |count|
  {
    if k == 1 then ([0], count[0])
    else
      var (c0, b0) := LeadFold(count, total, k - 1);
      var b1 := count[k - 1];
      if FractionEq(b0, b1, total) then (c0 + [k - 1], b0)
      else if FractionGt(b0, b1, total) then (c0, b0)
      else ([k - 1], b1)
  }

  /** `top_bar`: the colours the top bar shows, from the histogram. */
  function Leaders(count: seq<nat>): (leaders: seq<nat>)
    requires |count| >= 1
  {
    LeadFold(count, Sum(count), |count|).0
  }

  /** While fractions are numbers, the fold keeps the best count so far and
      exactly the colours that reach it, in increasing order. */
  lemma {:induction false} LeadFoldKeepsArgmax(count: seq<nat>, total: nat, k: nat)
    requires 1 <= k <= |count| && total > 0
    ensures forall d :: 0 <= d < k ==> count[d] <= LeadFold(count, total, k).1
    ensures forall c :: c in LeadFold(count, total, k).0 <==> 0 <= c < k && count[c] == LeadFold(count, total, k).1
    ensures forall a, b :: 0 <= a < b < |LeadFold(count, total, k).0| ==>
      LeadFold(count, total, k).0[a] < LeadFold(count, total, k).0[b]
    ensures LeadFold(count, total, k).0 != []
  {
    if k > 1 {
      LeadFoldKeepsArgmax(count, total, k - 1);
      var (c0, b0) := LeadFold(count, total, k - 1);
      assert forall a :: 0 <= a < |c0| ==> c0[a] in c0;
    }
  }

  /** For counts with a positive sum the top bar shows exactly the colours
      with the largest count, in palette order. */
  lemma LeadersAreTheLargest(count: seq<nat>)
    requires |count| >= 1 && Sum(count) > 0
    ensures forall c :: c in Leaders(count) <==>
      0 <= c < |count| && forall d :: 0 <= d < |count| ==> count[d] <= count[c]
    ensures forall a, b :: 0 <= a < b < |Leaders(count)| ==> Leaders(count)[a] < Leaders(count)[b]
  {
    LeadFoldKeepsArgmax(count, Sum(count), |count|);
    var (cs, best) := LeadFold(count, Sum(count), |count|);
    assert cs[0] in cs;
  }

  /** With no occupied cell every fraction is 0/0 = NaN, every comparison in the
      fold fails, and the fold ends on the last colour alone. */
  lemma LeadFoldAllNaN(count: seq<nat>, k: nat)
    requires 1 <= k <= |count|
    ensures LeadFold(count, 0, k).0 == [k - 1]
  {
  }

  /** For counts that sum to zero the top bar shows only the last palette
      colour. */
  lemma LeadersOfZeroCounts(count: seq<nat>)
    requires |count| >= 1 && Sum(count) == 0
    ensures Leaders(count) == [|count| - 1]
  {
    LeadFoldAllNaN(count, |count|);
  }

  /** On a board with at least one occupied cell, `top_bar` holds exactly the
      colours with the most cells, in palette order. */
  lemma LeadersOfOccupiedBoard(g: Board)
    requires IsGrid(g) && multiset(Flatten(g))[None] < Height * Width
    ensures forall c :: c in Leaders(Counts(g)) <==>
      0 <= c < ColorCount && forall d :: 0 <= d < ColorCount ==> Counts(g)[d] <= Counts(g)[c]
    ensures forall a, b :: 0 <= a < b < |Leaders(Counts(g))| ==> Leaders(Counts(g))[a] < Leaders(Counts(g))[b]
  {
    TotalIsOccupied(g);
    LeadersAreTheLargest(Counts(g));
  }

  /** On a board with no occupied cell, `top_bar` holds only the last palette
      colour. */
  lemma LeadersOfEmptyBoard(g: Board)
    requires IsGrid(g) && multiset(Flatten(g))[None] == Height * Width
    ensures Leaders(Counts(g)) == [ColorCount - 1]
  {
    TotalIsOccupied(g);
    LeadersOfZeroCounts(Counts(g));
  }
}
