# triathalon_of_life — a verified model of the rule engine

triathalon_of_life is a three-colour Game of Life. The board has 96 rows of
126 cells; a cell is either empty or holds one of three colours. On every
active tick the program does three things, in this order:

1. **Border drift.** It counts "streak hits" on the four border lines. A
   streak hit is an interior border cell that holds the same colour as both of
   its neighbours along that border. Comparing left with right and top with
   bottom gives a shift of -1, 0 or +1 per axis.
2. **Translate.** The whole board moves rigidly by that shift. Cells whose
   source lies off the board become empty; nothing wraps around.
3. **Update.** Each cell counts its occupied Moore neighbours per colour.
   - An occupied cell of colour c survives exactly when it has at least two
     c-neighbours and at most three occupied neighbours.
   - An empty cell can be born only when it has exactly three occupied
     neighbours. It takes the colour counted three times, or else the colour
     counted twice. With a 1/1/1 split it stays empty.

Every frame also computes a per-colour histogram of the board and the set of
leading colours for the status bar. A new board is seeded by placing 896
rounds of one cell of each colour at shuffled positions.

The model is five Dafny modules, one per part of `src/main.rs`:

- `Grid` (`grid.dfy`): the constants RES and PLACEMENTS, the cell and board
  types, the bounds-checked read, sums, and row-major flattening.
- `Drift` (`drift.dfy`): the streak-hit counts and `world_move`.
- `Rules` (`rules.dfy`): the translate step, the neighbour-count loop nest as
  methods, the cell rule, the whole-board update, and one full tick.
- `Histogram` (`histogram.dfy`): `count`, `count_tot`, and the leading-colour
  fold of the top bar.
- `Seeder` (`seeder.dfy`): `new_grid`, as a method over a 2-D array with its
  loops.

The board is `seq<seq<Option<Color>>>`. The outer index is the row
(`RES[1]` = 96) and the inner index is the column (`RES[0]` = 126), as in the
source's `[[Option<usize>; RES[0]]; RES[1]]`. A colour is a subset type of
`nat` below 3. The source indexes `n[c]` with a cell's colour, so any other
value would abort it.

Where the program draws random numbers, the model takes the outcomes as
inputs:

- `order` is the shuffled position list, given as flat row-major indices.
  It is a permutation of 0 .. 12095.
- `palettes[r]` is the colour order after the shuffle of round r. It is a
  permutation of the three colours.

The leading-colour fold is modelled as the code computes it. Its operands are
f64 fractions count[c] / count_tot. When count_tot > 0, these fractions
compare exactly as the integer counts do: the counts are at most 12096, so
distinct counts give distinct fractions. When the board is empty, every
fraction is 0/0, which is NaN. Every `==` and `>` in the fold is then false,
so the bar shows the last colour alone, not a tie of zero fractions. The model
keeps that behaviour (`Histogram.LeadersOfEmptyBoard`).

## Model

| member | source | states |
|---|---|---|
| Grid.PlacementsFormula | src/main.rs:26-28 | RES is [630/5, 480/5] and PLACEMENTS is RES[0]*RES[1]*2/9/COLOR_COUNT (896) under left-to-right truncating division; the PLACEMENTS*COLOR_COUNT seeded cells fit on the board |
| Grid.Get | src/main.rs:153-157 | a read off the board (negative or past the last row or column) gives an empty cell; an on-board read gives the cell |
| Drift.CountHits | src/main.rs:86-95 | the filter-and-count over the centres 1 .. k - 1 finds at most k - 1 hits |
| Drift.CountHitsCountsHitCentres | src/main.rs:86-95 | the filter-and-count over 1 .. k counts exactly the set of hit centres below k |
| Drift.HitsIsHitSetSize | src/main.rs:86-105 | `Drift.Hits`, the value of `c0` and `c1` for one border line, is the size of its hit set; a hit is an interior position (never an end) that is occupied and equal to both neighbours along the line; so at most len - 2 hits |
| Drift.NoOccupiedNoHits | src/main.rs:89-93 | a border line with no occupied cell has no streak hit |
| Drift.Compare | src/main.rs:106-112 | the `cmp` match gives +1 exactly when c0 > c1, -1 exactly when c0 < c1, 0 exactly on a tie |
| Drift.WorldMove | src/main.rs:84-143 | both components lie in {-1, 0, 1}; dx is +1/-1 exactly when the left column has more/fewer hits than the right column; dy likewise for the top row against the bottom row |
| Drift.EmptyBoardDoesNotDrift | src/main.rs:84-143 | a board with no occupied cell has world_move (0, 0) |
| Rules.Shifted | src/main.rs:145-158 | the closure's `i < dy or j < dx` test followed by the bounds-checked `get` gives old[i - dy][j - dx] when that is on the board, and empty otherwise |
| Rules.Translate | src/main.rs:144-159 | the result is a full board whose cell (i, j) is old[i - dy][j - dx] when that source is on the board and empty otherwise (no wrap-around) |
| Rules.TranslateByZero | src/main.rs:144-159 | a zero shift leaves the board unchanged |
| Rules.TranslateBack | src/main.rs:144-159 | shifting by m and then by -m restores every cell whose image stayed on the board and empties exactly the others: content is clipped, not wrapped |
| Rules.NeighbourCountIsMooreCount | src/main.rs:163-184 | n[c] equals the number of on-board Moore neighbours, the cell itself excluded, that hold colour c |
| Rules.NeighbourCountsAreTally | src/main.rs:163-184 | the whole n array is the colour tally of the 8-cell neighbourhood |
| Rules.NeighbourSum | src/main.rs:185 | n_sum is 8 minus the number of empty or off-board neighbours, hence at most 8 |
| Rules.CountColour | src/main.rs:166-183 | the di/dj loops for one colour c leave in n[c] exactly the count of c-neighbours (a loop proved against NeighbourCount) |
| Rules.CountNeighbours | src/main.rs:163-184 | the loop nest over c, di, dj fills n with the per-colour neighbour counts |
| Rules.Indices | src/main.rs:194-197 | the enumerate/filter_map/collect yields exactly the colours whose count equals v, in increasing order |
| Rules.NextCell | src/main.rs:186-214 | an occupied cell either keeps its colour or empties; a cell that becomes occupied had n_sum == 3 and at least two neighbours of its new colour |
| Rules.SurvivalRule | src/main.rs:188-191 | an occupied cell of colour c stays c exactly when n[c] >= 2 and n_sum <= 3; otherwise it empties, and it never changes colour |
| Rules.BirthRule | src/main.rs:192-213 | an empty cell becomes c exactly when n_sum == 3 and n[c] >= 2; the "unique three, else unique two" choice picks that colour |
| Rules.NoBirthRule | src/main.rs:192-213 | an empty cell stays empty exactly when n_sum != 3 or every colour has at most one neighbour (so a 1/1/1 split stays empty) |
| Rules.NextColour | src/main.rs:161-216 | the per-cell closure (count, then survival/birth match) returns the rule's value NextCell for that cell |
| Rules.Update | src/main.rs:160-217 | the update builds a fresh full board whose every cell is NextCell of the old cell and its neighbour counts, all read from the old board |
| Rules.UpdateCell | src/main.rs:160-217 | across the update an occupied cell keeps its colour or empties; a newborn cell had exactly three occupied Moore neighbours, at least two of its colour |
| Rules.UpdateEmpty | src/main.rs:160-217 | the update maps a board with no occupied cell to itself |
| Rules.Advance | src/main.rs:84-217 | one active tick (world_move from the drift, then translate, then update) yields a full 96 x 126 board |
| Rules.AdvanceEmpty | src/main.rs:84-217 | a full tick (drift, translate, update) maps the empty board to itself |
| Rules.StillCellIsFixed | src/main.rs:186-214 | the cell rule keeps a cell as it is exactly when an occupied cell of colour c has n[c] >= 2 and n_sum <= 3, or an empty cell has n_sum != 3 or no colour counted twice or more |
| Rules.UpdateFixedIffStillLife | src/main.rs:160-217 | the update leaves a board unchanged exactly when every cell meets that still-life condition for its own neighbour counts |
| Rules.AdvanceStillLife | src/main.rs:84-217 | a board that does not drift, on which every occupied cell of colour c has n[c] >= 2 and n_sum <= 3 and no empty cell has n_sum == 3 with a colour counted twice or more, is a fixed point of the full tick |
| Histogram.ColourCountIsCellCount | src/main.rs:219-225 | `Histogram.ColourCount` (count[c], summed row by row) equals the number of cells of the whole board equal to Some(c) |
| Histogram.CountsAreTally | src/main.rs:219-225 | `Histogram.Counts`, the `count` array, is the colour tally of all cells of the board |
| Histogram.TotalIsOccupied | src/main.rs:226-229 | `Histogram.Total` (count_tot) equals the number of occupied cells, hence at most 96 * 126 |
| Histogram.LeadFoldKeepsArgmax | src/main.rs:241-246 | while count_tot > 0 the reduce (`Histogram.LeadFold`) keeps the largest count so far and exactly the colours that reach it, in increasing order, and never an empty list |
| Histogram.LeadersAreTheLargest | src/main.rs:241-246 | for counts with a positive sum, `Histogram.Leaders` (`top_bar`) is exactly the colours of maximal count, in palette order |
| Histogram.LeadFoldAllNaN | src/main.rs:230-246 | with count_tot == 0 every comparison of NaN fractions fails and the fold ends on the last colour considered alone |
| Histogram.LeadersOfZeroCounts | src/main.rs:230-246 | for counts that sum to zero, `Histogram.Leaders` (`top_bar`) is only the last palette colour |
| Histogram.LeadersOfOccupiedBoard | src/main.rs:219-246 | on a full board with at least one occupied cell, `top_bar` computed from the board's `count` holds exactly the colours with the most cells, in palette order |
| Histogram.LeadersOfEmptyBoard | src/main.rs:219-246 | on a full board with no occupied cell, `top_bar` computed from the board's `count` is only the last palette colour |
| Seeder.PositionOf | src/main.rs:309 | positions[k] is [k % RES[0], k / RES[0]]: a column below RES[0] and row * RES[0] + column == k |
| Seeder.RowInRange | src/main.rs:309 | the row of every flat index below RES[0] * RES[1] is below RES[1], so grid[row][col] is in range |
| Seeder.FlatIndex | src/main.rs:309 | row * RES[0] + col is a flat index on the board, and positions maps it back to [col, row] |
| Seeder.DistinctCovers | src/main.rs:309-310 | n distinct indices below n take every index below n, so a permutation of the flat indices reaches every cell |
| Seeder.ShuffledPositionsCoverBoard | src/main.rs:309-310 | after the shuffle, positions is a permutation of all cells: every entry is on the board, no cell appears twice, and every cell appears |
| Seeder.NewPositions | src/main.rs:309-310 | building positions row-major and then shuffling it gives, at index k, the cell whose flat index is order[k] |
| Seeder.SeededAt | src/main.rs:316-325 | after n placements, the k-th shuffled position holds placement k's colour for every k < n, and every later position is still empty |
| Seeder.NextPlacementIsEmpty | src/main.rs:316-325 | placement n writes a cell that no earlier placement wrote |
| Seeder.SeededColourCount | src/main.rs:316-325 | after n placements, the number of cells of colour c equals the number of those placements that had colour c |
| Seeder.SeededEmptyCount | src/main.rs:316-325 | after n placements, exactly RES[0] * RES[1] - n cells are empty |
| Seeder.PaletteOrderHoldsEachOnce | src/main.rs:314-318 | every shuffle of the colour array holds each colour exactly once |
| Seeder.PlacedWithinRound | src/main.rs:320-324 | inside round r, the placements of colour c so far are those of earlier rounds plus the c's among the first t entries of the round's colour order |
| Seeder.PlacedPerRound | src/main.rs:316-325 | r complete rounds place exactly r cells of each colour |
| Seeder.SeededBoardCells | src/main.rs:305-328 | the seeded board holds placement k's colour at shuffled position k for k < PLACEMENTS * COLOR_COUNT, and every other cell is empty |
| Seeder.SeededBoardCounts | src/main.rs:305-328 | the seeded board holds exactly PLACEMENTS cells of each colour and PLACEMENTS * COLOR_COUNT occupied cells in all |
| Seeder.NewGrid | src/main.rs:305-328 | new_grid, as loops over a 2-D array with index i always in range: returns a full board holding round r's colours at the next shuffled positions, empty elsewhere, with exactly PLACEMENTS cells of each colour |

## Left out

- Window creation, the event loop, the Space and R keys, the `play` flag and
  the CLOCK_SKIP tick divider (src/main.rs:32-82): event glue with no logic of
  its own. `Rules.Advance` is one active tick; when a tick happens is not
  modelled.
- The f64 fractions `bar`, the bar geometry and all drawing
  (src/main.rs:230-299). The leading-colour fold is kept over the integer
  counts, with NaN modelled as "every comparison fails".
- The random number generator (src/main.rs:39, 310, 318). The shuffle
  outcomes are inputs: `order` is a permutation of the flat cell indices, and
  each `palettes[r]` is a permutation of the colours. The shuffle algorithm
  itself is not modelled.
- Seeder.NewGrid: each round writes the given colour order into `colors`.
  The source shuffles the previous round's array in place. Both give a
  permutation of the palette, which is all that `palettes` assumes.
- `usize` and `isize` overflow: all counts are at most 12096, so no
  arithmetic in the core can overflow. The model uses unbounded integers.
- Colours outside 0 .. 2 cannot occur: the colour type excludes them, so the
  source's out-of-range panic on `n[c]` is not modelled.
- The whole-board update is a pure function (`Rules.Update`). The
  per-cell closure body, with its loops, is a method (`Rules.NextColour`,
  `Rules.CountNeighbours`, `Rules.CountColour`) proved equal to that
  function.
