# Sliding puzzle: board, solvability check, population and moves

This project models the game logic of the terminal sliding-tile puzzle in
`src/main.c`. It covers four things:

- the board, allocated as one block of `size * size` ints with a row pointer
  every `size` cells;
- `isSolvable`, which counts inversions, records the blank and applies the
  odd/even parity rule;
- `populateBoard`, which resets every cell to `-1`, places `0 .. size*size-1`
  into randomly drawn free cells, and starts again until `isSolvable` accepts;
- `moveTile`, which picks a cell from its four-entry `locus` table and slides
  that tile into the blank.

The game session is the class `Puzzle.Game`. Its fields are `board: array<int>`
(the flat block), `blank: Position` and the constant `size`. Each C function
becomes a method that updates these fields in place. The nested loops of
`isSolvable` are split into one method per loop level. Each phase of
`populateBoard` is one method: the reset, the redraw, one pass of the fill,
the fill and the retry. The reset keeps both of its loop levels in one method.
Each method is proved against a specification function:

- `Inversions` and `InversionsFrom` for the count;
- `ParityRule` for the decision;
- `LastZero` for the recorded blank;
- `FirstFree` for the redraw loop, `FillFrom` for the fill and
  `PopulateFrom` for the whole retry loop, each as a function of the
  `rand()` results;
- `IsPermutation` for the filled board;
- `Slid` for a move.

The properties are proved as lemmas over those functions in the modules
`Board`, `InversionCount`, `Solvability` and `Moves`.

The model follows the code as written in three places:

- The inversion count compares raw cell values, so every tile placed before
  the blank counts one extra inversion against it. `InversionCount.BlankCounted`
  shows that the count equals the tiles-only count plus the blank's offset in
  the block.
- The inner read `board[row + n / size][col + n % size]` is the `n`-th cell
  after `(row, col)` in the block (`Board.InnerReadOffset`). It stays inside
  the block because `n` stops before the end.
- `moveTile` indexes `locus` with the enum values `Up = 1 .. Right = 4`:
  - Up reads the entry written for Down.
  - Down reads the entry for Left.
  - Left reads the entry for Right.
  - Right reads past the table.

  The two vertical entries move the row by a whole `size`, so only Down (the
  tile right of the blank) and Left (the tile left of it) can name a cell of
  the grid. `MoveTile` requires the index to be inside the table and the
  target to be inside the grid (`Moves.CanMove`). The C code checks neither.
  Because all rows share one block, Down in the last column and Left in the
  first column still reach a cell of the block: the first cell of the next
  row, or the last cell of the previous one. The model leaves these
  row-crossing moves out (see "## Left out"), so the move lemmas below speak
  of in-row moves.

The rule in `src/main.c` lines 83-99 has the shape of the textbook parity test
for the 15 puzzle. For an odd width, the inversion count must be even. For an
even width, the count's parity must differ from the parity of the blank's row
counted from the bottom, starting at 1. The textbook test counts pairs of
tiles only and leaves the blank out. The code compares raw cell values, so the
blank, holding 0, forms an inversion with every tile before it. For the
reversed 4-by-4 board `15, 14, ..., 1, 0` the textbook count is 105. The code
counts 105 + 15 = 120. The model follows the code, and
`Solvability.CountedRuleVersusTileRule` states exactly when the two tests
agree.

## Model

| member | source | states |
|---|---|---|
| Board.RowStartIsProduct | src/main.c:44-51 | the row pointer built as "previous row plus `size`" is `row * size` cells into the block |
| Board.RowStartNonNegative | src/main.c:44-51 | no row pointer lies before the start of the block |
| Board.RowEnd | src/main.c:44-51 | every row of the grid starts at or after the block's start and ends at or before the block's end |
| Board.LastRowEnd | src/main.c:39-51 | the rows of the grid together cover exactly `boardArea` cells |
| Board.OffsetInBoard | src/main.c:39-51 | every cell of the grid has an offset inside the block, and dividing the offset by `size` gives the cell back |
| Board.PositionInGrid | src/main.c:39-51 | every offset inside the block belongs to a cell of the grid, and that cell's offset is the offset itself |
| Board.InnerReadOffset | src/main.c:74-75 | the inner read `board[row + n / size][col + n % size]` is block element `row * size + col + n` |
| Board.PermutationBlank | src/main.c:69-72 | in a permutation of `0 .. size*size-1`, the cell holding 0 is the only one, and every other cell holds a positive tile |
| InversionCount.SmallerInSlice | src/main.c:74-78 | counting the later cells by position is counting in the slice after the cell |
| InversionCount.InversionsFromSuffix | src/main.c:63-80 | the count accumulated from cell `i` onwards is the inversion count of the suffix starting at `i` |
| InversionCount.InversionsCountPairs | src/main.c:63-80 | the count is the number of position pairs `i < j` with `a[i] > a[j]`, including pairs whose second value is the blank |
| InversionCount.BlankCounted | src/main.c:65-78 | with one 0 at offset `p`, the count equals the tiles-only inversion count plus `p` |
| InversionCount.SwapAdjacent | src/main.c:196-199 | exchanging two neighbouring cells changes the count by exactly the one pair they form |
| Solvability.ParityRuleNeighbours | src/main.c:83-99 | for a blank inside the grid, counts one apart get opposite verdicts from the rule |
| Solvability.CountedRuleVersusTileRule | src/main.c:83-99 | isSolvable's verdict equals the tiles-only rule's verdict exactly when the blank's offset is even |
| Solvability.GoalInversions | src/main.c:63-80 | the goal arrangement has no tile inversion and has `size*size - 1` inversions once the blank is counted |
| Solvability.CountedRuleOnGoal | src/main.c:83-99 | as written, the rule accepts the solved board exactly when `size` is odd |
| Solvability.TileRuleAcceptsGoal | src/main.c:83-99 | the same rule applied to the tiles-only count accepts the solved board for every size |
| Moves.VerticalEntriesLeaveGrid | src/main.c:173-187 | the two `locus` entries that shift the row by `size` never name a cell of the grid |
| Moves.MovableDirections | src/main.c:171-190 | the table names a cell of the grid exactly for Down when a column lies to the blank's right, and for Left when one lies to its left; the targets are those in-row neighbours |
| Moves.SidewaysTarget | src/main.c:181-190 | a possible move's target is in the blank's row, one offset away, and both offsets are inside the block |
| Moves.SidewaysMove | src/main.c:171-199 | a move `CanMove` admits on a permutation slides the blank by one offset within its row |
| Moves.SlideKeepsPermutation | src/main.c:190-199 | a move keeps the board a permutation, puts 0 on the target, gives the old blank cell the target's value, and leaves every other cell as it was |
| Moves.SlideBack | src/main.c:190-199 | sliding back from the target restores the board |
| Moves.SidewaysSlideInversions | src/main.c:190-199 | a sideways slide moves the blank one offset and changes the counted inversions by exactly that step, while the tiles-only count stays the same |
| Moves.SidewaysSlideVerdicts | src/main.c:83-99 | a sideways slide reverses isSolvable's verdict and keeps the tiles-only verdict |
| Moves.MoveFlipsCountedRule | src/main.c:171-200 | every in-row move (`CanMove`) turns isSolvable's verdict on the board over |
| Moves.MoveKeepsTileRule | src/main.c:171-200 | every in-row move (`CanMove`) leaves the tiles-only verdict unchanged |
| Moves.ThreeByThreeNeighbour | src/main.c:61-100 | on 3x3 the rule accepts the solved board and rejects `1,2,3,4,5,6,7,0,8`, one Left move from it; the tiles-only rule accepts both |
| Puzzle.Roll | src/main.c:119-121 | a cell drawn as `rand() % size` for the row, then the column, lies in the grid |
| Puzzle.LastZeroFound | src/main.c:67-72 | the cell the scan last recorded holds 0, no later cell holds 0, and none is recorded only when there is no 0 |
| Puzzle.TrackedAll | src/main.c:67-72 | after the full scan, `blank` names the last cell holding 0, or is unchanged if there is none |
| Puzzle.EmptyFill | src/main.c:110-117 | after the reset, every cell is free and no value has been placed |
| Puzzle.PlaceNext | src/main.c:117-125 | writing `n` into a free cell keeps the placed values distinct and below `n + 1`, places `n`, and uses up exactly that cell |
| Puzzle.FillComplete | src/main.c:117-125 | once no cell is free, the block is a permutation of `0 .. size*size-1` |
| Puzzle.FirstFree | src/main.c:119-122 | the redraw loop stops just after a pair of draws that names a cell holding -1; it stops without one only when fewer than two draws are left |
| Puzzle.FirstFreeSkipsTaken | src/main.c:119-122 | every pair of draws before the one the loop stops at names a cell that is already filled, so the loop takes the first free cell drawn |
| Puzzle.FillFrom | src/main.c:117-125 | the fill keeps the block's size and never moves the cursor back. A completed fill that placed any value used at least one pair of draws. It stops unfilled only when fewer than two draws are left |
| Puzzle.FillStep | src/main.c:117-125 | when the redraw loop finds a cell, one round of the fill writes `n` into it, and the rest of the fill continues from there |
| Puzzle.FillFromPlaces | src/main.c:117-125 | a fill that completes, started from a partly filled block, ends in a permutation of `0 .. size*size-1` |
| Puzzle.FillFromReset | src/main.c:110-125 | a fill that completes, started from the reset block, ends in a permutation |
| Puzzle.PopulateFrom | src/main.c:106-126 | the retry loop's result is a block the rule accepts; it stops without one only when fewer than two draws are left |
| Puzzle.PopulateFromPermutation | src/main.c:106-126 | an accepted result of the retry loop is a permutation of `0 .. size*size-1` |
| Puzzle.GoalAccepted | src/main.c:61-100 | isSolvable's own verdict on the solved board, with the blank found by the scan in the bottom-right cell, is acceptance exactly when `size` is odd |
| Puzzle.AcceptedAtBlank | src/main.c:67-99 | when the blank is the last cell holding 0, isSolvable's verdict is the parity rule at the blank's row |
| Puzzle.Game.constructor | src/main.c:44-51 | allocateBoard gives a fresh block of `size * size` cells |
| Puzzle.Game.CountSmallerAfter | src/main.c:74-78 | the inner loop counts exactly the later cells of the block that hold a smaller value than the cell |
| Puzzle.Game.ScanCell | src/main.c:67-79 | one cell of the scan: `blank` becomes the cell if it holds 0, and that cell's term leaves the remaining count |
| Puzzle.Game.ScanRow | src/main.c:67-80 | one row of the scan: the blank is tracked to the row's end, and the row's terms leave the remaining count |
| Puzzle.Game.IsSolvable | src/main.c:61-100 | leaves the cells unchanged; the result is the parity rule applied to the inversion count of the whole block and the blank's row; `blank` ends on the last 0 when there is one and is untouched otherwise |
| Puzzle.Game.ResetBoard | src/main.c:110-114 | every cell holds -1 |
| Puzzle.Game.DrawFreeCell | src/main.c:119-122 | the cursor and the outcome are those of `FirstFree` on the current block. A found cell is the one the last pair of draws names; it is in the grid and still holds -1 |
| Puzzle.Game.PlaceDrawn | src/main.c:117-124 | one pass of the fill loop: the fill due before the pass equals the fill from the new block at `n + 1`; when the draws run out the block is unchanged |
| Puzzle.Game.FillBoard | src/main.c:117-125 | the block, the cursor and the outcome are those of `FillFrom` on the reset block; a completed fill is a permutation of `0 .. size*size-1` |
| Puzzle.Game.PopulateBoard | src/main.c:103-129 | the block, the cursor and the outcome are those of `PopulateFrom` from the first draw. When ready, the board is a permutation, `blank` locates its 0, and isSolvable's rule holds. The tiles-only rule then holds exactly when the blank's offset is even |
| Puzzle.Game.MoveTile | src/main.c:171-200 | `blank` becomes the table's target, and the board becomes the old board with the target's value in the old blank cell and 0 in the target; a ready board stays ready |
| Puzzle.NewGame | src/main.c:132-150 | init allocates a fresh board of the chosen size, and the block, the draws used and the outcome are those of `PopulateFrom`. When ready, the board is ready and accepted by isSolvable |

## Left out

- Terminal I/O is not modelled: the ncurses setup in `init`, `draw` (including the `tile + 48` character), the key switch in `update`, `end`, the `printf` progress messages and the `scanf` size prompt. The prompt's `3 <= size <= 9` check survives as a precondition.
- `malloc` and `free` in `allocateBoard` and `freeBoard` are not modelled. Only the layout they build is kept: one block, with row `r` at `r * size`.
- `rand()` is taken as a parameter: a finite sequence `rolls` of its results, two consumed per draw.
- Puzzle.Game.PopulateBoard: the source redraws and retries without bound. The model stops and returns `false` when fewer than two draws are left, as `PopulateFrom` defines. It does not prove that some finite sequence of draws always leads to an accepted board.
- Puzzle.Game.DrawFreeCell: same bound as above; a `false` result means fewer than two draws were left, as `FirstFree` defines.
- Puzzle.Game.FillBoard: same bound as above; a `false` result means fewer than two draws were left, as `FillFrom` defines.
- Puzzle.NewGame: same bound as above. The source's `init` always returns a populated board that the rule accepted. The model returns `ready == false` when the draws run out before that.
- Undefined behaviour in `moveTile` is excluded by precondition, not given a meaning. This covers reading `locus[4]` for Right and the out-of-grid cells of the two vertical entries.
- Puzzle.Game.MoveTile: the in-grid precondition excludes two moves the source defines. Down with the blank in the last column (row below `size - 1`) and Left with the blank in column 0 (row above 0) move the blank one offset across the row edge, through the shared block. They record a blank column of `size` or `-1`. For an even size such a move keeps isSolvable's verdict and flips the tiles-only one, so the move lemmas hold for in-row moves only.
- Win detection and `GameState` are not modelled. The file has no win check, and `GameState` is never assigned.
- Puzzle.Game.constructor: the blank position starts at `(0, 0)`. In the source it is unset until `isSolvable` first writes it.
- Moves.MoveKeepsTileRule: proves invariance of the corrected rule only for in-row moves. The vertical slide is not reachable through `moveTile` and is not proved. The row-crossing moves described under Puzzle.Game.MoveTile are excluded as well.
- Puzzle.Game.PopulateBoard keeps the source's rule, with the blank counted, since that is what the program runs. The corrected tiles-only rule appears in its contract only through the stated relation between the two rules.
- Reachability itself is not modelled: the claim that the parity rule decides which boards can reach the goal.

## Findings

| source | as written | input that shows it | evidently intended | confidence | as-written member | corrected member |
|---|---|---|---|---|---|---|
| src/main.c:74-99 | the inversion count includes the blank, so for every even size the rule rejects the solved board | 4x4 board `1,2,...,15,0`: the count is 15, the blank row is 3, and `(4 - 3) % 2 == 1` is compared with `15 % 2 == 0`, which is false | count tile pairs only; the solved board is accepted | not executed | Puzzle.GoalAccepted | Solvability.TileRuleAcceptsGoal |
| src/main.c:74-99 | because the blank is counted, every in-row move turns the verdict over (Moves.MoveFlipsCountedRule), though a board and its neighbour are equally solvable | 3x3 board `1,2,3,4,5,6,7,0,8`, one Left move from the solved board: the count is 7, so it is rejected while the solved board (count 8) is accepted | count tile pairs only; the verdict is invariant under moves | not executed | Moves.ThreeByThreeNeighbour | Moves.MoveKeepsTileRule |
