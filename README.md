# 3sRevenge game engine in Dafny

This project models the engine of the sliding-tile puzzle in `game.js`. The
`Game` class keeps a 6 x 6 grid of tiles (0 is an empty cell), a running score
and a game-over flag. Each arrow key does the following:

1. It moves every row or column toward one side. Empty cells are squeezed out.
2. Neighbouring tiles merge in one left-to-right pass. They merge when one
   equals the other, or is twice, three times or eight times the other.
3. The merged values are added to the score.
4. If the grid changed, a tile of value 1 or 2 is dropped on an empty cell.
5. The game is declared over when the grid is full and no pair of neighbours
   passes the narrower test of `isGameOver`: equal, or one twice the other.

The model has four modules:

- `Lines` (`lines.dfy`): the line transform as functions.
  - `Compact` filters out the empty cells.
  - `Merged` and `MergeGain` give the merge pass and its score.
  - `Pad` appends the trailing zeros.
  - `Slide` chains the three; `LineGain` is the score a line adds.
  - The lemmas cover sums, shape, merging and the single-pass behaviour.
- `Grids` (`grids.dfy`): whole grids.
  - `LineOf` extracts line `i` for a direction.
  - `MoveGrid` is the moved grid and `MoveGain` the score a move adds.
  - The game-over tests are `Stuck`, which is what `isGameOver` computes, and `Frozen`, which says no move changes the grid.
  - `EmptyCells` lists the empty cells in `addNewTile`'s order, and `Spawn` places the new tile.
  - The lemmas cover the mirror symmetries, conservation and the game-over tests.
- `Factors` (`factors.dfy`): powers, and the uniqueness of the split
  `2^a * 3^b * r` that `getPrimeFactors` computes.
- `GameEngine` (`game.dfy`): the class `Game`.
  - Its fields are `size`, `grid`, `score` and `gameOver`.
  - Its methods mirror the program's methods with the same loops, including the inner `moveAndMerge` loop and the keydown handler (`HandleKey`).
  - Each method is proved against the functions above.

The grid is a field holding a sequence of rows. The methods reassign it, where
the program mutates nested arrays.

Facts about `game.js` that the model keeps as they are:

- The merge test is the fixed seven-way comparison at game.js:169-177. There is
  no gcd reduction and no set of toggled ratio rules.
- The score is a running sum of the merged values (game.js:179). It is not
  recomputed from a weighted value of each tile.
- `isGameOver` tests only the equal and double pairs (game.js:281-292), not
  the 3x and 8x pairs that `move` merges. `Grids.StuckMissesTripleMerge` shows
  the result: the game can be declared over on a board where a move still
  merges tiles.
- A move changes nothing exactly when every line in the direction of travel
  is already settled: its tiles first, then empty cells, and no mergeable
  neighbours (`Lines.SlideFixedIff`, `Grids.MoveFixedIff`). The line need not be
  full: 2,5,0,0,0,0 moved left stays as it is.
- A second move in the same direction is not always a no-op. Merged tiles can
  merge again on the next move (`Lines.RepeatedMoveMergesAgain`).

## Model

| member | source | states |
|---|---|---|
| Lines.Compact | game.js:165 | the filter leaves no empty cell and is never longer than its input; on non-negative cells it leaves only positive tiles |
| Lines.Mergeable | game.js:169-177 | the seven-way merge test; a tile never passes it with an empty cell, so filtering first keeps zeros out of the comparison |
| Lines.Merged | game.js:168-183 | the greedy single pass; each merge splices out one cell, so the result is no longer than the input and at least half as long |
| Lines.MergeGain | game.js:179 | the sum of the values the pass creates by merging; its properties are stated by `Lines.MergeGainBounds` and `Lines.GainZeroIffNoMerge` |
| Lines.MergeGainBounds | game.js:168-183 | on positive tiles the pass scores at least 0 and at most the line's total |
| Lines.Pad | game.js:186-188 | a line no longer than the grid size is padded to exactly that length |
| Lines.Slide | game.js:163-191 | filter, merge pass and padding; a line no longer than the grid size comes back with exactly that length |
| Lines.SlideFixedIff | game.js:163-191 | a move leaves a line unchanged exactly when the line is settled (its tiles first, then only empty cells, no mergeable neighbours), and a settled line scores 0 |
| Lines.SettledExample | game.js:163-191 | 2,5,0,0,0,0 is settled, and moving it left leaves it as it is |
| Lines.MergedUnchangedIff | game.js:168-183 | the merge pass leaves a line of tiles unchanged exactly when no two neighbours satisfy the seven-way merge test |
| Lines.GainZeroIffNoMerge | game.js:178-179 | on positive tiles the pass adds nothing to the score exactly when it merges nothing |
| Lines.MergedSum | game.js:168-183 | merging keeps the sum of the tiles of a line |
| Lines.MergedTiles | game.js:178 | merging tiles that are not empty (or are positive) yields tiles that are not empty (positive), and a non-negative score gain on positive tiles |
| Lines.MergedSameLength | game.js:181 | if the merge pass removes no cell, no pair merged and nothing was scored |
| Lines.CompactSum | game.js:165 | removing the empty cells keeps the sum |
| Lines.CompactAppend | game.js:165 | filtering out zeros distributes over concatenation |
| Lines.CompactKeepsTiles | game.js:165 | a line without empty cells is left as it is by the filter |
| Lines.SlideShape | game.js:163-191 | the moved line has the grid's length: the merged tiles in order, none empty, then only empty cells |
| Lines.SlideTiles | game.js:163-191 | the tiles of the moved line are the merge of the tiles of the input |
| Lines.SlideSum | game.js:163-191 | moving a line keeps the sum of its tiles |
| Lines.SlideNonNegative | game.js:163-191 | a line of non-negative tiles stays non-negative and scores a non-negative amount |
| Lines.SlideFixedScoresNothing | game.js:178-179 | a line the move leaves unchanged adds nothing to the score |
| Lines.SlideKeepsStableLine | game.js:163-191 | a full line with no mergeable neighbours is unchanged by a move |
| Lines.SlideChangesMergeableLine | game.js:163-191 | a full line with a mergeable pair changes and ends in an empty cell |
| Lines.SlideTwoTiles | game.js:168-183 | two tiles merge into their sum, scored, exactly when the merge test holds; otherwise they stay |
| Lines.SlideThreeEqual | game.js:168-183 | of three equal tiles the first two merge and the third stays |
| Lines.SinglePassExample | game.js:168-183 | 2,2,2,0,0,0 becomes 4,2,0,0,0,0 and scores 4: a merged tile does not merge again in the same pass |
| Lines.RepeatedMoveMergesAgain | game.js:159-248 | moving 4,2,0,0,0,0 gives 6,0,0,0,0,0, so a second move in the same direction changes the line again |
| Lines.SumReverse | game.js:203 | reversing a line keeps its sum |
| Lines.ReverseReverse | game.js:221 | reversing twice gives the line back, so right and down lines are put back where they came from |
| Grids.LineOf | game.js:198-211 | the extracted line of any direction has the grid's length; its cells are stated by `Grids.LineOfAt` |
| Grids.MoveGrid | game.js:216-234 | the moved grid is a square grid of the same size; its lines are stated by `Grids.MoveLines` |
| Grids.MoveGain | game.js:194-213 | the score of a move: the merged values added at game.js:179, summed over the lines in loop order |
| Grids.MoveFixedIff | game.js:194-245 | a move leaves the grid unchanged exactly when every line of its direction is settled, and such a move scores 0 |
| Grids.Joinable | game.js:281-292 | the pair test of `isGameOver`; every pair it accepts also passes the merge test in either order |
| Grids.Stuck | game.js:265-299 | the result of `isGameOver`: the grid is full and no right or down neighbours pass the pair test |
| Grids.EmptyCells | game.js:85-92 | every listed cell lies in the grid and is empty; `Grids.EmptyCellsExact` adds that every empty cell is listed |
| Grids.Spawn | game.js:94-98 | the grid after placing the new tile has the same size; the placed cell is stated by `Grids.SpawnChangesOneEmptyCell` |
| Grids.LineOfAt | game.js:198-211 | cell `j` of extracted line `i` is the grid cell given by the direction's coordinate map |
| Grids.SlotOrigin | game.js:216-234 | putting a line back inverts extracting it: the two coordinate maps are inverse bijections |
| Grids.MoveGridAt | game.js:194-235 | each cell of the moved grid is the cell of the moved line it was put back from |
| Grids.MoveLines | game.js:194-235 | line `i` of the moved grid, read in the move's direction, is the moved line `i` of the old grid |
| Grids.LinesDetermineGrid | game.js:198-234 | two grids with the same lines in one direction are equal |
| Grids.MovedStep | game.js:194-235 | replacing line `i` by its moved line extends the prefix of moved lines by one |
| Grids.MovedByLines | game.js:194-235 | a grid whose every line is the moved line is the moved grid |
| Grids.MoveRightMirrorsLeft | game.js:202-204 | moving right is moving left on the mirrored grid, mirrored back |
| Grids.MoveUpTransposesLeft | game.js:205-207 | moving up is moving left on the transposed grid, transposed back |
| Grids.MoveDownMirrorsUp | game.js:208-210 | moving down is moving up on the upside-down grid, turned back |
| Grids.LinesSum | game.js:198-211 | the lines of any direction hold the same total as the grid |
| Grids.MovePreservesSum | game.js:159-248 | a move keeps the total of all tiles |
| Grids.MoveKeepsNonNegative | game.js:159-248 | a move keeps every tile non-negative and adds a non-negative score |
| Grids.UnchangedMoveScoresNothing | game.js:238-245 | a move that changes no cell adds nothing to the score, so the running score is right even though the score is added before the comparison |
| Grids.TotalGainStep | game.js:194-213 | the score of the lines handled so far grows by the score of line `i` |
| Grids.LineNeighbours | game.js:198-211 | the lines of a full grid have no empty cell, and the lines of a grid without mergeable neighbours have no mergeable pair |
| Grids.FullGridFrozenIff | game.js:159-248 | on a full grid no move changes anything exactly when no two neighbours pass the seven-way merge test |
| Grids.NeighboursByLines | game.js:274-296 | the neighbour test of every row and column together give the grid's neighbour test |
| Grids.FrozenFullGridIsStuck | game.js:265-299 | a full grid that no move changes is declared over |
| Grids.TripleBoardIsStuck | game.js:265-299 | a full board of 5s and 7s with a 21 beside a 7 passes the game-over test |
| Grids.StuckMissesTripleMerge | game.js:281-292 | that board is declared over although moving left still merges 21 and 7 (a 3x pair) and changes it |
| Grids.EmptyInRowComplete | game.js:87-91 | every empty cell of a row before column `k` is in the row's list |
| Grids.EmptyBeforeComplete | game.js:86-92 | every empty cell of the rows before `k` is in the list |
| Grids.EmptyCellsExact | game.js:85-92 | the empty-cell list holds a cell exactly when the cell is in the grid and empty |
| Grids.NoEmptyCellsIffFull | game.js:94 | the list is empty exactly when the grid is full, which is when no tile is added |
| Grids.SpawnChangesOneEmptyCell | game.js:94-100 | a new tile changes a full grid not at all, and otherwise sets the drawn empty cell to 1 or 2 and leaves every other cell as it was |
| Grids.SpawnKeepsNonNegative | game.js:94-100 | adding a tile keeps every cell non-negative |
| Factors.FactorsUnique | game.js:103-120 | the exponents of 2 and 3 and the cofactor that is a multiple of neither are unique |
| Factors.PowerUnique | game.js:109-117 | stripping the factors of 2 (or 3) leaves a unique count and cofactor |
| Factors.MulDiv | game.js:111 | dividing `d * n` by `d` is exact and gives `n` |
| GameEngine.PutColumn | game.js:224-226 | writing a line into column `c` sets that column and leaves every other cell |
| GameEngine.PutLine | game.js:216-234 | putting back line `i` makes that line, read in the move's direction, equal the given line and leaves every other line |
| GameEngine.PadZeros | game.js:186-188 | the padding loop appends zeros up to the grid size |
| GameEngine.JoinStep | game.js:178-181 | one merge and splice in the loop keeps "processed prefix + merge of the rest" equal to the merge of the line, and accounts for the score |
| GameEngine.KeepStep | game.js:168-183 | stepping past a pair that does not merge keeps the same invariant |
| GameEngine.OddThird | game.js:114-117 | dividing an odd multiple of 3 by 3 leaves an odd number |
| GameEngine.Game.constructor | game.js:2-11 | a new game has size 6, score 0, is not over, and holds an empty grid with two tiles spawned |
| GameEngine.Game.Init | game.js:13-39 | resetting empties the grid, zeroes the score, clears game over and spawns two tiles |
| GameEngine.Game.AddNewTile | game.js:84-101 | the grid becomes the spawn of the old grid at the drawn empty cell, and stays a valid grid |
| GameEngine.Game.MoveAndMerge | game.js:163-191 | the returned line is the slide of the input and the score grew by that line's merged sum |
| GameEngine.Game.MoveLine | game.js:194-235 | one pass of the loop puts the moved line `i` into the new grid and scores it |
| GameEngine.Game.MoveAllLines | game.js:193-235 | the new grid is the moved grid and the score grew by the move's gain |
| GameEngine.Game.Move | game.js:159-248 | moved holds exactly when the moved grid differs; the grid becomes the moved grid only then; the score grows by the move's gain, which is 0 when nothing moved |
| GameEngine.Game.IsGameOver | game.js:265-299 | the result is true exactly when the grid is full and no horizontal or vertical neighbours are equal or in a 2x ratio |
| GameEngine.Game.ShowGameOver | game.js:301-304 | the game-over flag is set |
| GameEngine.Game.AfterMove | game.js:69-74 | after a move a tile is spawned and the flag records whether the new grid is stuck |
| GameEngine.Game.HandleKey | game.js:42-75 | a finished game ignores keys; otherwise the score grows by the move's gain, an unchanged move leaves grid and flag alone, and a changing move spawns a tile on the moved grid and sets the flag to the game-over test |
| GameEngine.Game.GetPrimeFactors | game.js:103-120 | for num <= 1 both counts are 0; otherwise 2^twos * 3^threes divides num and leaves a cofactor that is a multiple of neither 2 nor 3 |

## Left out

- DOM work is not modelled. This covers the grid container, the tile elements (`createTileElement`), `updateUI`, the score text and the game-over overlay.
- `getTileColor` is not modelled. Only its factor count, `getPrimeFactors`, is.
- `setupNewGameButton` is left out. The button's handler is `Init`.
- `addKeyboardListener` is modelled as `HandleKey` taking a `Direction`. Keys other than the twelve direction keys do nothing and are left out.
- `Math.random` is replaced by parameters. `draw` picks empty cell `draw % count`, and `coin` true gives a 2, else a 1.
- Numbers are unbounded integers. JavaScript's doubles, which lose precision above 2^53, are not modelled.
- GameEngine.Game.GetPrimeFactors: takes integer inputs only. Non-integer and non-finite numbers are left out.
- The JSON copy and the string comparison in `move` become a value copy and structural equality of sequences. Aliasing between rows is not modelled.
- The grid is a sequence value reassigned by the methods, not nested arrays mutated in place.
