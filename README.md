# Blocky: goals and players

A Dafny model of the scoring and decision core of Blocky, a game played on a
quadtree of coloured blocks. Players change the board with rotate, swap,
smash, paint and combine. Each player is scored against a personal goal.

The model covers these parts of the game:

- **The raster** (`_flatten`). A board becomes a square grid of unit cells:
  a list of columns, each a list of rows. Column 0, row 0 is the top-left
  cell. The method is proved to produce `GridOf(b)`, the cell-by-cell
  definition `CellColour`.
- **The perimeter goal.** The code scans the boundary of the raster. It adds
  1 point for each target-coloured boundary cell that is not a corner, and
  2 points for each of its four corner tests that matches. The score is
  proved equal to a weighted sum over all cells, `PerimeterPoints`. Lemmas
  give its value on uniform boards, on boards without the colour, and on a
  single cell. Another lemma shows that interior cells never matter.
- **The blob goal.** A flood fill over a visited grid assigns each cell -1
  (never visited), 0 (not the target colour) or 1 (target colour).
  The visited grid is an object updated in place.
  - **The search.** The recursive search from a cell marks some cells 1.
    It is proved that these are exactly the target-coloured cells reachable
    from the start through cells that were never visited (`FreshBlob`). The
    search returns the size of that set. On a cell already visited it
    returns 0 and changes nothing.
  - **The sweep.** The sweep over all cells is proved to return the size of
    the largest blob. That size is stated in two ways: the relational
    `IsLargestBlob` and the functional `LargestBlob`, and lemmas show the two
    agree.
- **The goal factory.** It deals the first distinct colours drawn from the
  palette, all as goals of one kind.
- **`_get_block`.** It finds the block at a level that includes a location.
  On a properly tiled board it finds every block of the board.
- **The three players, as objects.**
  - The human player keeps a level and a pending action, which key events
    update. Its move is the pending action on the block under the pointer.
  - The random player tries one drawn action on a copy of the board.
  - The smart player scores every action on a copy and keeps the best, with
    PASS when nothing improves. The choice is proved to strictly improve the
    score, to be the highest available, and to be the first in the code's
    tie-break order.
- **`create_players`.** Humans come first, then random players, then smart
  players. Ids count up from 0, and each player is dealt a goal of its own
  colour.

Things the core only calls are parameters:

- **Board operations.** Each one (`BoardOps`) is a function from a board to
  `Some(changed copy)`, or `None` when the operation reports failure.
  `create_copy` is the identity on values.
- **Randomness.** Every random choice is passed in:
  - the palette indices drawn (`draws`);
  - the goal kind (`goalIndex`);
  - the goal dealt to each player (`choices`);
  - the random player's action (`draw`).
- **Pygame.** The mouse position is passed as `location`, and events are a
  small datatype.

Where the documentation and the code disagree, the model follows the code:

- **A shallow leaf.** `_get_block` (player.py:93-106) returns None when it
  reaches a leaf shallower than the requested level. The docstring says it
  returns that leaf. `Locate.GetBlock` returns None there and says so in
  its contract.
- **The perimeter corners.** Each corner test adds 2 points on its own
  (goal.py:163-170). So a 1×1 target-coloured board scores 8, with one cell
  tested four times. On a 2×2 board whose top two cells are red, red scores
  4: the two red cells are corners, worth 2 each, and there are no other
  boundary cells. The docstring of `score` (goal.py:144-146) gives each
  corner cell two points. That agrees on the 2×2 board, but it gives 2
  on the 1×1 board.
  `Perimeter.PerimeterSingleCell` and `Goals.TwoByTwoScores` state the
  code's values.
- **The random player's retry.** When the drawn action fails, the random
  player retries by calling itself (player.py:287-292). It has already
  cleared `_proceed`, so the retry returns None at once. The docstring
  promises a valid move. `Players.RandomPlayer.GenerateMove` states the
  code's behaviour: the drawn action when it succeeds, None otherwise.

## Model

| member | source | states |
|---|---|---|
| Raster.Flatten | goal.py:61-95 | the list built is the raster `GridOf(b)`: column i, row j holds the colour of the unit cell at column i, row j (a leaf's colour, or that cell of the quadrant holding it) |
| Raster.ExtendColumns | goal.py:88-93 | after one assembly loop, column offset+m is column m of the top child followed by column m of the bottom child; every other column is unchanged |
| Raster.NodeColumns | goal.py:84-93 | the quadrant rule: the left half of the raster stacks top-left over bottom-left (children 1 and 2); the right half stacks top-right over bottom-right (children 0 and 3) |
| Raster.LeafCells | goal.py:79-82 | every cell of a leaf's raster has the leaf's colour |
| Perimeter.BoundaryCells | goal.py:156-161 | the boundary list holds as many target cells as the interiors of the first and last columns plus the top and bottom cells of the columns between |
| Perimeter.CountMatches | goal.py:172-174 | the counting loop adds one point per target-coloured element of the list |
| Perimeter.GridScore | goal.py:153-176 | the perimeter score of a square raster is `PerimeterPoints`: each target cell weighs 2 per corner test that looks at it, 1 elsewhere on the boundary, 0 inside |
| Perimeter.PerimeterScore | goal.py:141-176 | `PerimeterGoal.score` of a board is `PerimeterPoints` of its raster |
| Perimeter.PerimeterDecomposition | goal.py:156-174 | the weighted sum over all cells equals the corner tests plus the boundary list the code builds |
| Perimeter.PerimeterUniform | goal.py:141-176 | a target-coloured raster of side n >= 2 scores 4n |
| Perimeter.PerimeterSingleCell | goal.py:163-170 | a 1×1 raster scores 8 when its cell has the target colour and 0 otherwise |
| Perimeter.PerimeterAbsent | goal.py:141-176 | a raster without the target colour scores 0 |
| Perimeter.PerimeterIgnoresInside | goal.py:156-174 | two rasters that agree on the boundary score the same |
| Blob.Visited.constructor | goal.py:214-218 | one column of -1 entries per column of the raster, of the same length |
| Blob.Visited.Set | goal.py:259-270 | the visited entry at (col, row) is overwritten and nothing else changes |
| Blob.UndiscoveredBlobSize | goal.py:229-271 | the cells newly marked 1 are exactly `FreshBlob`: the target cells reached from pos through never-visited cells. The result is their number. Out of bounds, or on a cell already visited, it returns 0 and changes nothing. An entry that changes is pos, a newly marked cell, or a neighbour of one, so every unreached cell keeps its mark. Other visited cells get 0 (other colour), and every newly marked cell has all its neighbours visited |
| Blob.MarkAndSpread | goal.py:257-267 | the branch for an unvisited target cell: it marks exactly that cell's `FreshBlob`, each newly marked cell is reached from it through newly marked cells, only the cell, newly marked cells and their neighbours change, and the count is the size of that set |
| Blob.SearchNeighbour | goal.py:260-267 | each neighbour search extends what the search has explored, keeps every newly marked cell reached from the start through newly marked cells, changes only newly marked cells and their neighbours, and visits that neighbour |
| Blob.TetherStep | goal.py:260-267 | after a neighbour search, every cell marked since the start's mark is still reached from the start through cells marked since then |
| Blob.ConfinedAfterMark | goal.py:257-267 | once the start is marked and its four neighbour searches are done, every newly marked cell, the start included, is reached from the start through newly marked cells |
| Blob.NewInFreshBlob | goal.py:232-235 | a cell marked 1 by a search that stays within its own marks is a target cell reached from the start through never-visited cells |
| Blob.FreshBlobIsNew | goal.py:232-247 | every target cell reached from the start through never-visited cells ends up marked 1, once the start and the neighbours of every newly marked cell are visited |
| Blob.SearchIsFresh | goal.py:232-235 | the two directions together: the search marks exactly `FreshBlob`, and the change in the number of 1 marks is its size |
| Blob.ChangedStep | goal.py:260-267 | after a neighbour search, every entry changed since the start's mark is the start, a cell marked since then, or a neighbour of either |
| Blob.ChangedAfterMark | goal.py:257-267 | once the start is marked and its four neighbour searches are done, every changed entry is the start, a newly marked cell or a neighbour of one |
| Blob.NeighbourStep | goal.py:260-267 | the search from the k-th neighbour moves the search from the start on to neighbour k + 1 |
| Blob.FinishMark | goal.py:257-267 | the mark and the four neighbour searches make the whole search: exactly `FreshBlob` marked, its size counted, changes confined to the start, new marks and their neighbours |
| Blob.UnreachedStays | goal.py:257-270 | a target cell followed by two cells of another colour, none visited: any state allowed by the search's contract marks only the first cell and leaves the third at -1 |
| Blob.WalledBlob | goal.py:232-235 | three target cells in a row (three columns of one cell each) whose middle one is already visited: the blob from the first holds that cell alone, so the search returns 1 |
| Blob.Sweep | goal.py:216-227 | the nested loops return the size of the largest blob (`IsLargestBlob` and `LargestBlob`) and leave no cell unvisited |
| Blob.BlobScore | goal.py:200-227 | `BlobGoal.score` is the size of the largest 4-connected target-coloured region of the raster, 0 exactly when the colour is absent |
| Blob.LargestBlobUnique | goal.py:200-206 | any size meeting the relational definition of "largest blob" equals `LargestBlob` |
| Blob.LargestBlobIsLargest | goal.py:200-206 | `LargestBlob` meets the relational definition: no blob is larger, some blob has that size, and it is 0 exactly when no cell has the colour |
| Blob.UniformBlob | goal.py:200-206 | on a grid of one colour, the largest blob is every cell |
| Blob.UniformLargest | goal.py:200-206 | on a grid of one colour, `LargestBlob` is its width times its height |
| Blob.AbsentLargest | goal.py:200-206 | without a target cell, `LargestBlob` is 0 |
| Blob.ClosedSpread | goal.py:257-267 | once every cell marked 1 has all its neighbours visited, a marked cell's whole blob is marked |
| Goals.Score | goal.py:115-120 | the score of a goal on a board is its `Points` and is never negative |
| Goals.UniformBoard | goal.py:141-227 | a board of the goal's colour scores 4 per unit of side on the perimeter (8 at side 1) and its whole area as a blob |
| Goals.UniformLeaf | goal.py:79-82 | the same for an undivided board of the goal's colour |
| Goals.AbsentColour | goal.py:141-227 | a board without the goal's colour scores 0 for either goal |
| Goals.TwoByTwoScores | goal.py:163-174 | on a 2×2 board with red top quadrants and blue bottom ones, the perimeter goal on red scores 4 |
| Goals.DedupFacts | goal.py:43-47 | the colours kept by the drawing loop are distinct and are exactly the colours drawn |
| Goals.GoalsOf | goal.py:48-58 | one goal per chosen colour, in order; all perimeter goals for kind 0, all blob goals otherwise |
| Goals.GenerateGoals | goal.py:31-58 | numGoals goals whose colours are the first distinct colours drawn, all in the palette and pairwise different, all of one kind |
| Locate.GetBlock | player.py:75-106 | a found block is at the requested level, includes the location, and lies within the board; at the board's own level, it is found exactly when it includes the location; below the level, or at a leaf above it, nothing is found |
| Locate.GetBlockFinds | player.py:84-86 | on a tiled board, asking at the level of any block that includes the location returns exactly that block |
| Locate.GetBlockOutside | player.py:88 | a location outside a tiled board is found at no level |
| Players.CreateMove | player.py:155-157 | the move carries the action's name and direction and the block |
| Players.HumanPlayer.constructor | player.py:174-182 | id and goal set, level 0, no pending action |
| Players.HumanPlayer.SelectedBlock | player.py:184-193 | the selected block is at the player's level capped at the board's maximum depth, includes the pointer and lies within the board |
| Players.HumanPlayer.ProcessEvent | player.py:195-208 | an action key sets the pending action; W moves one level up (never above 0) and S one down, both clearing the action; other events change nothing; the level stays non-negative |
| Players.HumanPlayer.GenerateMove | player.py:210-225 | no move while no block is selected or no action is pending; otherwise the pending action on the selected block, and the action is used up |
| Players.RandomPlayer.constructor | player.py:245-247 | id and goal set, not allowed to move |
| Players.RandomPlayer.ProcessEvent | player.py:252-254 | a left click, and only a left click, lets the player move |
| Players.RandomPlayer.GenerateMove | player.py:256-292 | not allowed to move: None; otherwise the drawn action if it succeeds on a copy and None if it fails; either way the player must be released again |
| Players.SameActions | player.py:267-268 | the random player and the smart player consider the same seven distinct actions, and neither considers PASS |
| Players.ChooseAction | player.py:380-400 | the choice is PASS or one of the seven actions |
| Players.ChooseActionBest | player.py:380-400 | PASS exactly when no action beats the current score; otherwise the chosen action's score beats it, ties or beats every other score, and beats every action earlier in the tie-break order |
| Players.SmartDecisionImproves | player.py:327-337 | the smart player passes exactly when no action improves its goal's score; otherwise its action succeeds on a copy, strictly improves the score, and no action scores more |
| Players.SmartPlayer.constructor | player.py:315-318 | id, goal and difficulty set, not allowed to move |
| Players.SmartPlayer.ProcessEvent | player.py:323-325 | a left click, and only a left click, lets the player move |
| Players.SmartPlayer.GenerateMove | player.py:327-400 | not allowed to move: None; otherwise the smart decision on the board's current and attempted scores; the player must be released again |
| Players.SmartPlayer.Attempted | player.py:344-378 | the score of one attempted copy is the goal's points on it, or -1 when the operation failed |
| Players.FirstIndex | player.py:56 | the index found holds the goal, and no earlier entry does |
| Players.RemoveFirst | player.py:56 | removing a present goal deletes exactly its first occurrence and keeps the rest in order, so the multiset loses one copy of it; removing an absent one changes nothing |
| Players.DropDistinct | player.py:55-56 | deleting one goal from goals of distinct colours leaves distinct colours, none equal to the deleted goal's |
| Players.RemoveFirstDistinct | player.py:55-56 | removing a dealt goal keeps the remaining colours distinct and leaves none of the dealt goal's colour |
| Players.DealStep | player.py:54-70 | dealing a remaining goal to the next player keeps ids consecutive and colours distinct across players and remaining goals |
| Players.AddHumans | player.py:54-58 | the first loop appends count human players, each dealt a remaining goal |
| Players.AddRandoms | player.py:60-64 | the second loop appends count random players |
| Players.AddSmarts | player.py:66-70 | the third loop appends one smart player per difficulty, with that difficulty |
| Players.CreatePlayers | player.py:36-72 | humans, then random players, then smart players with their difficulties, numbered from 0; the players' goal colours are distinct, come from the palette, and all goals are of one kind |

## Left out

- The board class and its operations (smash, swap, rotate, paint, combine, create_copy) are not part of this model. They are parameters: each yields a changed copy or None, and `create_copy` is the identity on values. `SmartPlayer.GenerateMove` assumes only that the operations keep the board's level bookkeeping.
- pygame is not modelled. Events become a small datatype and the pointer position is a parameter.
- The `KEY_ACTION` map of actions.py is not part of this model. An action key carries its action.
- settings.py is not part of this model. `COLOUR_LIST` is a palette parameter, and `colour_name` is used only by the descriptions.
- The `description` methods and the `python_ta` main blocks are not modelled. They only build text or run a linter.
- `random` is not modelled: every random choice is an index passed in.
- Goals.GenerateGoals: the source loops until enough distinct colours have been drawn. The model takes the finite sequence of draws and requires it to contain numGoals distinct colours, so it does not capture a draw sequence that never terminates.
- Players.CreatePlayers: inherits that requirement on the draws.
- Players.RandomPlayer.GenerateMove and Players.SmartPlayer.GenerateMove return the action (name and direction) as the source does, not a move triple.
- Players.SmartPlayer.GenerateMove: the difficulty is stored but not consulted, as in the source.
- Players.RemoveFirst: on an absent goal it returns the list unchanged, where Python's `list.remove` raises ValueError. `create_players` only removes a goal it has just chosen from the list.
- Perimeter.BoundaryCells: states how many target cells the boundary list holds, not the list element by element.
- Integer widths do not arise: Python integers are unbounded, and so are Dafny's.
