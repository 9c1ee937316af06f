# Zoo Pop engine in Dafny

Zoo Pop is a single-player tap-to-match puzzle on a 10 × 10 board of coloured animal tiles. This
project models its engine, the logic in `zoo.js` that sits between the page's DOM code. The
engine covers:

- the flood fill that finds a tapped tile's group;
- the group pop (score n², one move, goal credit, a rocket or a bomb for big groups);
- rocket and bomb triggers and the blast they cause;
- gravity with refill, done per column with a write pointer;
- the Fisher–Yates shuffle;
- goal generation, the end-of-move check, and level start and reset.

The model is stated in the engine's own terms and proves properties about them.

Layout:

- `board.dfy` (`Board`): tiles, colours, specials, the flat row-major grid `Idx(x, y) = y·Width + x`.
- `groups.dfy` (`Groups`): paths, reachability and connected components of one colour, plus the
  flood fill's loop invariant and its step lemmas.
- `gravity.dfy` (`Gravity`): `Fall`, what gravity and refill do to each column, as a function on
  values. Also the compaction invariant of the in-place write-pointer loop, and its laws.
- `areas.dfy` (`Areas`): a rocket's row or column, a bomb's clipped 3×3 block, clearing tiles,
  and counting coloured tiles.
- `goals.dfy` (`Goals`): goals, the level target `12 + ⌊1.5·level⌋`, the special a group earns,
  goal B's colour, and the round state (score, moves, level, goals).
- `shuffling.dfy` (`Shuffling`): the colour pool, Fisher–Yates, dealing colours back.
- `moves.dfy` (`Moves`): each player action as a function from (round, board) to (round, board):
  `Pop`, `SpecialMove` and `Conclude` (the end-of-move check), plus the round a level starts
  with (`LevelStart`).
- `game.dfy` (`Game`): the class `Game` that holds the tile array and the round fields, with one
  method per engine function. Each method's `ensures` ties the new state to the value-level
  functions above.

The object invariant `Valid()` says that between player actions the board is fully populated and
the round is live. "Live" means:

- moves are left;
- the level is not yet cleared;
- the goal colours differ;
- the level is at least 1.

`Tap` keeps `Valid()`.

Randomness is a set of caller-supplied inputs, and every property holds for all of them:

- `refill` gives one colour per grid slot, used if that slot is refilled;
- `pick` chooses the tile of the group that hosts a new special;
- `horizontal` is the rocket's orientation;
- `js` holds the Fisher–Yates draws;
- `LevelDraws` carries goal A's colour, the successive redraws for goal B, and the new board's
  colours.

Where the code's own comments and its behaviour differ, the model follows the behaviour:

- **Where a new special goes.** The comment at zoo.js:166 says the special goes on the topmost
  valid tile of the chosen column. The loop at zoo.js:171-173 instead scans upward from the
  bottom row and stops at the first coloured tile. After the refill every tile is coloured, so the
  special always lands on the bottom tile `(sx, Width-1)`, and the chosen tile's row is unused.
  `PlaceSpecial` keeps that scan, and `PopBoardShape` states where the special lands.
- **What a shuffle deals.** The shuffle deals colour `pool[i mod |pool|]` to grid slot `i`
  (zoo.js:271). On a board with cleared tiles that need not be a permutation of the colours: if
  only slots 0 and 2 are coloured, both get `pool[0]`. The permutation property is therefore
  stated for a fully populated board, which the board always is between player actions
  (`Valid()`).

## Model

| member | source | states |
|---|---|---|
| Board.InBounds | zoo.js:49 | a tile is on the board when both coordinates lie in [0, Width) |
| Board.Idx | zoo.js:48 | an on-board (x, y) maps to a slot in [0, 100) from which x and y are recovered by mod and div |
| Board.IdxOnto | zoo.js:48 | every slot of the flat grid is the index of an on-board tile |
| Board.IdxInjective | zoo.js:48 | two on-board tiles share a slot only if they are the same tile |
| Groups.Component | zoo.js:85-100 | the set of on-board tiles reachable from the start through 4-neighbour steps on tiles of the colour: what the flood fill is specified against |
| Groups.ReachInClosed | zoo.js:85-100 | any set that holds the start and is closed under matching neighbours holds every tile the start reaches |
| Groups.FillSkip | zoo.js:89-94 | popping a visited, off-board or other-coloured tile keeps the flood fill's invariant |
| Groups.FillVisit | zoo.js:95-97 | visiting a matching tile and pushing its four neighbours keeps the invariant, and the tile is reachable |
| Groups.FillingVisit | zoo.js:95-97 | the visit adds the tile to the group once, keeps the start first and strictly grows the visited set within the board (termination) |
| Groups.FillDone | zoo.js:88-99 | when the stack is empty, the visited tiles are exactly the tiles reachable from the start |
| Groups.EnumerationSize | zoo.js:85-100 | a repetition-free list of the reachable tiles has the size of the connected component |
| Game.Game.FloodGroup | zoo.js:85-100 | the group is repetition-free, every tile matches the colour and is reached from the start, it is closed under same-colour neighbours, and it holds exactly the tiles reachable from the start, the start first when it matches |
| Gravity.OccupiedCount | zoo.js:239-249 | a column's surviving tiles plus its holes make up the column |
| Gravity.OccupiedOfFull | zoo.js:239-249 | nothing is dropped from a fully populated column |
| Gravity.CompactSkip | zoo.js:241 | scanning a cleared tile keeps the compaction invariant with the pointer unmoved |
| Gravity.CompactStay | zoo.js:241-247 | a coloured tile already at the write pointer stays and the pointer moves up |
| Gravity.CompactMove | zoo.js:242-247 | a coloured tile above the pointer moves down to it, its old row is cleared, order below the pointer is kept, the scanned rows at and above the pointer stay cleared, other columns are untouched |
| Gravity.Fall | zoo.js:236-256 | the board after gravity and refill, column by column; tile (x, y) is row y of the settled column x |
| Gravity.FallColumn | zoo.js:237-254 | a settled column has Width tiles, all coloured |
| Gravity.FallColumnLocal | zoo.js:237-255 | gravity is column-local: boards and refills agreeing on column x settle to the same column x |
| Gravity.FallFull | zoo.js:236-256 | after gravity and refill no tile is cleared |
| Gravity.FallKeepsOrder | zoo.js:237-254 | in each column the surviving tiles (colour and special) sit in the bottom rows in their old top-to-bottom order; the rows above, one per hole, are plain tiles of the refill colours |
| Gravity.FallStable | zoo.js:236-256 | gravity leaves a fully populated board unchanged |
| Gravity.FallIdempotent | zoo.js:236-256 | settling a settled board changes nothing, whatever the second refill |
| Game.Game.MoveDown | zoo.js:242-246 | the tile moves to the write row and leaves a cleared tile behind; nothing else changes |
| Game.Game.ScanRow | zoo.js:239-249 | one scan step keeps the compaction invariant: kept tiles in order below the pointer, scanned rows at and above it cleared, unscanned rows and other columns untouched |
| Game.Game.CompactColumn | zoo.js:238-249 | other columns unchanged; the rows below the final pointer hold the column's surviving tiles in order; the pointer is Width-1 minus their number; the pointer's row and every row above it are cleared |
| Game.Game.RefillColumn | zoo.js:251-254 | rows top..0 of the column get plain tiles of the refill colours; nothing else changes |
| Game.Game.SettleColumn | zoo.js:238-254 | column x becomes its settled form; every other column is unchanged |
| Game.Game.DropAndFill | zoo.js:236-257 | the board becomes Fall of the old board with the refill |
| Areas.RowCells | zoo.js:193-194 | the tiles a horizontal rocket affects: row y, left to right |
| Areas.ColumnCells | zoo.js:195-196 | the tiles a vertical rocket affects: column x, top to bottom |
| Areas.BombArea | zoo.js:200-206 | the tiles a bomb affects: the on-board tiles of the 3×3 block around it, row by row |
| Areas.RowCellsShape | zoo.js:193-194 | a horizontal rocket affects exactly the Width tiles of its row, each once |
| Areas.ColumnCellsShape | zoo.js:195-196 | a vertical rocket affects exactly the Width tiles of its column, each once |
| Areas.BombAreaShape | zoo.js:200-206 | a bomb affects each on-board tile of the 3×3 block around it exactly once, and no other tile |
| Areas.BombAreaSize | zoo.js:200-206 | a bomb affects Span(x)·Span(y) tiles: 4 at a corner, 6 on an edge, 9 in the interior, always 4 to 9 |
| Areas.Clear | zoo.js:159-162 | the board with every listed tile cleared (colour and special), as a pop and a blast (zoo.js:221) do |
| Areas.ClearAt | zoo.js:221 | a clear empties exactly the listed tiles and leaves all others as they were |
| Areas.CountsAddUp | zoo.js:213-220 | the per-colour counts of a blast add up to its coloured tiles, at most the number of affected tiles |
| Areas.ColoredOfFull | zoo.js:216-219 | on a fully populated board every affected tile scores |
| Moves.SpecialAreaShape | zoo.js:189-206 | a special's area lists distinct on-board tiles including its own; a rocket's has Width tiles, a bomb's 4 to 9 |
| Game.AreaOf | zoo.js:189-206 | the affected list is the special's area: distinct, on board, holding the special's tile |
| Game.RocketCells | zoo.js:191-197 | the affected list is row y left to right, or column x top to bottom |
| Game.BombCells | zoo.js:200-206 | the affected list is the on-board 3×3 block, row by row |
| Moves.CountTwo | zoo.js:225-228 | two different goal colours together collect at most the coloured tiles of the blast |
| Moves.BlastRound | zoo.js:211-228 | what a blast does to the round: 3 points per coloured affected tile, and each goal gains the affected tiles of its colour |
| Moves.BlastGains | zoo.js:211-228 | a blast scores 3 per coloured tile (3 per tile on a full board), lowers neither goal, and credits the two goals together with at most the tiles it clears |
| Game.Game.ClearCounting | zoo.js:213-223 | the listed tiles are cleared, score rises by 3 per coloured tile, and counts[c] is the number of cleared tiles of colour c |
| Game.Game.CreditGoals | zoo.js:225-228 | each goal gains the count of its own colour; nothing else changes |
| Game.Game.Blast | zoo.js:211-231 | the round becomes BlastRound of the old round and board; the board is the cleared board settled with the refill |
| Goals.GoalTarget | zoo.js:279 | the target is 12 + ⌊1.5·level⌋, stated without division |
| Goals.Credit | zoo.js:151-152 | a goal gains n exactly when its colour is the group's colour, and keeps its colour and target |
| Goals.SpecialFor | zoo.js:140-142 | bomb iff n ≥ 7, rocket iff 5 ≤ n < 7, none iff n < 5 |
| Goals.AfterPop | zoo.js:145-152 | what a pop of n tiles of a colour does to the round: n² points, one move, n tiles to each goal of that colour |
| Goals.AfterPopDeltas | zoo.js:145-152 | a pop of n ≥ 1 tiles adds exactly n² to the score, spends exactly one move, keeps the level and never lowers a goal |
| Game.Game.ScorePop | zoo.js:145-152 | the round becomes AfterPop: n² points, one move, n tiles to each goal of the group's colour |
| Game.Game.ClearTiles | zoo.js:159-162 | the group's tiles are cleared, colour and special |
| Game.Game.BottomOccupied | zoo.js:170-173 | the result is the bottom-most coloured row of the column, or none if the column is all cleared |
| Game.Game.PlaceSpecial | zoo.js:167-178 | on a full board the special is set on the column's bottom tile; nothing else changes |
| Moves.PopBoard | zoo.js:156-178 | the board after a pop: the group cleared, gravity and refill, then the earned special on the bottom-most coloured tile of the picked tile's column |
| Moves.PopBoardShape | zoo.js:156-178 | after a pop the board is full and equals the settled board, except that a group of 5 or more puts its special on the bottom tile of the picked tile's column, which keeps its colour |
| Game.Game.SettlePop | zoo.js:138-178 | the board becomes PopBoard: cleared, settled, special placed |
| Moves.Pop | zoo.js:135-182 | the whole pop: AfterPop on the round, PopBoard on the board, then the end-of-move check |
| Moves.PopLive | zoo.js:135-182 | a pop in a live game leaves a live game on a full board |
| Game.Game.PopGroup | zoo.js:135-182 | while busy nothing changes; otherwise the round and board become Pop (bookkeeping, settled board, special, end-of-move check) and busy is cleared |
| Moves.SpecialArea | zoo.js:189-206 | the tiles a special affects: a rocket's row or column as the orientation says, a bomb's clipped 3×3 block |
| Moves.SpecialMove | zoo.js:184-209 | the whole trigger: one move spent, the blast of the special's area, gravity and refill, then the end-of-move check |
| Moves.SpecialMoveDeltas | zoo.js:187-228 | before the end-of-move check a trigger spends exactly one move, keeps the level, scores 3 per coloured affected tile (exactly 30 for a rocket on a full board, 12 to 27 for a bomb) and credits each goal with the affected tiles of its colour |
| Moves.SpecialMoveLive | zoo.js:184-209 | triggering a special in a live game leaves a live game on a full board |
| Game.Game.SpendAndBlast | zoo.js:187-207 | one move is spent, then the round and board become those of the area's blast |
| Game.Game.ApplySpecial | zoo.js:184-209 | while busy nothing changes; otherwise the round and board become SpecialMove and busy is cleared |
| Game.Game.Tap | zoo.js:106-127 | busy: nothing changes; special tile: SpecialMove; group of fewer than 2: nothing changes; otherwise Pop of a repetition-free list of exactly the tapped component, starting at the tapped tile; Valid is kept |
| Shuffling.Pool | zoo.js:264-265 | the colours of the coloured tiles, in grid order |
| Shuffling.FisherYates | zoo.js:266-270 | the pool after the swaps from the last index down to 1, step i swapping positions i and js[i] |
| Shuffling.Deal | zoo.js:271 | coloured tile i gets pool colour i mod \|pool\| and loses its special; cleared tiles stay |
| Shuffling.Shuffled | zoo.js:262-274 | the board after a shuffle: Deal of the Fisher–Yates-shuffled pool |
| Shuffling.PoolOfFull | zoo.js:264-265 | on a full board the pool is every tile's colour, in grid order |
| Shuffling.FisherYatesPermutes | zoo.js:266-270 | Fisher–Yates keeps every colour's number of occurrences |
| Shuffling.ShuffleKeepsShape | zoo.js:262-274 | a shuffle keeps which tiles are coloured and removes every coloured tile's special |
| Shuffling.DealFull | zoo.js:271 | dealing a pool as long as a full board gives slot i pool colour i and no special |
| Shuffling.ShufflePermutes | zoo.js:262-274 | on a full board a shuffle keeps it full, keeps the multiset of colours and clears all specials |
| Game.FisherYatesInPlace | zoo.js:266-270 | the in-place swaps compute FisherYates of the pool and permute it |
| Game.Game.CollectPool | zoo.js:264-265 | the pool is the colours of the coloured tiles in grid order |
| Game.Game.DealColors | zoo.js:271 | every coloured tile i gets colour p[i mod \|p\|] and no special; cleared tiles stay |
| Game.Game.Shuffle | zoo.js:262-274 | while busy nothing changes; otherwise the board becomes Shuffled; on a full board it stays full with the same multiset of colours |
| Goals.SecondColor | zoo.js:278 | goal B's colour differs from goal A's and is one of the draws |
| Goals.SecondColorIsFirst | zoo.js:278 | goal B's colour is the first draw that differs from goal A's colour |
| Game.Game.RandomGoals | zoo.js:276-285 | goal A gets c1 and goal B the first redraw unlike c1, both with the level's target and nothing collected; the rest of the state is unchanged |
| Moves.NewBoard | zoo.js:68-79 | a new board is full, each tile plain with its drawn colour |
| Game.Game.CreateBoard | zoo.js:68-79 | the board becomes NewBoard of the drawn colours |
| Moves.LevelStart | zoo.js:302-309 | the round a level starts with: score 0, 30 moves, the level kept, goals of the drawn colours with the level's target and nothing collected |
| Moves.LevelStartLive | zoo.js:302-309 | every level from 1 on starts live, with both targets equal and at least 13 |
| Game.Game.NewLevel | zoo.js:302-309 | the round becomes LevelStart of the current level (score 0, 30 moves, new goals) and the board a new board |
| Moves.Conclude | zoo.js:311-323 | the end-of-move check: a won round starts the next level, a round out of moves restarts the level (never below 1), otherwise nothing changes |
| Moves.ConcludeLevel | zoo.js:311-323 | the level rises by exactly one iff both goals are met; a won or lost round restarts with score 0, 30 moves and a new board; otherwise nothing changes |
| Moves.ConcludeLive | zoo.js:311-323 | after the end-of-move check the round is live and the board full |
| Game.Game.CheckEnd | zoo.js:311-323 | the round and board become Conclude of the old ones: win tested before loss |
| Game.Game.Reset | zoo.js:325-328 | the game restarts at level 1, live, with a new board |
| Game.Game.NewGame | zoo.js:331 | the game moves to the next level, live, with a new board |
| Game.Game.constructor | zoo.js:35-39 | the initial state, followed by the start-up new level of zoo.js:339: a new game is at level 1, live, not busy, on a new board |

## Left out

- DOM and view code is not modelled: element lookups, `makeTile`, `renderTile`, `syncAll`, `clearHighlights`, `pulse`, `showToast`, the help modal, and the display parts of `updateGoalsUI` (its rounded percentages are presentation only).
- The 120 ms settle delay in `dropAndFill` and the promise continuations are not modelled. Gravity and refill are synchronous, so `busy` is only a flag that makes a pop, a trigger and a shuffle do nothing while it is set. Interleavings of events during the delay are not modelled; neither is a reset or next-level press arriving mid-resolution.
- `Math.random` and `rand` are replaced by the caller-supplied inputs listed above.
- Game.Game.Tap: takes `pick` modulo the group's size. The source draws a uniform index below the group's size, and that draw is a value of this form.
- Game.Game.Blast: requires the affected tiles to be distinct. Both of its callers supply distinct tiles (`SpecialAreaShape`), so the source's behaviour on a repeated tile is not modelled.
- Game.Game.CreateBoard: overwrites the tiles of the existing array. The source empties the array and pushes new tile objects. Aliasing of tile objects is not modelled anywhere: a tile is a value.
- Game.Game.Shuffle: states the permutation property only for a fully populated board. On a board with cleared tiles, dealing `pool[i mod |pool|]` by grid slot need not be a permutation: with only slots 0 and 2 coloured, both get `pool[0]`.
- Goals.SecondColor: assumes some redraw differs from goal A's colour. The source's redraw loop (zoo.js:278) ends only with probability 1.
- Goals.GoalTarget: is exact integer arithmetic. It replaces the source's floating-point `Math.floor(level*1.5)`, which agrees with it for every level the game reaches.
- Integer widths are not modelled. Scores, moves and goal counts are unbounded integers; JavaScript numbers stay exact far beyond any reachable score.
