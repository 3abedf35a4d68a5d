# Block Stack engine, modelled and verified in Dafny

This project models the falling-block game engine `BlockStackGame`. The board has 10 columns and 20 rows. A piece is a shape matrix with a colour and a board position.

The model covers:
- the collision rule;
- moving, and locking a piece into the board;
- clockwise rotation with its ordered wall-kick search;
- removing full rows, with line score, level and drop speed;
- spawning, with the block-out loss condition;
- the hard drop;
- action dispatch, gated on the playing and pause flags;
- the drop timer of the frame update;
- the lifecycle calls start, pause, stop and destroy.

Modules:

- `Wrappers`: `Option`.
- `Pieces`:
  - the seven-entry piece table and `CreatePiece`;
  - shape well-formedness;
  - the rotation `Rotated` and its proofs;
  - `RotateMatrix`, the engine's rotation loop, proved to compute `Rotated`.
- `Board`:
  - the board type, 20 rows of 10 cells, each empty or holding a colour;
  - `Collides` and the scan `CheckCollision` that computes it;
  - `Stamp` and the write loop `LockCells` that computes it;
  - `Cleared` and the bottom-up splice scan `CollapseFullRows` that computes it.
- `Scoring`: the line-score table, the level and the drop speed.
- `Engine`:
  - the state record `GameState`;
  - one function per transition (`Spawn`, `Clear`, `Place`, `Move`, `Rotate`, `HardDropResult`, `ActionResult`, `Tick`, `Advance`);
  - the lemmas about them.

  The invariant `StateValid` says four things:
  - every shape is well formed;
  - no full row is left on the board;
  - level and drop speed are derived from the cleared-line total;
  - while playing, the active piece is at a collision-free position.
- `Game`: the class `BlockStackGame`.
  - Its fields: the state record, the previous frame timestamp `lastTime`, the drop timer `dropTime`, and whether a drawing surface is attached.
  - Each method updates them in place.
  - `Frame`, `Update`, `HandleAction`, `SpawnPiece`, `MovePiece`, `RotatePiece`, `HardDrop`, `DropUntilLocked`, `PlacePiece` and `ClearLines` are proved to produce exactly the matching `Engine` transition (`Advance`, `Tick`, `ActionResult`, `Spawn`, `Move`, `Rotate`, `HardDropResult`, `Landed` then `Place`, `Place`, `Clear`). `Start` produces `Advance` of `StartResult` when a surface is attached.
  - `InitializeCanvas`, `Pause`, `Stop` and `Destroy` match no `Engine` function; their contracts state the fields they set directly.
  - The constructor, `Frame`, `Update`, `HandleAction`, `MovePiece`, `HardDrop`, `DropUntilLocked` and `PlacePiece` ensure the invariant outright.
  - Some methods ensure it only conditionally. `Start` does so when a surface is attached. `Pause`, `Stop` and `Destroy` do so when it held before. `SpawnPiece` does so from a consistent state.
  - `ClearLines` ensures only consistency (shapes, no full row, derived level and speed), given well-formed shapes and a derived level before.
  - `InitializeCanvas` and `RotatePiece` promise nothing about the invariant; `Engine.RotateValid` proves that `Rotate` keeps it.
- `Scenarios`:
  - a hard drop of the line piece on the empty board right after start;
  - the block-out condition.

The random draw and timestamps are handled as follows:
- Each random draw is a parameter `roll` (or `first`/`next`), a table index 0..6 chosen by the caller.
- Timestamps and deltas are integer milliseconds passed in by the caller.

Every path below is relative to the repository root. The one source file is `packages/game-engine/src/games/blockstack/index.ts`.

## Model

| member | source | states |
|---|---|---|
| Pieces.CreatePiece | packages/game-engine/src/games/blockstack/index.ts:398-406 | the drawn piece has the table entry's shape and colour, sits at the origin (0, 0), and its shape is rectangular, at most 4 by 4, with an occupied cell |
| Pieces.Rotated | packages/game-engine/src/games/blockstack/index.ts:455-467 | an r-by-c matrix becomes c-by-r; row j of the result is column j of the original read from the bottom up |
| Pieces.RotatedCell | packages/game-engine/src/games/blockstack/index.ts:462 | cell [i][j] of the original lands at cell [j][r-1-i] |
| Pieces.RotatedWellFormed | packages/game-engine/src/games/blockstack/index.ts:455-467 | rotating a well-formed shape gives a well-formed shape |
| Pieces.RotatedTwice | packages/game-engine/src/games/blockstack/index.ts:455-467 | two rotations turn the matrix half way: cell [i][j] becomes cell [r-1-i][c-1-j] |
| Pieces.RotateFourTimes | packages/game-engine/src/games/blockstack/index.ts:455-467 | four rotations give back the original matrix |
| Pieces.RotateMatrix | packages/game-engine/src/games/blockstack/index.ts:455-467 | the zero-filled c-by-r matrix filled by the double loop equals `Rotated` of the input |
| Board.Collides | packages/game-engine/src/games/blockstack/index.ts:479-501 | the collision rule: some occupied shape cell, shifted by the piece position plus (dx, dy), is off either side (column < 0 or >= 10), at or below the floor (row >= 20), or on a filled cell of a visible row (row >= 0) |
| Board.CheckCollision | packages/game-engine/src/games/blockstack/index.ts:479-501 | answers true exactly when some occupied cell lands on a blocked position at the offset. Blocked means: off either side, at or below row 20, or on a filled cell with row >= 0. Rows above the board are never blocked by board content |
| Board.ShiftCollides | packages/game-engine/src/games/blockstack/index.ts:480-481 | testing a piece moved by (dx, dy) at offset (ex, ey) is testing the original piece at offset (dx+ex, dy+ey) |
| Board.EmptyBoardCollision | packages/game-engine/src/games/blockstack/index.ts:489-495 | on the empty board, a piece collides exactly when an occupied cell is off the sides or at or below the floor |
| Board.Stamp | packages/game-engine/src/games/blockstack/index.ts:506-518 | the board with the piece colour written into every cell under an occupied shape cell of a visible row; cells of rows above the board are dropped and every other cell keeps its content |
| Board.FreeLandsOnBoard | packages/game-engine/src/games/blockstack/index.ts:510-515 | at a collision-free position, every occupied cell with row >= 0 lies inside the board, so every write of the lock loop is in range |
| Board.LockCells | packages/game-engine/src/games/blockstack/index.ts:506-518 | the copied board gets the piece colour at exactly the cells under occupied piece cells with row >= 0; every other cell is unchanged |
| Board.StampedPieceCollides | packages/game-engine/src/games/blockstack/index.ts:508-518 | once a piece with a visible occupied cell is written in, the same piece at the same place collides |
| Board.NonFullRows | packages/game-engine/src/games/blockstack/index.ts:534-540 | the kept rows plus the full rows make up all the rows |
| Board.NonFullRowsMembers | packages/game-engine/src/games/blockstack/index.ts:535-536 | a row is kept exactly when it is a row of the board that is not full |
| Board.NoFullRowCount | packages/game-engine/src/games/blockstack/index.ts:543 | there is no full row exactly when the full-row count is 0, and then every row is kept |
| Board.EmptyRowNotFull | packages/game-engine/src/games/blockstack/index.ts:537 | the row put on top is not full |
| Board.Cleared | packages/game-engine/src/games/blockstack/index.ts:530-541 | the board after the line-clear scan: as many empty rows on top as there were full rows, then the rows that are not full in their original order |
| Board.ClearedHasNoFullRow | packages/game-engine/src/games/blockstack/index.ts:530-541 | after clearing, no row of the board is full |
| Board.ClearedWithoutFullRow | packages/game-engine/src/games/blockstack/index.ts:534-541 | clearing a board without full rows changes nothing |
| Board.FullCountWithin | packages/game-engine/src/games/blockstack/index.ts:535 | if full rows can only lie in rows [lo, hi), at most hi - lo rows are full |
| Board.ClearCountAtMostShapeHeight | packages/game-engine/src/games/blockstack/index.ts:503-541 | locking a piece into a board without full rows fills at most as many rows as the piece has rows (at most 4), so the line-score table is never indexed past its end |
| Board.SpliceFullRow | packages/game-engine/src/games/blockstack/index.ts:535-539 | splicing out a full row and unshifting an empty row keeps the scan's invariant at the same index |
| Board.PassRow | packages/game-engine/src/games/blockstack/index.ts:534-535 | passing a row that is not full keeps the scan's invariant one index lower |
| Board.CollapseFullRows | packages/game-engine/src/games/blockstack/index.ts:531-541 | the bottom-up scan that re-examines the index after each removal returns `Cleared(board)` and the number of full rows. `Cleared(board)` is that many empty rows on top of the non-full rows in their original order |
| Scoring.CalculateScore | packages/game-engine/src/games/blockstack/index.ts:559-562 | the points are never negative at a level >= 0; a count outside the table pays 0; clearing 1 to 4 rows pays at least 100 times the level |
| Scoring.LevelFor | packages/game-engine/src/games/blockstack/index.ts:546 | the level is the one with 10*(level-1) <= total < 10*level, that is floor(total / 10) + 1 |
| Scoring.DropSpeedFor | packages/game-engine/src/games/blockstack/index.ts:547 | the drop interval is at least 50 ms, and at most 1000 ms from level 1 on |
| Scoring.TenMoreLines | packages/game-engine/src/games/blockstack/index.ts:545-547 | ten more cleared lines raise the level by one and lower the drop interval by 100 ms, but not below 50 ms |
| Scoring.DropSpeedNonIncreasing | packages/game-engine/src/games/blockstack/index.ts:547 | a higher level never has a longer drop interval |
| Engine.InitialState | packages/game-engine/src/games/blockstack/index.ts:89-104 | the initial record is valid: not playing, not over, score 0, level 1, every board cell empty |
| Engine.Spawn | packages/game-engine/src/games/blockstack/index.ts:378-396 | promote the next piece (or draw one with `first` when there is none), centre it at column floor((10 - width) / 2) of row 0, draw the next piece with `next`, and end the game (`gameOver` true, `isPlaying` false) when the centred piece collides |
| Engine.SpawnCentres | packages/game-engine/src/games/blockstack/index.ts:378-391 | the active piece is the promoted next piece, or the piece drawn with `first` when there is none, keeping its shape and colour. It sits in row 0, centred at floor((10 - width) / 2): inside the board, with side margins that differ by at most one and the left one no larger. The next piece is the one drawn with `next` |
| Engine.SpawnBlockOut | packages/game-engine/src/games/blockstack/index.ts:391-395 | a spawn changes only the two pieces, plus the two flags in one case: when the centred piece collides, `gameOver` becomes true and `isPlaying` false |
| Engine.SpawnValid | packages/game-engine/src/games/blockstack/index.ts:378-396 | from a consistent state a spawn gives a valid one: the new piece is free, or the game stopped playing |
| Engine.Clear | packages/game-engine/src/games/blockstack/index.ts:530-557 | with n > 0 full rows: the cleared board, the line score for n at the old level added, the line total raised by n, and level and drop speed recomputed from the new total; with no full row the state is unchanged |
| Engine.ClearConsistent | packages/game-engine/src/games/blockstack/index.ts:530-557 | after clearing no row is full, and level and drop speed are still derived from the new line total |
| Engine.ClearIdempotent | packages/game-engine/src/games/blockstack/index.ts:530-557 | clearing twice is clearing once |
| Engine.Lock | packages/game-engine/src/games/blockstack/index.ts:506-524 | the piece written into the board (`Stamp`) and 10 times the level added to the score; the pieces are unchanged |
| Engine.Place | packages/game-engine/src/games/blockstack/index.ts:503-528 | with an active piece: `Lock`, then `Clear`, then `Spawn` with the same draw for both pieces; without one the state is unchanged |
| Engine.PlaceSteps | packages/game-engine/src/games/blockstack/index.ts:503-528 | proof step: the three intermediate states `placePiece` goes through (after the write and bonus, after the clear, after the spawn) compose to `Place`; it only unfolds `Place` for `Game.BlockStackGame.PlacePiece` |
| Engine.PlaceValid | packages/game-engine/src/games/blockstack/index.ts:503-528 | locking from a consistent state gives a valid state |
| Engine.PlaceScore | packages/game-engine/src/games/blockstack/index.ts:520-526 | locking adds 10 times the level plus the line score, at the old level, of the n rows the piece completes, where n <= 4 |
| Engine.Move | packages/game-engine/src/games/blockstack/index.ts:408-427 | with a piece free at (dx, dy): the piece shifted by (dx, dy) and true; with a blocked downward move: `Place` and false; otherwise the state unchanged and false |
| Engine.MoveOutcome | packages/game-engine/src/games/blockstack/index.ts:408-427 | a move succeeds exactly when there is a piece and it is free at the offset. It then shifts x by dx and y by dy, keeps shape and colour, and changes nothing else. A failed move with dy <= 0 changes nothing; a failed move with dy > 0 locks the piece |
| Engine.MoveFree | packages/game-engine/src/games/blockstack/index.ts:411-419 | a move to a free offset gives the shifted piece and true |
| Engine.MoveBack | packages/game-engine/src/games/blockstack/index.ts:408-427 | from a valid state, a successful move followed by the opposite move restores the state, and the second move also succeeds |
| Engine.MoveValid | packages/game-engine/src/games/blockstack/index.ts:408-427 | every move keeps the invariant |
| Engine.MoveKeepsTime | packages/game-engine/src/games/blockstack/index.ts:408-427 | a move, including the lock and spawn it may trigger, leaves the elapsed time alone |
| Engine.FirstFreeKick | packages/game-engine/src/games/blockstack/index.ts:436-452 | the answer is the first kick index from `from` on at which the rotated piece is free: every earlier kick collides, and None means every kick collides |
| Engine.Rotate | packages/game-engine/src/games/blockstack/index.ts:429-453 | the active piece with the rotated shape, moved by the first of the eight kicks at which it is free; the state unchanged when every kick collides or there is no piece |
| Engine.KickFree | packages/game-engine/src/games/blockstack/index.ts:441-449 | the piece moved by the first free kick is at a collision-free position |
| Engine.RotateAtKick | packages/game-engine/src/games/blockstack/index.ts:441-451 | when kick k is the first free one, rotation commits the rotated shape moved by kick k |
| Engine.RotateBlocked | packages/game-engine/src/games/blockstack/index.ts:441-453 | when every kick collides, rotation changes nothing |
| Engine.RotateValid | packages/game-engine/src/games/blockstack/index.ts:429-453 | rotation keeps the invariant |
| Engine.DropDistance | packages/game-engine/src/games/blockstack/index.ts:472-475 | the number of successive one-row downward moves that succeed before the first blocked one |
| Engine.Lowered | packages/game-engine/src/games/blockstack/index.ts:413-419 | the state with the active piece moved n rows down, which is where the drop loop has it after n successful moves |
| Engine.Landed | packages/game-engine/src/games/blockstack/index.ts:469-475 | the landed state keeps well-formed shapes and consistency |
| Engine.DropLandsLowest | packages/game-engine/src/games/blockstack/index.ts:472-475 | the drop distance d is the lowest resting row: the piece is free at every downward offset 1..d and collides at d+1 |
| Engine.EmptyBoardDrop | packages/game-engine/src/games/blockstack/index.ts:472-475 | on the empty board, a piece inside the walls with an occupied bottom cell falls until its bottom row is row 19 |
| Engine.DropStep | packages/game-engine/src/games/blockstack/index.ts:473-474 | each successful one-row move of the drop loop lowers the piece by one row and leaves one row less to fall |
| Engine.LandedAfter | packages/game-engine/src/games/blockstack/index.ts:473 | when the loop's move fails, the rows counted are the drop distance and the state is the landed one |
| Engine.HardDropResult | packages/game-engine/src/games/blockstack/index.ts:469-477 | with an active piece: the landed piece locked as `Place` does it, then 2 points per row fallen added; without one the state is unchanged |
| Engine.HardDropSteps | packages/game-engine/src/games/blockstack/index.ts:469-477 | proof step: locking the landed state and then adding 2 points per row fallen is `HardDropResult`; it only unfolds `HardDropResult` for `Engine.HardDropScore` |
| Engine.HardDropScore | packages/game-engine/src/games/blockstack/index.ts:469-477 | a hard drop adds 2 points per row fallen, on top of 10 times the level and the line score of the landing position |
| Engine.HardDropValid | packages/game-engine/src/games/blockstack/index.ts:469-477 | a hard drop keeps the invariant |
| Engine.ActionResult | packages/game-engine/src/games/blockstack/index.ts:154-182 | while not playing or paused, "pause" toggles the pause flag and every other action does nothing; while playing, the five controls dispatch to `Move` (left, right, soft drop), `Rotate` and `HardDropResult`, "pause" sets the pause flag, and any other action does nothing |
| Engine.ActionGate | packages/game-engine/src/games/blockstack/index.ts:154-182 | while not playing or paused, only "pause" changes anything, and it only toggles the pause flag; an action outside the six controls never changes the state |
| Engine.PauseTwice | packages/game-engine/src/games/blockstack/index.ts:200-202 | "pause" flips the pause flag, and two of them restore the state, playing or not |
| Engine.ActionValid | packages/game-engine/src/games/blockstack/index.ts:154-182 | every action keeps the invariant |
| Engine.Tick | packages/game-engine/src/games/blockstack/index.ts:237-245 | the elapsed time and the timer grow by the delta; once the timer exceeds the drop interval the piece moves one row down (`Move` with (0, 1), locking when blocked) and the timer restarts at 0 |
| Engine.TickValid | packages/game-engine/src/games/blockstack/index.ts:237-245 | an update keeps the invariant, adds exactly the delta to the elapsed time, and leaves the timer no greater than the drop interval |
| Engine.TickDrop | packages/game-engine/src/games/blockstack/index.ts:241-244 | once the timer exceeds the drop interval, the update is one downward move and the timer restarts at 0 |
| Engine.TickIdle | packages/game-engine/src/games/blockstack/index.ts:237-245 | while the timer stays within the drop interval, only the elapsed time and the timer change |
| Engine.Advance | packages/game-engine/src/games/blockstack/index.ts:220-235 | a game that is not playing ignores the frame; a paused one only records the timestamp; otherwise the timestamp is recorded and `Tick` runs on the time since the previous frame |
| Engine.AdvanceValid | packages/game-engine/src/games/blockstack/index.ts:220-235 | frames keep the invariant, and a game that is not playing ignores frames entirely, leaving state, timestamp and timer as they were |
| Engine.StartResult | packages/game-engine/src/games/blockstack/index.ts:191-196 | the initial record with `isPlaying` set, followed by `Spawn` |
| Engine.StartPlays | packages/game-engine/src/games/blockstack/index.ts:184-198 | a new game is valid, playing, not paused and not over, with score 0, level 1, no lines and an active piece: a piece spawned on the empty board never blocks out |
| Game.BlockStackGame.constructor | packages/game-engine/src/games/blockstack/index.ts:60-68 | a new engine holds the initial state, both clocks at 0 and no surface |
| Game.BlockStackGame.InitializeCanvas | packages/game-engine/src/games/blockstack/index.ts:70-83 | attaching a surface changes nothing else |
| Game.BlockStackGame.Start | packages/game-engine/src/games/blockstack/index.ts:184-198 | without a surface nothing changes. With one, the state, timestamp and timer are the first frame, at time 0, of the fresh playing state with a spawned piece, and the invariant holds |
| Game.BlockStackGame.Pause | packages/game-engine/src/games/blockstack/index.ts:200-202 | toggles `isPaused` and nothing else |
| Game.BlockStackGame.Stop | packages/game-engine/src/games/blockstack/index.ts:204-210 | sets `isPlaying` false and `gameOver` true and nothing else |
| Game.BlockStackGame.Destroy | packages/game-engine/src/games/blockstack/index.ts:212-218 | stops the game and detaches the surface |
| Game.BlockStackGame.Frame | packages/game-engine/src/games/blockstack/index.ts:220-235 | the new state, timestamp and timer are `Advance` of the old ones, and the invariant holds |
| Game.BlockStackGame.Update | packages/game-engine/src/games/blockstack/index.ts:237-245 | the new state and timer are `Tick` of the old ones, and the invariant holds |
| Game.BlockStackGame.HandleAction | packages/game-engine/src/games/blockstack/index.ts:154-182 | the new state is `ActionResult` of the old one, the clocks are unchanged, and the invariant holds |
| Game.BlockStackGame.SpawnPiece | packages/game-engine/src/games/blockstack/index.ts:378-396 | the new state is `Spawn` of the old one; from a consistent state it is valid |
| Game.BlockStackGame.MovePiece | packages/game-engine/src/games/blockstack/index.ts:408-427 | the answer is true exactly when there is a piece and it is free at the offset. Then the piece is shifted; otherwise the state is locked (dy > 0) or unchanged. The result is valid, and a successful move keeps the piece free |
| Game.BlockStackGame.RotatePiece | packages/game-engine/src/games/blockstack/index.ts:429-453 | the kick loop leaves exactly `Rotate` of the old state |
| Game.BlockStackGame.HardDrop | packages/game-engine/src/games/blockstack/index.ts:469-477 | the new state is `HardDropResult` of the old one, and it is valid |
| Game.BlockStackGame.DropUntilLocked | packages/game-engine/src/games/blockstack/index.ts:472-475 | the loop counts exactly the drop distance and ends in the locked landed state |
| Game.BlockStackGame.PlacePiece | packages/game-engine/src/games/blockstack/index.ts:503-528 | the new state is `Place` of the old one, and it is valid |
| Game.BlockStackGame.ClearLines | packages/game-engine/src/games/blockstack/index.ts:530-557 | the new state is `Clear` of the old one: with n > 0 full rows, the board is `Cleared` and the score grows by the line score at the old level; the line total grows by n; level and drop speed are derived from the new total. With n = 0 nothing changes |
| Scenarios.StartWithLine | packages/game-engine/src/games/blockstack/index.ts:184-198 | starting with the line piece puts it at column 3 of row 0 of the empty board |
| Scenarios.LineStampNotFull | packages/game-engine/src/games/blockstack/index.ts:535 | a line piece written in at column 3 completes no row of the empty board |
| Scenarios.LineHardDrop | packages/game-engine/src/games/blockstack/index.ts:469-477 | at level 1, the line piece dropped from column 3 of row 0 of the empty board lands in row 19, at the same column, and adds 2 * 19 + 10 = 48 points |
| Scenarios.StartThenHardDrop | packages/game-engine/src/games/blockstack/index.ts:175-177 | right after a start with the line piece, the "hardDrop" action lands it in row 19 and the score is 48 |
| Scenarios.TopCell | packages/game-engine/src/games/blockstack/index.ts:50-58 | every table piece has an occupied cell in its top row |
| Scenarios.BlockOut | packages/game-engine/src/games/blockstack/index.ts:388-395 | when the middle four cells of row 0 are filled, promoting a piece with an occupied top-row cell ends the game |
| Scenarios.BlockOutTablePiece | packages/game-engine/src/games/blockstack/index.ts:378-395 | when the middle four cells of row 0 are filled and the piece to promote has one of the table's shapes (or is drawn fresh), every spawn ends the game |

## Left out

- Rendering is not modelled: `initializeCanvas`'s 2-D context, `render` and the `draw*` functions (index.ts:70-83, 247-376). They draw on a foreign surface with floating-point cell sizes. Only the fact that a surface is attached is kept, because `start` refuses to run without one.
- The error thrown when `getContext('2d')` yields no context is not modelled (index.ts:75-77); `Game.BlockStackGame.InitializeCanvas` always attaches a surface, since obtaining a context is a call into the host.
- The `console.log` and `console.error` calls are not modelled (index.ts:71, 82, 185, 187); they only write diagnostics.
- The keyboard wiring is not modelled: `setupEventListeners`, `removeEventListeners` and `handleKeyDown` (index.ts:106-152). It is a platform event source; the model starts at `handleAction`.
- The scheduler is not modelled: `requestAnimationFrame`, `cancelAnimationFrame` and `animationFrameId` are host scheduling. `Game.BlockStackGame.Frame` is the body of `gameLoop`, and the caller supplies the timestamp.
- Event emission is not modelled: `setState`'s `emit` and `removeAllListeners` (index.ts:564-567, 217) are observer plumbing. `setState` becomes a record update.
- The `state` getter's copy is not modelled (index.ts:85-87). Its purpose is to avoid aliasing, and Dafny values are immutable.
- `Math.random` is not modelled (index.ts:399); every draw is a table index passed by the caller. A lock passes the same index as both draws of its spawn. The index for the active piece is only used when there is no next piece, which never happens after a start.
- Floating-point time is not modelled. Timestamps and deltas are integers (milliseconds), and scores and counters are unbounded integers.
- Colours are a datatype of the seven table colours; the colour strings the engine stores are given in the comment on `Pieces.Color`, since nothing in the core compares them.
- The static configuration and control table (index.ts:4-19) is metadata. Actions are the six strings `handleAction` compares against.
- Game.BlockStackGame.MovePiece: requires the active piece to be at a collision-free position. The source never checks this. It holds in every state the engine reaches while playing, and without it the lock loop could write outside the board.
- Game.BlockStackGame.PlacePiece: requires the active piece to be at a collision-free position, for the same reason.
- Game.BlockStackGame.HardDrop: requires the active piece to be at a collision-free position, for the same reason.
- Game.BlockStackGame.DropUntilLocked: requires the active piece to be at a collision-free position, for the same reason.
- Game.BlockStackGame.Update: requires the invariant and a playing game, which is what `gameLoop` guarantees before it calls `update`.
- Game.BlockStackGame.HandleAction: requires the invariant, which every state the engine reaches satisfies.
- Game.BlockStackGame.RotatePiece promises no invariant of its own; `Engine.RotateValid` proves that `Rotate` keeps it.
- `start` resets the state record but neither the frame timestamp nor the drop timer (index.ts:184-198). The model reproduces this: the first frame of a new game runs on `0 - lastTime`.
- The `lives` field is carried along unchanged, since no operation of the engine uses it.
