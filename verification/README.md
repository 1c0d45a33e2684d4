# Tetris core in Dafny

A functional model of the simulation core of the falling-block game in
`Tetris/project/scripts/game.py`:

- the falling piece (`Tetromino`): spawning, sideways moves, the single downward
  step that locks a blocked piece into `field_data`, and the hard drop;
- rotation with wall kicks (`Tetromino.rotate`, `Block.rotate`), including the
  line piece's half-cell pivot and its ceil/floor snapping;
- row clearing (`Game.check_finished_rows`): the ascending passes that move
  blocks down, then the rebuild from the surviving blocks;
- scoring and the end of the game (`calculate_score`, `check_game_over`,
  `create_new_tetromino`), and the game step that ties them together.

The field is a `seq<seq<bool>>` of `rows` rows of `columns` cells. A piece is a
kind, a rotation state `0..3` and four integer cells. The configuration tables
(`ROWS`, `COLUMNS`, `TETROMINOS`, `BLOCK_OFFSET`, `WALL_KICK_DATA`, `SCORE_DATA`)
live in `settings.py`, which is not part of this model. They are the parameter
`Config`. `Config.Valid` states what the game relies on:

- a non-empty field;
- four cells per shape that spawn in bounds;
- a kick list for every quarter turn;
- a non-negative score for one to four rows.

Python's list indexing is modelled exactly where the code can index with a
negative row. `PyIndex` counts a negative index from the end and reports an
out-of-range index as IndexError (`None`).

Files, one module each: `types.dfy`, `settings.dfy`, `board.dfy`,
`tetromino.dfy`, `rotation.dfy`, `rows.dfy`, `scoring.dfy`, `game.dfy`.

Main results:

- **Movement.** Every move is all-or-nothing.
- **Rotation.** A rotation commits the first kick that fits, or nothing.
- **Hard drop.** `move_drop` locks exactly what repeated `move_down` locks.
- **Row clearing.** Clearing equals a reference layout: the full rows are
  removed and the others are stacked at the bottom below empty rows. Each
  survivor moves down by the number of cleared rows below it.
- **One landing.** A landing clears at most four rows.
- **Level.** The level always equals the one the line count calls for.
- **Game over.** The game ends exactly when a piece locks with a block above the
  field.

The level test `current_lines / 10 > current_level` is strict. Exactly ten
lines at level 1 therefore keep level 1, and the eleventh line raises it. The
model follows the code here, not a rule that would level up at ten lines.

## Model

| member | source | states |
|---|---|---|
| Types.Turn | Tetris/project/scripts/game.py:227-232 | the new rotation state is the old one plus one modulo 4 clockwise, minus one modulo 4 counter-clockwise |
| Types.TurnBack | Tetris/project/scripts/game.py:227-232 | turning one way and then the other returns to the original rotation state |
| Board.EmptyField | Tetris/project/scripts/game.py:35 | the initial field has `rows` rows of `columns` cells, all empty |
| Board.PyIndex | Tetris/project/scripts/game.py:306 | a Python list index succeeds exactly for -n <= i < n, and a negative one reads element i + n |
| Board.VerticalCollide | Tetris/project/scripts/game.py:309-314 | a block collides vertically exactly when the target cell is not free: below the floor, or occupied on the visible field; the spawn buffer never collides |
| Board.HorizontalCollide | Tetris/project/scripts/game.py:302-307 | as written: IndexError exactly when the column is inside and the row is not within [-rows, rows); no collision exactly when the Python-indexed row is free in that column |
| Board.LockCells | Tetris/project/scripts/game.py:190-192 | the lock loop fails with IndexError exactly when some block is more than `rows` above the field; otherwise each cell is occupied iff it was before or some block's Python-indexed row and column name it |
| Board.LockOnField | Tetris/project/scripts/game.py:190-192 | for a piece on the visible field the lock adds exactly the piece's four cells and nothing else (equals the reference `Placed`) |
| Tetromino.Spawn | Tetris/project/scripts/game.py:157-169 | a new piece has the requested kind, rotation state 0, and every cell in bounds |
| Tetromino.MoveHorizontal | Tetris/project/scripts/game.py:181-184 | as written: IndexError exactly when a probed block with an in-range column lies outside [-rows, rows); otherwise the whole piece moves by `amount` when every Python-indexed target is free, else nothing moves |
| Tetromino.MoveHorizontalBuffered | Tetris/project/scripts/game.py:181-184 | buffer-aware sideways move: all four blocks move by exactly `amount` with y unchanged when every target cell is free, otherwise nothing changes; the piece stays in bounds |
| Tetromino.MoveBackRestores | Tetris/project/scripts/game.py:181-184 | a successful move followed by the opposite move restores the piece |
| Tetromino.BufferReadsBottomRow | Tetris/project/scripts/game.py:302-307 | a line piece in row -1 is blocked by the as-written test because it reads a bottom-row cell, while every cell it would enter is free |
| Tetromino.MoveDown | Tetris/project/scripts/game.py:186-195 | the piece falls exactly when every cell below its blocks is free: then y grows by one, x, kind and rotation stay, and it stays in bounds; otherwise it is locked into the field |
| Tetromino.DropDistance | Tetris/project/scripts/game.py:197-200 | the drop distance is the first lowering at which the piece is blocked; every smaller lowering is free |
| Tetromino.DropDistanceUnique | Tetris/project/scripts/game.py:197-200 | any distance with all smaller lowerings free and itself blocked is the drop distance |
| Tetromino.DroppedInField | Tetris/project/scripts/game.py:197-200 | a piece lowered by any reachable distance stays in bounds |
| Tetromino.DropAfterOneStep | Tetris/project/scripts/game.py:186-200 | after one free step the drop distance is one less |
| Tetromino.HardDropIsRepeatedSoftDrop | Tetris/project/scripts/game.py:186-206 | locking at the drop distance gives the same field as repeating `move_down` until it locks |
| Tetromino.MoveDrop | Tetris/project/scripts/game.py:197-206 | the drop loop stops after exactly the drop distance, blocked below, and its lock equals both the lock at that position and the repeated-step lock |
| Rotation.QuarterInverse | Tetris/project/scripts/game.py:299-300 | a quarter turn one way undone by one the other way is the identity, and four quarter turns are the identity |
| Rotation.FloorHalf | Tetris/project/scripts/game.py:247-259 | `math.floor` of a half-integer coordinate, in doubled coordinates |
| Rotation.CeilHalf | Tetris/project/scripts/game.py:247-259 | `math.ceil` of a half-integer coordinate, in doubled coordinates |
| Rotation.FirstFit | Tetris/project/scripts/game.py:240-284 | the kick search returns a kick that fits and no earlier kick fits; it returns none only when no kick fits |
| Rotation.Rotate | Tetris/project/scripts/game.py:209-287 | the O piece never turns; a rotation succeeds iff some kick fits; on success the state is (old±1) mod 4, the cells are the rotated and kicked cells of the first fitting kick, all in bounds and free; on failure nothing changes |
| Rotation.TurnIsExact | Tetris/project/scripts/game.py:299-300 | for pieces other than the line, turning about block 2 lands every block exactly on a grid point |
| Rotation.TurnBackRestores | Tetris/project/scripts/game.py:209-259 | for pieces other than the line, an unkicked clockwise turn followed by an unkicked counter-clockwise turn restores the piece |
| Rotation.LineTurnStep | Tetris/project/scripts/game.py:213-259 | where each of the four line orientations lands after an unkicked clockwise turn with the pivot and snapping of the code |
| Rotation.LineFourTurns | Tetris/project/scripts/game.py:213-259 | four unkicked clockwise turns bring the line piece back to where it started |
| Rotation.LineTurnBackRises | Tetris/project/scripts/game.py:213-259 | an unkicked clockwise turn then counter-clockwise turn of a flat line piece leaves it one row higher |
| Rows.FullRows | Tetris/project/scripts/game.py:116-120 | every row collected for deletion is a full row of the field, and they are listed in ascending order |
| Rows.FullRowsExactly | Tetris/project/scripts/game.py:116-120 | a row is collected for deletion iff it is a row of the field and every cell in it is occupied |
| Rows.NonFull | Tetris/project/scripts/game.py:115-135 | the surviving rows number the field's rows minus the cleared ones, none of them is full, and they keep the field's width |
| Rows.ShiftPassesCell | Tetris/project/scripts/game.py:122-131 | the passes move each block on its own: a block starting in row y ends in row `Settle(y, d)` in the same column |
| Rows.SettleIsDeeper | Tetris/project/scripts/game.py:122-131 | the ascending passes move a block outside the cleared rows down by exactly the number of cleared rows strictly below it |
| Rows.SurvivorMovesDown | Tetris/project/scripts/game.py:122-131 | every surviving block moves down by the number of cleared rows below it, keeps its column, and stays on the field |
| Rows.SurvivorBelowClearsStays | Tetris/project/scripts/game.py:122-131 | a block below the lowest cleared row stays where it is |
| Rows.DeeperBound | Tetris/project/scripts/game.py:133-135 | no surviving block is moved below the floor, so the rebuild never indexes out of the field |
| Rows.CompactPeelFull | Tetris/project/scripts/game.py:115-135 | when the bottom row of a field is full, the reference layout is one empty row on top of the layout of the rows above it |
| Rows.CompactPeelOpen | Tetris/project/scripts/game.py:115-135 | when the bottom row of a field is not full, the reference layout keeps it at the bottom, under the layout of the rows above it |
| Rows.CompactCell | Tetris/project/scripts/game.py:115-135 | a cell of the reference layout is occupied iff some surviving block comes to rest on it |
| Rows.RebuildIsCompact | Tetris/project/scripts/game.py:115-135 | the block-by-block clear produces exactly the reference layout |
| Rows.CompactShape | Tetris/project/scripts/game.py:115-135 | the reference layout keeps the field's size and, with at least one column, leaves no full row |
| Rows.CompactWithoutFullRows | Tetris/project/scripts/game.py:121-122 | with no full row the reference layout is the field itself |
| Rows.CheckFinishedRows | Tetris/project/scripts/game.py:115-139 | the clear count is the number of full rows and is zero iff none is full; the result is the reference layout, keeps the size, and has no full row |
| Rows.FullRowsFromLanding | Tetris/project/scripts/game.py:115-139 | when the field had no full row, every full row after a landing is a row of the landed piece, so at most four rows are cleared |
| Scoring.Initial | Tetris/project/scripts/game.py:48-51 | a game starts at level 1 with no lines and no score |
| Scoring.LevelsUpExactly | Tetris/project/scripts/game.py:57 | the level-up test holds exactly when the lines exceed ten times the level |
| Scoring.CalculateScore | Tetris/project/scripts/game.py:53-62 | KeyError iff the count is not in the score table; lines grow by the count, score by the table entry times the level, the level by one exactly when the lines then exceed ten times the level; the score never falls when the level and the table entry are non-negative |
| Scoring.ScoreKeepsConsistent | Tetris/project/scripts/game.py:53-62 | a clear of up to ten rows keeps the level equal to the one the line count calls for (level 1 up to ten lines, then one per ten or part of ten) |
| Scoring.TenLinesStayAtLevelOne | Tetris/project/scripts/game.py:57-58 | exactly ten lines at level 1 keep level 1; the eleventh line raises it to 2 |
| Game.Start | Tetris/project/scripts/game.py:10-51 | the game starts playing on an empty field with the first piece, level 1, no lines and no score, and satisfies the game invariant |
| Game.Resume | Tetris/project/scripts/game.py:69-72 | after a landing on the field the rows are cleared to the reference layout, the next piece spawns, the score is updated once with the clear count when it is positive and not at all otherwise, and at most four rows are cleared |
| Game.Land | Tetris/project/scripts/game.py:64-72 | a landing crashes iff a block is more than `rows` above the field, ends the game iff otherwise some block is above the field, and otherwise clears and continues; the invariant holds and no counter decreases |
| Game.Fall | Tetris/project/scripts/game.py:186-195 | a tick lowers the piece by one row leaving the field and counters untouched when every cell below is free, and otherwise lands it where it is |
| Game.HardDrop | Tetris/project/scripts/game.py:197-206 | the space bar lands the piece lowered by its drop distance, which is in bounds |
| Game.Step | Tetris/project/scripts/game.py:92-113 | every command keeps the game invariant; a finished game ignores commands; moves and turns leave the field and counters alone and keep a free piece free; no counter ever decreases |
| Game.DropAfterFall | Tetris/project/scripts/game.py:186-206 | a tick with room below keeps play going, shortens the drop distance by one, and leaves the outcome of the space bar unchanged |
| Game.TicksWhileFalling | Tetris/project/scripts/game.py:186-195 | while the piece has room below, k ticks lower it by exactly k rows and change nothing else |
| Game.DropIsRepeatedFall | Tetris/project/scripts/game.py:186-206 | the space bar gives the same game state as repeated ticks: the drop distance of free steps, then the one that lands the piece |

## Left out

- Rendering: surfaces, the grid, sprite images, rectangles and `Block.update`. They are presentation only.
- Sound playback. It is a side effect with no bearing on the game state.
- Keyboard polling and the timers. A command is applied directly (`Game.Command`), and which commands arrive when is left open.
- The float gravity period `down_speed *= 0.75` on level-up. It only changes timing.
- Random shape choice (`choice`, `get_next_shape`). The next kind is a parameter of every step.
- The `update_score` callback. It only reports the counters.
- `settings.py` is not part of this model. Its tables are the `Config` parameter with the well-formedness predicate `Config.Valid`. Its shapes, offset and kicks are taken to be integral, so `int()` on a position is the identity and is not modelled separately.
- Pygame float vectors. Non-line turns are exact on integers, and the line piece uses doubled coordinates. Both are exact for integral settings.
- Orphaned sprites. The rebuild in the source walks the sprite group; the model walks `field_data`. They differ only when a lock overwrote an occupied cell (a spawn that overlapped a locked block), and such a block is not tracked.
- The cells written before an IndexError in the lock loop. The game ends there (`Crashed`), so they are not kept.
- `game_over.py` and `main.py`. They are UI and window code outside the core.
- Game.Step: sideways moves use the buffer-aware collision test `Tetromino.MoveHorizontalBuffered` rather than the as-written `Tetromino.MoveHorizontal` (see Findings).
- Game.Resume: the KeyError for a clear count missing from the score table is proved unreachable (at most four rows are ever full) rather than carried as a status.

## Findings

| source | as written | input that shows it | evidently intended | confidence | as-written member | corrected member |
|---|---|---|---|---|---|---|
| Tetris/project/scripts/game.py:302-307 | `horizontal_collide` reads `field_data[int(self.pos.y)]` with no `y >= 0` guard, so a block in the spawn buffer (y < 0) reads a bottom row through Python's negative indexing, and a block more than `ROWS` above the field raises IndexError | a line piece in row -1 at columns 0-3 moving right while the bottom row's column 4 is occupied: the move is refused although every target cell is in the empty buffer | treat the buffer as never occupied, as `vertical_collide` and the rotation check do | not executed | Tetromino.MoveHorizontal, Tetromino.BufferReadsBottomRow | Tetromino.MoveHorizontalBuffered |
