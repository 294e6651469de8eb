# Falling-block engine rules in Dafny

This project models the game rules of the nein-eleven falling-block engine
(`bitEngine`). It covers:

- the placement predictor `PatternNGrams`;
- the live piece `BitLogicTetromino`;
- the grid, the spawner and the line cleaner;
- the scoreboard;
- the upcoming-piece queue;
- the player controller.

Everything is written as pure functions over immutable values:

- a board is `seq<seq<int>>`, indexed `board[y][x]`;
- a piece is a `seq<(int, int)>` of (x, y) cells;
- the scoreboard, queue, spawner, controller and piece are records.

A method that changes the shared grid takes the grid and returns the changed
grid. An exception becomes an `Err` of a `Fault`.

Python's own rules are written out where the engine relies on them
(module `PyRuntime`):

- negative list indices count from the back;
- `round()` rounds half to even;
- `int()` truncates;
- `xs[:n]` slicing;
- `str.upper()`.

Randomness and the clock are parameters:

- `draw` is the sequence of `random.choice` results;
- `randomX` is the value `random.randint` returned;
- `now` is the `pygame.time.get_ticks()` reading.

Modules, following the source files:

| module | file | models |
|---|---|---|
| `PyRuntime` | runtime.dfy | Python indexing, slicing, rounding, truncation, exceptions |
| `Text` | text.dfy | `str(int)`, `",".join`, and their inverses used to state that `format_board` loses nothing |
| `Cells` | cells.dfy | cell lists, translation, min/max of x and y |
| `Shapes` | shapes.dfy | the seven templates and `_rotate_shape` |
| `Board` | board.dfy | `BitLogicGrid`, cell reads and writes, full-row count, `format_board` |
| `NGrams` | ngrams.dfy | `PatternNGrams`: `_load`, `_drop`, `_completes_line`, `predict` |
| `Tetrominoes` | tetromino.dfy | `BitLogicTetromino` |
| `LineClearing` | linecleaner.dfy | `BitLogicLineCleaner` |
| `PieceQueue` | queue.dfy | `BitLogicNextPiece` |
| `Scoring` | scoreboard.dfy | `BitLogicScoreboard` |
| `Spawning` | spawner.dfy | `BitLogicTetrominoGridSpawner` |
| `Control` | controller.dfy | `BitLogicController` |

Behaviour of the code worth knowing, which the model follows:

- The collision probe has no left or right edge test; that test is commented
  out in the code.
- `change_coordinates` always probes the piece's current cells one row down,
  so a rotation can land the piece.
- `PatternNGrams` has no `write_pattern`, so there is no corpus update or
  de-duplication to model (see Findings).
- `remove_rows` and `shift_down` are not defined on the piece class, so
  `clear_rows` is modelled from the cells those calls leave behind.

## Model

| member | source | states |
|---|---|---|
| PyRuntime.ResolveIndex | bitEngine/core/core_tetromino.py:122 | `board[y][x]` reaches a cell exactly when -n <= i < n; a negative index counts from the back; anything else is IndexError |
| PyRuntime.SliceTo | bitEngine/core/core_next_piece_view.py:47 | `xs[:n]` is a prefix of xs, of length min(n, len) for n >= 0 and len + n (at least 0) for negative n |
| PyRuntime.RoundHalfEven | bitEngine/core/core_tetromino.py:67-68 | `round()` lands within 0.5 of its argument and, on a tie, on the even neighbour |
| PyRuntime.RoundHalfEvenUnique | bitEngine/core/core_tetromino.py:150 | those two properties determine the rounded value, so any integer meeting them is what `round` returns |
| PyRuntime.RoundIntegral | bitEngine/core/core_tetromino.py:150 | rounding a whole number gives it back |
| PyRuntime.Truncate | bitEngine/core/tetris_logic/core_scoreboard.py:54 | `int()` of a float is the whole number next to it toward zero |
| PyRuntime.AsciiUpper | bitEngine/core/tetris_logic/core_grid.py:111 | `upper()` keeps the length, lifts a-z to A-Z and keeps every other character |
| Shapes.KindOf | bitEngine/core/ngrams.py:39-47 | a name is a table key exactly when it is the name of one of the seven kinds |
| Shapes.ShapeOf | bitEngine/core/core_next_piece_view.py:9-17 | `piece.get(name)` finds a template exactly for the seven keys, and it is that kind's template |
| Shapes.TemplatesNormalized | bitEngine/core/ngrams.py:39-47 | every template has four cells, smallest x and y zero, inside a 4 x 4 box |
| Shapes.Normalize | bitEngine/core/ngrams.py:130-133 | every cell, in order, is moved by (-min x, -min y), so the smallest x and the smallest y both become zero |
| Shapes.RotateShape | bitEngine/core/ngrams.py:126-134 | zero turns give the shape back; each turn keeps the cell count and leaves min x = min y = 0; no cells raise ValueError |
| Shapes.RotateInBox | bitEngine/core/ngrams.py:126-134 | any number of turns of a normalised shape in an n x n box never fails and gives a normalised shape in the same box |
| Shapes.RotateFourTimes | bitEngine/core/ngrams.py:126-134 | four counter-clockwise turns bring a normalised shape back to itself |
| Board.NewGrid | bitEngine/core/tetris_logic/core_grid.py:17-23 | a new grid is rows x columns cells, all zero |
| Board.NewGridState | bitEngine/core/tetris_logic/core_grid.py:29-31 | `get_board_state` hands back that all-zero rows x columns board |
| Board.Read | bitEngine/core/core_tetromino.py:122 | an in-range read returns the cell; a failing read is IndexError |
| Board.Write | bitEngine/core/core_tetromino.py:76 | an in-range write changes exactly that cell and keeps the board's shape; a failing one is IndexError |
| Board.Stamp | bitEngine/core/core_tetromino.py:83-84 | marking a list of cells keeps the board's shape; a failure is IndexError |
| Board.StampSucceeds | bitEngine/core/core_tetromino.py:83-84 | on a rows x cols board, marking goes through exactly when every cell is a Python index pair (-rows <= y < rows, -cols <= x < cols), and raises IndexError otherwise |
| Board.StampInBounds | bitEngine/core/tetris_logic/core_grid.py:153-154 | marking in-range cells sets exactly those cells and leaves every other cell alone |
| Board.FullRowCount | bitEngine/core/tetris_logic/core_grid.py:86-90 | the spawner's line count is the number of rows whose every cell is non-zero, so at most the row count |
| Board.FormatRow | bitEngine/core/tetris_logic/core_grid.py:162 | a formatted row is bracketed by `[` and `]` |
| Board.FormatBoard | bitEngine/core/tetris_logic/core_grid.py:161-162 | `format_board` yields one string per row, in row order |
| Board.ParseFormatRow | bitEngine/core/tetris_logic/core_grid.py:162 | a formatted row can be read back to exactly the row's cells, so formatting loses nothing |
| NGrams.BumpCount | bitEngine/core/ngrams.py:32 | `counter[col] += 1` adds one to that column and leaves every other column's count alone |
| NGrams.BumpColumns | bitEngine/core/ngrams.py:32 | a known column keeps its place in the counter; a new one goes last |
| NGrams.BumpWell | bitEngine/core/ngrams.py:32 | counts stay positive and columns stay distinct |
| NGrams.LoadStep | bitEngine/core/ngrams.py:20-34 | every entry becomes `prev`, with or without a piece or cells, and the table stays well formed |
| NGrams.StepCount | bitEngine/core/ngrams.py:23-32 | one loop iteration adds one to exactly the (previous, current) key and leftmost column it observes |
| NGrams.LoadCount | bitEngine/core/ngrams.py:19-34 | after a prefix of the corpus, each count is the number of consecutive entry pairs that observed that key and column |
| NGrams.LoadLast | bitEngine/core/ngrams.py:34-36 | `last_piece_seen` ends as the last entry's piece, even when that is None |
| NGrams.LoadSpec | bitEngine/core/ngrams.py:12-36 | the whole `_load`: every count and the last piece seen, and no key with an empty counter |
| NGrams.MostCommonIndex | bitEngine/core/ngrams.py:108 | `most_common(1)` picks a column of maximal count, the earliest inserted among ties |
| NGrams.Blocked | bitEngine/core/ngrams.py:62-66 | the scan reports "free" exactly when every cell is above the floor and empty; "blocked" only when some cell is below the floor or on a filled cell |
| NGrams.SettleRests | bitEngine/core/ngrams.py:57-71 | where the drop loop stops, every step down to it was open and the next step is blocked |
| NGrams.BlockedOk | bitEngine/core/ngrams.py:62-66 | on a well-formed board the scan never raises when every x is an index a row accepts (-cols <= x < cols) |
| NGrams.SettleOk | bitEngine/core/ngrams.py:57-71 | under the same condition the drop loop always stops without raising |
| NGrams.Clamp | bitEngine/core/ngrams.py:51-55 | a piece reaching past the last column is shifted left as a whole until its rightmost cell is in the last column; otherwise it is kept |
| NGrams.Drop | bitEngine/core/ngrams.py:49-71 | when it returns, the result is the clamped cells moved straight down by some d, every step up to d open and step d + 1 blocked; no cells is ValueError |
| NGrams.DropOk | bitEngine/core/ngrams.py:49-71 | on a well-formed board the drop returns a placement whenever the clamped piece reaches no further left than -columns |
| NGrams.Visible | bitEngine/core/ngrams.py:139-141 | exactly the placement cells that lie on the board |
| NGrams.AnyFullFrom | bitEngine/core/ngrams.py:142-145 | true exactly when some row from y on is entirely non-zero |
| NGrams.CompletesLine | bitEngine/core/ngrams.py:137-145 | true exactly when some row is entirely filled by the board and the placement together; the board is not changed |
| NGrams.FullRowCompletes | bitEngine/core/ngrams.py:137-145 | a board that already has a full row makes every placement complete a line |
| NGrams.Attempt | bitEngine/core/ngrams.py:85-92 | a (rotation, column) attempt goes through exactly when its drop does, and reports the placement exactly when that placement completes a row |
| NGrams.CandidateOk | bitEngine/core/ngrams.py:84-88 | on a well-formed board at least two columns wide, every rotation of every template at a column of at least -columns drops without raising |
| NGrams.FirstHit | bitEngine/core/ngrams.py:84-98 | the nested loops return the first success in rotation-outer, column-inner order; every earlier pair failed; with none, every pair failed |
| NGrams.FirstHitOk | bitEngine/core/ngrams.py:84-98 | when no attempt raises, the nested loops do not raise |
| NGrams.Search | bitEngine/core/ngrams.py:84-98 | when it returns, the line-completion search gives the first completing (rotation, column) in search order, or none when no pair completes a row |
| NGrams.SearchOk | bitEngine/core/ngrams.py:84-98 | on a well-formed board at least two columns wide the search never raises |
| NGrams.FallbackColumn | bitEngine/core/ngrams.py:100-110 | the column is the most common one under (prev_piece or else last_piece_seen, piece), the earliest among ties, and 0 with no key or no counts |
| NGrams.Predict | bitEngine/core/ngrams.py:73-123 | None for an unknown piece; otherwise, when it returns, a line-clearing suggestion (first in search order, predictor state untouched) or the n-gram fallback (rotation 0, dropped template, last_piece_seen set) |
| NGrams.PredictOk | bitEngine/core/ngrams.py:73-123 | on a well-formed board at least two columns wide, a known piece with a fallback column of at least -columns always gets a suggestion, and it is a line clear exactly when some (rotation, column) completes a row |
| Tetrominoes.Width | bitEngine/core/core_tetromino.py:49-52 | the width is one more than the largest x distance between two cells, so at least 1; no cells is ValueError |
| Tetrominoes.Height | bitEngine/core/core_tetromino.py:43-46 | the height is one more than the largest y distance between two cells, so at least 1; no cells is ValueError |
| Tetrominoes.BlockPivot | bitEngine/core/core_tetromino.py:55-70 | the pivot is inside the bounding box, within half a cell of its centre, and even when the centre is half-way |
| Tetrominoes.NewTetromino | bitEngine/core/core_tetromino.py:6-40 | a new piece is not landed; its min/max fields are the tight bounds of its cells; width, height and pivot follow from them |
| Tetrominoes.Probe | bitEngine/core/core_tetromino.py:109-125 | "free" exactly when every moved cell is above the floor and empty or its own; "hit" only when some moved cell is below the floor or on another filled cell |
| Tetrominoes.CheckCollision | bitEngine/core/core_tetromino.py:107-125 | `check_collision` reads the board only and answers as Probe does for the piece's own cells |
| Tetrominoes.ProbeInRange | bitEngine/core/core_tetromino.py:107-125 | with every moved x inside the columns and every moved y non-negative, the probe is exactly "some moved cell is below the floor or on another piece's filled cell" |
| Tetrominoes.CollisionInRange | bitEngine/core/core_tetromino.py:107-125 | the same exact answer for `check_collision` on a valid grid, under the same conditions on the moved x and y |
| Tetrominoes.ChangeCoordinates | bitEngine/core/core_tetromino.py:73-84 | the piece either takes the proposed cells or keeps its cells and lands; a landed piece stays landed; nothing else of the piece changes |
| Tetrominoes.ProbeCleared | bitEngine/core/core_tetromino.py:75-78 | clearing the piece's own cells first does not change what the fall probe sees |
| Tetrominoes.ChangeInBounds | bitEngine/core/core_tetromino.py:73-84 | with the piece on the board, and the proposed cells on it when the fall is free, the change never fails; the piece moves exactly when the probe of its current cells moved down is free, and lands otherwise, wherever the unused proposed cells lie |
| Tetrominoes.ChangeCells | bitEngine/core/core_tetromino.py:75-84 | afterwards the resulting cells are 1, the vacated ones 0, and every other cell is unchanged |
| Tetrominoes.BlockedChangeKeepsBoard | bitEngine/core/core_tetromino.py:78-84 | a blocked piece already shown on the board lands, keeps its cells, and leaves the board as it was |
| Tetrominoes.ApplyGravity | bitEngine/core/core_tetromino.py:93-104 | nothing happens with no cells or before the delay has passed; otherwise the piece moves down by the skip or lands, and its gravity time becomes now |
| Tetrominoes.GravityExact | bitEngine/core/core_tetromino.py:93-104 | once due, gravity on a piece on the board never fails: it moves down by the skip exactly when the fall probe is free and lands otherwise, also on the floor; vacated cells become 0, the new ones 1, the rest of the board is kept |
| Tetrominoes.Update | bitEngine/core/core_tetromino.py:87-90 | an update is gravity with skip 1 followed by the width recomputed from the cells; it fails exactly when that gravity fails, and a piece with no cells raises ValueError |
| Tetrominoes.UpdateFalls | bitEngine/core/core_tetromino.py:87-104 | a due update on a piece on the board falls one row when the one-row probe is free and lands in place otherwise, never failing |
| Tetrominoes.Rotate | bitEngine/core/core_tetromino.py:128-152 | nothing happens with no cells; otherwise the piece takes the turned cells or lands in place |
| Tetrominoes.OtherDirectionKeepsCells | bitEngine/core/core_tetromino.py:144-150 | any direction other than "cw" and "ccw" proposes exactly the cells the piece already has |
| Tetrominoes.CwExact | bitEngine/core/core_tetromino.py:135-150 | when the mean pivot has whole px - py and px + py, "cw" is the exact quarter turn (x, y) to (y + d, s - x) |
| Tetrominoes.CcwExact | bitEngine/core/core_tetromino.py:135-150 | with such a pivot "ccw" is the exact quarter turn (x, y) to (s - y, x - d) |
| Tetrominoes.CwKeepsMean | bitEngine/core/core_tetromino.py:135-136 | an exact quarter turn keeps the mean pivot in place |
| Tetrominoes.CwThenCcw | bitEngine/core/core_tetromino.py:128-152 | with such a pivot, turning "cw" and then "ccw" gives the cells back |
| Tetrominoes.FlatICollapses | bitEngine/core/core_tetromino.py:135-150 | turning the flat I piece "cw" about its mean (1.5, 0) rounds two of its four distinct cells onto (2, 0) |
| LineClearing.LandedCells | bitEngine/core/tetris_logic/core_grid.py:239-242 | the gathered set holds exactly the cells of the landed pieces |
| LineClearing.CoveredRows | bitEngine/core/tetris_logic/core_grid.py:244-248 | the selected rows ascend and are exactly the rows whose every column is a landed cell |
| LineClearing.CheckClearing | bitEngine/core/tetris_logic/core_grid.py:237-252 | rows to clear are exactly the fully covered rows, ascending; the counter becomes their number when there are any and is otherwise kept |
| LineClearing.FallingPieceIgnored | bitEngine/core/tetris_logic/core_grid.py:240-242 | adding a piece that has not landed changes neither the rows selected nor the counter |
| LineClearing.NoColumnsSelectsEveryRow | bitEngine/core/tetris_logic/core_grid.py:246-248 | with zero columns `all()` of nothing is true, so every row is selected |
| LineClearing.Restamp | bitEngine/core/tetris_logic/core_grid.py:265-267 | re-marking keeps the board's shape; a failure is IndexError |
| LineClearing.RestampSucceeds | bitEngine/core/tetris_logic/core_grid.py:265-267 | re-marking goes through exactly when every cell of every piece is a Python index pair on the board |
| LineClearing.RestampInBounds | bitEngine/core/tetris_logic/core_grid.py:265-267 | in bounds, re-marking sets exactly the pieces' cells to 1 and keeps every other cell |
| LineClearing.ClearRows | bitEngine/core/tetris_logic/core_grid.py:255-267 | `clear_rows` keeps the grid's size and shape, or fails with IndexError |
| LineClearing.ClearRowsMarks | bitEngine/core/tetris_logic/core_grid.py:265-267 | after `clear_rows` every remaining cell of every piece is 1 |
| PieceQueue.InsertPiece | bitEngine/core/core_next_piece_view.py:36-42 | the drawn name goes last, and the front is dropped when the queue would exceed its maximum; every entry stays a table key |
| PieceQueue.InsertManyAppends | bitEngine/core/core_next_piece_view.py:21-22 | below the maximum, inserting n pieces appends exactly the n drawn names in order |
| PieceQueue.DrawnNames | bitEngine/core/core_next_piece_view.py:38 | every drawn entry is one of O, I, T, L, J, S, Z |
| PieceQueue.NewQueue | bitEngine/core/core_next_piece_view.py:6-22 | a new queue holds max_piece_queue drawn names (none for a maximum below 1), all table keys |
| PieceQueue.GetPiece | bitEngine/core/core_next_piece_view.py:25-27 | the front entry is returned and the rest is the tail in order; an empty queue raises IndexError |
| PieceQueue.Update | bitEngine/core/core_next_piece_view.py:30-33 | a short queue keeps its entries in order and is topped up to exactly its maximum; a full one is untouched |
| PieceQueue.PeekNext | bitEngine/core/core_next_piece_view.py:45-47 | `peek_next(n)` is a prefix of the queue of length min(n, len), and the queue is not changed |
| PieceQueue.PopThenRefill | bitEngine/core/core_next_piece_view.py:25-33 | popping a full queue and refilling gives its old tail followed by one fresh draw |
| Scoring.NewScoreboard | bitEngine/core/tetris_logic/core_scoreboard.py:2-14 | a new scoreboard has score 0, level 1, lines 0, combo 0, timer 0 |
| Scoring.PointsAtLeastPerRow | bitEngine/core/tetris_logic/core_scoreboard.py:17-22 | every cleared row is worth at least 100, 2 to 4 rows pay a bonus, and more than 4 pay exactly 100 each |
| Scoring.ScaledAtLeast | bitEngine/core/tetris_logic/core_scoreboard.py:53-54 | truncating points scaled by a multiplier of at least 1 loses none of them |
| Scoring.ComboPoints | bitEngine/core/tetris_logic/core_scoreboard.py:53-54 | `int(base * (1 + (combo - 1) * 0.5))` at combo c + 1 is exactly base + (base * c) / 2 for non-negative base and c |
| Scoring.ApplyDominoScoring | bitEngine/core/tetris_logic/core_scoreboard.py:46-59 | the combo goes up by exactly 1, the timer is reset to the duration, the lines add up, the level follows, and the score grows by the base points plus half of them per earlier clear in the streak, truncated: base + (base * previous combo) / 2 |
| Scoring.ApplyScoring | bitEngine/core/tetris_logic/core_scoreboard.py:30-43 | a clearing tick scores base + (base * previous combo) / 2 and resets the shared counter to 0; an idle tick keeps score, level and lines, runs the timer down or resets the combo; score, level and lines never decrease |
| Scoring.TetrisThenSingle | bitEngine/core/tetris_logic/core_scoreboard.py:46-59 | four rows at combo 1 add 800 and a following single at combo 2 adds 150 |
| Scoring.ComboLapses | bitEngine/core/tetris_logic/core_scoreboard.py:34-43 | after a clear the combo survives one idle tick and is reset on the second |
| Spawning.NewSpawner | bitEngine/core/tetris_logic/core_grid.py:40-64 | a new spawner has no piece and no controller yet |
| Spawning.StartX | bitEngine/core/tetris_logic/core_grid.py:145-147 | the start column is pulled left, only when needed, until the piece's right edge is one short of the column count |
| Spawning.StartXInside | bitEngine/core/tetris_logic/core_grid.py:135-147 | a start column drawn from [0, columns] keeps a piece narrower than the board wholly inside it |
| Spawning.Consult | bitEngine/core/tetris_logic/core_grid.py:117-132 | a failing prediction is caught and leaves no suggestion and the predictor as it was; otherwise its result is kept |
| Spawning.SpawnCells | bitEngine/core/tetris_logic/core_grid.py:134-150 | the spawned cells are the template's four cells in order, each moved by the corrected start column and the start row, so the right edge is at or left of the last column |
| Spawning.Spawn | bitEngine/core/tetris_logic/core_grid.py:108-158 | an unknown name raises TypeError; otherwise the new piece is the upper-cased kind at the clamped start, not landed, and its cells are marked on the board |
| Spawning.SpawnIndexError | bitEngine/core/tetris_logic/core_grid.py:149-154 | a known piece raises IndexError exactly when one of its start cells is not a Python index pair on the board, and is placed otherwise |
| Spawning.SpawnConsults | bitEngine/core/tetris_logic/core_grid.py:117-132 | the spawned piece carries the predictor's suggestion and the spawner keeps the predictor's new state |
| Spawning.SpawnInBounds | bitEngine/core/tetris_logic/core_grid.py:150-156 | a piece whose start lies on the board is always placed: its cells become 1 and every other cell is kept |
| Spawning.RandomSpawnFits | bitEngine/core/tetris_logic/core_grid.py:134-150 | a random start column on row 0 fits every piece on a board at least 4 x 4 |
| Spawning.UpperName | bitEngine/core/tetris_logic/core_grid.py:111 | the table's names are unchanged by upper-casing |
| Spawning.SpawnNext | bitEngine/core/tetris_logic/core_grid.py:104 | an empty queue raises IndexError; otherwise it goes through exactly when spawning the queue's front at a random column does, with that spawn's spawner and board and the queue's tail |
| Spawning.Update | bitEngine/core/tetris_logic/core_grid.py:75-105 | as written: a falling piece means nothing to do, no piece means the next one spawns, and a landed piece always raises AttributeError |
| Spawning.UpdateRecorded | bitEngine/core/tetris_logic/core_grid.py:75-104 | with a recorder: the record holds the landed piece, the rotation index, the full-row count, the queue's first entry and "auto", and the queue's front is spawned |
| Spawning.UpdatesAgreeUntilLanding | bitEngine/core/tetris_logic/core_grid.py:75-104 | the two updates agree on every tick with no landed piece |
| Spawning.LandingIsRecorded | bitEngine/core/tetris_logic/core_grid.py:77-104 | a landed piece with a controller attached and pieces queued is recorded and replaced by the queue's front |
| Spawning.FirstSpawn | bitEngine/core/tetris_logic/core_grid.py:75-104 | on a board at least 4 x 4, the first `update` with no piece pops the queue's front and spawns it on the board, its cells marked 1, whatever the board holds |
| Control.NewController | bitEngine/core/tetris_logic/core_controller.py:20-26 | a new controller starts at rotation index 0 |
| Control.PieceEvent | bitEngine/core/tetris_logic/core_controller.py:46-68 | an arrow key raises TypeError through `move`; X and Z hand the piece to `rotate`; any other event changes nothing |
| Control.PieceControls | bitEngine/core/tetris_logic/core_controller.py:43-68 | a frame goes through only when it has no arrow key; it can fail only with TypeError or IndexError |
| Control.IndexAfter | bitEngine/core/tetris_logic/core_controller.py:62-68 | after any key the rotation index is in 0..3 |
| Control.ApplyControls | bitEngine/core/tetris_logic/core_controller.py:43-68 | the frame goes through exactly when every event does, with the same fault otherwise; the controller keeps its name and its index steps once per X or Z |
| Control.ControlWith | bitEngine/core/tetris_logic/core_controller.py:9-34 | with no spawned piece `control` raises CantControlObject; otherwise it goes through exactly when the controls do, and then the spawner gets its controller and the piece after the events, nothing else of it changes |
| Control.Control | bitEngine/core/tetris_logic/core_controller.py:29-68 | as written, a frame that goes through never changes the piece's cells |
| Control.ControlCorrected | bitEngine/core/tetris_logic/core_controller.py:29-68 | with "cw" and "ccw" the frame goes through exactly when the controls applied with the directions `rotate` recognises do, and its result is theirs |
| Control.AsWrittenKeepsCells | bitEngine/core/tetris_logic/core_controller.py:61-68 | with "clock_wise" and "counter_clock_wise" no sequence of events moves the piece's cells |
| Control.ControlsIndex | bitEngine/core/tetris_logic/core_controller.py:62-68 | the index ends at (start + X presses - Z presses) mod 4, Python's non-negative modulo |
| Control.BalancedKeepsIndex | bitEngine/core/tetris_logic/core_controller.py:62-68 | presses that balance modulo 4 leave the index where it was |
| Control.XThenZBalances | bitEngine/core/tetris_logic/core_controller.py:62-68 | X followed by Z balances, so it restores the index |
| Control.XTurnsWhenRecognised | bitEngine/core/core_tetromino.py:145-152 | with "cw", X proposes the turned cells and the piece takes them when they are on the board and its fall is free |
| Control.XKeepsCellsAsWritten | bitEngine/core/tetris_logic/core_controller.py:62-63 | with "clock_wise", X goes through and leaves the piece's cells where they were |

## Left out

- Rendering, pygame windows, pages, the game loop and the engine's object list are not modelled; the line cleaner and `clear_rows` take the piece list as a parameter.
- Corpus file reading in `_load` is not modelled: `NGrams.Load` takes the entries already read, and an unreadable file is the empty list.
- `BitLogicTetrominoGridSpawner.write_pattern` is file I/O (a JSON read-modify-write) and is not modelled; `format_board`, which it uses, is.
- Board.FormatBoard: formats integer boards only. Its one caller, `write_pattern`, first writes each landed piece's name string into a copy of the board and then formats that copy. So the mixed int-and-string boards the program actually formats are covered neither by FormatBoard nor by ParseFormatRow's round trip.
- `random.choice`, `random.randint` and `pygame.time.get_ticks` are parameters (`draw`, `randomX`, `now`).
- `Spawner.create` only wires the UI; its piece construction is `Tetrominoes.NewTetromino`.
- `remove_rows`, `shift_down`, `hard_drop` and the predictor's `write_pattern` are called but not defined; the model does not invent them. `clear_rows` receives the cells the first two would leave, Space does nothing, and the recorder is `Spawning.UpdateRecorded`'s record.
- `BitLogicController.move` passes keyword arguments `change_coordinates` does not accept, so every arrow key is a TypeError; no movement is modelled.
- The debug `print` calls in `spawn` are not modelled.
- Floats are exact reals: the mean pivot, `round`, the combo multiplier and the combo timer. For four-cell pieces the pivot and the multiplier are exact in binary floats too; a combo duration such as 0.1 is not, and the model does not follow float rounding of the timer.
- `PyRuntime.AsciiUpper` handles ASCII letters only; piece names are ASCII.
- An exception is modelled as an `Err` carrying only the fault. Writes the source has already made to the shared grid or to an object before it raises are dropped: `change_coordinates` has zeroed the piece's old cells before a failing mark, and `spawn` has stored the predictor's new state before the marking can raise. The engine loop catches none of these exceptions, so the game stops there anyway.
- Control.ApplyControls: an exception ends the frame and the model keeps nothing of it. In the source, the rotations and index steps before the failing event have already happened.
- Control.ControlWith: with no spawned piece the model returns only the error. In the source, `control` has already set the spawner's `controller` before the validation raises.
- NGrams.Predict: requires a board of `rows` rows of `columns` cells. On a ragged board the source may raise IndexError at other points.
- NGrams.PredictOk: success is proved for boards at least two columns wide and fallback columns of at least -columns. On narrower boards, or with a stored column further left, the I piece or the fallback drop can reach a column index a row rejects; whether it then raises depends on the rows it scans, which the model computes but states no lemma about.
- NGrams.Search: requires such a board, as Predict does.
- NGrams.Attempt: requires such a board, as Predict does.
- NGrams.CompletesLine: requires such a board; on a shorter one `_completes_line` raises IndexError, which the model does not cover.
- Spawning.Consult: requires a valid grid, since it calls Predict.
- Spawning.Spawn: requires a valid grid, since it consults `predict`.
- Spawning.SpawnNext: requires a valid grid, since it calls Spawn.
- Spawning.Update: requires a valid grid, since it calls Spawn.
- Spawning.UpdateRecorded: requires a valid grid, since it calls Spawn.
- Tetrominoes.Rotate: states that the piece takes the turned cells or lands. It does not state that the turn is exact; CwExact and CcwExact state that when the mean pivot allows it.
- The spawned piece's `indicator` flag and the suggestion dict's keys are not modelled beyond the `Suggestion` record.

## Findings

| source | as written | input that shows it | evidently intended | confidence | as-written member | corrected member |
|---|---|---|---|---|---|---|
| bitEngine/core/tetris_logic/core_controller.py:62-68 | the X and Z keys call `rotate("clock_wise")` and `rotate("counter_clock_wise")`, but `rotate` turns only for "cw" and "ccw" | any piece on the board and one X press: its cells stay where they were while `rotation_index` becomes 1 | the rotate keys pass "cw" and "ccw", so X turns the piece | not executed | Control.XKeepsCellsAsWritten | Control.XTurnsWhenRecognised |
| bitEngine/core/tetris_logic/core_grid.py:95-102 | when the spawned piece has landed, `update` calls `self.predictor.write_pattern(...)`, which `PatternNGrams` does not define | a spawner whose piece has landed, with a controller attached and pieces queued: `update` raises AttributeError and no new piece spawns | the placement is recorded and the queue's next piece spawns | not executed | Spawning.Update | Spawning.LandingIsRecorded |
