# tetris-tui rule engine in Dafny

This project models the rule engine of tetris-tui, a falling-block game played in a terminal, and the text protocol its two-player mode uses. It proves properties of that model.

- `src/lib.rs` holds the engine.
- `src/main.rs` is an older, self-contained copy of the same logic at other line numbers. The rules are the same in both, so one model serves both files.
- `src/multiplayer.rs` holds the message codec and the listener loop.

The model is split by concern:

| file | module | contents |
|---|---|---|
| `shapes.dfy` | `Shapes` | Cells; the catalog of the seven kinds and their rotation states; `tetromino_width`; the spawn position. |
| `playfield.dfy` | `Playfield` | The 20 x 10 grid and the collision test as a predicate. Locking, line clearing and scoring. The garbage rows and handicap rows, and `create_grid`. |
| `moves.dfy` | `Moves` | The shifts, the rotation, the game-over test, where a hard drop lands, and the promotion of the preview piece. |
| `levels.dfy` | `Levels` | The level step and the integer decay of the gravity interval. |
| `multiplayer.dfy` | `Multiplayer` | `MessageType`, its encoding, the prefix decoding (`trim_start_matches` and `usize` parsing), and the read loop of `forward_to_main_thread`. |
| `highscores.dfy` | `HighScores` | The high-score table (rows ordered by score, highest first), the rule that decides whether a score is entered, and the name editor. |
| `state.dfy` | `GameState` | The whole game as a state machine. There is one function per step of the event loop, of its prompts and of the helpers they call; the invariant every step keeps; and what the steps do. |
| `engine.dfy` | `Engine` | The `Game` object, whose fields are updated in place. Each method is proved to leave the object in exactly the state the matching `GameState` function computes. |
| `cli.dfy` | `Cli` | The option checks of `main` and the choice between a single game, hosting and joining. |

## How the source's effects appear

- **Randomness.** `thread_rng` becomes a fixed stream `rng: nat -> nat` plus a counter `drawn` of the draws taken. `gen_range(0..n)` is the next draw modulo n. Draws are taken in the source's order:
  - `create_grid`: colour, then hole column, for each handicap row;
  - the current piece, then the preview piece;
  - each further preview piece;
  - the garbage colour, then its hole column.
- **Clocks.** The clock becomes the reading `now` in milliseconds, passed to every step. `drop_timer` and `soft_drop_timer` are the readings at the last gravity step and at the last soft drop.
- **Blocking loops.** `handle_event`'s loop becomes one step per iteration (`Tick`). The blocking prompts become a `Mode`, and each key pressed in a prompt is one step. The prompts are pause, quit, notification, high-score screen and name entry.
  - `reset_game` starts a fresh `handle_event`; it becomes `Restart`, with new timers and no reset pending.
  - `quit` and `std::process::exit` become the final mode `Exited`.
- **Network.** The socket is the list `outbound` of strings written to the peer. The mpsc channel is the queue `inbox`. The listener thread is `Game.Listen`, which appends what `forward_to_main_thread` forwards.
- **Database.** The sqlite table is the list `records`, in `ORDER BY score DESC` order. `get_player_at_rank(5)` is `records[4]`.

In `src/main.rs` the same engine rules sit at the following lines:

| rule | lines |
|---|---|
| `handle_event` | 388-579 |
| pause and quit prompts | 581-649 |
| `can_move` | 651-671 |
| `lock_and_move_to_next` | 700-713 |
| `lock_tetromino` | 715-730 |
| `move_to_next` | 732-743 |
| `clear_filled_rows` | 745-792 |
| `is_game_over` | 880-908 |
| `handle_game_over` | 910-963 |
| `show_high_scores` | 965-1033 |
| `new_high_score` | 1034-1131 |
| `reset_game` | 1133-1140 |
| `create_grid` | 1148-1169 |
| `Tetromino::new` | 1249-1423 |
| the moves | 1429-1481 |
| `tetromino_width` | 1484-1499 |
| `send_message` and `receive_message` | 1847-1880 |

## Notes on the source

- **Row removal order.** `clear_filled_rows` collects the full rows bottom-up, then walks that list reversed, so the topmost full row is removed first (src/lib.rs:1262-1277).
- **Maximum level.** The level step is taken while `level <= MAX_LEVEL`, so the level can reach 21 (src/lib.rs:903).
- **Reset.** `reset` leaves `multiplayer_score` untouched and empties the receiver (src/lib.rs:603-633).
- **Message type.** The cleared-rows message is `MessageType::ClearedRows(usize)` (src/multiplayer.rs:5-8).
- **Game-over score.** At game over a score of 0 never enters the table (src/lib.rs:1432).

## Model

| member | source | states |
|---|---|---|
| Shapes.KindOf | src/lib.rs:490-491 | The kind drawn by `gen_range(0..7)` is one of the seven kinds |
| Shapes.TetrominoWidth | src/lib.rs:1776-1791 | `tetromino_width` returns the number of columns of the state grid that hold at least one block; the loop is proved against the set of such columns |
| Shapes.SpanCountsOccupiedColumns | src/lib.rs:1779-1788 | Counting the first n columns with a block gives the size of the set of those columns |
| Shapes.ColumnCountPositive | src/lib.rs:1780-1785 | The filtered row count of a column is positive exactly when some row has a block in that column |
| Shapes.CatalogWellFormed | src/lib.rs:338-489 | Every kind has at least one state. Every state is a square grid of at most 4 rows holding exactly 4 blocks. The first state of each kind spans the full width of its grid |
| Shapes.KindStates | src/lib.rs:338-489 | The rotation states of each of the seven kinds, cell for cell as the source lists them; `Shapes.CatalogWellFormed` states what every entry satisfies |
| Shapes.Spawned | src/lib.rs:493-510 | A spawned piece is in state 0, at row 0 and column (10 - width) / 2, or, for the preview, at row 2 and column (6 - width) / 2. It lies inside its area |
| Engine.Spawn | src/lib.rs:490-510 | `RandomTetromino::spawn` builds the piece `Spawned` describes for the drawn kind |
| Playfield.FitsInBounds | src/lib.rs:1158-1178 | A position that passes the collision test keeps every occupied cell inside the walls and above the floor |
| Playfield.Fits | src/lib.rs:1158-1178 | The collision test: every occupied cell of the shape at (row, col) is inside the walls, above the floor and on an empty cell. `Playfield.FitsInBounds` and `Engine.Game.CanMove` state its meaning |
| Playfield.Locked | src/lib.rs:1229-1239 | Locking keeps the number of rows and the width of each row |
| Playfield.LockedCells | src/lib.rs:1229-1239 | Locking writes each occupied cell of the state at (row + ty, col + tx). Every other grid cell is unchanged, and the grid stays 20 x 10 |
| Playfield.KeepNonFull | src/lib.rs:1262-1277 | The rows that are not full, in their order; `Playfield.KeepNonFullSize` and `Playfield.KeepNonFullAppend` state its size, contents and split |
| Playfield.FullCount | src/lib.rs:1262-1269 | The number of full rows; `Playfield.KeepNonFullSize` states that it and the kept rows account for every row |
| Playfield.Cleared | src/lib.rs:1259-1277 | The grid after clearing: one empty row per full row on top, then the rows that were not full. `Playfield.RemovedFromClears` states that the removal loop produces it; `Playfield.ClearedShape`, `Playfield.ClearedIdempotent` and `Playfield.ClearedBlocks` state its shape, idempotence and block count |
| Playfield.KeepNonFullSize | src/lib.rs:1259-1277 | The kept rows and the full rows together account for every row; no kept row is full, and each kept row is a row of the grid |
| Playfield.KeepNonFullAppend | src/lib.rs:1262-1269 | Keeping the non-full rows and counting the full ones distribute over concatenation |
| Playfield.ClearedShape | src/lib.rs:1259-1277 | A cleared grid is 20 x 10 with no full row |
| Playfield.ClearedIdempotent | src/lib.rs:1259-1277 | Clearing twice equals clearing once, and clearing a grid without full rows leaves it unchanged |
| Playfield.ClearedBlocks | src/lib.rs:1259-1277 | Clearing k full rows removes exactly 10 k blocks |
| Playfield.LockedFullCount | src/lib.rs:1229-1241 | A piece at most 4 rows tall, locked onto a grid without full rows, completes at most 4 rows |
| Playfield.ScoreFor | src/lib.rs:1279-1294 | The points for k rows at a level: 100, 300, 500 or 800 times (level + 1) for 1 to 4 rows, and 0 otherwise. `Playfield.ScoreForBonus` and `Engine.Game.AddScore` state its properties |
| Playfield.ScoreForBonus | src/lib.rs:1279-1294 | Clearing rows together pays more than clearing them one at a time. Points grow with the level and with the count |
| Playfield.PaletteCells | src/lib.rs:1700 | The garbage and handicap palette has seven block cells: T appears twice and J not at all |
| Playfield.GarbageRow | src/lib.rs:1706-1708 | Ten cells of one block kind with an empty cell at the hole; `Playfield.GarbageRowHole` states that it has exactly one hole and is never full |
| Playfield.GarbageFor | src/lib.rs:996-1003 | The garbage row whose kind and hole come from two successive draws; `Playfield.GarbageForShape` states its width and single hole |
| Playfield.GarbageRowHole | src/lib.rs:1706-1708 | A garbage row is 10 cells wide and has exactly one empty cell, at the hole, so it is never full |
| Playfield.GarbageForShape | src/lib.rs:996-1003 | The garbage row built from two draws is 10 wide and has exactly one hole |
| Playfield.Raised | src/lib.rs:1005-1008 | Pushing garbage up keeps the number of rows |
| Playfield.RaisedShape | src/lib.rs:994-1008 | After n garbage rows, every old row has moved up by n and min(n, 20) copies of the garbage row fill the bottom. The grid stays 20 x 10 with no full row |
| Playfield.HandicapRowsShape | src/lib.rs:1701-1711 | There are k handicap rows, each 10 wide with exactly one hole |
| Playfield.HandicapGrid | src/lib.rs:1693-1714 | The starting grid: 20 - k empty rows on top of the k handicap rows. `Playfield.HandicapGridShape` states its shape and `Playfield.CreateGrid` that the loop builds it |
| Playfield.HandicapGridShape | src/lib.rs:1693-1714 | `create_grid` gives a 20 x 10 grid with no full row: 20 - k empty rows on top, then the k handicap rows |
| Playfield.CreateGrid | src/lib.rs:1693-1714 | The loop of `create_grid` builds exactly `HandicapGrid` from the draws |
| Playfield.FullDescRows | src/lib.rs:1262-1269 | Each collected index names a full row at or below the start of the scan |
| Playfield.RemoveRow | src/lib.rs:1273-1274 | One removal keeps the height, puts an empty row on top, and keeps the other rows in their order |
| Playfield.RemovedFrom | src/lib.rs:1272-1277 | Every stage of the removal loop keeps the height |
| Playfield.RemovedFromClears | src/lib.rs:1260-1277 | Removing every collected row, topmost first, yields k empty rows followed by the non-full rows in their order, where k is the number of full rows |
| Moves.NextState | src/lib.rs:1740 | The state `rotate` tries is a valid index |
| Moves.NextStateIsModulo | src/lib.rs:1740 | That state is `(current_state + 1) % states.len()` |
| Moves.Shifted | src/lib.rs:1721-1737 | A shift by (dr, dc) moves the piece when it fits there and leaves it unchanged otherwise. `Moves.ShiftBack` states that a successful shift is undone by the opposite one, and `Engine.Game.MoveLeft`, `Engine.Game.MoveRight` and `Engine.Game.MoveDown` that the methods compute it |
| Moves.Rotated | src/lib.rs:1739-1755 | A rotation takes the next state when that fits in place; `Moves.RotatedProps` states what changes and `Engine.Game.Rotate` that the method computes it |
| Moves.Stuck | src/lib.rs:1379-1407 | A piece is stuck when moving left, right or down and rotating in place all fail. `Engine.Game.IsGameOver` states that `is_game_over` decides it, and `GameState.LockAndNextEffect` that the game ends exactly when the incoming piece is stuck |
| Moves.Turned | src/lib.rs:1739-1755 | Successive rotations move only the state index, around the cycle of states. As many rotations as there are states restore the piece |
| Moves.PieceRowBound | src/lib.rs:1165-1169 | A piece inside the playfield has its row above the floor |
| Moves.Landing | src/lib.rs:1766-1773 | A hard drop changes only the row, which does not decrease. The piece fits on every row it passes, stays inside the playfield, and cannot move down from where it stops |
| Moves.ShiftBack | src/lib.rs:1721-1737 | A shift that succeeded is undone by the opposite shift |
| Moves.RotatedProps | src/lib.rs:1739-1755 | A rotation changes only the state index, to the next one or not at all, and keeps the piece inside the playfield. A one-state piece is unchanged |
| Moves.Promoted | src/lib.rs:1246-1250 | `move_to_next` places the old preview piece with the same states, in state 0, at row 0 and column (10 - width) / 2, inside the playfield |
| Moves.PromotedIsSpawned | src/main.rs:732-743 | The promoted preview piece is the piece spawn would have placed in the playfield |
| Levels.DecayBounds | src/lib.rs:903-906 | One decay never raises the interval and keeps a positive interval positive. Below 10 it does nothing |
| Levels.DecayTimesMonotone | src/lib.rs:903-906 | More decays give an interval that is shorter or the same |
| Levels.DecayTimesFloor | src/lib.rs:555-558 | From 500 ms the interval never falls below 9 ms, so the soft-drop wait of interval / 8 is at least 1 ms |
| Levels.DecayTimesTop | src/lib.rs:903-906 | The interval is 65 ms at level 20 and 59 ms at level 21 |
| Levels.InitialDropInterval | src/lib.rs:555-558 | The loop of `Game::new` and `reset` decays 500 ms once per start level, giving a value between 9 and 500 |
| Levels.Decay | src/lib.rs:905 | One level step takes a tenth, rounded down, off the interval; `Levels.DecayBounds` states its bounds |
| Levels.DecayTimes | src/lib.rs:555-558 | The interval after n decays of 500 ms; `Levels.DecayTimesMonotone`, `Levels.DecayTimesFloor` and `Levels.DecayTimesTop` state its order, floor and top values, and `Levels.InitialDropInterval` that the start loop computes it |
| Levels.LevelDue | src/lib.rs:903 | The level step is due while the level is at most 20 and the lines reach 20 times (level + 1); `GameState.LevelUpEffect` states what the step does when it is due and when it is not |
| Multiplayer.DigitChar | src/multiplayer.rs:15 | A digit maps to its decimal character |
| Multiplayer.Decimal | src/multiplayer.rs:15 | `format!` writes a count as a non-empty run of digits without a leading zero |
| Multiplayer.DecimalValue | src/multiplayer.rs:15 | Reading the rendered digits back gives the count |
| Multiplayer.ParseUsize | src/multiplayer.rs:31 | A successful parse yields a value that fits in a `usize` |
| Multiplayer.ParseUsizeAccepts | src/multiplayer.rs:31 | `parse::<usize>` succeeds exactly on an optional '+' followed by a non-empty run of digits whose value fits |
| Multiplayer.TrimStartMatches | src/multiplayer.rs:31 | `trim_start_matches` strips every leading copy of the prefix: the result is no longer and no longer starts with the prefix |
| Multiplayer.TrimOnce | src/multiplayer.rs:37 | Stripping a prefix from prefix + rest gives rest when rest does not start with it |
| Multiplayer.Encode | src/multiplayer.rs:13-17 | A count is sent as "ClearedRows: " followed by its decimal digits, a text as "Notification: " followed by the text; the round-trip lemmas below state what survives decoding |
| Multiplayer.Decode | src/multiplayer.rs:29-41 | One chunk is classified by its prefix, stripped and, for a count, parsed. `Multiplayer.DecodeNeedsPrefix` states when it yields a message, and the round-trip lemmas that it inverts `Multiplayer.Encode` |
| Multiplayer.DecodeNeedsPrefix | src/multiplayer.rs:30-41 | A chunk is forwarded only if it carries one of the two prefixes, and the message kind matches the prefix. The ClearedRows prefix is checked first |
| Multiplayer.ClearedRowsRoundTrip | src/multiplayer.rs:13-35 | A count that fits in a `usize` decodes to the count that was sent |
| Multiplayer.NotificationRoundTrip | src/multiplayer.rs:13-40 | A text comes back unchanged if and only if it does not itself start with "Notification: "; otherwise every leading copy of that prefix is lost |
| Multiplayer.YouWinRoundTrip | src/multiplayer.rs:13-40 | "YOU WIN!" arrives unchanged |
| Multiplayer.CoalescedCountsDropped | src/multiplayer.rs:30-35 | The counts 2 and 1, arriving in one read, do not parse, and the chunk yields nothing |
| Multiplayer.StopIndex | src/multiplayer.rs:43-45 | The first read that ends the loop is within the reads |
| Multiplayer.Forwarded | src/multiplayer.rs:24-47 | The decodings of the reads, in order, up to the first empty or failed read. `Multiplayer.ForwardedBound` and `Multiplayer.ForwardedCons` state its bound and order, `Multiplayer.ForwardToMainThread` that the loop sends it, and `Multiplayer.ForwardedEncoded` that it recovers what was sent |
| Multiplayer.ForwardedBound | src/multiplayer.rs:26-46 | Nothing after the stopping read is looked at, and each read yields at most one message |
| Multiplayer.ForwardedCons | src/multiplayer.rs:28-41 | A read that does not stop the loop contributes its decoding, in read order |
| Multiplayer.Classify | src/multiplayer.rs:29-41 | The prefix test, strip and parse of one chunk compute `Decode` |
| Multiplayer.ForwardToMainThread | src/multiplayer.rs:24-47 | The listener loop sends exactly `Forwarded(results)`: the decodings of the reads, in order, up to the first empty or failed read |
| Multiplayer.EncodedYield | src/multiplayer.rs:13-41 | A message that survives the trip is encoded as a non-empty chunk that yields exactly that message |
| Multiplayer.OneReadEach | src/multiplayer.rs:26-28 | The connection on which every message arrives in its own read, followed by end of stream |
| Multiplayer.ForwardedEncoded | src/multiplayer.rs:13-47 | On such a connection the listener forwards exactly the messages sent, in order |
| HighScores.Ranked | src/sqlite.rs:58 | The table is ordered by score, highest first; `HighScores.InsertRankedRanked` and `GameState.StepKeepsInv` state that it stays so |
| HighScores.CountAtLeast | src/sqlite.rs:56-59 | The number of rows scoring at least s; `HighScores.CountAtLeastPrefix` states that in a ranked table they come first |
| HighScores.Qualifies | src/lib.rs:1432-1448 | A score is entered when it is positive and either fewer than five rows exist or it beats the fifth; `HighScores.QualifiesMeansFewerBetter` states what that means |
| HighScores.InsertRanked | src/sqlite.rs:56-74 | Storing a row as the ordered query reads it back, a new row after every row with an equal score. `HighScores.InsertRankedMultiset`, `HighScores.InsertRankedRanked` and `HighScores.InsertRankedPosition` state its contents, order and position |
| HighScores.CountAtLeastPrefix | src/sqlite.rs:56-59 | In a ranked table the rows scoring at least s come first |
| HighScores.QualifiesMeansFewerBetter | src/lib.rs:1432-1448 | A score is entered exactly when it is positive and fewer than five rows score at least as much. A positive score that is not entered could not have improved a full top five |
| HighScores.InsertRankedMultiset | src/lib.rs:1577 | Inserting a row adds exactly that row |
| HighScores.InsertRankedProps | src/lib.rs:1577 | Inserting keeps the table ranked and places the new row right after the rows scoring at least as much |
| HighScores.InsertRankedRanked | src/lib.rs:1577 | Inserting keeps the table ranked |
| HighScores.InsertRankedPosition | src/lib.rs:1577 | The new row lands right after the rows scoring at least as much |
| HighScores.TopPlayers | src/sqlite.rs:74 | The high-score screen shows the first five rows, or all of them when there are fewer |
| HighScores.QualifyingScoreShown | src/lib.rs:1576-1580 | A score that qualified is on the high-score screen shown after it is stored |
| HighScores.InsertAt | src/main.rs:1111-1113 | A typed character is inserted at the cursor; the text before and after the cursor is kept |
| HighScores.RemoveBefore | src/main.rs:1071-1076 | Backspace removes the one character before the cursor |
| HighScores.RemoveUndoesInsert | src/main.rs:1071-1121 | Backspace right after typing a character restores the name |
| HighScores.InsertUndoesRemove | src/main.rs:1071-1121 | Typing the erased character again restores the name |
| GameState.Initial | src/lib.rs:538-586 | `Game::new` gives a state that keeps the invariant, in play, unpaused and with no reset pending. Lines and score are zero and the level is the start level. Nothing is queued or sent, the table is the stored one, and `2 k + 2` draws have been taken for k handicap rows |
| GameState.Playable | src/lib.rs:514-535 | A board in play: a 20 x 10 grid without full rows, the current piece in one of its states inside the playfield, and a fresh preview; `GameState.Lock`, `GameState.LockAndNext` and `GameState.Gravity` state that they keep it |
| GameState.Inv | src/lib.rs:514-535 | What every step keeps: a playable board, a handicap that fits, the interval of the current level, a ranked table, a name of at most 12 characters with the cursor inside it, and an empty queue without a peer; `GameState.StepKeepsInv` states that it is kept |
| GameState.Reset | src/main.rs:229-259 | `reset` gives a playable board. Lines and score are zero, and the level and its interval are the start level's. The receiver is empty and the pause is off. The match points, the table and the prompt state are unchanged |
| GameState.Restart | src/lib.rs:1684-1691 | `reset_game` takes nothing back: match points, table rows and sent messages remain |
| GameState.Lock | src/lib.rs:1229-1244 | Locking then clearing gives a 20 x 10 grid with no full row, and only grid, lines, score and sent messages change |
| GameState.Advance | src/main.rs:732-743 | The preview piece comes in at row 0 inside the playfield with its states, a new preview is drawn, and nothing else changes |
| GameState.GameOver | src/lib.rs:1409-1451 | `handle_game_over` takes nothing back |
| GameState.LockAndNext | src/lib.rs:1207-1227 | `lock_and_move_to_next` leaves a playable board, keeps level, interval, table and queue, and takes nothing back |
| GameState.Fall | src/lib.rs:908-921 | A gravity step keeps the board playable and the level, table and queue unchanged. `GameState.FallEffect` states the step: one row down when that fits, otherwise lock and bring in the next piece |
| GameState.Gravity | src/lib.rs:908-926 | The gravity part of the play loop keeps the board playable, leaves level, interval, table and queue alone, and takes nothing back. `GameState.GravityEffect` states that it acts only once the interval has elapsed |
| GameState.PlayKey | src/lib.rs:937-983 | Every key of the running loop keeps the board playable and takes nothing back. The effect of each key is stated by the `GameState.PlayKey…` lemmas below |
| GameState.Drain | src/lib.rs:991-1079 | The drain of the receiver takes nothing back |
| GameState.Continue | src/lib.rs:991-1083 | The drain followed by an asked-for reset takes nothing back |
| GameState.Tick | src/lib.rs:899-1085 | One iteration of the play loop takes nothing back |
| GameState.QuitKey | src/lib.rs:1123-1156 | The quit prompt takes nothing back |
| GameState.NoticeKey | src/lib.rs:1044-1073 | The notification prompt takes nothing back |
| GameState.ScoreKey | src/lib.rs:1495-1520 | The high-score screen takes nothing back |
| GameState.NameKey | src/main.rs:1071-1121 | The name editor takes nothing back |
| GameState.Step | src/lib.rs:894-1086 | Any step of the program takes nothing back |
| GameState.FallEffect | src/lib.rs:908-921 | The piece moves one row down when it fits there; otherwise it is locked and the next piece comes in |
| GameState.GravityEffect | src/lib.rs:908-926 | Before the interval has elapsed since the last gravity step nothing changes; once it has, the piece falls and the gravity timer restarts |
| GameState.PlayKeyShift | src/lib.rs:940-947 | 'h' or Left moves the piece one column left, 'l' or Right one column right, when that fits; otherwise nothing changes |
| GameState.PlayKeyRotate | src/lib.rs:948-951 | Space turns the piece to its next state when that fits in place; otherwise nothing changes |
| GameState.PlayKeySoftDrop | src/lib.rs:952-970 | 's' or Up falls one step and restarts the soft-drop timer once an eighth of the interval has passed since the last soft drop; before that nothing changes |
| GameState.PlayKeyHardDrop | src/lib.rs:971-974 | 'j' or Down locks the piece where it lands and brings in the next piece |
| GameState.PlayKeyOther | src/lib.rs:975-981 | 'p' flips the pause, 'q' opens the quit prompt, and any other key changes nothing |
| GameState.PauseKeyEffect | src/lib.rs:1088-1121 | In the pause prompt Enter or 'c' clears the pause, 'q' exits, and any other key changes nothing |
| GameState.QuitKeyEffect | src/lib.rs:1123-1156 | In the quit prompt Enter or 'y' exits; Esc or 'n' clears the pause and goes back to play, draining the receiver; any other key changes nothing |
| GameState.NoticeKeyEffect | src/lib.rs:1044-1073 | In the notification prompt Enter or 'c' goes back to play, 'r' goes back with a reset asked for, 'q' exits, and any other key changes nothing |
| GameState.ScoreKeyEffect | src/lib.rs:1495-1520 | On the high-score screen 'q' exits, 'r' starts a new game, and any other key changes nothing |
| GameState.RestartEffect | src/lib.rs:1684-1691 | A new game is playable, in play, unpaused and without a pending reset, both timers at the current time, no lines, no score, the start level and its interval, and an empty receiver. Match points, table, sent messages and name are kept |
| GameState.ContinueEffect | src/lib.rs:991-1083 | After the drain, a reset that was asked for while play goes on starts a new game; otherwise the drained state is the result |
| GameState.NameKeyEdits | src/lib.rs:1548-1615 | In the name editor Backspace removes the character before the cursor, Left and Right move the cursor within the name, and a character is inserted at the cursor while the name is shorter than 12. At an edge or the cap, and for other keys, nothing changes |
| GameState.TickEffect | src/lib.rs:899-1085 | A paused iteration hands its key to the pause prompt. Otherwise the level step and gravity come first; if they end play, their result stands. With no key the drain follows. With a key, the key match acts next; if play goes on, the drain and an asked-for reset follow, and if the key left play (the quit prompt or a game over) its result stands |
| GameState.StepRoutes | src/lib.rs:894-1086 | In play a step is an iteration of the loop. In a prompt, a step without a key changes nothing, and a key goes to the quit prompt, the notification prompt, the high-score screen or the name editor, whichever is open |
| GameState.GarbageKeepsPlayable | src/lib.rs:994-1008 | Garbage keeps the board playable |
| GameState.LevelUp | src/lib.rs:903-906 | The level step of the play loop; `GameState.LevelUpEffect` and `GameState.LevelUpKeepsInv` state what it does and what it keeps |
| GameState.GameOverMode | src/lib.rs:1432-1448 | The screen after game over: name entry when the score qualifies, the high-score screen otherwise; `GameState.GameOverScreen` states the resulting state |
| GameState.Garbage | src/lib.rs:994-1011 | A count from the peer pushes that many copies of one garbage row up, using two draws; `GameState.GarbageKeepsPlayable`, `GameState.DrainRaises` and `GameState.ClearedRowsArrive` state its effect |
| GameState.Notice | src/lib.rs:1012-1021 | A notification from the peer flips the pause, counts a point and opens its prompt; `GameState.DrainRaises` and `GameState.WinArrives` state it |
| GameState.PauseKey | src/lib.rs:1088-1121 | The pause prompt; `GameState.PauseKeyEffect` states each key's effect and `Engine.Game.PauseKey` that the method computes it |
| GameState.Deliver | src/multiplayer.rs:24-47 | The listener's messages are appended to the queue, in order; `GameState.DeliverKeepsInv` states that this keeps the invariant and `Engine.Game.Listen` that the method computes it |
| GameState.DrainKeepsInv | src/lib.rs:991-1079 | The drain keeps the invariant |
| GameState.LevelUpEffect | src/lib.rs:903-906 | When the level step is due, it raises the level by exactly 1 and applies one decay; otherwise it changes nothing. The level never falls, the interval never grows and stays positive, and no level beyond 21 is reached |
| GameState.LevelUpKeepsInv | src/lib.rs:903-906 | The level step keeps the invariant, including the interval matching the level |
| GameState.ContinueKeepsInv | src/lib.rs:991-1083 | The drain followed by an asked-for reset keeps the invariant |
| GameState.TickKeepsInv | src/lib.rs:899-1085 | An iteration of the play loop keeps the invariant |
| GameState.NameKeyKeepsInv | src/main.rs:1071-1121 | The editor keeps 0 <= cursor <= length <= 12 and the table ranked |
| GameState.QuitKeyKeepsInv | src/lib.rs:1123-1156 | The quit prompt keeps the invariant |
| GameState.NoticeKeyKeepsInv | src/lib.rs:1044-1073 | The notification prompt keeps the invariant |
| GameState.StepKeepsInv | src/lib.rs:894-1086 | Every step keeps the invariant: a 20 x 10 grid without full rows, the current piece inside the playfield, a fresh preview, the interval of the current level, a ranked table, a name of at most 12 characters with the cursor inside it, and no messages without a peer |
| GameState.DeliverKeepsInv | src/multiplayer.rs:24-47 | Queueing the listener's messages keeps the invariant |
| GameState.LockCounts | src/lib.rs:1259-1294 | A lock completes k <= 4 rows. Lines grow by k and the score by the points for k at the current level, and 10 k blocks leave the grid |
| GameState.LockAndNextEffect | src/lib.rs:1207-1227 | The counts are those of the lock. The preview piece comes in and the next draw gives the new preview. The game is over exactly when the new piece cannot move left, right or down and cannot rotate |
| GameState.GameOverScreen | src/lib.rs:1409-1451 | Name entry, with an empty name and the cursor at 0, opens exactly when the score is positive and fewer than five rows score as much; otherwise the high-score screen opens. A connected peer is sent "YOU WIN!" and the competitor's point is counted; grid, score and the own point are kept |
| GameState.NameEntryStores | src/lib.rs:1576-1580 | Enter stores exactly one new row, keeps the table ranked, and a qualifying score is on the next screen. Only the table and the mode change |
| GameState.RaisedBy | src/lib.rs:992-1011 | A run of garbage messages keeps the number of rows |
| GameState.FirstNotice | src/lib.rs:992-1012 | The first notification in the queue is found, and no message before it is a notification |
| GameState.RaisedByCons | src/lib.rs:992-1011 | The first garbage message applied, then the rest two draws later, is all of them applied |
| GameState.DrainRaises | src/lib.rs:991-1079 | The drain applies, in order, the garbage of every message before the first notification, using two draws each. It stops at that notification, opening its prompt, flipping the pause and counting the point, and leaves the rest queued |
| GameState.GarbageFirst | src/lib.rs:994-1011 | Garbage first, then the rest of the drain, is the whole drain |
| GameState.ClearedRowsArrive | src/lib.rs:1296-1303 | Rows cleared on one side arrive as the same count and push that many copies of one garbage row up on the other side |
| GameState.WinArrives | src/lib.rs:1410-1415 | The loser's report opens "YOU WIN!" on the winner's side, flips the pause and counts the point |
| GameState.ForwardedOne | src/multiplayer.rs:24-47 | One message followed by end of stream is forwarded as that message alone |
| GameState.ExitedIsFinal | src/main.rs:1142-1146 | After exit nothing changes |
| Engine.Game.constructor | src/lib.rs:538-586 | The new object holds the state `Initial` describes and keeps the invariant |
| Engine.Game.CanMove | src/lib.rs:1158-1178 | `can_move` is true exactly when every occupied cell of the state lands inside the walls, above the floor and on an empty cell |
| Engine.Game.MoveLeft | src/lib.rs:1721-1728 | The piece moves one column left when that fits and is unchanged otherwise |
| Engine.Game.MoveRight | src/lib.rs:1730-1737 | The piece moves one column right when that fits and is unchanged otherwise |
| Engine.Game.MoveDown | src/lib.rs:1757-1764 | The piece moves one row down when that fits and is unchanged otherwise |
| Engine.Game.Rotate | src/lib.rs:1739-1755 | The piece takes the next state when it fits in place and is unchanged otherwise |
| Engine.Game.HardDrop | src/lib.rs:1766-1773 | The `while` loop stops where `Landing` says |
| Engine.Game.IsGameOver | src/lib.rs:1379-1407 | `is_game_over` is true exactly when left, right, down and rotating in place all fail |
| Engine.Game.ClearFilledRows | src/lib.rs:1259-1308 | The grid becomes the cleared grid, lines grow by the number k of full rows, the score by the points for k, and the count is sent to a connected peer when k > 0 |
| Engine.Game.FilledRows | src/lib.rs:1260-1269 | The bottom-up scan collects the full rows, lowest row first |
| Engine.Game.RemoveRows | src/lib.rs:1271-1277 | The removal loop, topmost row first, leaves the cleared grid and adds one line per row |
| Engine.Game.AddScore | src/lib.rs:1279-1294 | The score grows by 100, 300, 500 or 800 times (level + 1) for 1 to 4 rows, and by nothing otherwise |
| Engine.Game.LockTetromino | src/lib.rs:1229-1244 | The object ends in the state `Lock` describes |
| Engine.Game.PlaceTetromino | src/lib.rs:1230-1239 | The nested loops write exactly the grid `Locked` describes |
| Engine.Game.MoveToNext | src/lib.rs:1246-1257 | The object ends in the state `Advance` describes |
| Engine.Game.HandleGameOver | src/lib.rs:1409-1451 | The object ends in the state `GameOver` describes |
| Engine.Game.LockAndMoveToNext | src/lib.rs:1207-1227 | The object ends in the state `LockAndNext` describes |
| Engine.Game.DropOrLock | src/lib.rs:908-921 | The object ends in the state `Fall` describes |
| Engine.Game.StepDown | src/lib.rs:916-918 | The current piece moves one row down and nothing else changes |
| Engine.Game.LevelStep | src/lib.rs:903-906 | The object ends in the state `LevelUp` describes |
| Engine.Game.GravityStep | src/lib.rs:908-926 | The object ends in the state `Gravity` describes |
| Engine.Game.HandleKey | src/lib.rs:937-983 | The object ends in the state `PlayKey` describes |
| Engine.Game.MoveKey | src/lib.rs:940-951 | The object ends in the state `PlayKey` describes for a shift or a rotation |
| Engine.Game.SoftDropArm | src/lib.rs:952-970 | A soft drop falls one step once an eighth of the interval has passed since the last one, and does nothing before |
| Engine.Game.HardDropArm | src/lib.rs:971-974 | A hard drop locks the piece where `Landing` puts it |
| Engine.Game.ReceiveClearedRows | src/lib.rs:994-1011 | The object ends in the state `Garbage` describes |
| Engine.Game.ReceiveNotification | src/lib.rs:1012-1021 | The object ends in the state `Notice` describes |
| Engine.Game.DrainInbox | src/lib.rs:991-1079 | The object ends in the state `Drain` describes |
| Engine.Game.Reset | src/lib.rs:603-633 | The object ends in the state `GameState.Reset` describes |
| Engine.Game.ResetCurrent | src/lib.rs:610-612 | The current piece is spawned from the next draw |
| Engine.Game.ResetNext | src/lib.rs:613 | The preview piece is spawned from the next draw |
| Engine.Game.ResetStatistics | src/lib.rs:615-632 | Statistics, interval, receiver and pause are reset |
| Engine.Game.ResetGame | src/lib.rs:1684-1691 | The object ends in the state `Restart` describes |
| Engine.Game.Finish | src/lib.rs:991-1083 | The object ends in the state `Continue` describes |
| Engine.Game.PauseKey | src/lib.rs:1088-1121 | The object ends in the state `GameState.PauseKey` describes |
| Engine.Game.QuitKey | src/lib.rs:1123-1156 | The object ends in the state `GameState.QuitKey` describes |
| Engine.Game.NoticeKey | src/lib.rs:1044-1073 | The object ends in the state `GameState.NoticeKey` describes |
| Engine.Game.ScoreKey | src/lib.rs:1495-1520 | The object ends in the state `GameState.ScoreKey` describes |
| Engine.Game.NameKey | src/lib.rs:1548-1615 | The object ends in the state `GameState.NameKey` describes |
| Engine.Game.Tick | src/lib.rs:899-1085 | The object ends in the state `GameState.Tick` describes |
| Engine.Game.Step | src/lib.rs:894-1086 | The object ends in the state `GameState.Step` describes and keeps the invariant |
| Engine.Game.Listen | src/multiplayer.rs:24-47 | What the listener forwards is appended to the queue |
| Cli.CheckArgs | src/main.rs:1546-1556 | Options pass exactly when the handicap is at most 10 and the level at most 20. The handicap is checked first, each with its own message |
| Cli.LaunchOf | src/main.rs:1546-1619 | Out-of-range options are rejected. Otherwise `--multiplayer` without an address hosts, with an address joins it, and without `--multiplayer` a single game starts; handicap and level are carried over |
| Cli.LaunchedFits | src/main.rs:1546-1556 | Whatever is launched has a handicap that fits in the playfield and a start level of at most 20 |
| Cli.LevelMessageText | src/main.rs:1554 | The level message reads "Level must be between 0 and 20." |

## Left out

- **Rendering and the terminal.** This covers `render*`, `print_*_messages`, the screen part of `clear_tetromino`, the `Terminal` trait, crossterm and the terminal-size check of `main`. These are presentation only.
- **The clock.** `Instant` and the `poll` timeouts are replaced by the `now` reading passed to each step; the model does not measure time.
- **Threads, sockets and the mpsc channel.** The listener is a method over the reads it sees. The outgoing stream is a list of strings and the channel a queue. Interleaving of the two threads is reduced to "the listener appends, the loop drains".
- **Randomness.** `thread_rng` is the fixed stream `rng` with a draw counter; no distribution is modelled.
- **SQLite (`src/sqlite.rs`).** The database is a ranked list, and I/O errors of the database are not modelled. `ORDER BY score DESC` (src/sqlite.rs:58, src/sqlite.rs:74) leaves the order of tied scores unspecified; `HighScores.InsertRanked` fixes one order, placing a new row after every row with an equal score.
- **`build.rs` and the test scaffolding of `tests/integration_test.rs`.** These are not part of this model.
- **The I-piece scenario of tests/integration_test.rs:152-200.** The rules it exercises (locking, clearing and where a hard drop lands) are proved for all grids by `Playfield.LockedCells`, `Playfield.RemovedFromClears` and `Moves.Landing`. The concrete outcome on that test's grid is not proved: evaluating hard drops on a concrete 20 x 10 grid is too costly.
- **Fixed-width integers.** The `u8` match points, the `usize`/`u64` counters and the `i16`/`isize` positions are unbounded integers. The model does not capture overflow of the match points or a wrap of the counters. The only width modelled is the `usize` bound of the parser.
- **Bytes and UTF-8.** `from_utf8_lossy` and the 256-byte read buffer are replaced by whole strings per read. A message longer than the buffer, or one split across reads, is not modelled. The name's length is counted in characters, not bytes.
- **Byte indexing in the name editor.** `name.remove(cursor_position - 1)` and `name.insert(cursor_position, c)` (src/lib.rs:1563, src/lib.rs:1598) index the `String` by bytes, and the cap `name.len() < MAX_NAME_LENGTH` counts bytes. A non-ASCII character makes the cursor fall inside a character and the program panic. The model edits a sequence of characters, so it captures neither that panic nor the byte-counted cap.
- **An unchecked handicap on the library entry point.** `start` (src/lib.rs:47-130) passes `number_of_lines_already_filled` on without a range check, and `create_grid` computes `height - start_with_number_of_filled_lines` (src/lib.rs:1698), which underflows and panics above 20. Only the checks of `main` (src/main.rs:1546-1556, `Cli.CheckArgs`) keep it at most 10. The model's `startFilled <= PlayHeight` requires on `GameState.Initial`, `GameState.Reset`, `Engine.Game.constructor` and the steps that reset excludes that panic rather than modelling it.
- GameState.Tick: a step's key belongs to the running loop only (`GameState.TickEffect`). When the gravity step of an iteration ends the game, the source runs the game-over screen inside that step (src/lib.rs:908-921 via `lock_and_move_to_next`), and that screen reads the next key itself without the loop polling. In the model the key that came with such a step is dropped, and only the following step's key reaches the screen.
- **Process exit.** `quit` and `exit` become the final mode `Exited`. Leaving raw mode and the alternate screen is not modelled.
- **clap parsing errors.** A non-numeric option or an unknown flag is rejected before `main`'s checks and is not modelled.
- **The listener on the older entry point.** `send_message` and `receive_message` in `src/main.rs` are copies of the functions in `src/multiplayer.rs` and share their model.
- **The `state_sender` hook of `lock_and_move_to_next`.** It exists only for tests and is not modelled.
- GameState.Restart: its own contract, for `reset_game`, states only that nothing is taken back (`Grows`). The new state is stated by the `Engine.Game` method proved equal to it, and by `GameState.RestartEffect`, which states its effect.
- GameState.GameOver: its own contract, for `handle_game_over`, states only that nothing is taken back (`Grows`). The new state is stated by the `Engine.Game` method proved equal to it, and by `GameState.GameOverScreen`, which states its effect.
- GameState.Drain: its own contract, for the drain of the receiver, states only that nothing is taken back (`Grows`). The new state is stated by the `Engine.Game` method proved equal to it, and by `GameState.DrainRaises`, which states its effect.
- GameState.Continue: its own contract, for the drain and the asked-for reset, states only that nothing is taken back (`Grows`). The new state is stated by the `Engine.Game` method proved equal to it, and by `GameState.ContinueEffect`, which states its effect.
- GameState.Tick: its own contract, for one iteration of the play loop, states only that nothing is taken back (`Grows`). The new state is stated by the `Engine.Game` method proved equal to it, and by `GameState.TickEffect`, which states its effect.
- GameState.QuitKey: its own contract, for the quit prompt, states only that nothing is taken back (`Grows`). The new state is stated by the `Engine.Game` method proved equal to it, and by `GameState.QuitKeyEffect`, which states its effect.
- GameState.NoticeKey: its own contract, for the notification prompt, states only that nothing is taken back (`Grows`). The new state is stated by the `Engine.Game` method proved equal to it, and by `GameState.NoticeKeyEffect`, which states its effect.
- GameState.ScoreKey: its own contract, for the high-score screen, states only that nothing is taken back (`Grows`). The new state is stated by the `Engine.Game` method proved equal to it, and by `GameState.ScoreKeyEffect`, which states its effect.
- GameState.NameKey: its own contract, for the name editor, states only that nothing is taken back (`Grows`). The new state is stated by the `Engine.Game` method proved equal to it, and by `GameState.NameKeyEdits` for editing keys and `GameState.NameEntryStores` for Enter, which state its effect.
- GameState.Step: its own contract, for one step of the program, states only that nothing is taken back (`Grows`). The new state is stated by the `Engine.Game` method proved equal to it, and by `GameState.StepRoutes`, which states its effect.
- GameState.Fall: its own contract states only that the board stays playable and what stays unchanged. The step itself is stated by `GameState.FallEffect` and by `Engine.Game.DropOrLock`.
- GameState.Gravity: its own contract states only that the board stays playable and what stays unchanged. When it acts is stated by `GameState.GravityEffect` and by `Engine.Game.GravityStep`.
- GameState.PlayKey: its own contract states only that the board stays playable and nothing is taken back. The effect of each key is stated by `GameState.PlayKeyShift`, `GameState.PlayKeyRotate`, `GameState.PlayKeySoftDrop`, `GameState.PlayKeyHardDrop` and `GameState.PlayKeyOther`.
