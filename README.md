# Tetris on the LED curtain — a verified model of the game core

The service in `tetris_ha/main.py` plays two self-running games of Tetris side by side on a
20 × 18 LED curtain. Each `TetrisGame` owns a band of `cols_count` columns starting after
`cols_start`. On every tick it:

- steers its falling piece toward a target that a scoring search picked;
- locks the piece and clears full rows;
- spawns the next piece, at random, or, once the stack reaches `HELP_THRESHOLD`, by choosing the best shape, rotation and column;
- renders itself into a bordered `(ROWS + 2) × (COLS + 2)` matrix.

The loop then compares the interior of that matrix with the previous frame and sends each changed cell, rotated to the curtain's coordinates, as 54-byte per-pixel BLE commands. `tetris_ha/tetris.py` has its own copy of the encoder, plus the cutting of each command into writes of at most `mtu - 3` bytes.

The model is organised by the program's own structure:

- `display.dfy` (module `Display`): the constants, colours and pixels.
- `pieces.dfy` (module `Pieces`): shapes, the quarter turn, and `get_rotations`.
- `board.dfy` (module `Board`): the grid mechanics. This covers `can_place`, stamping, the drop, the column scan and clearing rows.
- `search.dfy` and `planner.dfy` (modules `Search`, `Planner`):
  - the scoring of `simulate`;
  - the candidate enumeration shape × rotation × column, and the "first strictly smallest score" search;
  - the one-column steering and the one-turn rotation of `update`.
- `rules.dfy` (module `Rules`): the game as a state machine of values. It covers `spawn_new_piece`, `lock_piece`, one `update` tick and `__init__`, together with the invariant they keep.
- `game.dfy` (module `Game`): class `TetrisGame`, whose fields are the source's fields.
  - Its methods update them in place: `update`, `lock_piece`, `spawn_new_piece` and `render`.
  - Each method is proved to leave exactly the state the `Rules` functions prescribe.
  - The read-only helpers are module-level methods taking the grid, proved against the `Board`/`Planner` functions: `can_place`, `simulate`, `max_height`, the searches and the row clearing.
- `frame.dfy` (module `Frame`) covers the frame:
  - it defines the picture `render` leaves in the matrix;
  - `Diff` is the list of changed interior cells, proved complete and exact (an iff), in row-major order and encodable;
  - the array loops that clear the matrix, collect the changes and copy the frame.
- `loop.dfy` (module `GameLoop`): the body of the loop of `single_game_loop` — update, clear, render, diff, copy, and build the commands.
- `wire.dfy`, `encoder.dfy`, `tetris_script.dfy` (modules `Wire`, `Encoder`, `TetrisScript`): the command layout as bytes, and its decoding back to the pixels.
  - `Wire` relates the bytes to the hexadecimal text the source builds.
  - `Encoder` and `TetrisScript` hold the two `build_command_from_pixels` loops.
  - `TetrisScript` also holds the MTU slicing of `send_commands`.

The generator `random.Random(seed)` is a parameter: `oracle(n)` is the n-th value it yields, and
`rng.choice(xs)` is `xs[oracle(draws) % |xs|]` with the draw counter advanced by one. Scores are
exact reals.

## Model

| member | source | states |
|---|---|---|
| Board.CanPlace | tetris_ha/main.py:237-244 | true exactly when every block lands inside the side walls, above the floor, and above the board or on a free cell |
| Board.CanPlaceFloor | tetris_ha/main.py:240-241 | a piece that fits has its first block above the floor |
| Board.CanPlaceColumnsFit | tetris_ha/main.py:240 | a piece that fits has every block inside columns 0 .. cols-1 |
| Board.CoversSnoc | tetris_ha/main.py:394-397 | the cells covered by the first k + 1 blocks are those of the first k plus block k's cell |
| Board.Stamp | tetris_ha/main.py:368-372 | writing the piece into a grid keeps its shape |
| Board.StampCell | tetris_ha/main.py:368-372 | a stamped cell holds the value where a block of the piece covers it, and its old value elsewhere |
| Board.LandingRow | tetris_ha/main.py:261-263 | the drop ends at or below the start row; the piece fits at every row it passes down to the landing row, and does not fit one row lower |
| Board.Column | tetris_ha/main.py:272-273 | a column of the grid has ROWS cells |
| Board.FirstOccupied | tetris_ha/main.py:272-276 | the first occupied row of a column: every cell above it is free and it is occupied unless the column is empty |
| Board.CountFree | tetris_ha/main.py:277-278 | the free cells counted are at most the cells scanned |
| Board.Height | tetris_ha/main.py:270-279 | the height of one column; `HeightSpec` and `ScanStep` tie it to the first occupied row and to the scan |
| Board.Holes | tetris_ha/main.py:270-279 | the free cells below a column's top; `ScanStep` ties it to the `elif seen: holes += 1` count and `HeightSpec` bounds it by the height |
| Board.HeightSpec | tetris_ha/main.py:269-279 | a height is at most ROWS, is 0 exactly for an empty column, is ROWS - r for the topmost occupied r, and bounds the holes of the column |
| Board.ScanStep | tetris_ha/main.py:272-278 | one more row of the scan updates the first occupied row and the hole count as the loop does |
| Board.Heights | tetris_ha/main.py:268-279 | one height per column |
| Board.MaxOf | tetris_ha/main.py:283-290 | the maximum bounds every entry and is one of them, 0 for an empty list |
| Board.MinOf | tetris_ha/main.py:304 | the minimum of a non-empty list is below every entry and is one of them |
| Board.KeptRows | tetris_ha/main.py:376-381 | the surviving rows number the rows scanned minus the full ones |
| Board.KeptIndices | tetris_ha/main.py:376-381 | the indices of the surviving rows lie among the rows scanned, one per non-full row |
| Board.Blank | tetris_ha/main.py:382-384 | n copies of the blank value |
| Board.ClearLines | tetris_ha/main.py:375-385 | the rebuilt grid has ROWS rows |
| Board.KeptRowsSpec | tetris_ha/main.py:376-381 | the surviving rows are the non-full rows, each index present exactly when its row is not full, in strictly increasing order |
| Board.KeptRowsAt | tetris_ha/main.py:376-381 | each surviving row is the row at its index |
| Board.KeptIndicesIncrease | tetris_ha/main.py:376-381 | the surviving rows keep their relative order |
| Board.KeptIndicesMember | tetris_ha/main.py:377-381 | a row survives exactly when it is not full |
| Board.ClearLinesShape | tetris_ha/main.py:375-385 | clearing keeps ROWS rows of cols_count cells |
| Board.ClearLinesRow | tetris_ha/main.py:375-385 | row i after clearing is blank when i is below the cleared count, else the (i - cleared)-th surviving row, which is not full |
| Board.ClearLinesLayout | tetris_ha/main.py:375-385 | `cleared` blank rows on top, then the surviving rows in their original order at the bottom |
| Board.ClearLinesNoFullRow | tetris_ha/main.py:375-385 | no row is full after clearing |
| Board.ClearLinesColors | tetris_ha/main.py:375-385 | clearing both grids the same way keeps shapes and keeps every empty cell black |
| Board.StampColors | tetris_ha/main.py:368-372 | stamping the piece into both grids keeps every empty cell black |
| Pieces.Rotate | tetris_ha/main.py:256 | the quarter turn `(r, c) -> (-c, r)` keeps the number of blocks |
| Pieces.GetRotations | tetris_ha/main.py:246-257 | the loop with its `seen` set returns the rotation list `Rotations` |
| Pieces.RotationsFromShape | tetris_ha/main.py:250-256 | the bounded loop returns at most `budget` entries, at least one when the first is new, each the start turned i times, with distinct keys |
| Pieces.RotationsFromStop | tetris_ha/main.py:250-253 | when the loop stops early, the next turn repeats the key of an earlier entry |
| Pieces.RotateTimesShift | tetris_ha/main.py:256 | turning the turned piece k times is turning the piece k + 1 times |
| Pieces.RotationsFrom | tetris_ha/main.py:246-257 | the rest of the rotation loop from one shape; `RotationsFromShape` and `RotationsFromStop` pin down its entries and its early stop |
| Pieces.Rotations | tetris_ha/main.py:246-257 | `get_rotations` as a function; `RotationsSpec` gives its length, order and distinct sorted forms, and `GetRotations` is its loop |
| Pieces.RotationsSpec | tetris_ha/main.py:246-257 | 1 to 4 entries; the first is the input; each next one is the previous one turned; no two share a sorted form; fewer than 4 only when the next turn repeats one |
| Pieces.AllRotationsSpec | tetris_ha/main.py:297-298 | a shape is enumerated exactly when it is a rotation of one of the shapes |
| Pieces.AllRotationsSnoc | tetris_ha/main.py:297-298 | the enumeration of one more shape appends that shape's rotations |
| Pieces.AllRotationsNonEmpty | tetris_ha/main.py:297-298 | the rotations of non-empty shapes are non-empty |
| Pieces.RotationsHead | tetris_ha/main.py:249-256 | the first rotation is the piece and the second, if any, is its quarter turn |
| Pieces.NextRotation | tetris_ha/main.py:355-357 | when the target is among the rotations, the entry after the piece in the list is its quarter turn |
| Pieces.RotateTimesLength | tetris_ha/main.py:256 | turning keeps the number of blocks |
| Pieces.RotateFourTimes | tetris_ha/main.py:256 | four quarter turns give the piece back |
| Pieces.FourDistinctKeys | tetris_ha/main.py:250-256 | four pairwise different sorted forms give four rotations |
| Pieces.SquareTurns | tetris_ha/main.py:251-256 | the turns of the O piece, written out |
| Pieces.KeysDiffer | tetris_ha/main.py:251 | two block lists differ in sorted form when a block is in one and not the other |
| Pieces.SquareTurnsDiffer | tetris_ha/main.py:251-256 | the four turns of the O piece have pairwise different sorted forms |
| Pieces.SquareHasFourRotations | tetris_ha/main.py:246-257 | without translation the O piece gets four rotations, not one |
| Search.FoldPickAppend | tetris_ha/main.py:296-307 | searching a then b is searching a + b |
| Search.FirstMinKeep | tetris_ha/main.py:306-307 | a candidate scoring no lower than the best so far leaves it the first smallest |
| Search.FirstMinNew | tetris_ha/main.py:306-307 | a candidate scoring strictly lower becomes the first smallest |
| Search.Pick | tetris_ha/main.py:306-307 | one `if score < best_score` step; `FirstMinKeep` and `FirstMinNew` say when it keeps or replaces the best |
| Search.FoldPick | tetris_ha/main.py:296-307 | the search over a candidate list; `FoldPickSpec` says it finds the first strict minimum and `FoldPickAppend` that it runs in order |
| Search.FoldPickSpec | tetris_ha/main.py:296-307 | the search returns a candidate exactly when there is one: the first with the smallest score, with that score |
| Planner.Dropped | tetris_ha/main.py:260-267 | the copy with the dropped piece keeps the grid shape |
| Planner.HolesBelowHeights | tetris_ha/main.py:268-279 | the holes are at most the sum of the heights, which is at most ROWS per column |
| Planner.SimStats | tetris_ha/main.py:259-281 | the average height, holes and heights of the dropped copy; `SimStatsSpec` and `HolesBelowHeights` bound them and `Game.Simulate` is its loop |
| Planner.SimStatsSpec | tetris_ha/main.py:259-281 | `simulate` gives cols_count heights, each in 0 .. ROWS and equal to the column height of the dropped copy, and holes at most their sum |
| Planner.Score | tetris_ha/main.py:303-305 | the weighted score of some statistics; `ScoreSpec` says it is never negative and is 0 exactly for a flat, hole-free board at the target height |
| Planner.ScoreOf | tetris_ha/main.py:303-305 | the score of one placement, `Score` of its `SimStats`; `Game.ScoreAt` computes it |
| Planner.ScoreSpec | tetris_ha/main.py:304-305 | the score is never negative, and is 0 exactly for a hole-free, even surface at the target height |
| Planner.AllLegalAppend | tetris_ha/main.py:299-303 | a joined candidate list can be simulated exactly when both parts can |
| Planner.MinMaxColSpec | tetris_ha/main.py:299 | `minc` and `maxc` bound every block's column and are reached |
| Planner.ColumnRange | tetris_ha/main.py:299-300 | `range(-minc, cols_count - maxc)` is exactly the anchor columns that keep every block inside the walls |
| Planner.ColCandsSnoc | tetris_ha/main.py:300-302 | one more column appends that placement when it fits |
| Planner.ColCandsEmpty | tetris_ha/main.py:300 | an empty column range gives no candidate |
| Planner.ColCandsOfRange | tetris_ha/main.py:299-300 | the column loop of a rotation runs over `range(-minc, cols_count - maxc)` |
| Planner.ColCandsSpec | tetris_ha/main.py:300-302 | a placement is tried in a column range exactly when its column is in range and it fits |
| Planner.ColCandsOfSpec | tetris_ha/main.py:299-302 | the candidates of one rotation are exactly its fitting columns; the range cuts off none |
| Planner.RotCandsUnfold | tetris_ha/main.py:298-302 | the candidates of a list of rotations are those of all but the last, then the last |
| Planner.RotCandsSpec | tetris_ha/main.py:298-302 | a placement is a candidate exactly when its blocks are one of the rotations and it fits |
| Planner.CandidatesSpec | tetris_ha/main.py:297-302 | in help mode the candidates are exactly the rotations of the shapes at positions that fit at row -2 |
| Planner.Candidates | tetris_ha/main.py:296-302 | the placements the help search tries, in order; `CandidatesSpec` says which they are and `CandidatesLegal` that each can be simulated |
| Planner.CandidatesLegal | tetris_ha/main.py:301-303 | every candidate can be simulated |
| Planner.Scores | tetris_ha/main.py:303-305 | one score per candidate |
| Planner.ScoresAppend | tetris_ha/main.py:303-305 | the scores of a joined list are the joined scores |
| Planner.Best | tetris_ha/main.py:303-307 | the first smallest-score candidate of a list; `BestSpec` says so, and that there is one exactly when the list is not empty |
| Planner.BestOf | tetris_ha/main.py:296-307 | `Best` of the candidates of some shapes; `Rules.HelpChoice` and `TargetForSpec` spell out what it returns |
| Planner.BestSpec | tetris_ha/main.py:296-312 | a choice exists exactly when a candidate does, and it is the first with the smallest score |
| Planner.TargetFor | tetris_ha/main.py:336-346 | the target of a piece without one; `TargetForSpec` states what it is |
| Planner.TargetForSpec | tetris_ha/main.py:336-346 | the target is the first smallest-score fitting placement of the piece's rotations from its row, or the piece where it is when none fits |
| Planner.SearchStep | tetris_ha/main.py:303-307 | one tried candidate updates the best with `if score < best_score` |
| Planner.RotCandsAppend | tetris_ha/main.py:297-298 | the candidates of joined rotation lists are the joined candidates |
| Planner.CandidatesSnoc | tetris_ha/main.py:297-298 | one more shape appends the candidates of its rotations |
| Planner.SteerColSpec | tetris_ha/main.py:349-352 | steering moves at most one column, only to a fitting column, never away from or past the target, and stays only at the target or when blocked |
| Planner.SteerCol | tetris_ha/main.py:348-351 | the column after one steering step; `SteerColSpec` and `SteerColLegal` pin it down |
| Planner.SteerColLegal | tetris_ha/main.py:349-352 | steering from a legal position ends at a legal one |
| Planner.RotateTowardSpec | tetris_ha/main.py:354-359 | the piece turns only from row 3 on, toward a different target among its rotations, by one quarter turn, to a fitting position |
| Planner.TurnWithin | tetris_ha/main.py:355-358 | the next rotation in the list when the target is in it and the next one fits; `RotateTowardSpec` says it is the quarter turn |
| Planner.RotateToward | tetris_ha/main.py:353-358 | the blocks after the rotation step; `RotateTowardSpec` and `RotateTowardLegal` pin it down |
| Planner.RotateTowardLegal | tetris_ha/main.py:354-359 | rotating from a legal position ends at a legal one |
| Rules.BlankGrid | tetris_ha/main.py:225-226 | ROWS rows of cols_count copies of the value |
| Rules.RandomPick | tetris_ha/main.py:313-322 | the draw the random retry stops at, if any; `RandomPickSpec` says it is the first fitting one |
| Rules.RandomPickSpec | tetris_ha/main.py:315-322 | the retry takes the first draw whose shape fits at the spawn point, or none when no attempted draw fits |
| Rules.PlaceDraws | tetris_ha/main.py:324-329 | placing a chosen piece does not depend on the draw count before the choice |
| Rules.HelpChoice | tetris_ha/main.py:294-312 | the help-mode piece is the first smallest-score candidate, and there is none exactly when no candidate exists |
| Rules.SpawnHelpMode | tetris_ha/main.py:294-312 | help mode ends the game exactly when nothing fits at row -2; otherwise it picks a rotation of a shape that fits, with the first smallest score, without drawing |
| Rules.SpawnRandomMode | tetris_ha/main.py:313-322 | below the threshold the piece is the first fitting draw's shape at the spawn column; no piece means none of the attempted draws fitted |
| Rules.SpawnChoiceFits | tetris_ha/main.py:317-329 | a chosen piece fits where it is put, so the final `can_place` check never ends the game |
| Rules.TopRowsFree | tetris_ha/main.py:283-294 | below the threshold the top rows are empty |
| Rules.TetrominosOk | tetris_ha/main.py:202-210 | the seven tetrominoes are non-empty and lie in a 4 × 3 box |
| Rules.FitsAtSpawn | tetris_ha/main.py:313-319 | a shape in the box fits at the spawn point of a board below the threshold |
| Rules.LowBoardFirstDraw | tetris_ha/main.py:313-319 | below the threshold, on three or more columns, the first draw is always taken and the retry never happens |
| Rules.ChoiceIn | tetris_ha/main.py:315 | `rng.choice` returns an element of the list |
| Rules.SpawnSpec | tetris_ha/main.py:292-329 | a spawn keeps the grids and lock count; with no piece only `game_over` changes; otherwise row -2, no target, a palette colour, a fitting piece |
| Rules.SpawnChoice | tetris_ha/main.py:293-322 | `HelpOutcome` from `HELP_THRESHOLD` on, `RandomOutcome` below it; `SpawnHelpMode`, `SpawnRandomMode` and `SpawnChoiceFits` state it |
| Rules.HelpOutcome | tetris_ha/main.py:295-312 | the help branch on values; `HelpChoice` and `SpawnHelpMode` say it is the first smallest-score candidate, or no placement exactly when there is none |
| Rules.RandomOutcome | tetris_ha/main.py:313-322 | the random branch on values; `SpawnRandomMode` says it is the first fitting draw at the start column, or no placement after `SPAWN_ATTEMPTS` draws |
| Rules.Place | tetris_ha/main.py:308-329 | the state after placing a choice; `SpawnSpec` and `PlaceDraws` state what it sets and keeps |
| Rules.Spawn | tetris_ha/main.py:292-329 | `spawn_new_piece` on the game state; `SpawnSpec` and `SpawnInv` state its result and the invariant |
| Rules.SpawnInv | tetris_ha/main.py:292-329 | a spawn on well-formed grids satisfies the game invariant |
| Rules.StartSpec | tetris_ha/main.py:213-235 | a new game has an empty board, no locked piece, and satisfies the invariant |
| Rules.Stamped | tetris_ha/main.py:368-371 | the occupancy grid with the piece keeps its shape |
| Rules.StampedColors | tetris_ha/main.py:368-372 | the colour grid with the piece keeps its shape |
| Rules.Cleared | tetris_ha/main.py:367-385 | the grids after stamping and clearing are well formed: shaped, consistent and free of full rows |
| Rules.Lock | tetris_ha/main.py:367-386 | `lock_piece` on the game state; `LockSpec` states its result and the invariant |
| Rules.LockSpec | tetris_ha/main.py:367-386 | locking counts exactly one more piece, leaves the cleared grids, and keeps the invariant |
| Rules.StampedCell | tetris_ha/main.py:368-372 | each stamped cell is occupied and in the piece's colour where the piece covers it, as before elsewhere |
| Rules.Steered | tetris_ha/main.py:334-359 | steering and rotating keep the invariant |
| Rules.TargetOf | tetris_ha/main.py:335-346 | the remembered target, or `TargetFor` of the piece; `Planner.TargetForSpec` says what that is |
| Rules.SteeredSpec | tetris_ha/main.py:334-359 | the target is set; the grids, row, colour and counters are kept; the column moves at most one step toward the target to a fitting column; any rotation is a legal quarter turn from row 3 on |
| Rules.StepGameOver | tetris_ha/main.py:331-333 | a finished game does not change |
| Rules.StepInv | tetris_ha/main.py:331-365 | a tick keeps the invariant |
| Rules.Step | tetris_ha/main.py:331-365 | one `update` tick on the game state; `StepGameOver`, `StepSpec` and `StepInv` state it |
| Rules.StepSpec | tetris_ha/main.py:361-365 | a live tick moves the steered piece down exactly one row, with grids and count unchanged, or locks it and counts one more piece |
| Game.TetrisGame.MaxHeight | tetris_ha/main.py:283-290 | returns the largest column height of the field |
| Game.TetrisGame.constructor | tetris_ha/main.py:213-235 | sets up the empty game and its first spawn: the state `Start` and the invariant |
| Game.TetrisGame.SpawnNewPiece | tetris_ha/main.py:292-329 | the new state is `Spawn` of the old one |
| Game.TetrisGame.PlaceChoice | tetris_ha/main.py:308-329 | the state after the choice is `Place` of the old one |
| Game.TetrisGame.ChooseSpawn | tetris_ha/main.py:293-322 | returns `SpawnChoice` of the field and draw count, the draws advanced accordingly |
| Game.TetrisGame.Steer | tetris_ha/main.py:334-359 | the new state is `Steered` of the old one |
| Game.TetrisGame.ChooseTarget | tetris_ha/main.py:335-347 | the target is the remembered one or the best placement of the piece's rotations |
| Game.TetrisGame.SteerToward | tetris_ha/main.py:349-352 | the column becomes `SteerCol` of the old one |
| Game.TetrisGame.RotateToward | tetris_ha/main.py:354-359 | the blocks become `RotateToward` of the old ones |
| Game.HelpSpawn | tetris_ha/main.py:295-312 | the nested help-mode search returns `HelpOutcome`: the first smallest-score placement of any shape from row -2, or no placement when none fits |
| Game.RandomSpawn | tetris_ha/main.py:313-322 | the retry returns `RandomOutcome`: the first fitting drawn shape at the start column with the draws past it, or nothing after every attempt |
| Game.FirstFitting | tetris_ha/main.py:314-322 | the retry loop returns the shape of the first fitting draw with the draws advanced past it, or nothing with every attempt's draw spent, as `RandomPick` says |
| Game.TetrisGame.SetPiece | tetris_ha/main.py:324-329 | the piece, row -2, colour and draws are set and the target forgotten; the game ends if the fit check failed; nothing else changes |
| Game.Tallest | tetris_ha/main.py:283-290 | the largest of the column heights |
| Game.TetrisGame.LockPiece | tetris_ha/main.py:367-386 | the new state is `Lock` of the old one, and the invariant holds |
| Game.TetrisGame.Update | tetris_ha/main.py:331-365 | the new state is `Step` of the old one, and the invariant holds |
| Game.TetrisGame.Render | tetris_ha/main.py:388-397 | every matrix cell ends as `Rendered`: the piece colour where a block lands, the field colour in the band, unchanged elsewhere |
| Game.DrawField | tetris_ha/main.py:389-392 | each cell at offset `(r + 1, c + cols_start + 1)` gets the field colour; other cells are unchanged |
| Game.DrawFieldRow | tetris_ha/main.py:390-392 | one row of the field is drawn into row r + 1; other cells are unchanged |
| Game.DrawPiece | tetris_ha/main.py:393-397 | the piece colour goes exactly onto the matrix cells its blocks cover |
| Game.CanPlaceAt | tetris_ha/main.py:237-244 | the early-return loop computes `CanPlace` |
| Game.DropFrom | tetris_ha/main.py:261-263 | the while loop stops at `LandingRow` |
| Game.Simulate | tetris_ha/main.py:259-281 | returns the average height, holes and heights of `SimStats` |
| Game.SearchRotation | tetris_ha/main.py:299-307 | one rotation's column loop tries exactly that rotation's candidates, and the best so far follows the search |
| Game.SearchColumns | tetris_ha/main.py:300-307 | the column loop tries the candidates of its range in order |
| Game.TryColumn | tetris_ha/main.py:301-307 | one column extends the tried candidates and updates the best so far |
| Game.ScoreAt | tetris_ha/main.py:303-305 | the score of a placement is `ScoreOf` |
| Game.SearchBest | tetris_ha/main.py:296-307 | the nested search returns `BestOf`, the first smallest-score candidate |
| Game.SearchRotations | tetris_ha/main.py:298-307 | the rotation loop tries every rotation's candidates in order |
| Game.StampCells | tetris_ha/main.py:368-372 | the grid with the piece written in is `Stamp` |
| Game.ColumnStats | tetris_ha/main.py:268-279 | the heights and the holes of every column |
| Game.TopOf | tetris_ha/main.py:286-289 | the first occupied row of a column, or ROWS for an empty one |
| Game.Turn | tetris_ha/main.py:355-359 | the turn toward the target among the given rotations is `TurnWithin` |
| Game.ClearFullRows | tetris_ha/main.py:375-385 | the rebuilt grids are `ClearLines` of both grids |
| Game.ScanColumn | tetris_ha/main.py:270-279 | the height and the holes of one column |
| Game.AddColumn | tetris_ha/main.py:268-279 | the height and hole tallies of the first c columns extend to c + 1 columns |
| Game.KeepRows | tetris_ha/main.py:373-381 | the rows of both grids that are not full, in order, and the number of full rows |
| Game.PrependBlank | tetris_ha/main.py:382-384 | n blank rows are put on top of the kept rows |
| Frame.Picture | tetris_ha/main.py:408-411 | the frame is a bordered matrix of ROWS + 2 × COLS + 2 colours |
| Frame.RenderedBand | tetris_ha/main.py:389-392 | with consistent grids, an uncovered band cell shows the colour grid as it is |
| Frame.PieceInBand | tetris_ha/main.py:393-397 | a live piece draws only in its game's columns and never below the field |
| Frame.Rendered | tetris_ha/main.py:388-397 | the colour of one matrix cell after `render`; `RenderedBand`, `PieceInBand` and `RenderedOutside` say where each colour shows |
| Frame.RenderedOutside | tetris_ha/main.py:388-397 | beside its band and on the bottom border a live game leaves every cell unchanged |
| Frame.RowChangesSpec | tetris_ha/main.py:415-416 | a pixel is listed for a row exactly when it is a changed cell of that row in the columns scanned |
| Frame.ChangesSpec | tetris_ha/main.py:414-416 | a pixel is listed exactly when it is a changed cell in the rows scanned |
| Frame.RowChanges | tetris_ha/main.py:415-419 | the changed cells of one row; `RowChangesSpec` and `RowChangesOrder` state which and in what order |
| Frame.Changes | tetris_ha/main.py:414-419 | the changed cells of the first rows; `ChangesSpec` and `ChangesOrder` state which and in what order |
| Frame.Diff | tetris_ha/main.py:413-419 | the `changed` list of the loop; `DiffSpec`, `DiffOrder` and `DiffRoundTrip` state what it holds and what it encodes to |
| Frame.DiffSpec | tetris_ha/main.py:414-419 | a pixel is listed exactly when its rotated address `(c, ROWS - r + 1)` is an interior cell that changed, with the new colour |
| Frame.DiffComplete | tetris_ha/main.py:414-419 | every changed interior cell is reported |
| Frame.DiffSame | tetris_ha/main.py:414-420 | a frame equal to the previous one sends nothing |
| Frame.DiffInteriorOnly | tetris_ha/main.py:414-416 | a change of the border alone sends nothing |
| Frame.DiffEncodable | tetris_ha/main.py:417-419 | every listed row is in 1 .. COLS and column in 1 .. ROWS, so it encodes and is never a padding entry |
| Frame.DiffRoundTrip | tetris_ha/main.py:413-425 | the commands built from a frame's changes decode back to exactly those changes, in order |
| Frame.RowChangesOrder | tetris_ha/main.py:415-419 | a row's changes come left to right within that row |
| Frame.IncreasingAppend | tetris_ha/main.py:414-419 | two address-ordered lists, the first below a bound the second starts from, join into an ordered list |
| Frame.ChangesOrder | tetris_ha/main.py:414-419 | the changes come in row-major order |
| Frame.DiffOrder | tetris_ha/main.py:414-419 | the changes are in row-major order and no cell is reported twice |
| Frame.Contents | tetris_ha/main.py:401-402 | the contents of a matrix have its dimensions |
| Frame.ClearMatrix | tetris_ha/main.py:408-410 | every cell becomes black |
| Frame.ChangedPixels | tetris_ha/main.py:414-419 | the nested loop returns `Diff` of the two matrices |
| Frame.CopyMatrix | tetris_ha/main.py:420 | a new matrix with the same contents |
| Frame.SameContents | tetris_ha/main.py:420 | cellwise equal matrices have equal contents |
| Frame.PictureContents | tetris_ha/main.py:408-411 | a matrix whose every cell is rendered over black holds the picture |
| GameLoop.Tick | tetris_ha/main.py:407-425 | the game takes one `Step`; the matrix holds its picture; the changes are `Diff` against the previous frame; the commands are `Commands` of the changes; the next previous frame is a fresh copy |
| GameLoop.Redraw | tetris_ha/main.py:408-411 | clearing and rendering leaves the game's picture |
| GameLoop.Changes | tetris_ha/main.py:413-425 | the changes are `Diff`, encodable, and the commands are `Commands` of them, none when nothing changed |
| Wire.Entries | tetris_ha/main.py:121-122 | five bytes per pixel |
| Wire.Padding | tetris_ha/main.py:123-124 | five bytes per padding entry |
| Wire.EntriesSlot | tetris_ha/main.py:121-122 | slot k of the entries is pixel k's `row col R G B` |
| Wire.PaddingSlot | tetris_ha/main.py:123-124 | every padding slot is `ff ff ff ff ff` |
| Wire.Command | tetris_ha/main.py:119-125 | a command is 54 bytes |
| Wire.CommandFraming | tetris_ha/main.py:125 | a command starts `7e 07 64` and ends `ef` |
| Wire.CommandBody | tetris_ha/main.py:120-125 | between header and trailer come the group's entries, then `10 - n` padding entries |
| Wire.CommandSlot | tetris_ha/main.py:120-125 | slot k of a command is pixel k's entry for k below the group size, else padding |
| Wire.CommandBodySlot | tetris_ha/main.py:120-125 | the slots of a command are those of its body |
| Wire.Commands | tetris_ha/main.py:113-128 | every command is 54 bytes |
| Wire.CommandsUnfold | tetris_ha/main.py:118-127 | the first command encodes the first ten pixels, the rest those after |
| Wire.CommandsAt | tetris_ha/main.py:118-127 | from index i on, the commands are the group at i followed by the rest |
| Wire.CommandsCount | tetris_ha/main.py:113-128 | `ceil(n / 10)` commands, none exactly for no pixels |
| Wire.CommandGroup | tetris_ha/main.py:118-127 | command j encodes pixels `10j .. 10j + 9` |
| Wire.PixelEntry | tetris_ha/main.py:118-127 | pixel i is the entry `i % 10` of command `i / 10` |
| Wire.EntryIsPadding | tetris_ha/main.py:122-124 | only the all-`ff` pixel encodes like padding |
| Wire.DecodeEntriesCons | tetris_ha/main.py:121-122 | reading entries takes one pixel per five bytes |
| Wire.DecodeEntriesRoundTrip | tetris_ha/main.py:120-124 | reading the entries of a group followed by padding gives the group back |
| Wire.DecodeCommandRoundTrip | tetris_ha/main.py:119-125 | reading a command gives its group back |
| Wire.DecodeCommandsRoundTrip | tetris_ha/main.py:113-128 | the commands decode to the pixels, in order |
| Wire.HexValue | tetris_ha/main.py:125 | a hexadecimal digit is worth 0 .. 15 |
| Wire.HexDigit | tetris_ha/main.py:111 | `:02x` writes lowercase digits that read back to their value |
| Wire.RgbToHexStr | tetris_ha/main.py:110-111 | six characters for a colour |
| Wire.FromHex | tetris_ha/main.py:125 | `bytearray.fromhex` gives one byte per two digits |
| Wire.Hex2s | tetris_ha/main.py:111 | one text per byte |
| Wire.FromHexCons | tetris_ha/main.py:125 | reading two digits then the rest reads the byte then the rest |
| Wire.ToHexDecodes | tetris_ha/main.py:110-111 | the hexadecimal text of bytes reads back to the bytes |
| Wire.ToHexAppend | tetris_ha/main.py:111 | the text of joined bytes is the joined text |
| Wire.ToHexSingle | tetris_ha/main.py:111 | one byte's text is its two digits |
| Wire.ToHexTriple | tetris_ha/main.py:111 | three bytes' text is their digits in order |
| Wire.RgbToHexStrRoundTrip | tetris_ha/main.py:110-111 | the colour's text reads back to its three channels |
| Wire.EntryHexIsToHex | tetris_ha/main.py:122 | an entry's text is the text of its five bytes |
| Wire.EntryHexes | tetris_ha/main.py:121-122 | one text per pixel |
| Wire.EntriesHexAppend | tetris_ha/main.py:121-122 | one more pixel appends its entry's text |
| Wire.EntriesHexIsToHex | tetris_ha/main.py:121-122 | the entries' text is the text of the entry bytes |
| Wire.PaddingAppend | tetris_ha/main.py:123-124 | one more padding entry appends `ff ff ff ff ff` |
| Wire.PadHexIsToHex | tetris_ha/main.py:123-124 | the padding text is the text of the padding bytes |
| Wire.PadEntryHex | tetris_ha/main.py:124 | `"ffffffffff"` is the text of the padding entry |
| Wire.FramingIsToHex | tetris_ha/main.py:125 | `"7e0764"` and `"ef"` are the text of header and trailer |
| Wire.CommandHexIsToHex | tetris_ha/main.py:120-125 | the text the source builds is the text of the command bytes |
| Wire.CommandHexDecodes | tetris_ha/main.py:125 | `bytearray.fromhex` of that text is the command |
| Wire.BuildGroupCommand | tetris_ha/main.py:119-125 | the entry and padding loops build `Command` of the group |
| Encoder.BuildCommandFromPixels | tetris_ha/main.py:113-128 | the encoder returns `Commands`: none for no pixels, one 54-byte command per group of ten |
| TetrisScript.BuildCommandFromPixels | tetris_ha/tetris.py:32-45 | the loop without an early return gives the same `Commands` |
| TetrisScript.SliceCommand | tetris_ha/tetris.py:51-52 | the slices of one command are its chunks of `max_payload` bytes |
| TetrisScript.SendCommands | tetris_ha/tetris.py:47-52 | the writes are `SendSpec`: the chunks of every command in order, an error for a zero step, nothing for a negative one |
| TetrisScript.FragmentSizes | tetris_ha/tetris.py:49-52 | every write is between 1 and `mtu - 3` bytes |
| TetrisScript.Fragments | tetris_ha/tetris.py:49-52 | the writes for a positive step; `FragmentSizes` and `FragmentsReassemble` bound them and join them back |
| TetrisScript.SendSpec | tetris_ha/tetris.py:47-52 | the writes or the zero-step error of `send_commands`; `SendCommands` is its loop |
| TetrisScript.FragmentsReassemble | tetris_ha/tetris.py:50-52 | the writes, joined in order, are the commands, joined in order |
| TetrisScript.DefaultMtuSplit | tetris_ha/tetris.py:48-52 | with the default MTU of 23 a command goes out as 20, 20 and 14 bytes |

## Left out

- BLE transport and its retry loops are not modelled: `BLEManager`, `send_commands` and `send_control_command` in the service, `connection_monitor`, and the initial mode commands. Neither are HTTP handling, signal handling, the `game_tasks` registry, cancellation or `asyncio.sleep` timing. These are I/O and concurrency around libraries the model cannot see.
- What `send_commands` writes in `tetris.py` is returned as a list of writes. The write itself and the `print` calls are left out.
- The `TetrisGame` stub and `run` in `tetris.py` are left out: the stub's methods are elided in the source.
- The generator is a parameter `oracle: nat -> nat`, the n-th value drawn. Both seeding paths are left out: the time-based seed and the fixed seed.
- Rules.SpawnChoice: the source retries `spawn_new_piece` by recursion with no bound. The model (`Rules.RandomOutcome`, `Game.FirstFitting`) draws at most `SPAWN_ATTEMPTS` times and then ends the game. On boards at least three columns wide and below the help threshold, the first draw always fits (`Rules.LowBoardFirstDraw`), so the bound matters only on narrower boards.
- Scores are exact reals, not IEEE doubles. Ties and rounding that doubles might produce are not modelled.
- Read-only game methods are module-level methods that take the grid and column count as parameters, not methods of `Game.TetrisGame`. In module `Game` these are `can_place` (`CanPlaceAt`), `simulate`, `max_height`'s scan and the searches; `get_rotations` is `Pieces.GetRotations`. They read only `field` and `cols_count`, and the model does not tie them to an object.
- Encoder.BuildCommandFromPixels and TetrisScript.BuildCommandFromPixels require `Wire.AllEncodable`: every row and column in 0 .. 255. The source takes any integer. A negative one puts a `-` into the hex text, so `bytearray.fromhex` raises `ValueError`. One of 256 or more writes three digits and shifts every later byte. Neither case is modelled. The only caller in `main.py` meets the requirement (`Frame.DiffEncodable`).
- Game.TetrisGame: `field` and `color_field` are `seq` fields that the methods reassign, not arrays written in place. `lock_piece` rebuilds them as new lists, and the model does the same. The source stamps a block into both grids in one loop; the model stamps each grid in its own loop.
- The `print` diagnostics and the exception handlers of `single_game_loop` are not modelled.

## Notes on the source

- `get_rotations` compares sorted block lists without translating them to the origin. Every tetromino therefore gets four "rotations", including the O piece (`Pieces.SquareHasFourRotations`). The model follows the code.
- In help mode, when nothing fits, `spawn_new_piece` sets `game_over` and returns. It does not reset the board, and it does not draw a colour. The model follows the code.
- The final `can_place` check at tetris_ha/main.py:328-329 can never fail: both branches choose a piece that fits at row -2 (`Rules.SpawnChoiceFits`).
- A falling piece may show a block in the top border row of the matrix. The diff never reports border cells (`Frame.DiffInteriorOnly`).
