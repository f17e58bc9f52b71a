# Adversarial Tetris core, modelled in Dafny

This project models the game logic of `tet_editable.cpp`, a 10 x 20 Tetris in
which the next piece is not random. After every lock the program tries every
kind, rotation state and column. It hard-drops each candidate onto the
board, locks it into a copy and counts the rows that would be full. The next
piece is the kind of the first candidate with the highest count. In other
words the game hands out the piece that would clear the most lines. It
appears at the spawn position: rotation 0, anchor column 3, anchor row -2.

The model follows the program's structure, one module per concern:

- `Shapes`: the catalog of 7 kinds x 4 rotation states as 16-character
  row-major masks. '.' and ' ' are empty. `Footprint` lists the occupied
  positions of each mask as a separate table, and a proof ties it to the
  masks.
- `Grid`: the board as `ROWS` rows of `COLS` cell tags (0 is empty, k + 1 is
  a locked cell of kind k). It holds the full-row rule, the reference
  result of a clear (blank rows on top of the rows that were not full, in
  their order), the score table, and the scans `checkclearLines` and
  `clearLines` use, written as loops.
- `Pieces`: a piece's cells, `cellsFor` as the mask scan, translation, and
  `rotate`.
- `Placement`: `inBounds` and `canPlace`. There is no lower bound on the
  row, so rows above the top are allowed and never read the board. It also
  holds `tryRotate` with its kicks 0, -1, +1, -2, +2, tried in that order.
- `Games`: the game record, `lockPiece` (it writes every in-board cell even
  when it sets game over, so a partial lock is possible),
  `clearLines` (a reference function plus the bottom-up scan with the
  re-check of the same row), and `moveIf`.
- `Selector`: `worstPiece`. The drop is modelled literally: from row -2, go
  down while the piece fits, then step back one row. So a blocked start is
  looked at one row higher, at row -3. A search method with the three nested
  loops is proved to compute the reference selection.
- `Session`: the transitions of the main loop. Settling a piece means lock,
  clear, take the selector's piece, and end the game if it does not fit.
  The module also has the moves, the hard drop, gravity, and runs of many
  intents, together with the invariant every reachable game keeps.
- `Heuristics`: `evaluateBoard` (stack height x 5 + holes x 10). The program
  never calls it. It is modelled by a reference definition per column, and
  the program's scan is proved equal to it.

These loops of the core have Dafny loop counterparts with invariants:
- the row scan;
- `checkclearLines`;
- the pull-down inside `clearLines`;
- `clearLines` itself;
- the drop loop and the triple loop of `worstPiece`;
- both loops of `evaluateBoard`.

The other loops are recursive functions with contracts: the mask scan of
`cellsFor`, the cell loops of `canPlace` and `lockPiece`, the kick loop of
`tryRotate`, and the hard drop's `moveIf` loop.

Each loop counterpart is proved equal to a reference function. The lemmas state
the properties the program relies on:
- every piece covers four cells inside its 4 x 4 box;
- placement, lock and clear behave as described above;
- the selector keeps the first strict maximum;
- the hard drop ends where the selector's drop ends;
- a game that is over stays as it is.

## Model

| member | source | states |
|---|---|---|
| `Shapes.Mask` | tet_editable.cpp:24-66 | every catalog entry is a 16-character mask |
| `Shapes.CatalogFootprint` | tet_editable.cpp:24-66 | the occupied positions of each of the 28 masks, in row-major order, are exactly the listed footprint |
| `Shapes.Tetromino` | tet_editable.cpp:24-66 | every mask has exactly four occupied positions, the first of them in the three leftmost columns |
| `Shapes.FootprintShape` | tet_editable.cpp:24-66 | each footprint has four strictly increasing positions inside the 4 x 4 grid |
| `Shapes.FilledIndicesSound` | tet_editable.cpp:95-97 | every listed position is occupied by the `cellFilled` rule ('.' and ' ' are empty) |
| `Shapes.FilledIndicesComplete` | tet_editable.cpp:95-97 | every occupied position from the start position on is listed |
| `Shapes.FilledIndicesIncreasing` | tet_editable.cpp:101-111 | the positions come in row-major scan order |
| `Shapes.FilledIndicesUnique` | tet_editable.cpp:101-111 | a sequence that is increasing, sound and complete is the list of occupied positions |
| `Pieces.CellsFromPlace` | tet_editable.cpp:101-111 | the double loop over mask rows and columns yields the cells of the occupied positions, anchor added, in order |
| `Pieces.CellsForScan` | tet_editable.cpp:101-111 | the cells of a piece are what the `cellsFor` loop over its mask yields |
| `Pieces.CellsForShape` | tet_editable.cpp:101-111 | a piece covers exactly four cells, each inside its 4 x 4 box and at its mask offset, in row-major order |
| `Pieces.MoveCells` | tet_editable.cpp:178-183 | translating a piece translates each of its cells by the same amount |
| `Pieces.Rotate` | tet_editable.cpp:160-162 | the rotation state moves one step forward for a positive direction and one back otherwise, modulo 4; nothing else changes |
| `Pieces.RotateInverse` | tet_editable.cpp:160-162 | a clockwise and a counter-clockwise step undo each other |
| `Pieces.RotateFourTimes` | tet_editable.cpp:160-162 | four steps in one direction are the identity |
| `Pieces.RotateDirection` | tet_editable.cpp:160-162 | only the sign matters; 0 acts as counter-clockwise |
| `Placement.Fits` | tet_editable.cpp:117-123 | a list of cells fits if and only if every cell is inside the walls, above the floor, and either above the top or on an empty board cell |
| `Placement.PlaceableAnchor` | tet_editable.cpp:113-123 | a piece that fits has its anchor column in -2 .. 9 and its anchor row above the floor |
| `Placement.AboveTopPlaceable` | tet_editable.cpp:117-123 | cells inside the walls and above the top always fit, whatever the board holds |
| `Placement.PlaceLocal` | tet_editable.cpp:117-123 | only the board cells under the piece affect whether it fits |
| `Placement.FirstKick` | tet_editable.cpp:169-174 | the result is the first kick from the given one on that fits, or 5 when none does |
| `Placement.TryRotate` | tet_editable.cpp:166-176 | success if and only if some kick of the rotated piece fits; on success the result fits and is the first kick that does; on failure the piece is unchanged |
| `Placement.TryRotateMoves` | tet_editable.cpp:166-176 | a successful rotation keeps the kind and the row and moves the column by at most 2 |
| `Placement.WallKickScenario` | tet_editable.cpp:166-176 | a vertical I piece at column -2 turns only with the fifth kick (+2) |
| `Games.Tag` | tet_editable.cpp:127 | locked cells are tagged 1 .. 7 |
| `Games.PlaceableIsLockable` | tet_editable.cpp:125-130 | a piece that fits writes only cells inside the board |
| `Games.LockCells` | tet_editable.cpp:126-129 | the cell loop ends the game if and only if some cell lies outside the board rows; every cell in a board row gets the tag and every other cell keeps its value |
| `Games.LockPiece` | tet_editable.cpp:125-130 | locking changes neither the falling piece nor the score |
| `Games.LockPieceEffect` | tet_editable.cpp:125-130 | after a lock, game over holds if and only if it held before or the piece reached outside the board rows; the piece's in-board cells hold its tag and all others are unchanged |
| `Games.LockAboveTop` | tet_editable.cpp:125-130 | a piece entirely above the top leaves the board unchanged and ends the game |
| `Games.LockInside` | tet_editable.cpp:125-130 | a piece that fits with no cell above the top locks without ending the game |
| `Games.LockKeepsTags` | tet_editable.cpp:125-130 | locking keeps every cell in 0 .. 7 |
| `Grid.RowIsFull` | tet_editable.cpp:135-137 | the row scan reports full if and only if no cell is 0 |
| `Grid.CheckClearLines` | tet_editable.cpp:204-215 | `checkclearLines` returns the number of full rows and leaves the board alone |
| `Grid.PullDown` | tet_editable.cpp:140-141 | row r is dropped, the rows above move down one, and row 0 becomes empty |
| `Grid.ClearStep` | tet_editable.cpp:133-144 | one pass of the bottom-up scan keeps the scan invariant and makes progress; a full row is examined again after the pull-down |
| `Grid.Kept` | tet_editable.cpp:132-144 | the rows kept by a clear number the rows minus the full ones |
| `Grid.KeptRows` | tet_editable.cpp:132-144 | kept rows come from the board and none of them is full |
| `Grid.KeptCount` | tet_editable.cpp:132-144 | the occupied cells of the board are those of the kept rows plus COLS per full row |
| `Grid.ClearedShape` | tet_editable.cpp:132-144 | after a clear no row is full, the top rows are empty, one per cleared row, and below them sit the kept rows in order |
| `Grid.ClearedCount` | tet_editable.cpp:132-144 | a clear removes exactly COLS occupied cells per cleared row |
| `Grid.ClearedIdempotent` | tet_editable.cpp:132-144 | a cleared board has no full row and clearing it again changes nothing |
| `Grid.LineScore` | tet_editable.cpp:145-146 | the score is 0 exactly when no row is cleared, and four or more rows score as four |
| `Grid.LineScoreRewards` | tet_editable.cpp:145 | more rows never score less, and rows cleared together score at least as much as in two goes |
| `Games.ClearLines` | tet_editable.cpp:132-148 | the result is the number of full rows; the score grows by its table entry; afterwards no row is full and COLS cells per line are gone; piece and game-over flag are unchanged |
| `Games.ClearLinesScan` | tet_editable.cpp:132-148 | the bottom-up scan with pull-down and re-check of the same row computes the reference clear and score |
| `Games.ClearLinesTwice` | tet_editable.cpp:132-148 | a second clear right after the first returns 0 and changes nothing |
| `Games.ClearKeepsTags` | tet_editable.cpp:132-148 | clearing keeps every cell in 0 .. 7 |
| `Games.MoveIf` | tet_editable.cpp:178-183 | the move happens if and only if the moved piece fits; the board, score and game-over flag never change, and a piece that fits before the call still fits after it, moved or not |
| `Games.MoveIfInverse` | tet_editable.cpp:178-183 | a successful move from a position that fits is undone by the opposite move |
| `Selector.Spawn` | tet_editable.cpp:150-158 | a new piece has rotation 0, anchor column COLS / 2 - 2 and anchor row -2, so its cells lie in columns 3 .. 6 and rows -2 .. 1 |
| `Selector.Candidate` | tet_editable.cpp:244-252 | candidate i is kind i / 48, rotation (i mod 48) / 12 and column i mod 12 - 2, starting at row -2, in the loops' order |
| `Selector.CandidateIndex` | tet_editable.cpp:244-252 | kind t, rotation rot, column x is candidate 48 t + 12 rot + x + 2 |
| `Selector.Fall` | tet_editable.cpp:255 | the drop loop stops at the first row, from the start down, where the piece does not fit; every row before it fits |
| `Selector.Drop` | tet_editable.cpp:255-256 | the dropped piece keeps kind, rotation and column, and one row below it the piece does not fit |
| `Selector.DropRests` | tet_editable.cpp:255-258 | a candidate whose start fits comes to rest where it fits and cannot go one row lower |
| `Selector.DropBlocked` | tet_editable.cpp:255-256 | a candidate blocked at its start is taken one row higher |
| `Selector.DropAboveStart` | tet_editable.cpp:255-258 | a vertical I piece blocked at row -2 by a block in row 1 is scored at row -3, where it fits |
| `Selector.Value` | tet_editable.cpp:218-235 | the score of a placement is the number of full rows of a locked copy, at most ROWS |
| `Selector.Outcome` | tet_editable.cpp:258-270 | a candidate reports -1 exactly when it is skipped because its drop does not fit |
| `Selector.RunningSpec` | tet_editable.cpp:272-275 | keeping the first strictly greater score gives the default while nothing is reported, and otherwise a reported candidate scoring at least every candidate so far and strictly more than every earlier one |
| `Selector.OutcomesBounded` | tet_editable.cpp:258-270 | every report is -1 or a row count |
| `Selector.WorstPiece` | tet_editable.cpp:237-284 | the piece handed out is at the spawn position |
| `Selector.WorstPieceNoneFits` | tet_editable.cpp:238-284 | when no candidate fits, the piece handed out is kind 0 |
| `Selector.WorstPieceArgmax` | tet_editable.cpp:237-284 | otherwise its kind is that of a candidate that fits, scores at least as much as every candidate and strictly more than every earlier one |
| `Selector.ReportsOrder` | tet_editable.cpp:258-275 | the order of the search's reports is the order of the candidates' scores |
| `Selector.DropAndScore` | tet_editable.cpp:250-270 | the innermost loop body computes the candidate's resting position and its report |
| `Selector.Report` | tet_editable.cpp:250-270 | the same body, read against the list of all reports |
| `Selector.Consider` | tet_editable.cpp:250-276 | one pass of the innermost loop advances the running choice by one candidate |
| `Selector.Search` | tet_editable.cpp:244-278 | the three nested loops end with the running choice after all 336 candidates |
| `Selector.WorstPieceSearch` | tet_editable.cpp:237-284 | the search as the program runs it returns the reference selection |
| `Session.SpawnFits` | tet_editable.cpp:150-158 | every kind fits at the spawn position of an empty board |
| `Session.NewGameLive` | tet_editable.cpp:298-299 | a new game satisfies the game invariant |
| `Session.SlideDown` | tet_editable.cpp:339 | the hard drop loop moves only the piece, only downwards, and stops where one row lower does not fit |
| `Session.SlideDownIsDrop` | tet_editable.cpp:339 | from a position that fits, the hard drop ends where the selector's drop ends |
| `Session.SettleEffect` | tet_editable.cpp:338-344 | settling leaves the locked board with its full rows cleared and adds the table entry for them; the next piece is the selector's, at the spawn position; the game is over exactly when it was, or the lock reached outside the board rows, or the next piece does not fit |
| `Session.SettleTags` | tet_editable.cpp:338-344 | settling keeps every cell in 0 .. 7 |
| `Session.SettleLive` | tet_editable.cpp:370-375 | settling keeps the game invariant |
| `Session.StepLive` | tet_editable.cpp:328-376 | every intent keeps the game invariant: while the game runs the piece fits, cells are tags, no row is full, and the score is not negative |
| `Session.MovesKeepBoard` | tet_editable.cpp:335-358 | rotation and the moves change only the falling piece, and only to a position where it fits |
| `Session.StepScore` | tet_editable.cpp:328-376 | no intent lowers the score |
| `Session.GameOverFinal` | tet_editable.cpp:331 | a game that is over ignores every intent |
| `Session.GameOverCause` | tet_editable.cpp:336-375 | a running game ends only by a hard drop or gravity whose lock reached outside the board rows or whose next piece does not fit |
| `Session.RunLive` | tet_editable.cpp:320-376 | a run of intents keeps the invariant, never lowers the score, and leaves a game that is over unchanged |
| `Session.SessionLive` | tet_editable.cpp:298-376 | every session from a new game keeps the invariant |
| `Heuristics.TopRow` | tet_editable.cpp:190-195 | the topmost block of a column from a given row down: every cell above it is empty, and it holds a block unless it is ROWS |
| `Heuristics.ColumnHolesBound` | tet_editable.cpp:186-202 | a column has fewer holes than its height, and an empty column has none |
| `Heuristics.HeightBounds` | tet_editable.cpp:186-202 | the height is at most ROWS and at least every column height |
| `Heuristics.HeightAttained` | tet_editable.cpp:186-202 | the height is the height of some column |
| `Heuristics.EmptyBoardEvaluation` | tet_editable.cpp:186-202 | the empty board has height 0 and no holes |
| `Heuristics.ScanColumn` | tet_editable.cpp:189-198 | the inner loop adds the column's holes and raises the height to the column's height |
| `Heuristics.EvaluateBoard` | tet_editable.cpp:186-202 | the scan returns 5 x height + 10 x holes of the reference definition |

## Left out

- Rendering, the window, fonts, colours and the pixel constants are not modelled. Nothing in them affects the game state.
- Frame timing is not modelled: the frame clock, the drop, soft-drop and gravity timers, and the speed-up of the gravity interval. All of them are floating point and driven by frames. Each change within a pass of the main loop is one `Session.Intent` instead. One pass handles every pending key press, then the soft drop, then gravity, so a pass is a short run of intents (`Session.Run`).
- The random generator is a parameter. `randomPiece` becomes `Selector.Spawn` applied to a kind the caller supplies. The program draws only the first piece at random.
- The Escape key and window closing are not modelled. They end the program, not the game.
- The counter-clockwise key is not modelled. The main loop binds only the clockwise rotation. `Pieces.Rotate` and `Placement.TryRotate` still take either direction.
- The diagnostic output of `worstPiece` is not modelled, and neither is its unused `bestScore` variable.
- tet2.cpp is not part of this model.
- `Games.LockPiece` requires that every cell of the piece in a board row also lies in a board column. Without that the program writes outside the board array, which is undefined behaviour. Every piece that fits meets it (`Games.PlaceableIsLockable`). In the main loop only pieces that fit are locked.
- `Session.Step` requires the game invariant `Session.Live`. That is what makes its locks safe. It holds from `Session.NewGame` on (`Session.SessionLive`).
- `Session.Live` does not include that the score stays a multiple of 100. The score model is the unbounded sum of table entries. The program's `int` score could overflow only after more than 2^31 / 800 settled pieces, and that overflow is not modelled.
- `Selector.Outcome`: a candidate whose drop does not fit is reported as -1 rather than skipped with `continue`. The running choice starts at -1 and only replaces on a strictly greater score, so the two are the same.
