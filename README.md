# Xiangqi game core: a Dafny model

This project models the game logic of SUSTech-XiangQi, a Chinese chess
(Xiangqi) application. The board is a 9 x 10 grid. The pieces live in a flat
array and carry their type as a Chinese character. Chariots (车), horses
(马) and cannons (炮) have one glyph for both sides; the general (帅/将), the
advisor (仕/士), the elephant (相/象) and the soldier (兵/卒) have a red and a
black glyph. Every lookup takes the first piece on a cell.

The model covers four parts:

- **`MoveRuleValidator`** (`validator.dfy`) is the basic movement rule of
  each piece type. Each rule has as its contract a direct geometric
  description of the cells it accepts. The dispatcher has no entry for the
  red advisor glyph "仕", so that piece never moves. The "facing generals"
  block of the general's rule has no effect.
- **`AILogic`** and **`AISearch`** (`ai.dfy`, `search.dfy`) are the computer
  player:
  - the value table and the static evaluation with its protection and attack
    terms;
  - the simulated move, the game-over test and the legal-move generator;
  - capture-first move ordering, proved a stable permutation;
  - minimax with alpha-beta pruning, proved fail-soft against the unpruned
    minimax value `Value`;
  - the root loop, which picks the first general capture if there is one and
    otherwise a move whose (clamped) true value is greatest.

  The two random draws become oracles indexed by the search-tree node:
  - the jitter of +-1 in the evaluation;
  - the 20% allowance for a quiet general move.

  As written, a simulated capture removes every piece on the captured cell.
  The mover has just arrived there, so it is removed too.
- **`MainGameController`** (`game.dfy`) is the two-player screen as a class:
  - the piece array, the selection, the side to move and the game-over flag;
  - the grid of highlighted targets, as a `array2<bool>`;
  - the move history.

  It covers clicks (select, reselect, deselect, attempt a move), the move with
  its capture and its win by taking a general, the checkmate and stalemate
  tests after a move, undo, and loading a saved game. Undo inverts a move on
  a board without stacked pieces. After a capture, undo appends the captured
  piece at the end of the array, so the pieces are restored but not their
  order.
- **`ReplayGameController`** (`replay.dfy`) is the replay screen as a class.
  Its invariant is that the shown position is the replay of the first
  `currentMoveIndex` moves. Replaying the record of a live move reproduces
  the live board.

`Pieces` (`pieces.dfy`) holds the shared data model and lookups. Pieces are
values: `ChessPiece(kind, color, x, y)`. Where the source holds a reference
to a piece object, the model holds an index into the array. The selection
loaded games leave behind, which points to an object no longer on the board,
is `Detached`.

The main screen rebuilds its rule checker over its piece array after every
change. So the full move check `checkMove` and the check test `isKingInCheck`
are functions of the board, passed in as parameters. The computer player's
check is built over the root board of the search, and it is a parameter of
the search (`Search.check`).

## Model

| member | source | states |
|---|---|---|
| Pieces.FirstAt | src/UI/MainGameUI/MoveRuleValidator.java:56-60 | The index found holds a piece on the cell and no earlier piece is there; no index exactly when the cell is empty |
| Pieces.PieceAt | src/UI/MainGameUI/MainGameController.java:482-487 | The piece found is one of the board's and stands on the cell; none exactly when no piece stands there |
| Pieces.OccupiedIff | src/UI/MainGameUI/MoveRuleValidator.java:70 | A cell is occupied for the lookup exactly when some piece stands on it |
| Pieces.FirstMatch | src/UI/MainGameUI/MainGameController.java:865-874 | The index found holds a piece on the cell with the given type and colour, and no earlier piece matches; none exactly when no piece matches |
| Pieces.RemoveAt | src/UI/MainGameUI/MainGameController.java:371-373 | Removing one object keeps every other piece in order, and the multiset loses exactly that piece |
| Pieces.DropSquare | src/UI/AI/AILogic.java:358-367 | The filtered board is no longer than the original and has no piece left on the cell |
| Pieces.DropSquareFrom | src/UI/AI/AILogic.java:358-367 | Every piece the filter keeps was on the original board |
| Pieces.DropSquareKeeps | src/UI/AI/AILogic.java:358-367 | Every piece off the cell is kept by the filter |
| Pieces.DropSquareAppend | src/UI/AI/AILogic.java:358-367 | The filter works piece by piece in order: it distributes over concatenation |
| Pieces.DropSquareSingle | src/UI/MainGameUI/ReplayGameController.java:145-147 | When exactly one piece stands on the cell, the filter removes just that piece, which is removing its index |
| Pieces.DropSquareSplit | src/UI/MainGameUI/ReplayGameController.java:145-147 | With only the middle piece on the cell, the filter leaves the pieces before and after it in order |
| Pieces.NoneDropped | src/UI/AI/AILogic.java:358-367 | A board with nothing on the cell is left unchanged by the filter |
| Pieces.AloneOnSquare | src/UI/MainGameUI/MainGameController.java:482-487 | On a board without stacked pieces, each piece is the only one on its cell |
| MoveRuleValidator.ColumnCountZero | src/UI/MainGameUI/MoveRuleValidator.java:66-73 | The column scan counts zero exactly when every scanned cell is empty |
| MoveRuleValidator.RowCountZero | src/UI/MainGameUI/MoveRuleValidator.java:74-82 | The row scan counts zero exactly when every scanned cell is empty |
| MoveRuleValidator.ClearPathIff | src/UI/MainGameUI/MoveRuleValidator.java:63-84 | Zero pieces between two cells exactly when every cell strictly between them on the shared line is empty |
| MoveRuleValidator.PiecesBetweenSymmetric | src/UI/MainGameUI/MoveRuleValidator.java:63-84 | The count does not depend on which endpoint comes first, and is zero when the cells share no row or column |
| MoveRuleValidator.ColumnCountBound | src/UI/MainGameUI/MoveRuleValidator.java:66-73 | The count is at most the number of cells scanned |
| MoveRuleValidator.RowCountBound | src/UI/MainGameUI/MoveRuleValidator.java:74-82 | The count is at most the number of cells scanned |
| MoveRuleValidator.JavaDiv | src/UI/MainGameUI/MoveRuleValidator.java:169-170 | Integer division truncates toward zero: the remainder has the sign of the dividend and is smaller than the divisor |
| MoveRuleValidator.CountPiecesBetween | src/UI/MainGameUI/MoveRuleValidator.java:63-84 | The scanning loop returns the number of occupied cells strictly between, and zero exactly when the path is clear |
| MoveRuleValidator.IsValidGeneralMove | src/UI/MainGameUI/MoveRuleValidator.java:88-129 | Accepts exactly the four orthogonal neighbours that lie in the mover's palace; the facing-generals block changes nothing |
| MoveRuleValidator.IsValidAdvisorMove | src/UI/MainGameUI/MoveRuleValidator.java:131-150 | Accepts exactly the four diagonal neighbours that lie in the mover's palace |
| MoveRuleValidator.IsValidElephantMove | src/UI/MainGameUI/MoveRuleValidator.java:152-176 | Accepts exactly the two-cell diagonal jumps that stay on the mover's half and whose midpoint (the eye) is empty |
| MoveRuleValidator.IsValidChariotMove | src/UI/MainGameUI/MoveRuleValidator.java:178-189 | Accepts exactly the cells on the mover's row or column with no piece in between |
| MoveRuleValidator.IsValidHorseMove | src/UI/MainGameUI/MoveRuleValidator.java:191-215 | Accepts exactly the L-shaped jumps whose leg, the cell beside the mover on the long side, is empty |
| MoveRuleValidator.IsValidCannonMove | src/UI/MainGameUI/MoveRuleValidator.java:217-233 | On a shared line: onto an empty cell only along a clear path, onto an occupied cell only over exactly one piece |
| MoveRuleValidator.IsValidPawnMove | src/UI/MainGameUI/MoveRuleValidator.java:235-266 | Accepts one step forward for its colour, or one step sideways once the soldier's cell is across the river |
| MoveRuleValidator.Dispatch | src/UI/MainGameUI/MoveRuleValidator.java:43-52 | Only the thirteen type strings with a rule can be accepted |
| MoveRuleValidator.IsValidMove | src/UI/MainGameUI/MoveRuleValidator.java:24-53 | An accepted move starts on an occupied cell and ends on a different board cell not held by its own colour, and its type's rule accepts it |
| MoveRuleValidator.IsValidMoveByRule | src/UI/MainGameUI/MoveRuleValidator.java:24-53 | Conversely, for an occupied start and an on-board target that is empty or the opponent's, the type's rule alone decides |
| MoveRuleValidator.NoRuleNoMove | src/UI/MainGameUI/MoveRuleValidator.java:43-52 | A piece whose type string has no rule can never move |
| MoveRuleValidator.RedAdvisorNeverMoves | src/UI/MainGameUI/MoveRuleValidator.java:45 | The red advisor "仕", which the starting layout uses, can never move |
| MoveRuleValidator.HorseLegExample | src/UI/MainGameUI/MoveRuleValidator.java:191-215 | A piece on the leg blocks the horse's jump; with the leg free the jump is accepted |
| MoveRuleValidator.CannonScreenExample | src/UI/MainGameUI/MoveRuleValidator.java:217-233 | A cannon takes a piece over exactly one screen |
| MoveRuleValidator.CannonNeedsTargetExample | src/UI/MainGameUI/MoveRuleValidator.java:217-233 | A cannon cannot move past a screen onto an empty cell |
| MoveRuleValidator.PawnSidewaysExample | src/UI/MainGameUI/MoveRuleValidator.java:235-266 | A red soldier steps sideways only after crossing the river and never backwards |
| AILogic.GetBaseValue | src/UI/AI/AILogic.java:224-248 | The value is the table entry of the type (0 outside the table), lies between 0 and the general's value, and equals that value exactly for generals |
| AILogic.TraditionalGlyphsHaveNoValue | src/UI/AI/AILogic.java:224-248 | The glyphs 車, 馬 and 砲, which the rule checker accepts, are worth 0 |
| AILogic.ProtectionCountAppend | src/UI/AI/AILogic.java:187-200 | The protection count is additive over a split of the board, so each protector counts once |
| AILogic.ProtectionCountBounds | src/UI/AI/AILogic.java:187-200 | At most every piece protects; the count is zero exactly when no piece protects |
| AILogic.CountProtection | src/UI/AI/AILogic.java:187-200 | The loop counts the pieces of the colour, other than the one on the cell, in its row or column at most two cells away |
| AILogic.IsUnderAttack | src/UI/AI/AILogic.java:205-216 | True exactly when some piece of the other colour is at most two cells away on each axis |
| AILogic.EvaluateBoard | src/UI/AI/AILogic.java:145-182 | The score is the signed sum of the piece values plus the drawn jitter, within one of the jitter-free evaluation |
| AILogic.MaterialZeroSum | src/UI/AI/AILogic.java:145-182 | On a board of red and black pieces, red's material is the negation of black's |
| AILogic.EvaluateZeroSum | src/UI/AI/AILogic.java:145-182 | The two sides' evaluations of one board sum to the two jitters |
| AILogic.GetPieceAt | src/UI/AI/AILogic.java:400-407 | The scan returns the first piece on the cell, which is one of the board's and stands there |
| AILogic.IsGameOver | src/UI/AI/AILogic.java:378-390 | True exactly when no "帅" or no "将" is left, whatever their colours |
| AILogic.Simulate | src/UI/AI/AILogic.java:339-370 | A simulated move never adds a piece, keeps them all without a capture, and leaves the captured cell empty |
| AILogic.SimulateQuiet | src/UI/AI/AILogic.java:339-370 | A move without a capture only relocates the first piece on the source, keeping its type and colour; every other piece is unchanged |
| AILogic.SimulateCaptureClearsSquare | src/UI/AI/AILogic.java:358-367 | After a capture no piece is left on the captured cell, the mover included when it landed there |
| AILogic.SimulateCaptureExample | src/UI/AI/AILogic.java:339-370 | A chariot taking the only other piece, a general, leaves an empty board |
| AILogic.MakeMove | src/UI/AI/AILogic.java:339-370 | The copy, relocate and filter steps produce the simulated board |
| AILogic.CopyPieces | src/UI/AI/AILogic.java:340-343 | A fresh array holding the pieces in order |
| AILogic.FindOnArray | src/UI/AI/AILogic.java:345-351 | The scan stops at the first piece on the source cell |
| AILogic.DropOnArray | src/UI/AI/AILogic.java:358-367 | The list keeps, in order, exactly the pieces off the captured cell |
| AILogic.IsKingInCheck | src/UI/AI/AILogic.java:313-330 | True exactly when some piece of the other colour has a VALID full check onto the general's cell |
| AILogic.IsNecessaryKingMove | src/UI/AI/AILogic.java:293-308 | A general's move is kept exactly when it captures, the general is attacked, or the random draw allows it |
| AILogic.GenerateLegalMoves | src/UI/AI/AILogic.java:258-288 | The nested loops produce the reference list of generated moves |
| AILogic.PieceScan | src/UI/AI/AILogic.java:263-284 | The column loop produces one piece's generated moves |
| AILogic.ColumnScan | src/UI/AI/AILogic.java:265-283 | The row loop applies the full check, the general's filter and the record for one column |
| AILogic.ColumnMovesMembership | src/UI/AI/AILogic.java:265-283 | A move is in a column's list exactly when it is the record of an admitted row of that column |
| AILogic.PieceMovesSound | src/UI/AI/AILogic.java:263-284 | Every move in a piece's list is the record of an admitted board cell |
| AILogic.PieceMovesComplete | src/UI/AI/AILogic.java:263-284 | Every admitted board cell contributes its record to the piece's list |
| AILogic.PiecesMovesSound | src/UI/AI/AILogic.java:258-288 | Every generated move comes from a piece of the side to move and an admitted cell |
| AILogic.LastPieceSound | src/UI/AI/AILogic.java:258-288 | The moves of the last piece scanned come from that piece of the side to move |
| AILogic.OwnMoves | src/UI/AI/AILogic.java:260-261 | A move added by the last piece scanned means that piece is of the side to move |
| AILogic.PiecesMovesComplete | src/UI/AI/AILogic.java:258-288 | Every admitted move of a piece of the side to move is generated |
| AILogic.LegalMovesMembership | src/UI/AI/AILogic.java:258-288 | A move is generated exactly when it records a move of the side's piece onto a cell with a VALID check that, for a general, captures, escapes an attack or wins the draw |
| AILogic.LegalMoveFacts | src/UI/AI/AILogic.java:258-288 | Each generated move is the side's own, lands on the board, passed the full check, starts on a piece and records the piece it takes |
| AILogic.Captures | src/UI/AI/AILogic.java:99-105 | Only captures are selected |
| AILogic.Quiets | src/UI/AI/AILogic.java:99-105 | Only non-captures are selected |
| AILogic.FilterAppend | src/UI/AI/AILogic.java:99-105 | Both selections distribute over concatenation |
| AILogic.FilterSplit | src/UI/AI/AILogic.java:99-105 | Captures and non-captures together make up the list |
| AILogic.AllCaptures | src/UI/AI/AILogic.java:99-105 | A list of captures is its own capture part, with no non-captures |
| AILogic.AllQuiets | src/UI/AI/AILogic.java:99-105 | A list of non-captures is its own non-capture part, with no captures |
| AILogic.FilterLength | src/UI/AI/AILogic.java:41-47 | Every move is a capture or not, so the two parts together are as long as the list |
| AILogic.OrderMoves | src/UI/AI/AILogic.java:41-47 | Ordering keeps the number of moves |
| AILogic.OrderMovesPermutation | src/UI/AI/AILogic.java:41-47 | The ordered list is a permutation of the generated moves |
| AILogic.OrderMovesCapturesFirst | src/UI/AI/AILogic.java:99-105 | Every capture comes before every non-capture |
| AILogic.OrderMovesStable | src/UI/AI/AILogic.java:99-105 | The sort is stable: captures, and non-captures, keep their generated order |
| AISearch.FoldMonotone | src/UI/AI/AILogic.java:112-134 | Examining more children never makes the node's result worse for the side to move |
| AISearch.FoldStep | src/UI/AI/AILogic.java:118 | One more child moves the running best only in the side's favour |
| AISearch.MaxStep | src/UI/AI/AILogic.java:115-121 | One pass of the max loop keeps the loop's bounds against the unpruned fold, or closes the window with a lower bound |
| AISearch.MinStep | src/UI/AI/AILogic.java:126-132 | The same for the min loop, with an upper bound |
| AISearch.Minimax | src/UI/AI/AILogic.java:89-135 | For alpha < beta the pruned score is fail-soft against the unpruned value: exact inside the window, a bound on the correct side outside it |
| AISearch.MaximizeChildren | src/UI/AI/AILogic.java:112-122 | The max loop with its cut-off is fail-soft against the fold of all children |
| AISearch.MaxLoopDone | src/UI/AI/AILogic.java:115-122 | A max loop that ran to the end is fail-soft against the full fold |
| AISearch.MaximizeChild | src/UI/AI/AILogic.java:116-120 | Searching one child keeps the max loop's facts, or after a cut-off is already fail-soft |
| AISearch.MinimizeChildren | src/UI/AI/AILogic.java:123-134 | The min loop with its cut-off is fail-soft against the fold of all children |
| AISearch.MinLoopDone | src/UI/AI/AILogic.java:126-134 | A min loop that ran to the end is fail-soft against the full fold |
| AISearch.MinimizeChild | src/UI/AI/AILogic.java:127-131 | Searching one child keeps the min loop's facts, or after a cut-off is already fail-soft |
| AISearch.FullWindowExact | src/UI/AI/AILogic.java:50-51 | With the full window the pruned score and the true value agree once clamped to the sentinels |
| AISearch.GetBestMoveUsingMinimax | src/UI/AI/AILogic.java:36-75 | No move exactly when none is generated; the first general capture when there is one; otherwise a move of greatest clamped true value, the earliest such when that value is strictly between the sentinels |
| AISearch.SearchRoot | src/UI/AI/AILogic.java:49-74 | The root loop over the ordered moves meets the same three cases |
| AISearch.RootLoopCapture | src/UI/AI/AILogic.java:58-62 | Leaving the loop at a general capture returns the first such move |
| AISearch.RootLoopDone | src/UI/AI/AILogic.java:54-72 | At the end of the loop, the chosen move's clamped value is greatest and, strictly between the sentinels, earliest |
| AISearch.VisitRootMove | src/UI/AI/AILogic.java:56-65 | One root move reports a general capture or keeps the root loop's facts for the updated choice |
| AISearch.RootStep | src/UI/AI/AILogic.java:67-71 | The update rule keeps the chosen move best so far among the values seen |
| AISearch.RootUpdate | src/UI/AI/AILogic.java:67-71 | A score above alpha, or the first score, is exact in clamped terms; a score not above alpha bounds the true value by alpha |
| MainGameController.InitialLayout | src/UI/MainGameUI/MainGameController.java:196-233 | The starting position has thirty-two pieces |
| MainGameController.InitialLayoutShape | src/UI/MainGameUI/MainGameController.java:196-233 | Thirty-two pieces on the board, no two on one cell: sixteen red, then sixteen black |
| MainGameController.InitialLayoutDistinct | src/UI/MainGameUI/MainGameController.java:196-233 | No two pieces of the starting position share a cell |
| MainGameController.RedRowsDistinct | src/UI/MainGameUI/MainGameController.java:197-213 | Within each red row the pieces stand on different columns |
| MainGameController.BlackRowsDistinct | src/UI/MainGameUI/MainGameController.java:215-231 | Within each black row the pieces stand on different columns |
| MainGameController.InitialGenerals | src/UI/MainGameUI/MainGameController.java:196-233 | Exactly one general per side, at the centre of its back rank |
| MainGameController.InitialRedAdvisorsHaveNoRule | src/UI/MainGameUI/MainGameController.java:200-201 | The red advisors are "仕", which has no movement rule |
| MainGameController.AfterMove | src/UI/MainGameUI/MainGameController.java:366-383 | The array shrinks by one exactly when the target was occupied; without a capture the selected piece stands on the target |
| MainGameController.MoveRecord | src/UI/MainGameUI/MainGameController.java:366-383 | The record names no captured piece exactly when the target was empty, and otherwise a piece of the board on the target |
| MainGameController.UndoBoard | src/UI/MainGameUI/MainGameController.java:849-887 | Undo adds one piece exactly when the move captured, and that piece is the captured one, appended last |
| MainGameController.ReindexedInRange | src/UI/MainGameUI/MainGameController.java:366-383 | After a move the selection still names a piece of the new array |
| MainGameController.AfterMoveLands | src/UI/MainGameUI/MainGameController.java:366-382 | On a board without stacked pieces the mover ends on the target as the first piece there; the selection follows it; the array shrinks by one exactly on a capture |
| MainGameController.CaptureLands | src/UI/MainGameUI/MainGameController.java:369-382 | The capturing case: the mover sits at its new index and is first on the target |
| MainGameController.UndoRestoresBoard | src/UI/MainGameUI/MainGameController.java:849-887 | Undo after a quiet move restores the board exactly; after a capture it restores the same pieces, the captured one last |
| MainGameController.UndoFindsMover | src/UI/MainGameUI/MainGameController.java:865-879 | Undo puts the mover back when it is the first piece on the target |
| MainGameController.UndoCaptureBack | src/UI/MainGameUI/MainGameController.java:876-887 | Putting the mover back after a capture gives the old board without the captured piece |
| MainGameController.AfterMoveKeepsDistinct | src/UI/MainGameUI/MainGameController.java:366-382 | A move keeps every cell holding at most one piece |
| MainGameController.KingOf | src/UI/MainGameUI/MainGameController.java:489-495 | The general found has the side's general type and colour and no earlier piece does; none exactly when no such piece exists |
| MainGameController.KingIndex | src/UI/MainGameUI/MainGameController.java:489-495 | The index of the first piece with the side's general type and colour, none exactly when there is no such piece |
| MainGameController.GameController.constructor | src/UI/MainGameUI/MainGameController.java:172-191 | The screen opens on the starting layout, red to move, nothing selected, highlighted or recorded |
| MainGameController.GameController.InitializePieces | src/UI/MainGameUI/MainGameController.java:196-236 | Sets the starting layout and keeps an equal copy as the replay start |
| MainGameController.GameController.SwitchTurn | src/UI/MainGameUI/MainGameController.java:253-256 | The side to move becomes the opponent; nothing else changes |
| MainGameController.GameController.ClearValidMoves | src/UI/MainGameUI/MainGameController.java:357-363 | No cell is highlighted afterwards |
| MainGameController.GameController.CalculateValidMoves | src/UI/MainGameUI/MainGameController.java:336-354 | Exactly the cells the movement rule lets the selected piece reach are highlighted; none without a selection |
| MainGameController.GameController.MarkColumn | src/UI/MainGameUI/MainGameController.java:347-352 | A column's cells gain a mark exactly where the rule allows; other columns are untouched |
| MainGameController.GameController.MakeMove | src/UI/MainGameUI/MainGameController.java:366-401 | The target's first piece is removed and the mover takes the cell; the record is appended and becomes the last move; the game ends, won by the taker, exactly when a general is taken |
| MainGameController.GameController.HandleCanvasClick | src/UI/MainGameUI/MainGameController.java:258-333 | Each click case changes exactly what the source changes: ignored, select, deselect, reselect, rejected attempt, or accepted move with its ending and turn change |
| MainGameController.GameController.AttemptMove | src/UI/MainGameUI/MainGameController.java:292-314 | A rejected move changes nothing; an accepted one is made, and the opponent left without a move loses in check, draws otherwise, or else the turn passes |
| MainGameController.GameController.HandleUndoMove | src/UI/MainGameUI/MainGameController.java:849-901 | Refused once over or with no history; otherwise the last record is dropped, its board undone, the last move updated and the turn passed back |
| MainGameController.GameController.FindMovedPiece | src/UI/MainGameUI/MainGameController.java:865-874 | The scan finds the first piece on the target with the record's type and colour |
| MainGameController.GameController.LoadGameData | src/UI/MainGameUI/MainGameController.java:1053-1064 | Takes over the saved pieces, history (empty if absent), last move and side (red if absent); the selection becomes detached; the game-over flag stays |
| MainGameController.GameController.GetPieceAt | src/UI/MainGameUI/MainGameController.java:482-487 | The piece found is on the board and on the cell; none exactly when the cell is empty |
| MainGameController.GameController.GetKing | src/UI/MainGameUI/MainGameController.java:489-495 | The piece found is a general of that colour on the board; none exactly when there is none |
| MainGameController.GameController.IsStalemate | src/UI/MainGameUI/MainGameController.java:1187-1203 | True exactly when no piece of the side has a VALID full check to any cell |
| MainGameController.GameController.PieceHasMove | src/UI/MainGameUI/MainGameController.java:1192-1199 | True exactly when the piece has a VALID full check to some cell |
| ReplayGameController.ReplayStepLength | src/UI/MainGameUI/ReplayGameController.java:132-153 | Replaying a move never adds a piece, and one without a capture keeps them all |
| ReplayGameController.Replayed | src/UI/MainGameUI/ReplayGameController.java:107-120 | Replaying any number of moves never adds a piece to the starting position |
| ReplayGameController.SideAfter | src/UI/MainGameUI/ReplayGameController.java:121-124 | The side to move is red or black: red at the start, and never the side that just moved |
| ReplayGameController.SideAfterAlternating | src/UI/MainGameUI/ReplayGameController.java:107-124 | In a game alternating from red, red is to move after an even number of moves |
| ReplayGameController.ReplayedPrefix | src/UI/MainGameUI/ReplayGameController.java:183 | Replaying n moves depends only on the first n, so a prefix of the record replays the same |
| ReplayGameController.ReplayedAppend | src/UI/MainGameUI/ReplayGameController.java:113-120 | Replaying one more move applies it to the previous replay |
| ReplayGameController.ReplayAgreesWithLiveMove | src/UI/MainGameUI/ReplayGameController.java:132-153 | On a board without stacked pieces, replaying a live move's record gives the live screen's board |
| ReplayGameController.CaptureSplit | src/UI/MainGameUI/ReplayGameController.java:144-151 | Filtering the one captured piece around the mover is removing its index |
| ReplayGameController.CaptureBefore | src/UI/MainGameUI/ReplayGameController.java:144-151 | The same when the captured piece lies before the mover |
| ReplayGameController.CaptureAfter | src/UI/MainGameUI/ReplayGameController.java:144-151 | The same when the captured piece lies after the mover |
| ReplayGameController.ReplayController.constructor | src/UI/MainGameUI/ReplayGameController.java:45-50 | An empty replay at move zero, consistent with its invariant |
| ReplayGameController.ReplayController.InitializeData | src/UI/MainGameUI/ReplayGameController.java:75-85 | Shows the start, at move zero, red to move |
| ReplayGameController.ReplayController.HandlePrevMove | src/UI/MainGameUI/ReplayGameController.java:88-95 | One move back unless at the start, keeping the shown position the replay of the index |
| ReplayGameController.ReplayController.HandleNextMove | src/UI/MainGameUI/ReplayGameController.java:98-105 | One move forward unless at the end, keeping the shown position the replay of the index |
| ReplayGameController.ReplayController.ReplayToMove | src/UI/MainGameUI/ReplayGameController.java:107-130 | The position is the replay of the first moves from the start, and the side is the opponent of the last mover (red at the start) |
| ReplayGameController.ReplayController.ApplyMove | src/UI/MainGameUI/ReplayGameController.java:132-153 | The shown position advances by exactly one replay step; nothing else changes |
| ReplayGameController.ReplayController.StartFromHere | src/UI/MainGameUI/ReplayGameController.java:177-198 | Hands over the shown position, the moves so far and the side, and the position is the replay of exactly those moves |
| ReplayGameController.ReplayMove | src/UI/MainGameUI/ReplayGameController.java:132-153 | The list surgery finds the mover, relocates it, and on a capture first removes everything on the target |
| ReplayGameController.FindPiece | src/UI/MainGameUI/ReplayGameController.java:134-140 | The scan finds the first piece on the move's origin |
| ReplayGameController.DropTarget | src/UI/MainGameUI/ReplayGameController.java:144-148 | The filter keeps exactly the pieces off the target in order and reports the mover's new index unless it was removed |

## Left out

- I/O and UI: drawing, alerts, sounds, fonts, windows, the check and capture effects, the turn display, the victory overlay and its messages. An ending keeps only the winner's colour.
- Autosave, saving and loading files, password and login screens: outside the game logic.
- `checkMove` and `isKingInCheck(String, ChessPiece[])`, called on the rule checker, do not appear in src/UI/MainGameUI/MoveRuleValidator.java. They are parameters: a function of the board for the main screen, and a function over the root board for the search.
- Randomness: `new Random().nextInt(3) - 1` and `Math.random() < 0.2` are oracles indexed by the search-tree node. They are not probability distributions.
- Click coordinates: the rounding of floating-point mouse positions to cells is not modelled. `HandleCanvasClick` receives the cell.
- `System.currentTimeMillis()` is the parameter `now`.
- 32-bit `int` wrap-around is not modelled. Scores and coordinates are unbounded integers, and none of the source's values come near the limit.
- Null entries in piece arrays are not modelled: arrays hold pieces only. A missing general at checkmate, where the source throws a null reference, is the ending `MissingKing`. At that point the game-over flag is set, and the selection and highlights are left as they were.
- Object identity is modelled by index; a stale reference left by a load is `Detached`. The replay screen's defensive copies (`new ChessPiece(p)`) are value semantics here.
- `loadGameData(data, fileName)` only additionally records a file name: not modelled.
- MainGameController.GameController.LoadGameData: models the source's omissions as written. The game-over flag and highlights are kept, `initialPieces` is not updated, and the selection becomes `Detached`.
- MainGameController.GameController.HandleUndoMove: after a capture the restored array has the captured piece at the end, so `UndoRestoresBoard` states equality of multisets, not of sequences.
- AISearch.GetBestMoveUsingMinimax: requires `depth >= 1`. At depth 0 or below, the recursion passes 0 by and never meets its base case before the game ends.
- AISearch.GetBestMoveUsingMinimax: optimality is stated in values clamped to the sentinels. A pruned score beyond +-999999 is only a bound. Ties are broken toward the earliest move only strictly between the sentinels.
- AISearch.Minimax: the fail-soft relation is stated for windows with alpha < beta. Not every call has one: at the root beta stays +999999, and once a root move scores +999999 (a minimizing reply without moves) alpha equals beta for the later root moves. Those calls are covered only by the clause that a minimizing score above +999999 is exact, and the root loop's reasoning (`AISearch.RootStep`, `AISearch.RootUpdate`) uses the window only when alpha < +999999.
