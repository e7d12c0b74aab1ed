# Chess rules engine of `js/main.js`, modelled in Dafny

The repository is a browser chess board. All of its logic lives in one
closure in `js/main.js`, and the DOM code there drives a small rules engine:
- an 8×8 board of squares, each empty or holding one piece;
- the variables `turn`, `isGameOver`, `selectedPiece` and `selectedSquare`;
- move legality per piece (`isValidMove` and the pawn, rook, knight and bishop rules);
- a scan for attacked squares that reuses `isValidMove`;
- a king search;
- game end on king capture;
- the click handler that ties these together.

This project models that engine and proves what it does.

## Layout

- `options.dfy` (`Options`): `Option`, standing in for `null`.
- `pieces.dfy` (`Pieces`): the `Color`, `Kind`, `Piece` and `Cell` datatypes, and the starting layout.
  A piece is a closed (kind, colour) pair instead of a Unicode glyph.
- `rules.dfy` (`Rules`): `isValidMove` and the per-piece rules as pure functions.
  Also a reference statement of the same rules, and the lemma that the two agree.
  `isCurrentPlayerPiece` and `isOpponentPiece` are the colour comparisons `IsCurrentPlayerPiece` and `IsOpponentPiece`.
- `boards.dfy` (`Boards`): the board as a value (`seq<seq<Cell>>`), plus:
  - king presence, and the first king in row-major order;
  - "at most one king per colour";
  - the attack predicate;
  - the effect of `movePiece`;
  - the verdict of `isKingCaptured`.
- `scan.dfy` (`Scan`): `findKing` and `isSquareAttacked` as nested `for` loops over an `array2<Cell>`, each with an early return.
  `isKingInCheck` calls the two in turn. Each method is proved against the value-level predicates.
- `engine.dfy` (`Engine`): the whole game state as a value.
  - The invariant every reachable state keeps.
  - `Click`, the effect of one `handleSquareClick`.
  - Lemmas about `Click`: the invariant, turn alternation, game end, selection rules.
  - Two concrete opening scenarios.
- `game.dfy` (`Chess`): class `Game`. Its fields `board: array2<Cell>`, `turn`, `isGameOver`, `selected` and `winner` are updated in place.
  - Every method states its new state.
  - `HandleSquareClick` is proved to produce `Click(old state)` and to keep `Valid()`.

## Behaviour of the code that the model keeps

- The self-capture guard of `isValidMove` (js/main.js:114) rejects a destination holding a piece of the side to move (`turn`).
  The guard compares the destination's piece with `turn`, not with the moving piece's colour.
- Because of that guard, `isSquareAttacked` is false on any square holding a piece of the side to move.
  So `isKingInCheck(turn)` is always false.
  The branch at js/main.js:60-63 therefore never runs, and neither does the `undoMove` it calls, which is defined nowhere.
  `Chess.Game.TryMove` keeps the branch as `assert false` and so proves it dead.
  `Engine.Click` leaves it out.
  So the code has no reachable revert: `undoMove` is never called.
- No rule inspects the squares between origin and destination. `IsValidMove` receives only the destination cell.
- Under `isSquareAttacked`, a pawn "attacks" the empty square straight ahead, because the scan reuses the move rule.
- A game-ending move returns before `deselect` (js/main.js:66-70). The selection then still names the now-empty origin square.
  `Engine.Inv` requires a consistent selection only while the game runs.
- The source has no winner variable. `isKingCaptured` only alerts the winner.
  The model records that winner in the field `winner` so that it can be stated.

## Model

| member | source | states |
|---|---|---|
| `Pieces.Opponent` | js/main.js:102-105 | switching the turn always yields the other colour |
| `Pieces.InitialKingSquare` | js/main.js:10-19 | in the starting layout, a square holds a king of a colour exactly when it is column 4 of that colour's back rank (row 7 for White, row 0 for Black) |
| `Rules.IsValidPawnMove` | js/main.js:134-138 | an accepted pawn move goes exactly one row forward (row - 1 for White, row + 1 for Black). If it keeps the column, the destination is empty. If not, it shifts one column onto an occupied destination |
| `Rules.IsValidMove` | js/main.js:107-132 | no move is accepted onto a square holding a piece of the side to move |
| `Rules.IsValidRookMove` | js/main.js:140-142 | no contract of its own; `ValidMoveMatchesReference` states its meaning (same row or same column) |
| `Rules.IsValidKnightMove` | js/main.js:144-147 | no contract of its own; `ValidMoveMatchesReference` states its meaning (one of the eight knight offsets) |
| `Rules.IsValidBishopMove` | js/main.js:149-151 | no contract of its own; `ValidMoveMatchesReference` states its meaning (same diagonal) |
| `Rules.IsCurrentPlayerPiece` | js/main.js:206-209 | no contract of its own: the piece's colour is the side to move; used by the guard stated in `IsValidMove` |
| `Rules.IsOpponentPiece` | js/main.js:211-214 | no contract of its own: the piece has the given colour; used by `Attacked`, which `IsSquareAttacked` is proved against |
| `Rules.ValidMoveMatchesReference` | js/main.js:114-151 | isValidMove holds iff the destination does not hold a piece of the side to move and the move has the piece's shape. Rook: same row or column. Bishop: same diagonal. Queen: either. Knight: one of the eight (±1,±2)/(±2,±1) offsets. King: row and column change by at most 1. Pawn: one step forward, straight onto an empty square or diagonal onto an occupied one. Nothing depends on intervening squares |
| `Rules.PawnSingleStep` | js/main.js:117-118 | a pawn never moves two rows, backwards or sideways. It changes column only onto an occupied square, and always does when the destination is occupied |
| `Pieces.InitialCell` | js/main.js:10-19 | no contract of its own: the literal starting layout; `InitialKingSquare` states where its kings are |
| `Boards.InitialBoard` | js/main.js:10-19 | the 8×8 board whose every cell is `InitialCell` of its coordinates |
| `Boards.Attacked` | js/main.js:186-200 | no contract of its own: the specification `IsSquareAttacked` is proved equal to; `OwnPieceNeverAttacked` states its key property |
| `Boards.CapturedWinner` | js/main.js:153-165 | no contract of its own: the verdict of isKingCaptured (White's king checked first); `CaptureEndsGame` states that at a game end it names the mover |
| `Boards.Moved` | js/main.js:97-100 | after movePiece the destination holds the moving piece (any captured piece is gone) and the origin is empty. Every other square is unchanged |
| `Boards.OwnPieceNeverAttacked` | js/main.js:186-200 | a square holding a piece of the side to move is never reported attacked, whatever colour is asked about |
| `Boards.MoverNeverInCheck` | js/main.js:181-184 | the side to move's own king is never attacked, so isKingInCheck(turn) is false |
| `Boards.FirstKingUnique` | js/main.js:168-179 | the square findKing reports (the first king in row-major order) is unique |
| `Boards.MoveKeepsKing` | js/main.js:97-100 | a king survives a move unless it stands on the destination and is not the moving piece |
| `Boards.MoveKeepsAtMostOneKing` | js/main.js:97-100 | moving a piece never creates a second king of a colour |
| `Boards.CaptureRemovesKing` | js/main.js:153-165 | landing another colour's piece on the only king of a colour leaves that colour with no king, so isKingCaptured fires |
| `Scan.FindKing` | js/main.js:168-179 | returns the first square in row-major order holding the colour's king, and null exactly when that king is absent |
| `Scan.IsSquareAttacked` | js/main.js:186-200 | true iff some square holds a piece of the other colour whose isValidMove (under the current turn) to the target holds |
| `Scan.IsKingInCheck` | js/main.js:181-184 | true iff the king findKing returns is attacked. Always false when asked about the side to move |
| `Engine.NewGame` | js/main.js:5-19 | the game starts on the standard layout |
| `Engine.NewGameInv` | js/main.js:5-19 | the starting state (White to move, not over, nothing selected) satisfies the invariant. The kings stand on (7,4) and (0,4) |
| `Engine.Click` | js/main.js:44-80 | once the game is over, a click changes nothing: board, turn, selection and winner stay as they are |
| `Engine.ClickPreservesInv` | js/main.js:44-95 | every click keeps the invariant. While the game runs, both kings are present and the selection is both-or-nothing: a piece of the side to move, on the selected square. Once over, the mover has won and only the loser's king is missing. At most one king per colour throughout |
| `Engine.ClickOutcome` | js/main.js:57-76 | only a committed move (selected piece, other square, isValidMove) changes board or turn. The board then becomes the moved board. The turn flips exactly after a committed move that does not end the game |
| `Engine.CaptureEndsGame` | js/main.js:66-70 | a committed move ends the game iff its destination held the opposing king. The winner is then the mover, whose turn is not passed on |
| `Engine.SelfCaptureRejected` | js/main.js:112-114 | clicking a square holding a piece of the side to move never changes board, turn or game status |
| `Engine.ClickSelection` | js/main.js:51-55 | with no selection, a click selects exactly a piece of the side to move. Clicking the selected square clears the selection. Any other click that does not end the game clears it too |
| `Engine.ClickNoticeWinner` | js/main.js:67 | no contract of its own: the colour the notice names, the side not to move; `ClickNoticeNamesLoser` shows it is the colour that lost its king |
| `Engine.ClickNoticeNamesLoser` | js/main.js:67 | after a game-ending move the winner is the mover. The colour the click handler's notice names (`ClickNoticeWinner`, the side not to move) differs from it and is the one that has lost its king |
| `Engine.RookPassesOverPawn` | js/main.js:140-142 | from the opening, the rook on (7,0) moves to (5,0) past its own pawn on (6,0), and Black is to move |
| `Engine.PawnOpeningSteps` | js/main.js:134-138 | from the opening, the pawn on (6,4) may step to (5,4) but not to (4,4). The rejected click leaves the opening state unchanged |
| `Chess.Game.constructor` | js/main.js:5-19 | a new game is the standard layout, White to move, not over, nothing selected |
| `Chess.Game.SelectPiece` | js/main.js:82-87 | the selection becomes the piece on the clicked square together with that square |
| `Chess.Game.Deselect` | js/main.js:89-95 | selected piece and square both become null |
| `Chess.Game.MovePiece` | js/main.js:97-100 | the board becomes `Moved` of the old board: the piece on the destination, the origin empty, all else unchanged |
| `Chess.Game.SwitchTurn` | js/main.js:102-105 | the turn becomes the other colour |
| `Chess.Game.IsKingCaptured` | js/main.js:153-165 | reports a capture iff some king is missing. It then sets isGameOver and records the other colour as winner, White's king being checked first. Otherwise it changes nothing |
| `Chess.Game.TryMove` | js/main.js:57-76 | a click on another square with a piece selected leaves the game in the state `Click` prescribes. The in-check branch is proved unreachable |
| `Chess.Game.HandleSquareClick` | js/main.js:44-80 | a click updates board, turn, status and selection exactly as `Click` prescribes, and keeps the invariant |

## Findings

| source | as written | input that shows it | evidently intended | confidence | as-written member | corrected member |
|---|---|---|---|---|---|---|
| js/main.js:67 | after a game-ending move the click handler alerts `${turn === "white" ? "Black" : "White"} Wins!`, naming the colour that did not move | White captures Black's king (Black's only king is on the destination of a valid White move). isKingCaptured announces "White Wins!", then line 67 announces "Black Wins!" | the mover, whose capture ended the game, is named winner, as isKingCaptured does | high (not executed) | `Engine.ClickNoticeNamesLoser` | `Engine.CaptureEndsGame` |

The model records the winner as `isKingCaptured` states it (`winner` in `Engine.Click` and `Chess.Game.IsKingCaptured`).
`Engine.CaptureEndsGame` proves that this winner is always the mover.

## Left out

- DOM construction and event wiring (`createBoard`, `addEventListener`, `document.createElement`, CSS class toggling for the selection, `console.log`): presentation.
  The board is an `array2<Cell>` and a click is a call with the clicked row and column.
- `getSquare`'s `document.querySelector` lookup and the `parseInt` of the squares' data attributes: replaced by direct indexing.
  Coordinates in 0-7 are a precondition.
- `alert` messages and the `turnIndicator` text: presentation output.
  The game-over winner is kept as a field, and the wrong notice of line 67 is modelled only as the function `Engine.ClickNoticeWinner`.
- `undoMove`, called at js/main.js:62, is defined nowhere.
  The branch that calls it is proved unreachable and is not modelled beyond that proof.
- Glyph strings and `String.includes` membership: pieces are a closed kind × colour datatype.
  So the `default` case of `isValidMove` (an unknown glyph) cannot arise.
- Scan.IsKingInCheck: the TypeError that isKingInCheck throws when findKing returns null (js/main.js:183) is not modelled; the method requires the king to be on the board, which its only caller (js/main.js:60, `Chess.Game.TryMove`) proves with `Boards.MoveKeepsKing`.
- Identity of DOM piece nodes: a selection records the selected piece's value and square, not a reference to a node.
