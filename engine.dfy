/**
 * The game state of js/main.js (board, turn, isGameOver, the selection) as a
 * value, and the effect of one click on a square: handleSquareClick with its
 * alerts removed. Chess.Game.HandleSquareClick is proved to follow Click.
 */
module Engine {
  import opened Options
  import opened Pieces
  import opened Rules
  import opened Boards

  /** selectedSquare with selectedPiece: both set, or both null (None). */
  datatype Selection = Selection(row: int, col: int, piece: Piece)

  /**
   * `winner` is the colour the game-over notice of isKingCaptured names; the
   * source only shows it in an alert.
   */
  datatype GameState = GameState(board: Board, turn: Color, isGameOver: bool,
                                 selected: Option<Selection>, winner: Option<Color>)

  predicate WellFormed(s: GameState) {
    IsBoard(s.board) &&
    (s.selected.Some? ==> InRange(s.selected.value.row, s.selected.value.col))
  }

  /**
   * What every reachable state satisfies. While the game runs, both kings are
   * on the board and a selection names a piece of the side to move on its own
   * square. Once it is over, the side that moved last has won and the other
   * king is gone. (The game-ending click returns before deselect, so the
   * selection then still names the now empty origin square.)
   */
  ghost predicate Inv(s: GameState) {
    WellFormed(s) &&
    AtMostOneKing(s.board, White) && AtMostOneKing(s.board, Black) &&
    (s.isGameOver <==> s.winner.Some?) &&
    (!s.isGameOver ==>
      HasKing(s.board, White) && HasKing(s.board, Black) &&
      (s.selected.Some? ==>
        s.board[s.selected.value.row][s.selected.value.col] == Occupied(s.selected.value.piece) &&
        IsCurrentPlayerPiece(s.turn, s.selected.value.piece))) &&
    (s.isGameOver ==>
      s.winner == Some(s.turn) && HasKing(s.board, s.turn) && !HasKing(s.board, Opponent(s.turn)))
  }

  function NewGame(): (s: GameState)
    ensures WellFormed(s) && s.board == InitialBoard()
  {
    GameState(InitialBoard(), White, false, None, None)
  }

  /** The click carries out a move: a selection exists, another square is clicked and isValidMove holds. */
  predicate Commits(s: GameState, row: int, col: int)
    requires WellFormed(s) && InRange(row, col)
  {
    !s.isGameOver && s.selected.Some? &&
    (s.selected.value.row != row || s.selected.value.col != col) &&
    IsValidMove(s.turn, s.selected.value.piece, s.selected.value.row, s.selected.value.col,
                row, col, s.board[row][col])
  }

  /**
   * handleSquareClick on (row, col). The check at js/main.js:60 does not
   * appear: it never holds (see Boards.MoverNeverInCheck and
   * Chess.Game.HandleSquareClick).
   */
  ghost function Click(s: GameState, row: int, col: int): (t: GameState)
    requires WellFormed(s) && InRange(row, col)
    ensures WellFormed(t)
    ensures s.isGameOver ==> t == s
  {
    if s.isGameOver then s
    else match s.selected
      case None =>
        var square := s.board[row][col];
        if square.Occupied? && IsCurrentPlayerPiece(s.turn, square.piece)
        then s.(selected := Some(Selection(row, col, square.piece)))
        else s
      case Some(sel) =>
        if sel.row == row && sel.col == col then s.(selected := None)
        else if !IsValidMove(s.turn, sel.piece, sel.row, sel.col, row, col, s.board[row][col])
        then s.(selected := None)
        else
          var b := Moved(s.board, sel.piece, sel.row, sel.col, row, col);
          match CapturedWinner(b)
          case Some(w) => s.(board := b, isGameOver := true, winner := Some(w))
          case None => s.(board := b, turn := Opponent(s.turn), selected := None)
  }

  /** The starting position satisfies the invariant; each king stands on column 4 of its back rank. */
  lemma NewGameInv()
    ensures Inv(NewGame())
    ensures NewGame().turn == White && !NewGame().isGameOver && NewGame().selected == None
    ensures FirstKingAt(InitialBoard(), White, 7, 4) && FirstKingAt(InitialBoard(), Black, 0, 4)
  {
    var b := InitialBoard();
    forall r, c, color | InRange(r, c)
      ensures b[r][c] == KingOf(color) <==> c == 4 && r == (if color == White then 7 else 0)
    {
      InitialKingSquare(r, c, color);
    }
    assert b[7][4] == KingOf(White) && b[0][4] == KingOf(Black);
  }

  /** Every click keeps the invariant. */
  lemma {:induction false} ClickPreservesInv(s: GameState, row: int, col: int)
    requires Inv(s) && InRange(row, col)
    ensures Inv(Click(s, row, col))
  {
    if Commits(s, row, col) {
      var sel := s.selected.value;
      var b := Moved(s.board, sel.piece, sel.row, sel.col, row, col);
      MoveKeepsAtMostOneKing(s.board, sel.piece, sel.row, sel.col, row, col, White);
      MoveKeepsAtMostOneKing(s.board, sel.piece, sel.row, sel.col, row, col, Black);
      MoveKeepsKing(s.board, sel.piece, sel.row, sel.col, row, col, s.turn);
      assert HasKing(b, s.turn);
    }
  }

  /**
   * Only a committed move changes the board or the turn, and the turn passes
   * to the other side exactly when that move does not end the game.
   */
  lemma ClickOutcome(s: GameState, row: int, col: int)
    requires Inv(s) && InRange(row, col)
    ensures var t := Click(s, row, col);
      && (!Commits(s, row, col) ==> t.board == s.board && t.turn == s.turn && t.isGameOver == s.isGameOver)
      && (Commits(s, row, col) ==>
            t.board == Moved(s.board, s.selected.value.piece, s.selected.value.row, s.selected.value.col, row, col))
      && t.turn == (if Commits(s, row, col) && !t.isGameOver then Opponent(s.turn) else s.turn)
  {
  }

  /**
   * A committed move ends the game exactly when it lands on the opposing
   * king, and then the mover is the winner and keeps the turn.
   */
  lemma CaptureEndsGame(s: GameState, row: int, col: int)
    requires Inv(s) && InRange(row, col) && Commits(s, row, col)
    ensures Click(s, row, col).isGameOver <==> s.board[row][col] == KingOf(Opponent(s.turn))
    ensures Click(s, row, col).isGameOver ==>
      Click(s, row, col).winner == Some(s.turn) && Click(s, row, col).turn == s.turn
  {
    var sel := s.selected.value;
    var b := Moved(s.board, sel.piece, sel.row, sel.col, row, col);
    var other := Opponent(s.turn);
    MoveKeepsKing(s.board, sel.piece, sel.row, sel.col, row, col, s.turn);
    if s.board[row][col] == KingOf(other) {
      CaptureRemovesKing(s.board, sel.piece, sel.row, sel.col, row, col, other);
    } else {
      MoveKeepsKing(s.board, sel.piece, sel.row, sel.col, row, col, other);
    }
  }

  /** A destination holding a piece of the side to move never takes the move: nothing changes but the selection. */
  lemma SelfCaptureRejected(s: GameState, row: int, col: int)
    requires Inv(s) && InRange(row, col)
    requires s.board[row][col].Occupied? && s.board[row][col].piece.color == s.turn
    ensures Click(s, row, col).board == s.board && Click(s, row, col).turn == s.turn
    ensures Click(s, row, col).isGameOver == s.isGameOver
  {
  }

  /**
   * Selection rules: with nothing selected, a click selects a piece of the
   * side to move and nothing else; clicking the selected square again clears
   * the selection; a click that does not end the game leaves either no
   * selection or one on a piece of the side to move.
   */
  lemma ClickSelection(s: GameState, row: int, col: int)
    requires Inv(s) && !s.isGameOver && InRange(row, col)
    ensures s.selected.None? ==>
      Click(s, row, col) == (if s.board[row][col].Occupied? && s.board[row][col].piece.color == s.turn
                             then s.(selected := Some(Selection(row, col, s.board[row][col].piece)))
                             else s)
    ensures s.selected.Some? && s.selected.value.row == row && s.selected.value.col == col ==>
      Click(s, row, col) == s.(selected := None)
    ensures s.selected.Some? && !Click(s, row, col).isGameOver ==> Click(s, row, col).selected == None
  {
  }

  /** The colour the notice of js/main.js:67 names as winner, as written: the one not to move. */
  function ClickNoticeWinner(turn: Color): Color {
    Opponent(turn)
  }

  /**
   * The notice of js/main.js:67 names the colour whose king has just been
   * captured, while isKingCaptured (recorded as `winner`) names the mover.
   */
  lemma ClickNoticeNamesLoser(s: GameState, row: int, col: int)
    requires Inv(s) && InRange(row, col) && Commits(s, row, col) && Click(s, row, col).isGameOver
    ensures Click(s, row, col).winner == Some(s.turn)
    ensures Some(ClickNoticeWinner(s.turn)) != Click(s, row, col).winner
    ensures !HasKing(Click(s, row, col).board, ClickNoticeWinner(s.turn))
  {
    CaptureEndsGame(s, row, col);
    ClickPreservesInv(s, row, col);
  }

  /**
   * From the opening position, White's rook on (7, 0) moves to (5, 0) although
   * its own pawn stands between: the path is never inspected.
   */
  lemma RookPassesOverPawn()
    ensures var t := Click(Click(NewGame(), 7, 0), 5, 0);
      && t.board[5][0] == Occupied(Piece(Rook, White))
      && t.board[6][0] == Occupied(Piece(Pawn, White))
      && t.board[7][0] == Empty
      && t.turn == Black && !t.isGameOver && t.selected == None
  {
    var s := Click(NewGame(), 7, 0);
    NewGameInv();
    MoveKeepsKing(s.board, Piece(Rook, White), 7, 0, 5, 0, White);
    MoveKeepsKing(s.board, Piece(Rook, White), 7, 0, 5, 0, Black);
  }

  /**
   * From the opening position, the pawn on (6, 4) may step to (5, 4), which
   * passes the turn to Black, but not to (4, 4): that click only clears the
   * selection, so the game is back in its opening state.
   */
  lemma PawnOpeningSteps()
    ensures var t := Click(Click(NewGame(), 6, 4), 5, 4);
      t.board[5][4] == Occupied(Piece(Pawn, White)) && t.board[6][4] == Empty && t.turn == Black
    ensures Click(Click(NewGame(), 6, 4), 4, 4) == NewGame()
  {
    var s := Click(NewGame(), 6, 4);
    NewGameInv();
    MoveKeepsKing(s.board, Piece(Pawn, White), 6, 4, 5, 4, White);
    MoveKeepsKing(s.board, Piece(Pawn, White), 6, 4, 5, 4, Black);
  }
}
