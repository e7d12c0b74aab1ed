/**
 * The game object of js/main.js: the board's squares, `turn`, `isGameOver`
 * and the selection, updated in place by the click handler and its helpers.
 */
module Chess {
  import opened Options
  import opened Pieces
  import opened Rules
  import opened Boards
  import opened Scan
  import opened Engine

  class Game {
    const board: array2<Cell>
    var turn: Color
    var isGameOver: bool
    var selected: Option<Selection>
    var winner: Option<Color>

    ghost function Model(): GameState
      reads this, board
      requires IsGrid(board)
    {
      GameState(Grid(board), turn, isGameOver, selected, winner)
    }

    ghost predicate Valid()
      reads this, board
    {
      IsGrid(board) && Inv(Model())
    }

    /** createBoard's starting position, White to move, nothing selected. */
    constructor ()
      ensures Valid() && fresh(board)
      ensures Model() == NewGame()
    {
      board := new Cell[8, 8]((r, c) requires 0 <= r < 8 && 0 <= c < 8 => InitialCell(r, c));
      turn := White;
      isGameOver := false;
      selected := None;
      winner := None;
      new;
      BoardExt(Grid(board), InitialBoard());
      NewGameInv();
    }

    /** selectPiece: deselect, then select the piece on (row, col) and its square. */
    method SelectPiece(row: int, col: int)
      requires IsGrid(board) && InRange(row, col) && board[row, col].Occupied?
      modifies this`selected
      ensures selected == Some(Selection(row, col, board[row, col].piece))
    {
      Deselect();
      selected := Some(Selection(row, col, board[row, col].piece));
    }

    /** deselect: selectedPiece and selectedSquare both become null. */
    method Deselect()
      modifies this`selected
      ensures selected == None
    {
      selected := None;
    }

    /**
     * movePiece: the destination's content is discarded and the piece moves
     * there from its origin; every other square keeps its content.
     */
    method MovePiece(piece: Piece, fromRow: int, fromCol: int, toRow: int, toCol: int)
      requires IsGrid(board) && InRange(fromRow, fromCol) && InRange(toRow, toCol)
      requires board[fromRow, fromCol] == Occupied(piece)
      modifies board
      ensures Grid(board) == Moved(old(Grid(board)), piece, fromRow, fromCol, toRow, toCol)
    {
      ghost var before := Grid(board);
      board[toRow, toCol] := Empty;
      board[fromRow, fromCol] := Empty;
      board[toRow, toCol] := Occupied(piece);
      BoardExt(Grid(board), Moved(before, piece, fromRow, fromCol, toRow, toCol));
    }

    /** switchTurn: the other side is to move. */
    method SwitchTurn()
      modifies this`turn
      ensures turn == Opponent(old(turn))
    {
      turn := if turn == White then Black else White;
    }

    /**
     * isKingCaptured: if White's king, and then Black's, is missing, the game
     * is over and the other colour has won.
     */
    method IsKingCaptured() returns (captured: bool)
      requires IsGrid(board)
      modifies this`isGameOver, this`winner
      ensures captured <==> CapturedWinner(Grid(board)).Some?
      ensures isGameOver == (old(isGameOver) || captured)
      ensures winner == if captured then CapturedWinner(Grid(board)) else old(winner)
    {
      var whiteKing := FindKing(board, White);
      if whiteKing.None? {
        isGameOver := true;
        winner := Some(Black);
        return true;
      }
      var blackKing := FindKing(board, Black);
      if blackKing.None? {
        isGameOver := true;
        winner := Some(White);
        return true;
      }
      return false;
    }

    /**
     * The part of handleSquareClick after a second square is clicked while a
     * piece is selected: the move is validated and, if valid, carried out;
     * then the game ends or the turn passes. The check for the mover's king
     * (js/main.js:60-63, whose undoMove is defined nowhere) never fires.
     */
    method TryMove(row: int, col: int)
      requires Valid() && InRange(row, col) && !isGameOver && selected.Some?
      requires selected.value.row != row || selected.value.col != col
      modifies this, board
      ensures Model() == Click(old(Model()), row, col)
    {
      var sel := selected.value;
      if IsValidMove(turn, sel.piece, sel.row, sel.col, row, col, board[row, col]) {
        ghost var before := Grid(board);
        MovePiece(sel.piece, sel.row, sel.col, row, col);
        MoveKeepsKing(before, sel.piece, sel.row, sel.col, row, col, turn);
        var inCheck := IsKingInCheck(board, turn, turn);
        if inCheck {
          // alert and undoMove: unreachable, as IsKingInCheck promises for the side to move
          assert false;
          return;
        }
        var captured := IsKingCaptured();
        if captured {
          isGameOver := true;
          return;
        }
        SwitchTurn();
      }
      Deselect();
    }

    /** handleSquareClick on the square (row, col), without its alerts and CSS changes. */
    method HandleSquareClick(row: int, col: int)
      requires Valid() && InRange(row, col)
      modifies this, board
      ensures Valid()
      ensures Model() == Click(old(Model()), row, col)
    {
      ClickPreservesInv(Model(), row, col);
      if isGameOver {
        return;
      }
      var piece := board[row, col];
      if selected.Some? {
        var sel := selected.value;
        if sel.row == row && sel.col == col {
          Deselect();
          return;
        }
        TryMove(row, col);
      } else if piece.Occupied? && IsCurrentPlayerPiece(turn, piece.piece) {
        SelectPiece(row, col);
      }
    }
  }
}
