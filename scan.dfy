/**
 * The board scans of js/main.js: findKing, isSquareAttacked and isKingInCheck,
 * each a row-major pair of loops over the array with an early return.
 */
module Scan {
  import opened Options
  import opened Pieces
  import opened Rules
  import opened Boards

  /** findKing: the first square, row by row, holding `color`'s king; None when there is none. */
  method FindKing(board: array2<Cell>, color: Color) returns (pos: Option<Square>)
    requires IsGrid(board)
    ensures pos.Some? ==> FirstKingAt(Grid(board), color, pos.value.row, pos.value.col)
    ensures pos.None? <==> !HasKing(Grid(board), color)
  {
    var kingSymbol := KingOf(color);
    for row := 0 to 8
      invariant forall r, c :: 0 <= r < row && 0 <= c < 8 ==> board[r, c] != kingSymbol
    {
      for col := 0 to 8
        invariant forall c :: 0 <= c < col ==> board[row, c] != kingSymbol
      {
        if board[row, col] == kingSymbol {
          return Some(Square(row, col));
        }
      }
    }
    return None;
  }

  /**
   * isSquareAttacked: scans every square for a piece of the colour opposite
   * to `color` whose isValidMove to (row, col) holds.
   */
  method IsSquareAttacked(board: array2<Cell>, turn: Color, row: int, col: int, color: Color)
    returns (attacked: bool)
    requires IsGrid(board) && InRange(row, col)
    ensures attacked <==> Attacked(Grid(board), turn, row, col, color)
  {
    var opponentColor := Opponent(color);
    for r := 0 to 8
      invariant forall r', c' :: 0 <= r' < r && 0 <= c' < 8 ==>
        !AttacksFrom(Grid(board), turn, r', c', row, col, opponentColor)
    {
      for c := 0 to 8
        invariant forall c' :: 0 <= c' < c ==> !AttacksFrom(Grid(board), turn, r, c', row, col, opponentColor)
      {
        var square := board[r, c];
        if square.Occupied? && IsOpponentPiece(square.piece, opponentColor) {
          if IsValidMove(turn, square.piece, r, c, row, col, board[row, col]) {
            assert AttacksFrom(Grid(board), turn, r, c, row, col, opponentColor);
            return true;
          }
        }
      }
    }
    return false;
  }

  /**
   * isKingInCheck: whether `color`'s king (the first one findKing meets) is
   * attacked. The source dereferences findKing's result, so the king must be
   * on the board. Asked about the side to move, the answer is always false.
   */
  method IsKingInCheck(board: array2<Cell>, turn: Color, color: Color) returns (inCheck: bool)
    requires IsGrid(board) && HasKing(Grid(board), color)
    ensures inCheck <==> exists r, c :: FirstKingAt(Grid(board), color, r, c) && Attacked(Grid(board), turn, r, c, color)
    ensures color == turn ==> !inCheck
  {
    var kingPos := FindKing(board, color);
    var king := kingPos.value;
    inCheck := IsSquareAttacked(board, turn, king.row, king.col, color);
    forall r, c | FirstKingAt(Grid(board), color, r, c)
      ensures r == king.row && c == king.col
    {
      FirstKingUnique(Grid(board), color, r, c, king.row, king.col);
    }
    if color == turn {
      MoverNeverInCheck(Grid(board), turn, king.row, king.col);
    }
  }
}
