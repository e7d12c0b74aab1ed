/**
 * The 8x8 board as a value: king search, the attack predicate, the effect of
 * movePiece and the game-end verdict of isKingCaptured (js/main.js).
 */
module Boards {
  import opened Options
  import opened Pieces
  import opened Rules

  /** Rows 0-7 of columns 0-7. */
  type Board = seq<seq<Cell>>

  datatype Square = Square(row: int, col: int)

  predicate InRange(row: int, col: int) {
    0 <= row < 8 && 0 <= col < 8
  }

  predicate IsBoard(b: Board) {
    |b| == 8 && forall r :: 0 <= r < 8 ==> |b[r]| == 8
  }

  predicate IsGrid(a: array2<Cell>) {
    a.Length0 == 8 && a.Length1 == 8
  }

  /** The cells of a board held in an array, as a value. */
  ghost function Grid(a: array2<Cell>): (b: Board)
    reads a
    requires IsGrid(a)
    ensures IsBoard(b)
    ensures forall r, c :: InRange(r, c) ==> b[r][c] == a[r, c]
  {
    seq(8, r reads a requires 0 <= r < 8 => seq(8, c reads a requires 0 <= c < 8 => a[r, c]))
  }

  /** Two boards that agree on every cell are the same board. */
  lemma BoardExt(a: Board, b: Board)
    requires IsBoard(a) && IsBoard(b)
    requires forall r, c :: InRange(r, c) ==> a[r][c] == b[r][c]
    ensures a == b
  {
    forall r | 0 <= r < 8
      ensures a[r] == b[r]
    {
      assert forall c :: 0 <= c < 8 ==> a[r][c] == b[r][c];
    }
  }

  function InitialBoard(): (b: Board)
    ensures IsBoard(b)
    ensures forall r, c :: InRange(r, c) ==> b[r][c] == InitialCell(r, c)
  {
    seq(8, r requires 0 <= r < 8 => seq(8, c requires 0 <= c < 8 => InitialCell(r, c)))
  }

  ghost predicate HasKing(b: Board, color: Color)
    requires IsBoard(b)
  {
    exists r, c :: InRange(r, c) && b[r][c] == KingOf(color)
  }

  /** (row, col) holds the first king of `color` in row-major order, as findKing scans. */
  ghost predicate FirstKingAt(b: Board, color: Color, row: int, col: int)
    requires IsBoard(b)
  {
    InRange(row, col) && b[row][col] == KingOf(color) &&
    forall r, c :: InRange(r, c) && (r < row || (r == row && c < col)) ==> b[r][c] != KingOf(color)
  }

  ghost predicate AtMostOneKing(b: Board, color: Color)
    requires IsBoard(b)
  {
    forall r1, c1, r2, c2 ::
      InRange(r1, c1) && InRange(r2, c2) && b[r1][c1] == KingOf(color) && b[r2][c2] == KingOf(color) ==>
        r1 == r2 && c1 == c2
  }

  /** The piece on (r, c) has colour `opponentColor` and may move to (row, col). */
  ghost predicate AttacksFrom(b: Board, turn: Color, r: int, c: int, row: int, col: int, opponentColor: Color)
    requires IsBoard(b) && InRange(r, c) && InRange(row, col)
  {
    b[r][c].Occupied? && IsOpponentPiece(b[r][c].piece, opponentColor) &&
    IsValidMove(turn, b[r][c].piece, r, c, row, col, b[row][col])
  }

  /**
   * isSquareAttacked(row, col, color): some piece of the colour opposite to
   * `color` passes isValidMove towards (row, col), under the global `turn`.
   */
  ghost predicate Attacked(b: Board, turn: Color, row: int, col: int, color: Color)
    requires IsBoard(b) && InRange(row, col)
  {
    exists r, c :: InRange(r, c) && AttacksFrom(b, turn, r, c, row, col, Opponent(color))
  }

  /**
   * movePiece: the destination is emptied and then receives the moving piece,
   * which leaves its origin; nothing else changes.
   */
  function Moved(b: Board, piece: Piece, fromRow: int, fromCol: int, toRow: int, toCol: int): (m: Board)
    requires IsBoard(b) && InRange(fromRow, fromCol) && InRange(toRow, toCol)
    ensures IsBoard(m)
    ensures forall r, c :: InRange(r, c) ==>
      m[r][c] == (if r == toRow && c == toCol then Occupied(piece)
                  else if r == fromRow && c == fromCol then Empty
                  else b[r][c])
  {
    var cleared := b[fromRow := b[fromRow][fromCol := Empty]];
    cleared[toRow := cleared[toRow][toCol := Occupied(piece)]]
  }

  /** isKingCaptured: White's king is looked for first; the winner is the other colour. */
  ghost function CapturedWinner(b: Board): Option<Color>
    requires IsBoard(b)
  {
    if !HasKing(b, White) then Some(Black)
    else if !HasKing(b, Black) then Some(White)
    else None
  }

  /**
   * A square holding a piece of the side to move is never attacked: every
   * attacker's isValidMove fails the self-capture guard first.
   */
  lemma OwnPieceNeverAttacked(b: Board, turn: Color, row: int, col: int, color: Color)
    requires IsBoard(b) && InRange(row, col)
    requires b[row][col].Occupied? && b[row][col].piece.color == turn
    ensures !Attacked(b, turn, row, col, color)
  {
  }

  /** Hence isKingInCheck(turn) never holds: the side to move is never in check. */
  lemma MoverNeverInCheck(b: Board, turn: Color, row: int, col: int)
    requires IsBoard(b) && FirstKingAt(b, turn, row, col)
    ensures !Attacked(b, turn, row, col, turn)
  {
    OwnPieceNeverAttacked(b, turn, row, col, turn);
  }

  lemma FirstKingUnique(b: Board, color: Color, r1: int, c1: int, r2: int, c2: int)
    requires IsBoard(b) && FirstKingAt(b, color, r1, c1) && FirstKingAt(b, color, r2, c2)
    ensures r1 == r2 && c1 == c2
  {
  }

  /** A king that is not on the destination, or is the moving piece, survives the move. */
  lemma MoveKeepsKing(b: Board, piece: Piece, fromRow: int, fromCol: int, toRow: int, toCol: int, color: Color)
    requires IsBoard(b) && InRange(fromRow, fromCol) && InRange(toRow, toCol)
    requires b[fromRow][fromCol] == Occupied(piece)
    requires HasKing(b, color)
    requires b[toRow][toCol] != KingOf(color) || (fromRow == toRow && fromCol == toCol)
    ensures HasKing(Moved(b, piece, fromRow, fromCol, toRow, toCol), color)
  {
    var m := Moved(b, piece, fromRow, fromCol, toRow, toCol);
    var r, c :| InRange(r, c) && b[r][c] == KingOf(color);
    if r == fromRow && c == fromCol {
      assert m[toRow][toCol] == KingOf(color);
    } else {
      assert m[r][c] == KingOf(color);
    }
  }

  /** Moving a piece never makes a second king of a colour. */
  lemma MoveKeepsAtMostOneKing(b: Board, piece: Piece, fromRow: int, fromCol: int, toRow: int, toCol: int, color: Color)
    requires IsBoard(b) && InRange(fromRow, fromCol) && InRange(toRow, toCol)
    requires b[fromRow][fromCol] == Occupied(piece)
    requires AtMostOneKing(b, color)
    ensures AtMostOneKing(Moved(b, piece, fromRow, fromCol, toRow, toCol), color)
  {
    var m := Moved(b, piece, fromRow, fromCol, toRow, toCol);
    forall r1, c1, r2, c2 | InRange(r1, c1) && InRange(r2, c2) && m[r1][c1] == KingOf(color) && m[r2][c2] == KingOf(color)
      ensures r1 == r2 && c1 == c2
    {
      // each king of m is the moving piece (on the destination) or an old king off the origin
      var s1 := if r1 == toRow && c1 == toCol then Square(fromRow, fromCol) else Square(r1, c1);
      var s2 := if r2 == toRow && c2 == toCol then Square(fromRow, fromCol) else Square(r2, c2);
      assert b[s1.row][s1.col] == KingOf(color);
      assert b[s2.row][s2.col] == KingOf(color);
    }
  }

  /** Landing on the only king of a colour removes that colour's king from the board. */
  lemma CaptureRemovesKing(b: Board, piece: Piece, fromRow: int, fromCol: int, toRow: int, toCol: int, color: Color)
    requires IsBoard(b) && InRange(fromRow, fromCol) && InRange(toRow, toCol)
    requires b[fromRow][fromCol] == Occupied(piece) && piece.color != color
    requires AtMostOneKing(b, color) && b[toRow][toCol] == KingOf(color)
    ensures !HasKing(Moved(b, piece, fromRow, fromCol, toRow, toCol), color)
  {
    var m := Moved(b, piece, fromRow, fromCol, toRow, toCol);
    forall r, c | InRange(r, c)
      ensures m[r][c] != KingOf(color)
    {
      if (r != toRow || c != toCol) && (r != fromRow || c != fromCol) {
        assert m[r][c] == b[r][c];
      }
    }
  }
}
