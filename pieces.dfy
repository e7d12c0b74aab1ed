/**
 * Pieces, colours and board cells, with the starting layout of js/main.js.
 * The source names pieces by Unicode glyphs ("♔", "♟", ...); here a piece is
 * a closed pair of kind and colour, and a cell is empty or holds one piece.
 */
module Pieces {

  datatype Color = White | Black

  datatype Kind = Pawn | Rook | Knight | Bishop | Queen | King

  datatype Piece = Piece(kind: Kind, color: Color)

  /** A square of the board: no child node, or exactly one piece node. */
  datatype Cell = Empty | Occupied(piece: Piece)

  function KingOf(color: Color): Cell {
    Occupied(Piece(King, color))
  }

  /** The other side (switchTurn, and the opponent colour in isSquareAttacked). */
  function Opponent(color: Color): (other: Color)
    ensures other != color
  {
    if color == White then Black else White
  }

  /** The back rank, left to right: rook, knight, bishop, queen, king, bishop, knight, rook. */
  function BackRank(col: int): Kind
    requires 0 <= col < 8
  {
    if col == 0 || col == 7 then Rook
    else if col == 1 || col == 6 then Knight
    else if col == 2 || col == 5 then Bishop
    else if col == 3 then Queen
    else King
  }

  /** The starting layout: Black on rows 0 and 1, White on rows 6 and 7. */
  function InitialCell(row: int, col: int): Cell
    requires 0 <= row < 8 && 0 <= col < 8
  {
    if row == 0 then Occupied(Piece(BackRank(col), Black))
    else if row == 1 then Occupied(Piece(Pawn, Black))
    else if row == 6 then Occupied(Piece(Pawn, White))
    else if row == 7 then Occupied(Piece(BackRank(col), White))
    else Empty
  }

  /** Each side starts with exactly one king, on column 4 of its back rank. */
  lemma InitialKingSquare(row: int, col: int, color: Color)
    requires 0 <= row < 8 && 0 <= col < 8
    ensures InitialCell(row, col) == KingOf(color) <==>
            col == 4 && row == (if color == White then 7 else 0)
  {
  }
}
