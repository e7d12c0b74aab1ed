/**
 * Move legality of js/main.js: isValidMove and the per-piece rules.
 * No rule looks at the squares between origin and destination: a move is
 * judged from the two coordinates and the destination cell alone.
 */
module Rules {
  import opened Pieces

  function Abs(x: int): (a: nat)
    ensures a == x || a == -x
  {
    if x < 0 then -x else x
  }

  /** isCurrentPlayerPiece: the piece belongs to the side whose turn it is. */
  predicate IsCurrentPlayerPiece(turn: Color, piece: Piece) {
    piece.color == turn
  }

  /** isOpponentPiece: the piece has the given (opponent) colour. */
  predicate IsOpponentPiece(piece: Piece, opponentColor: Color) {
    piece.color == opponentColor
  }

  /**
   * isValidPawnMove: one step forward (towards row 0 for White, row 7 for
   * Black) onto an empty square, or one step diagonally onto an occupied one.
   */
  function IsValidPawnMove(fromRow: int, fromCol: int, toRow: int, toCol: int,
                           target: Cell, isWhite: bool): (ok: bool)
    ensures ok ==> toRow == fromRow + (if isWhite then -1 else 1)
    ensures ok && fromCol == toCol ==> target.Empty?
    ensures ok && fromCol != toCol ==> Abs(fromCol - toCol) == 1 && target.Occupied?
  {
    var direction := if isWhite then -1 else 1;
    (fromCol == toCol && target.Empty? && toRow == fromRow + direction) ||
    (Abs(fromCol - toCol) == 1 && target.Occupied? && toRow == fromRow + direction)
  }

  function IsValidRookMove(fromRow: int, fromCol: int, toRow: int, toCol: int): bool {
    fromRow == toRow || fromCol == toCol
  }

  function IsValidKnightMove(fromRow: int, fromCol: int, toRow: int, toCol: int): bool {
    (Abs(fromRow - toRow) == 2 && Abs(fromCol - toCol) == 1) ||
    (Abs(fromRow - toRow) == 1 && Abs(fromCol - toCol) == 2)
  }

  function IsValidBishopMove(fromRow: int, fromCol: int, toRow: int, toCol: int): bool {
    Abs(fromRow - toRow) == Abs(fromCol - toCol)
  }

  /**
   * isValidMove. The self-capture guard compares the destination's piece with
   * the side to move (`turn`), not with the moving piece's colour.
   */
  function IsValidMove(turn: Color, piece: Piece, fromRow: int, fromCol: int,
                       toRow: int, toCol: int, target: Cell): (ok: bool)
    ensures ok ==> !(target.Occupied? && IsCurrentPlayerPiece(turn, target.piece))
  {
    if target.Occupied? && IsCurrentPlayerPiece(turn, target.piece) then false
    else match piece.kind
      case Pawn => IsValidPawnMove(fromRow, fromCol, toRow, toCol, target, piece.color == White)
      case Rook => IsValidRookMove(fromRow, fromCol, toRow, toCol)
      case Knight => IsValidKnightMove(fromRow, fromCol, toRow, toCol)
      case Bishop => IsValidBishopMove(fromRow, fromCol, toRow, toCol)
      case Queen => IsValidRookMove(fromRow, fromCol, toRow, toCol) || IsValidBishopMove(fromRow, fromCol, toRow, toCol)
      case King => Abs(toRow - fromRow) <= 1 && Abs(toCol - fromCol) <= 1
  }

  // An independent statement of the same rules, written with row and column
  // offsets, lines and diagonals, and enumerated offset sets.

  const KnightOffsets: set<(int, int)> :=
    {(1, 2), (2, 1), (2, -1), (1, -2), (-1, -2), (-2, -1), (-2, 1), (-1, 2)}

  const Step: set<int> := {-1, 0, 1}

  predicate ReferenceMove(piece: Piece, fromRow: int, fromCol: int, toRow: int, toCol: int, target: Cell) {
    var dr, dc := toRow - fromRow, toCol - fromCol;
    var sameLine := dr == 0 || dc == 0;
    var sameDiagonal := fromRow + fromCol == toRow + toCol || fromRow - fromCol == toRow - toCol;
    match piece.kind
    case Pawn =>
      dr == (if piece.color == White then -1 else 1) &&
      ((dc == 0 && target.Empty?) || ((dc == -1 || dc == 1) && target.Occupied?))
    case Rook => sameLine
    case Bishop => sameDiagonal
    case Queen => sameLine || sameDiagonal
    case Knight => (dr, dc) in KnightOffsets
    case King => dr in Step && dc in Step
  }

  /**
   * isValidMove agrees with the reference rules: the guard rejects exactly the
   * destinations holding a piece of the side to move, and otherwise the
   * move's shape decides, whatever lies between origin and destination.
   */
  lemma ValidMoveMatchesReference(turn: Color, piece: Piece, fromRow: int, fromCol: int,
                                  toRow: int, toCol: int, target: Cell)
    ensures IsValidMove(turn, piece, fromRow, fromCol, toRow, toCol, target) <==>
            !(target.Occupied? && target.piece.color == turn) &&
            ReferenceMove(piece, fromRow, fromCol, toRow, toCol, target)
  {
    var dr, dc := toRow - fromRow, toCol - fromCol;
    match piece.kind
    case Knight =>
      assert IsValidKnightMove(fromRow, fromCol, toRow, toCol) <==> (dr, dc) in KnightOffsets;
    case King =>
      assert (Abs(dr) <= 1 && Abs(dc) <= 1) <==> (dr in Step && dc in Step);
    case _ =>
  }

  /** A pawn never advances two squares, and never moves backwards or sideways. */
  lemma PawnSingleStep(turn: Color, color: Color, fromRow: int, fromCol: int,
                       toRow: int, toCol: int, target: Cell)
    requires IsValidMove(turn, Piece(Pawn, color), fromRow, fromCol, toRow, toCol, target)
    ensures toRow - fromRow == (if color == White then -1 else 1)
    ensures Abs(toCol - fromCol) <= 1
    ensures toCol == fromCol <==> target.Empty?
  {
  }
}
