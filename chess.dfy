/**
 * The vocabulary the engine borrows from its rules library: colours, piece
 * types, a 64-square board, moves with the flags the search asks about, and
 * the position a search node carries.
 *
 * Squares are numbered as the rules library numbers them: a1 = 0, b1 = 1, ...,
 * h8 = 63, so square `s` lies on rank `s / 8` and file `s % 8`.
 */
module Chess {

  datatype Option<+T> = None | Some(value: T)

  datatype Color = White | Black {
    function Opponent(): Color {
      if this == White then Black else White
    }
  }

  datatype PieceType = Pawn | Knight | Bishop | Rook | Queen | King

  datatype Piece = Piece(kind: PieceType, color: Color)

  type Square = s: int | 0 <= s < 64

  /** Piece placement: entry `s` is the piece on square `s`, if any. */
  type Board = b: seq<Option<Piece>> | |b| == 64 witness EmptyBoard()

  function EmptyBoard(): (b: seq<Option<Piece>>)
    ensures |b| == 64 && forall s :: 0 <= s < 64 ==> b[s] == None
  {
    seq(64, _ => None)
  }

  /**
   * A move as the rules library describes it to the engine: its squares, the
   * piece it promotes to, and whether it captures, is an en-passant capture or
   * gives check.
   */
  datatype Move = Move(
    from: Square,
    to: Square,
    promotion: Option<PieceType>,
    isCapture: bool,
    isEnPassant: bool,
    givesCheck: bool)

  /**
   * What the evaluator reads of a position: placement, the side to move, and
   * the endgame flag that the engine's board computes once when it is built.
   */
  datatype Position = Position(squares: Board, turn: Color, isEndgame: bool)

  /**
   * What a legal move guarantees about the board it is played on: a piece
   * stands on its origin, and an ordinary (non en-passant) capture has a
   * victim on its target square.
   */
  predicate LegalOn(b: Board, m: Move) {
    && b[m.from].Some?
    && (m.isCapture && !m.isEnPassant ==> b[m.to].Some?)
  }

  /** The type of the piece on the origin square of a legal move. */
  function MovingKind(b: Board, m: Move): PieceType
    requires LegalOn(b, m)
  {
    b[m.from].value.kind
  }
}
