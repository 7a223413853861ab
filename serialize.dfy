/**
 * The board serialiser (serialize.py) that turns a position into the input
 * of the learned evaluator: seven planes of the 64 squares, planes 0 to 5 one
 * per piece type holding +1 for a white and -1 for a black piece of that type,
 * and plane 6 holding the side to move (1 for White, 0 for Black) on every
 * square. The result is viewed as 7 planes of 8 ranks by 8 files.
 *
 * Cells hold -1, 0 or 1 only, so the 8-bit cells of the source never
 * overflow; they are modelled as `int`.
 */
module Serialize {
  import opened Chess

  const PlaneCount := 7
  const SquareCount := 64

  /** The plane that carries the side to move. */
  const TurnPlane := 6

  /** The plane of each piece type. */
  function PieceIndex(k: PieceType): (p: nat)
    ensures p < TurnPlane
  {
    match k
    case Pawn => 0
    case Knight => 1
    case Bishop => 2
    case Rook => 3
    case Queen => 4
    case King => 5
  }

  /** The piece type a plane below the turn plane stands for. */
  function PlanePiece(p: nat): PieceType
    requires p < TurnPlane
  {
    [Pawn, Knight, Bishop, Rook, Queen, King][p]
  }

  /** The piece map is a bijection from the six piece types onto planes 0 to 5. */
  lemma PieceIndexBijective()
    ensures forall k :: PlanePiece(PieceIndex(k)) == k
    ensures forall p :: 0 <= p < TurnPlane ==> PieceIndex(PlanePiece(p)) == p
    ensures forall k, k' :: PieceIndex(k) == PieceIndex(k') ==> k == k'
  {
    forall k ensures PlanePiece(PieceIndex(k)) == k {
      match k
      case Pawn =>
      case Knight =>
      case Bishop =>
      case Rook =>
      case Queen =>
      case King =>
    }
  }

  /** The sign a piece of each colour is written with. */
  function ColorSign(c: Color): (v: int)
    ensures v == 1 || v == -1
    ensures v > 0 <==> c == White
  {
    if c == White then 1 else -1
  }

  /** What the side-to-move plane holds: the boolean turn as a number. */
  function TurnValue(turn: Color): (v: int)
    ensures v == 0 || v == 1
    ensures v == 1 <==> turn == White
  {
    if turn == White then 1 else 0
  }

  /** The encoding's value at plane `p` and square `s`. */
  function Cell(b: Board, turn: Color, p: nat, s: Square): int
    requires p < PlaneCount
  {
    if p == TurnPlane then TurnValue(turn)
    else match b[s]
      case None => 0
      case Some(pc) => if PieceIndex(pc.kind) == p then ColorSign(pc.color) else 0
  }

  /** The encoding viewed as planes of ranks of files: file `f` of rank `r` is square `8 * r + f`. */
  function Encoded(b: Board, turn: Color): (t: seq<seq<seq<int>>>)
    ensures Shaped(t)
  {
    seq(PlaneCount, p requires 0 <= p < PlaneCount =>
      seq(8, r requires 0 <= r < 8 =>
        seq(8, f requires 0 <= f < 8 => Cell(b, turn, p, 8 * r + f))))
  }

  /** Seven planes of eight ranks of eight files. */
  predicate Shaped(t: seq<seq<seq<int>>>) {
    && |t| == PlaneCount
    && forall p :: 0 <= p < PlaneCount ==> |t[p]| == 8 && forall r :: 0 <= r < 8 ==> |t[p][r]| == 8
  }

  /** The entry of a shaped encoding for square `s` of plane `p`. */
  function At(t: seq<seq<seq<int>>>, p: nat, s: Square): int
    requires Shaped(t) && p < PlaneCount
  {
    t[p][s / 8][s % 8]
  }

  lemma EncodedAt(b: Board, turn: Color, p: nat, s: Square)
    requires p < PlaneCount
    ensures At(Encoded(b, turn), p, s) == Cell(b, turn, p, s)
  {
    assert 8 * (s / 8) + s % 8 == s;
  }

  // ---------------------------------------------------------------------
  // What the encoding says.

  /**
   * Piece placement: an empty square is 0 on every piece plane; an occupied
   * square is +1 (White) or -1 (Black) on the plane of its piece type and 0
   * on the other piece planes.
   */
  lemma PiecePlanes(b: Board, turn: Color, s: Square)
    ensures b[s].None? ==> forall p :: 0 <= p < TurnPlane ==> At(Encoded(b, turn), p, s) == 0
    ensures b[s].Some? ==> At(Encoded(b, turn), PieceIndex(b[s].value.kind), s) == ColorSign(b[s].value.color)
    ensures b[s].Some? ==> forall p :: 0 <= p < TurnPlane && p != PieceIndex(b[s].value.kind) ==> At(Encoded(b, turn), p, s) == 0
    ensures b[s].Some? <==> exists p :: 0 <= p < TurnPlane && At(Encoded(b, turn), p, s) != 0
  {
    forall p | 0 <= p < PlaneCount {
      EncodedAt(b, turn, p, s);
    }
    if b[s].Some? {
      assert At(Encoded(b, turn), PieceIndex(b[s].value.kind), s) != 0;
    }
  }

  /** The side-to-move plane is 1 on every square when White is to move and 0 when Black is. */
  lemma TurnPlaneUniform(b: Board, turn: Color)
    ensures forall s: Square :: At(Encoded(b, turn), TurnPlane, s) == if turn == White then 1 else 0
  {
    forall s: Square {
      EncodedAt(b, turn, TurnPlane, s);
    }
  }

  /** The position an encoding stands for: type from the plane, colour from the sign. */
  function DecodeSquare(t: seq<seq<seq<int>>>, s: Square, p: nat): Option<Piece>
    requires Shaped(t) && p <= TurnPlane
    decreases TurnPlane - p
  {
    if p == TurnPlane then None
    else if At(t, p, s) != 0 then Some(Piece(PlanePiece(p), if At(t, p, s) > 0 then White else Black))
    else DecodeSquare(t, s, p + 1)
  }

  function DecodeBoard(t: seq<seq<seq<int>>>): (b: Board)
    requires Shaped(t)
  {
    seq(SquareCount, s requires 0 <= s < SquareCount => DecodeSquare(t, s, 0))
  }

  function DecodeTurn(t: seq<seq<seq<int>>>): Color
    requires Shaped(t)
  {
    if At(t, TurnPlane, 0) == 1 then White else Black
  }

  /** Scanning from plane `p` up to and including the piece's own plane finds the piece on `s`. */
  lemma {:induction false} DecodeSquareOfEncoded(b: Board, turn: Color, s: Square, p: nat)
    requires p <= TurnPlane
    requires b[s].Some? ==> p <= PieceIndex(b[s].value.kind)
    ensures DecodeSquare(Encoded(b, turn), s, p) == b[s]
    decreases TurnPlane - p
  {
    PiecePlanes(b, turn, s);
    PieceIndexBijective();
    if p < TurnPlane && At(Encoded(b, turn), p, s) == 0 {
      if b[s].Some? {
        assert p != PieceIndex(b[s].value.kind);
      }
      DecodeSquareOfEncoded(b, turn, s, p + 1);
    }
  }

  /** Decoding the encoding gives back the placement and the side to move. */
  lemma DecodeEncoded(b: Board, turn: Color)
    ensures DecodeBoard(Encoded(b, turn)) == b
    ensures DecodeTurn(Encoded(b, turn)) == turn
  {
    forall s: Square
      ensures DecodeBoard(Encoded(b, turn))[s] == b[s]
    {
      DecodeSquareOfEncoded(b, turn, s, 0);
    }
    TurnPlaneUniform(b, turn);
  }

  /** Two positions with the same encoding have the same placement and side to move. */
  lemma EncodedInjective(b: Board, turn: Color, b': Board, turn': Color)
    requires Encoded(b, turn) == Encoded(b', turn')
    ensures b == b' && turn == turn'
  {
    DecodeEncoded(b, turn);
    DecodeEncoded(b', turn');
  }

  // ---------------------------------------------------------------------
  // The serialiser.

  /** The zero-initialised state: seven planes of 64 squares. */
  method Initialize() returns (state: array2<int>)
    ensures fresh(state)
    ensures state.Length0 == PlaneCount && state.Length1 == SquareCount
    ensures forall p, s :: 0 <= p < PlaneCount && 0 <= s < SquareCount ==> state[p, s] == 0
  {
    state := new int[PlaneCount, SquareCount]((p, s) => 0);
  }

  /**
   * One pass over the squares writes each occupied square's sign on the
   * plane of its piece type; then the whole turn plane is set to the side to
   * move, and the state is returned seen as 7 planes of 8 by 8.
   */
  method Serialize(b: Board, turn: Color) returns (t: seq<seq<seq<int>>>)
    ensures t == Encoded(b, turn)
  {
    var state := Initialize();
    for square := 0 to SquareCount
      invariant forall p, s :: 0 <= p < PlaneCount && 0 <= s < SquareCount ==>
        state[p, s] == if p < TurnPlane && s < square then Cell(b, turn, p, s) else 0
    {
      var piece := b[square];
      if piece.None? {
        continue;
      }
      state[PieceIndex(piece.value.kind), square] := ColorSign(piece.value.color);
    }
    for s := 0 to SquareCount
      invariant forall p, s' :: 0 <= p < PlaneCount && 0 <= s' < SquareCount ==>
        state[p, s'] == if p < TurnPlane || s' < s then Cell(b, turn, p, s') else 0
    {
      state[TurnPlane, s] := TurnValue(turn);
    }
    t := seq(PlaneCount, p requires 0 <= p < PlaneCount reads state =>
      seq(8, r requires 0 <= r < 8 reads state =>
        seq(8, f requires 0 <= f < 8 reads state => state[p, 8 * r + f])));
    forall p, r | 0 <= p < PlaneCount && 0 <= r < 8
      ensures t[p][r] == Encoded(b, turn)[p][r]
    {
      assert forall f :: 0 <= f < 8 ==> t[p][r][f] == state[p, 8 * r + f];
    }
    assert forall p :: 0 <= p < PlaneCount ==> t[p] == Encoded(b, turn)[p];
  }
}
