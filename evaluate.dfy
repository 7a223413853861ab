/**
 * The static evaluator's tables and per-move heuristics (src/evaluate.py).
 *
 * The piece-square tables are written with rank 8 first, the opposite of the
 * library's square order, so every middlegame table is the written table with
 * its ranks flipped. The endgame king table is used exactly as written. For
 * Black the table is read backwards: Black's value on square `s` is White's
 * value on square `63 - s`.
 */
module Evaluate {
  import opened Chess

  const PawnValues: seq<seq<int>> := [
    [0,  0,  0,  0,  0,  0,  0,  0],
    [50, 50, 50, 50, 50, 50, 50, 50],
    [10, 10, 20, 30, 30, 20, 10, 10],
    [5,  5, 10, 25, 25, 10,  5,  5],
    [0,  0,  0, 20, 20,  0,  0,  0],
    [5, -5,-10,  0,  0,-10, -5,  5],
    [5, 10, 10,-20,-20, 10, 10,  5],
    [0,  0,  0,  0,  0,  0,  0,  0]]

  const KnightValues: seq<seq<int>> := [
    [-50,-40,-30,-30,-30,-30,-40,-50],
    [-40,-20,  0,  0,  0,  0,-20,-40],
    [-30,  0, 10, 15, 15, 10,  0,-30],
    [-30,  5, 15, 20, 20, 15,  5,-30],
    [-30,  0, 15, 20, 20, 15,  0,-30],
    [-30,  5, 10, 15, 15, 10,  5,-30],
    [-40,-20,  0,  5,  5,  0,-20,-40],
    [-50,-40,-30,-30,-30,-30,-40,-50]]

  const BishopValues: seq<seq<int>> := [
    [-20,-10,-10,-10,-10,-10,-10,-20],
    [-10,  0,  0,  0,  0,  0,  0,-10],
    [-10,  0,  5, 10, 10,  5,  0,-10],
    [-10,  5,  5, 10, 10,  5,  5,-10],
    [-10,  0, 10, 10, 10, 10,  0,-10],
    [-10, 10, 10, 10, 10, 10, 10,-10],
    [-10,  5,  0,  0,  0,  0,  5,-10],
    [-20,-10,-10,-10,-10,-10,-10,-20]]

  const RookValues: seq<seq<int>> := [
    [0,  0,  0,  0,  0,  0,  0,  0],
    [5, 10, 10, 10, 10, 10, 10,  5],
    [-5,  0,  0,  0,  0,  0,  0, -5],
    [-5,  0,  0,  0,  0,  0,  0, -5],
    [-5,  0,  0,  0,  0,  0,  0, -5],
    [-5,  0,  0,  0,  0,  0,  0, -5],
    [-5,  0,  0,  0,  0,  0,  0, -5],
    [0,  0,  0,  5,  5,  0,  0,  0]]

  const QueenValues: seq<seq<int>> := [
    [-20,-10,-10, -5, -5,-10,-10,-20],
    [-10,  0,  0,  0,  0,  0,  0,-10],
    [-10,  0,  5,  5,  5,  5,  0,-10],
    [-5,  0,  5,  5,  5,  5,  0, -5],
    [0,  0,  5,  5,  5,  5,  0, -5],
    [-10,  5,  5,  5,  5,  5,  0,-10],
    [-10,  0,  5,  0,  0,  0,  0,-10],
    [-20,-10,-10, -5, -5,-10,-10,-20]]

  const KingMiddlegameValues: seq<seq<int>> := [
    [-30,-40,-40,-50,-50,-40,-40,-30],
    [-30,-40,-40,-50,-50,-40,-40,-30],
    [-30,-40,-40,-50,-50,-40,-40,-30],
    [-30,-40,-40,-50,-50,-40,-40,-30],
    [-20,-30,-30,-40,-40,-30,-30,-20],
    [-10,-20,-20,-20,-20,-20,-20,-10],
    [20, 20,  0,  0,  0,  0, 20, 20],
    [20, 30, 10,  0,  0, 10, 30, 20]]

  const KingEndgameValues: seq<seq<int>> := [
    [-50,-40,-30,-20,-20,-30,-40,-50],
    [-30,-20,-10,  0,  0,-10,-20,-30],
    [-30,-10, 20, 30, 30, 20,-10,-30],
    [-30,-10, 30, 40, 40, 30,-10,-30],
    [-30,-10, 30, 40, 40, 30,-10,-30],
    [-30,-10, 20, 30, 30, 20,-10,-30],
    [-30,-30,  0,  0,  0,  0,-30,-30],
    [-50,-30,-30,-30,-30,-30,-30,-50]]

  /** Material value of each piece type, in centipawns. */
  function PieceValue(k: PieceType): int {
    match k
    case Pawn => 100
    case Rook => 500
    case Knight => 320
    case Bishop => 330
    case Queen => 900
    case King => 20000
  }

  /** An 8 by 8 table, one row per rank. */
  predicate IsGrid(rows: seq<seq<int>>) {
    |rows| == 8 && forall r :: 0 <= r < 8 ==> |rows[r]| == 8
  }

  /** The sign a colour's material carries in an evaluation from White's side. */
  function ColorMultiplier(c: Color): int {
    if c == White then 1 else -1
  }

  /** The written (rank 8 first) middlegame table of a piece type. */
  function WrittenTable(k: PieceType): (t: seq<seq<int>>)
    ensures IsGrid(t)
  {
    match k
    case Pawn => PawnValues
    case Knight => KnightValues
    case Bishop => BishopValues
    case Rook => RookValues
    case Queen => QueenValues
    case King => KingMiddlegameValues
  }

  /** Reverses the order of the rows of a table. */
  function FlipRanks(rows: seq<seq<int>>): (r: seq<seq<int>>)
    requires IsGrid(rows)
    ensures IsGrid(r)
    ensures forall i :: 0 <= i < 8 ==> r[i] == rows[7 - i]
  {
    seq(8, i requires 0 <= i < 8 => rows[7 - i])
  }

  /** Flipping the ranks twice gives the table back. */
  lemma FlipRanksTwice(rows: seq<seq<int>>)
    requires IsGrid(rows)
    ensures FlipRanks(FlipRanks(rows)) == rows
  {
  }

  /** Reads a table row by row into one 64-entry sequence indexed by square. */
  function Flatten(rows: seq<seq<int>>): (t: seq<int>)
    requires IsGrid(rows)
    ensures |t| == 64
    ensures forall s :: 0 <= s < 64 ==> t[s] == rows[s / 8][s % 8]
  {
    seq(64, s requires 0 <= s < 64 => rows[s / 8][s % 8])
  }

  /** The middlegame table of a piece type, in square order. */
  function MiddlegameTable(k: PieceType): (t: seq<int>)
    ensures |t| == 64
  {
    Flatten(FlipRanks(WrittenTable(k)))
  }

  /** Square `s` on rank `s / 8` (rank 1 first) finds its value on written row `7 - s / 8`. */
  lemma MiddlegameTableAt(k: PieceType, rank: int, file: int)
    requires 0 <= rank < 8 && 0 <= file < 8
    ensures MiddlegameTable(k)[rank * 8 + file] == WrittenTable(k)[7 - rank][file]
  {
    var s := rank * 8 + file;
    assert s / 8 == rank && s % 8 == file;
  }

  /**
   * The table White reads for piece type `k`: the endgame king table as
   * written when the board is an endgame, otherwise the flipped middlegame
   * table.
   */
  function WhiteTable(k: PieceType, isEndgame: bool): (t: seq<int>)
    ensures |t| == 64
  {
    if isEndgame && k == King then Flatten(KingEndgameValues) else MiddlegameTable(k)
  }

  function Reverse(t: seq<int>): (r: seq<int>)
    ensures |r| == |t|
    ensures forall i :: 0 <= i < |t| ==> r[i] == t[|t| - 1 - i]
  {
    seq(|t|, i requires 0 <= i < |t| => t[|t| - 1 - i])
  }

  /** Square `i` of a reversed 64-entry table holds entry `63 - i`, and the other way round. */
  lemma ReverseAt(t: seq<int>, i: int)
    requires |t| == 64 && 0 <= i < 64
    ensures Reverse(t)[i] == t[63 - i] && Reverse(t)[63 - i] == t[i]
  {
  }

  /** The table of piece type `k` for one colour: Black reads White's backwards. */
  function PositionValuesForColor(k: PieceType, c: Color, isEndgame: bool): (t: seq<int>)
    ensures |t| == 64
  {
    var values := WhiteTable(k, isEndgame);
    if c == White then values else Reverse(values)
  }

  function PositionValue(k: PieceType, c: Color, s: Square, isEndgame: bool): int {
    PositionValuesForColor(k, c, isEndgame)[s]
  }

  /** A piece of one colour on `s` is worth what the other colour's is on `63 - s`. */
  lemma PositionValueMirror(k: PieceType, c: Color, s: Square, isEndgame: bool)
    ensures PositionValue(k, c, s, isEndgame) == PositionValue(k, c.Opponent(), 63 - s, isEndgame)
  {
    var t := WhiteTable(k, isEndgame);
    assert PositionValue(k, White, s, isEndgame) == t[s];
    assert PositionValue(k, White, 63 - s, isEndgame) == t[63 - s];
    ReverseAt(t, s);
    assert PositionValue(k, Black, s, isEndgame) == Reverse(t)[s];
    assert PositionValue(k, Black, 63 - s, isEndgame) == Reverse(t)[63 - s];
  }

  /**
   * Which table is consulted: the endgame king table, read as written (its
   * first row is rank 1), exactly when the board is an endgame and the piece
   * is a king; otherwise the written middlegame table with its rows flipped.
   */
  lemma TableChoice(k: PieceType, s: Square, isEndgame: bool)
    ensures isEndgame && k == King ==>
      PositionValue(k, White, s, isEndgame) == KingEndgameValues[s / 8][s % 8]
    ensures !(isEndgame && k == King) ==>
      PositionValue(k, White, s, isEndgame) == WrittenTable(k)[7 - s / 8][s % 8]
  {
    assert PositionValuesForColor(k, White, isEndgame) == WhiteTable(k, isEndgame);
    if !(isEndgame && k == King) {
      assert WhiteTable(k, isEndgame)[s] == FlipRanks(WrittenTable(k))[s / 8][s % 8];
    }
  }

  /** Sample entries, read off the written tables: pawns on a2 and e2 (and Black's on e7), the king on g1. */
  lemma SampleLookups()
    ensures PositionValue(Pawn, White, 8, false) == 5
    ensures PositionValue(Pawn, White, 12, false) == -20
    ensures PositionValue(Pawn, Black, 52, false) == -20
    ensures PositionValue(King, White, 6, false) == 30
    ensures PositionValue(King, White, 6, true) == -40
  {
    TableChoice(Pawn, 8, false);
    TableChoice(Pawn, 12, false);
    TableChoice(King, 6, false);
    TableChoice(King, 6, true);
    PositionValueMirror(Pawn, Black, 52, false);
  }

  /** The positional gain of moving a piece from `from` to `to`. */
  function PositionValueChange(k: PieceType, c: Color, from: Square, to: Square, isEndgame: bool): (d: int)
    ensures d + PositionValue(k, c, from, isEndgame) == PositionValue(k, c, to, isEndgame)
  {
    PositionValue(k, c, to, isEndgame) - PositionValue(k, c, from, isEndgame)
  }

  lemma PositionValueChangeAntisymmetric(k: PieceType, c: Color, a: Square, b: Square, isEndgame: bool)
    ensures PositionValueChange(k, c, a, b, isEndgame) == -PositionValueChange(k, c, b, a, isEndgame)
    ensures PositionValueChange(k, c, a, a, isEndgame) == 0
  {
  }

  /**
   * What a capture gains: a pawn's worth for en passant, otherwise the victim's
   * value less the capturing piece's (a cheap piece taking a dear one is best).
   */
  function CaptureValue(p: Position, m: Move): (v: int)
    requires LegalOn(p.squares, m) && m.isCapture
    ensures m.isEnPassant ==> v == PieceValue(Pawn)
    ensures !m.isEnPassant ==>
      v + PieceValue(MovingKind(p.squares, m)) == PieceValue(p.squares[m.to].value.kind)
  {
    if m.isEnPassant then PieceValue(Pawn)
    else PieceValue(p.squares[m.to].value.kind) - PieceValue(p.squares[m.from].value.kind)
  }

  /**
   * The cheap ordering value of a move before it is played: the promoted
   * piece's value for a promotion; otherwise the capture value (for a capture)
   * plus the moving piece's positional gain for the side to move.
   */
  function EvaluateMoveValue(p: Position, m: Move): (v: int)
    requires LegalOn(p.squares, m)
    ensures m.promotion.Some? ==> v == PieceValue(m.promotion.value)
    ensures m.promotion.None? ==>
      v == (if m.isCapture then CaptureValue(p, m) else 0)
           + PositionValueChange(MovingKind(p.squares, m), p.turn, m.from, m.to, p.isEndgame)
  {
    if m.promotion.Some? then PieceValue(m.promotion.value)
    else
      var value := if m.isCapture then CaptureValue(p, m) else 0;
      value + PositionValueChange(p.squares[m.from].value.kind, p.turn, m.from, m.to, p.isEndgame)
  }

  /** A quiet, non-promoting move is valued by its positional gain alone; a promotion ignores it. */
  lemma QuietMoveValue(p: Position, m: Move)
    requires LegalOn(p.squares, m) && !m.isCapture && m.promotion.None?
    ensures EvaluateMoveValue(p, m) + PositionValue(MovingKind(p.squares, m), p.turn, m.from, p.isEndgame)
         == PositionValue(MovingKind(p.squares, m), p.turn, m.to, p.isEndgame)
  {
  }

  /** The e2-e4 opening move of a white pawn gains 40 in the middlegame. */
  lemma KingsPawnOpening(p: Position)
    requires p.turn == White && !p.isEndgame && p.squares[12] == Some(Piece(Pawn, White))
    ensures EvaluateMoveValue(p, Move(12, 28, None, false, false, false)) == 40
  {
    TableChoice(Pawn, 12, false);
    TableChoice(Pawn, 28, false);
  }
}
