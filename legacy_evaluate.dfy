/**
 * The older evaluator (evaluate.py). Its piece values and written tables are
 * those of src/evaluate.py, the king using the middlegame table only; it has
 * no endgame flag. Its board evaluation is therefore the middlegame board
 * value, and the capture score it orders moves by differs from the newer
 * capture value only on en-passant captures and on moves without a victim.
 */
module LegacyEvaluate {
  import opened Chess
  import opened Evaluate
  import opened BoardEval

  /** The placement value of a piece: White reads the flipped table at `s`, Black reads it backwards. */
  function GetPositionValue(k: PieceType, c: Color, s: Square): int {
    var values := MiddlegameTable(k);
    if c == White then values[s] else Reverse(values)[s]
  }

  /**
   * White's value on rank `s / 8`, file `s % 8` is on written row `7 - s / 8`;
   * Black's value on `s` is White's on `63 - s`; and every lookup agrees with
   * the newer evaluator outside the endgame.
   */
  lemma GetPositionValueSpec(k: PieceType, c: Color, s: Square)
    ensures c == White ==> GetPositionValue(k, c, s) == WrittenTable(k)[7 - s / 8][s % 8]
    ensures c == Black ==> GetPositionValue(k, c, s) == GetPositionValue(k, White, 63 - s)
    ensures GetPositionValue(k, c, s) == PositionValue(k, c, s, false)
  {
    MiddlegameTableAt(k, s / 8, s % 8);
    ReverseAt(MiddlegameTable(k), s);
    assert PositionValuesForColor(k, c, false) == if c == White then MiddlegameTable(k) else Reverse(MiddlegameTable(k));
  }

  /** What one square adds in the older evaluator: material plus placement, signed by colour. */
  function LegacySquareValue(x: Option<Piece>, s: Square): int {
    match x
    case None => 0
    case Some(p) => (PieceValue(p.kind) + GetPositionValue(p.kind, p.color, s)) * ColorMultiplier(p.color)
  }

  lemma LegacySquareValueAgrees(x: Option<Piece>, s: Square)
    ensures LegacySquareValue(x, s) == SquareValue(x, s, false)
  {
    if x.Some? {
      GetPositionValueSpec(x.value.kind, x.value.color, s);
    }
  }

  /** The older evaluation of the first `i` squares, added up in square order. */
  function LegacyPrefix(b: Board, i: nat): int
    requires i <= 64
  {
    if i == 0 then 0 else LegacyPrefix(b, i - 1) + LegacySquareValue(b[i - 1], i - 1)
  }

  /** Over the whole board the older evaluation is the middlegame board value. */
  lemma {:induction false} LegacyPrefixValue(b: Board, i: nat)
    requires i <= 64
    ensures LegacyPrefix(b, i) == PrefixValue(b, i, false)
  {
    if i > 0 {
      LegacyPrefixValue(b, i - 1);
      LegacySquareValueAgrees(b[i - 1], i - 1);
    }
  }

  /**
   * The evaluation loop: one pass over the squares, adding each occupied
   * square's value. The result is the middlegame board value, so the empty
   * board scores 0 and mirroring the board negates the score.
   */
  method EvaluateBoard(b: Board) returns (v: int)
    ensures v == BoardValue(b, false)
  {
    v := 0;
    var square := 0;
    while square < 64
      invariant 0 <= square <= 64
      invariant v == LegacyPrefix(b, square)
    {
      var piece := b[square];
      if piece.Some? {
        var incValue := (PieceValue(piece.value.kind) + GetPositionValue(piece.value.kind, piece.value.color, square))
          * ColorMultiplier(piece.value.color);
        v := v + incValue;
      }
      square := square + 1;
    }
    LegacyValue(b);
  }

  /** The older evaluation of a whole board is its middlegame board value. */
  lemma LegacyValue(b: Board)
    ensures LegacyPrefix(b, 64) == BoardValue(b, false)
  {
    LegacyPrefixValue(b, 64);
    PrefixValueSum(b, 64, false);
    assert Terms(b, false)[..64] == Terms(b, false);
  }

  /**
   * The empty board scores 0, and swapping every piece's colour while moving
   * it from `s` to `63 - s` negates the older evaluation.
   */
  lemma LegacyEvaluationSymmetry(b: Board)
    ensures LegacyPrefix(EmptyBoard(), 64) == 0
    ensures LegacyPrefix(Mirror(b), 64) == -LegacyPrefix(b, 64)
  {
    LegacyValue(EmptyBoard());
    EmptyBoardValue(false);
    LegacyValue(b);
    LegacyValue(Mirror(b));
    MirrorNegatesValue(b, false);
  }

  /**
   * The capture score the older searcher orders noisy moves by: the victim's
   * value less the mover's when both squares hold a piece, and 0 otherwise
   * (an en-passant capture or a check without a capture).
   */
  function LostValue(b: Board, m: Move): int {
    if b[m.from].Some? && b[m.to].Some? then PieceValue(b[m.to].value.kind) - PieceValue(b[m.from].value.kind)
    else 0
  }

  /**
   * The older capture score agrees with the newer capture value on ordinary
   * captures, is 0 where the newer one gives en passant a pawn's worth, and is
   * 0 for any move onto an empty square.
   */
  lemma LostValueVsCaptureValue(p: Position, m: Move)
    requires LegalOn(p.squares, m)
    ensures m.isCapture && !m.isEnPassant ==> LostValue(p.squares, m) == CaptureValue(p, m)
    ensures m.isCapture && m.isEnPassant && p.squares[m.to].None? ==>
      LostValue(p.squares, m) == 0 && CaptureValue(p, m) == PieceValue(Pawn)
    ensures p.squares[m.to].None? ==> LostValue(p.squares, m) == 0
  {
  }
}
