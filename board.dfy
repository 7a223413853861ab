/**
 * The engine's board (src/board.py): the endgame classification made once when
 * a board is built, and the static value of a board, from White's side, that
 * the searches use as their leaf evaluation.
 */
module BoardEval {
  import opened Chess
  import opened Evaluate

  // ---------------------------------------------------------------------
  // Sums over sequences: the one tool both the piece count and the value use.

  function Sum(t: seq<int>): int {
    if |t| == 0 then 0 else Sum(t[..|t| - 1]) + t[|t| - 1]
  }

  lemma SumSnoc(t: seq<int>, x: int)
    ensures Sum(t + [x]) == Sum(t) + x
  {
    assert (t + [x])[..|t|] == t;
  }

  /** Extending a prefix by one element adds that element to its sum. */
  lemma SumPrefix(t: seq<int>, i: nat)
    requires i < |t|
    ensures Sum(t[..i + 1]) == Sum(t[..i]) + t[i]
  {
    assert t[..i + 1][..i] == t[..i];
  }

  lemma {:induction false} SumCons(x: int, t: seq<int>)
    ensures Sum([x] + t) == x + Sum(t)
  {
    if |t| > 0 {
      var init := t[..|t| - 1];
      assert ([x] + t)[..|t|] == [x] + init;
      SumCons(x, init);
    }
  }

  lemma {:induction false} SumReverse(t: seq<int>)
    ensures Sum(Reverse(t)) == Sum(t)
  {
    if |t| > 0 {
      var init := t[..|t| - 1];
      assert Reverse(t) == [t[|t| - 1]] + Reverse(init);
      SumCons(t[|t| - 1], Reverse(init));
      SumReverse(init);
    }
  }

  function Negate(t: seq<int>): (r: seq<int>)
    ensures |r| == |t|
    ensures forall i :: 0 <= i < |t| ==> r[i] == -t[i]
  {
    seq(|t|, i requires 0 <= i < |t| => -t[i])
  }

  lemma {:induction false} SumNegate(t: seq<int>)
    ensures Sum(Negate(t)) == -Sum(t)
  {
    if |t| > 0 {
      assert Negate(t)[..|t| - 1] == Negate(t[..|t| - 1]);
      SumNegate(t[..|t| - 1]);
    }
  }

  lemma {:induction false} SumUpdate(t: seq<int>, i: nat, x: int)
    requires i < |t|
    ensures Sum(t[i := x]) == Sum(t) - t[i] + x
  {
    var last := |t| - 1;
    if i < last {
      assert t[i := x][..last] == t[..last][i := x];
      SumUpdate(t[..last], i, x);
    } else {
      assert t[i := x][..last] == t[..last];
    }
  }

  lemma {:induction false} SumZero(t: seq<int>)
    requires forall i :: 0 <= i < |t| ==> t[i] == 0
    ensures Sum(t) == 0
  {
    if |t| > 0 {
      SumZero(t[..|t| - 1]);
    }
  }

  // ---------------------------------------------------------------------
  // Piece counts and the endgame classification.

  const AllKinds: set<PieceType> := {Pawn, Knight, Bishop, Rook, Queen, King}

  /** A fresh count of zero for every piece type. */
  function InitializePieceCount(): (m: map<PieceType, int>)
    ensures m.Keys == AllKinds
    ensures forall k :: k in m ==> m[k] == 0
  {
    map[Pawn := 0, Rook := 0, Knight := 0, Bishop := 0, Queen := 0, King := 0]
  }

  /** 1 on each square holding piece `p`, 0 elsewhere. */
  function Indicators(s: seq<Option<Piece>>, p: Piece): (t: seq<int>)
    ensures |t| == |s|
    ensures forall i :: 0 <= i < |s| ==> t[i] == if s[i] == Some(p) then 1 else 0
  {
    seq(|s|, i requires 0 <= i < |s| => if s[i] == Some(p) then 1 else 0)
  }

  /** How many squares of `s` hold piece `p`. */
  function Count(s: seq<Option<Piece>>, p: Piece): nat {
    if |s| == 0 then 0 else Count(s[..|s| - 1], p) + (if s[|s| - 1] == Some(p) then 1 else 0)
  }

  lemma {:induction false} CountIsSum(s: seq<Option<Piece>>, p: Piece)
    ensures Count(s, p) == Sum(Indicators(s, p))
  {
    if |s| > 0 {
      assert Indicators(s, p)[..|s| - 1] == Indicators(s[..|s| - 1], p);
      CountIsSum(s[..|s| - 1], p);
    }
  }

  /** One colour's counts, per piece type. */
  function KindCounts(s: seq<Option<Piece>>, c: Color): (counts: map<PieceType, int>)
    ensures counts.Keys == AllKinds
  {
    map[Pawn := Count(s, Piece(Pawn, c)), Rook := Count(s, Piece(Rook, c)), Knight := Count(s, Piece(Knight, c)),
        Bishop := Count(s, Piece(Bishop, c)), Queen := Count(s, Piece(Queen, c)), King := Count(s, Piece(King, c))]
  }

  /** The counts the engine collects: per colour, per piece type. */
  function PieceCounts(b: Board): (counts: map<Color, map<PieceType, int>>)
    ensures counts.Keys == {White, Black}
  {
    map[White := KindCounts(b, White), Black := KindCounts(b, Black)]
  }

  lemma KindInAllKinds(k: PieceType)
    ensures k in AllKinds
  {
  }

  lemma ColorInBoth(c: Color)
    ensures c in {White, Black}
  {
  }

  /** Each entry of the collected counts is the number of such pieces. */
  lemma PieceCountsAt(b: Board, c: Color, k: PieceType)
    ensures c in PieceCounts(b) && k in PieceCounts(b)[c]
    ensures PieceCounts(b)[c][k] == Count(b, Piece(k, c))
  {
    KindInAllKinds(k);
  }

  /**
   * A side counts as "endgame" when it has no queen, or has at most one minor
   * piece (bishops plus knights). Rooks are not consulted.
   */
  predicate NoQueenOrAtMostOneMinorPiece(counts: map<Color, map<PieceType, int>>, c: Color)
    requires c in counts && Queen in counts[c] && Bishop in counts[c] && Knight in counts[c]
  {
    counts[c][Queen] == 0 || counts[c][Bishop] + counts[c][Knight] <= 1
  }

  /** Only the queen, bishop and knight counts decide the predicate. */
  lemma OnlyQueensAndMinorsDecide(a: map<Color, map<PieceType, int>>, b: map<Color, map<PieceType, int>>, c: Color)
    requires c in a && Queen in a[c] && Bishop in a[c] && Knight in a[c]
    requires c in b && Queen in b[c] && Bishop in b[c] && Knight in b[c]
    requires a[c][Queen] == b[c][Queen] && a[c][Bishop] == b[c][Bishop] && a[c][Knight] == b[c][Knight]
    ensures NoQueenOrAtMostOneMinorPiece(a, c) == NoQueenOrAtMostOneMinorPiece(b, c)
  {
  }

  /** A board is an endgame when both sides pass the piece test. */
  predicate IsEndgame(b: Board) {
    NoQueenOrAtMostOneMinorPiece(PieceCounts(b), White) && NoQueenOrAtMostOneMinorPiece(PieceCounts(b), Black)
  }

  /** A side passes when it has no queen, or at most one bishop or knight between them. */
  predicate SidePasses(b: Board, c: Color) {
    Count(b, Piece(Queen, c)) == 0 || Count(b, Piece(Bishop, c)) + Count(b, Piece(Knight, c)) <= 1
  }

  /** The endgame test in terms of the piece counts of the board. */
  lemma EndgameByCounts(b: Board)
    ensures IsEndgame(b) <==> SidePasses(b, White) && SidePasses(b, Black)
  {
  }

  lemma CountSnoc(s: seq<Option<Piece>>, x: Option<Piece>, p: Piece)
    ensures Count(s + [x], p) == Count(s, p) + (if x == Some(p) then 1 else 0)
  {
    assert (s + [x])[..|s|] == s;
  }

  /** Taking square `i` into the count adds its piece to exactly one count. */
  lemma CountStep(b: Board, i: nat)
    requires i < 64
    ensures forall p :: Count(b[..i + 1], p) == Count(b[..i], p) + (if b[i] == Some(p) then 1 else 0)
  {
    assert b[..i + 1] == b[..i] + [b[i]];
    forall p {
      CountSnoc(b[..i], b[i], p);
    }
  }

  /** `counts` holds, for both colours and every type, the number of such pieces in `s`. */
  predicate CountsOf(counts: map<Color, map<PieceType, int>>, s: seq<Option<Piece>>) {
    && counts.Keys == {White, Black}
    && (forall c :: c in counts ==> counts[c].Keys == AllKinds)
    && (forall c, k :: c in counts && k in counts[c] ==> counts[c][k] == Count(s, Piece(k, c)))
  }

  /** Adding a square's piece to its colour's count for its type. */
  function AddPiece(counts: map<Color, map<PieceType, int>>, x: Option<Piece>): map<Color, map<PieceType, int>>
    requires counts.Keys == {White, Black} && forall c :: c in counts ==> counts[c].Keys == AllKinds
  {
    match x
    case None => counts
    case Some(p) =>
      KindInAllKinds(p.kind);
      assert p.color in counts by { ColorInBoth(p.color); }
      counts[p.color := counts[p.color][p.kind := counts[p.color][p.kind] + 1]]
  }

  lemma CountsOfSnoc(counts: map<Color, map<PieceType, int>>, s: seq<Option<Piece>>, x: Option<Piece>)
    requires CountsOf(counts, s)
    ensures CountsOf(AddPiece(counts, x), s + [x])
  {
    var after := AddPiece(counts, x);
    if x.Some? {
      ColorInBoth(x.value.color);
    }
    assert after.Keys == counts.Keys;
    forall c | c in after
      ensures after[c].Keys == AllKinds
    {
      if x.Some? && c == x.value.color {
        KindInAllKinds(x.value.kind);
      }
    }
    forall c, k | c in after && k in after[c]
      ensures after[c][k] == Count(s + [x], Piece(k, c))
    {
      CountSnoc(s, x, Piece(k, c));
      ColorInBoth(c);
      KindInAllKinds(k);
      assert counts[c][k] == Count(s, Piece(k, c));
    }
  }

  lemma CountsOfEmpty()
    ensures CountsOf(map[White := InitializePieceCount(), Black := InitializePieceCount()], [])
  {
  }

  /** Taking square `i` of the board into the counts. */
  lemma CountsOfStep(counts: map<Color, map<PieceType, int>>, b: Board, i: nat)
    requires i < 64 && CountsOf(counts, b[..i])
    ensures CountsOf(AddPiece(counts, b[i]), b[..i + 1])
  {
    CountsOfSnoc(counts, b[..i], b[i]);
    assert b[..i + 1] == b[..i] + [b[i]];
  }

  /** Counts that are the board's decide the endgame test as the board does. */
  lemma CountsDecideEndgame(counts: map<Color, map<PieceType, int>>, b: Board)
    requires CountsOf(counts, b)
    ensures (NoQueenOrAtMostOneMinorPiece(counts, White) && NoQueenOrAtMostOneMinorPiece(counts, Black)) == IsEndgame(b)
  {
    PieceCountsAt(b, White, Queen);
    PieceCountsAt(b, White, Bishop);
    PieceCountsAt(b, White, Knight);
    PieceCountsAt(b, Black, Queen);
    PieceCountsAt(b, Black, Bishop);
    PieceCountsAt(b, Black, Knight);
  }

  /**
   * The classification loop: one pass over the squares, adding each piece to
   * its colour's count for its type, then the test on both colours.
   */
  method ComputeIsEndgame(b: Board) returns (e: bool)
    ensures e == IsEndgame(b)
  {
    var counts := map[White := InitializePieceCount(), Black := InitializePieceCount()];
    CountsOfEmpty();
    assert b[..0] == [];
    var i := 0;
    while i < 64
      invariant 0 <= i <= 64
      invariant CountsOf(counts, b[..i])
    {
      CountsOfStep(counts, b, i);
      counts := AddPiece(counts, b[i]);
      i := i + 1;
    }
    assert b[..64] == b;
    CountsDecideEndgame(counts, b);
    e := NoQueenOrAtMostOneMinorPiece(counts, White) && NoQueenOrAtMostOneMinorPiece(counts, Black);
  }

  function ColorKindTotal(s: seq<Option<Piece>>, c: Color): int {
    Count(s, Piece(Pawn, c)) + Count(s, Piece(Knight, c)) + Count(s, Piece(Bishop, c))
    + Count(s, Piece(Rook, c)) + Count(s, Piece(Queen, c)) + Count(s, Piece(King, c))
  }

  function OccupiedBy(s: seq<Option<Piece>>, c: Color): int {
    if |s| == 0 then 0
    else OccupiedBy(s[..|s| - 1], c) + (if s[|s| - 1].Some? && s[|s| - 1].value.color == c then 1 else 0)
  }

  /** A square holding a piece of colour `c` matches exactly one of that colour's six pieces. */
  lemma OneKindMatches(x: Option<Piece>, c: Color)
    ensures (if x == Some(Piece(Pawn, c)) then 1 else 0) + (if x == Some(Piece(Knight, c)) then 1 else 0)
          + (if x == Some(Piece(Bishop, c)) then 1 else 0) + (if x == Some(Piece(Rook, c)) then 1 else 0)
          + (if x == Some(Piece(Queen, c)) then 1 else 0) + (if x == Some(Piece(King, c)) then 1 else 0)
         == (if x.Some? && x.value.color == c then 1 else 0)
  {
    match x
    case None =>
    case Some(p) =>
      match p.kind
      case Pawn =>
      case Knight =>
      case Bishop =>
      case Rook =>
      case Queen =>
      case King =>
  }

  /** Each occupied square is counted once, under its colour and type. */
  lemma {:induction false} CountsCoverPieces(s: seq<Option<Piece>>, c: Color)
    ensures ColorKindTotal(s, c) == OccupiedBy(s, c)
  {
    if |s| > 0 {
      var init, x := s[..|s| - 1], s[|s| - 1];
      assert s == init + [x];
      OneKindMatches(x, c);
      CountSnoc(init, x, Piece(Pawn, c));
      CountSnoc(init, x, Piece(Knight, c));
      CountSnoc(init, x, Piece(Bishop, c));
      CountSnoc(init, x, Piece(Rook, c));
      CountSnoc(init, x, Piece(Queen, c));
      CountSnoc(init, x, Piece(King, c));
      CountsCoverPieces(init, c);
    }
  }

  // ---------------------------------------------------------------------
  // The board value.

  /** What one square adds to the value: material plus placement, signed by colour. */
  function SquareValue(x: Option<Piece>, s: Square, isEndgame: bool): int {
    match x
    case None => 0
    case Some(p) => (PieceValue(p.kind) + PositionValue(p.kind, p.color, s, isEndgame)) * ColorMultiplier(p.color)
  }

  function Terms(b: Board, isEndgame: bool): (t: seq<int>)
    ensures |t| == 64
  {
    seq(64, s requires 0 <= s < 64 => SquareValue(b[s], s, isEndgame))
  }

  lemma TermsAt(b: Board, isEndgame: bool, s: Square)
    ensures Terms(b, isEndgame)[s] == SquareValue(b[s], s, isEndgame)
  {
  }

  /** The value of a board from White's side: the sum of its squares' values. */
  function BoardValue(b: Board, isEndgame: bool): int {
    Sum(Terms(b, isEndgame))
  }

  /** The value of the first `i` squares, added up in square order. */
  function PrefixValue(b: Board, i: nat, isEndgame: bool): int
    requires i <= 64
  {
    if i == 0 then 0 else PrefixValue(b, i - 1, isEndgame) + SquareValue(b[i - 1], i - 1, isEndgame)
  }

  lemma {:induction false} PrefixValueSum(b: Board, i: nat, isEndgame: bool)
    requires i <= 64
    ensures PrefixValue(b, i, isEndgame) == Sum(Terms(b, isEndgame)[..i])
  {
    if i > 0 {
      PrefixValueSum(b, i - 1, isEndgame);
      TermsAt(b, isEndgame, i - 1);
      SumPrefix(Terms(b, isEndgame), i - 1);
    } else {
      assert Terms(b, isEndgame)[..0] == [];
    }
  }

  /** The empty board is worth 0. */
  lemma EmptyBoardValue(isEndgame: bool)
    ensures BoardValue(EmptyBoard(), isEndgame) == 0
  {
    forall s | 0 <= s < 64
      ensures Terms(EmptyBoard(), isEndgame)[s] == 0
    {
      TermsAt(EmptyBoard(), isEndgame, s);
    }
    SumZero(Terms(EmptyBoard(), isEndgame));
  }

  /** Putting `x` on square `s` changes the value by exactly that square's difference. */
  lemma BoardValueUpdate(b: Board, s: Square, x: Option<Piece>, isEndgame: bool)
    ensures BoardValue(b[s := x], isEndgame)
         == BoardValue(b, isEndgame) - SquareValue(b[s], s, isEndgame) + SquareValue(x, s, isEndgame)
  {
    var t, t' := Terms(b, isEndgame), Terms(b[s := x], isEndgame);
    forall i | 0 <= i < 64
      ensures t'[i] == t[s := SquareValue(x, s, isEndgame)][i]
    {
      TermsAt(b, isEndgame, i);
      TermsAt(b[s := x], isEndgame, i);
    }
    assert t' == t[s := SquareValue(x, s, isEndgame)];
    SumUpdate(Terms(b, isEndgame), s, SquareValue(x, s, isEndgame));
  }

  function SwapColor(x: Option<Piece>): Option<Piece> {
    match x
    case None => None
    case Some(p) => Some(Piece(p.kind, p.color.Opponent()))
  }

  /** Every piece changes colour and moves from square `s` to square `63 - s`. */
  function Mirror(b: Board): (m: Board)
    ensures forall s :: 0 <= s < 64 ==> m[s] == SwapColor(b[63 - s])
  {
    seq(64, s requires 0 <= s < 64 => SwapColor(b[63 - s]))
  }

  /** A square's value changes sign when its piece changes colour and moves to the mirrored square. */
  lemma SquareValueMirror(x: Option<Piece>, s: Square, isEndgame: bool)
    ensures SquareValue(SwapColor(x), s, isEndgame) == -SquareValue(x, 63 - s, isEndgame)
  {
    if x.Some? {
      PositionValueMirror(x.value.kind, x.value.color, 63 - s, isEndgame);
    }
  }

  /** A sequence whose entries are those of `t` negated and in reverse order sums to minus the sum of `t`. */
  lemma SumMirrored(u: seq<int>, t: seq<int>)
    requires |u| == |t| && forall i :: 0 <= i < |u| ==> u[i] == -t[|t| - 1 - i]
    ensures Sum(u) == -Sum(t)
  {
    var w := Negate(Reverse(t));
    forall i | 0 <= i < |u|
      ensures u[i] == w[i]
    {
      assert w[i] == -Reverse(t)[i];
    }
    assert u == w;
    SumNegate(Reverse(t));
    SumReverse(t);
  }

  /** Mirroring negates the value, whatever the endgame flag. */
  lemma MirrorNegatesValue(b: Board, isEndgame: bool)
    ensures BoardValue(Mirror(b), isEndgame) == -BoardValue(b, isEndgame)
  {
    var t := Terms(b, isEndgame);
    var u := Terms(Mirror(b), isEndgame);
    forall s | 0 <= s < 64
      ensures u[s] == -t[|t| - 1 - s]
    {
      TermsAt(Mirror(b), isEndgame, s);
      TermsAt(b, isEndgame, 63 - s);
      SquareValueMirror(b[63 - s], s, isEndgame);
    }
    SumMirrored(u, t);
  }

  /** Mirroring swaps the two colours' counts. */
  lemma MirrorSwapsCounts(b: Board, p: Piece)
    ensures Count(Mirror(b), p) == Count(b, Piece(p.kind, p.color.Opponent()))
  {
    var q := Piece(p.kind, p.color.Opponent());
    CountIsSum(Mirror(b), p);
    CountIsSum(b, q);
    assert Indicators(Mirror(b), p) == Reverse(Indicators(b, q));
    SumReverse(Indicators(b, q));
  }

  lemma MirrorKeepsEndgame(b: Board)
    ensures IsEndgame(Mirror(b)) == IsEndgame(b)
  {
    EndgameByCounts(b);
    EndgameByCounts(Mirror(b));
    MirrorSwapsCounts(b, Piece(Queen, White));
    MirrorSwapsCounts(b, Piece(Bishop, White));
    MirrorSwapsCounts(b, Piece(Knight, White));
    MirrorSwapsCounts(b, Piece(Queen, Black));
    MirrorSwapsCounts(b, Piece(Bishop, Black));
    MirrorSwapsCounts(b, Piece(Knight, Black));
  }

  /**
   * The evaluator's symmetry: the mirrored board, with its own endgame flag,
   * is worth exactly the negation of the original.
   */
  lemma MirrorNegatesEvaluation(b: Board)
    ensures BoardValue(Mirror(b), IsEndgame(Mirror(b))) == -BoardValue(b, IsEndgame(b))
  {
    MirrorKeepsEndgame(b);
    MirrorNegatesValue(b, IsEndgame(b));
  }

  /**
   * The engine's board: the rules library's position plus the endgame flag,
   * computed once by the constructor and read by every later evaluation.
   */
  class EngineBoard {
    const squares: Board
    const turn: Color
    const isEndgame: bool

    constructor (squares: Board, turn: Color)
      ensures this.squares == squares && this.turn == turn
      ensures isEndgame == IsEndgame(squares)
    {
      var e := ComputeIsEndgame(squares);
      this.squares := squares;
      this.turn := turn;
      this.isEndgame := e;
    }

    /** What the evaluator and the move orderer read of this board. */
    function Position(): Position {
      Chess.Position(squares, turn, isEndgame)
    }

    /** The valuation loop: one pass over the squares, adding each occupied square's value. */
    method Value() returns (v: int)
      ensures v == BoardValue(squares, isEndgame)
    {
      v := 0;
      var i := 0;
      while i < 64
        invariant 0 <= i <= 64
        invariant v == PrefixValue(squares, i, isEndgame)
      {
        ghost var before := v;
        var piece := squares[i];
        if piece.Some? {
          var value := PieceValue(piece.value.kind) + PositionValue(piece.value.kind, piece.value.color, i, isEndgame);
          v := v + value * ColorMultiplier(piece.value.color);
        }
        assert v == before + SquareValue(piece, i, isEndgame);
        assert PrefixValue(squares, i + 1, isEndgame) == PrefixValue(squares, i, isEndgame) + SquareValue(squares[i], i, isEndgame);
        i := i + 1;
      }
      PrefixValueSum(squares, 64, isEndgame);
      assert Terms(squares, isEndgame)[..64] == Terms(squares, isEndgame);
    }
  }

  // ---------------------------------------------------------------------
  // The unit test position 5k2/8/4p3/4Np2/3P4/7r/P3p3/6K1 (Black to move).

  function TestBoard(): Board {
    EmptyBoard()
      [61 := Some(Piece(King, Black))]
      [44 := Some(Piece(Pawn, Black))]
      [36 := Some(Piece(Knight, White))]
      [37 := Some(Piece(Pawn, Black))]
      [27 := Some(Piece(Pawn, White))]
      [23 := Some(Piece(Rook, Black))]
      [8 := Some(Piece(Pawn, White))]
      [12 := Some(Piece(Pawn, Black))]
      [6 := Some(Piece(King, White))]
  }

  lemma CountAbsent(b: Board, p: Piece)
    requires forall s :: 0 <= s < 64 ==> b[s] != Some(p)
    ensures Count(b, p) == 0
  {
    CountIsSum(b, p);
    SumZero(Indicators(b, p));
  }

  /** Neither side has a queen, so the test position is an endgame. */
  lemma TestBoardIsEndgame()
    ensures IsEndgame(TestBoard())
  {
    CountAbsent(TestBoard(), Piece(Queen, White));
    CountAbsent(TestBoard(), Piece(Queen, Black));
  }

  /** The test position, valued with the endgame flag it computes for itself, is worth -290. */
  lemma TestBoardValue()
    ensures BoardValue(TestBoard(), IsEndgame(TestBoard())) == -290
  {
    TestBoardIsEndgame();
    var b0 := EmptyBoard();
    EmptyBoardValue(true);
    var b1 := b0[61 := Some(Piece(King, Black))];
    BoardValueUpdate(b0, 61, Some(Piece(King, Black)), true);
    var b2 := b1[44 := Some(Piece(Pawn, Black))];
    BoardValueUpdate(b1, 44, Some(Piece(Pawn, Black)), true);
    var b3 := b2[36 := Some(Piece(Knight, White))];
    BoardValueUpdate(b2, 36, Some(Piece(Knight, White)), true);
    var b4 := b3[37 := Some(Piece(Pawn, Black))];
    BoardValueUpdate(b3, 37, Some(Piece(Pawn, Black)), true);
    var b5 := b4[27 := Some(Piece(Pawn, White))];
    BoardValueUpdate(b4, 27, Some(Piece(Pawn, White)), true);
    var b6 := b5[23 := Some(Piece(Rook, Black))];
    BoardValueUpdate(b5, 23, Some(Piece(Rook, Black)), true);
    var b7 := b6[8 := Some(Piece(Pawn, White))];
    BoardValueUpdate(b6, 8, Some(Piece(Pawn, White)), true);
    var b8 := b7[12 := Some(Piece(Pawn, Black))];
    BoardValueUpdate(b7, 12, Some(Piece(Pawn, Black)), true);
    var b9 := b8[6 := Some(Piece(King, White))];
    BoardValueUpdate(b8, 6, Some(Piece(King, White)), true);
    assert b9 == TestBoard();
    TestWhiteSquareValues();
    TestBlackSquareValues();
  }

  /** The white pieces of the test position, one by one. */
  lemma TestWhiteSquareValues()
    ensures SquareValue(Some(Piece(Knight, White)), 36, true) == 340
    ensures SquareValue(Some(Piece(Pawn, White)), 27, true) == 120
    ensures SquareValue(Some(Piece(Pawn, White)), 8, true) == 105
    ensures SquareValue(Some(Piece(King, White)), 6, true) == 19960
  {
    TableChoice(Knight, 36, true);
    TableChoice(Pawn, 27, true);
    TableChoice(Pawn, 8, true);
    TableChoice(King, 6, true);
  }

  /** A black piece is valued as the white piece on the mirrored square, negated. */
  lemma BlackSquareValue(k: PieceType, s: Square, isEndgame: bool)
    ensures SquareValue(Some(Piece(k, Black)), s, isEndgame) == -SquareValue(Some(Piece(k, White)), 63 - s, isEndgame)
  {
    SquareValueMirror(Some(Piece(k, White)), s, isEndgame);
  }

  /** The black pieces of the test position, one by one. */
  lemma TestBlackSquareValues()
    ensures SquareValue(Some(Piece(King, Black)), 61, true) == -19970
    ensures SquareValue(Some(Piece(Pawn, Black)), 44, true) == -100
    ensures SquareValue(Some(Piece(Pawn, Black)), 37, true) == -100
    ensures SquareValue(Some(Piece(Rook, Black)), 23, true) == -495
    ensures SquareValue(Some(Piece(Pawn, Black)), 12, true) == -150
  {
    BlackSquareValue(King, 61, true);
    BlackSquareValue(Pawn, 44, true);
    BlackSquareValue(Pawn, 37, true);
    BlackSquareValue(Rook, 23, true);
    BlackSquareValue(Pawn, 12, true);
    MirroredSquareValues();
  }

  /** The white counterparts of the black pieces, on the mirrored squares. */
  lemma MirroredSquareValues()
    ensures SquareValue(Some(Piece(King, White)), 2, true) == 19970
    ensures SquareValue(Some(Piece(Pawn, White)), 19, true) == 100
    ensures SquareValue(Some(Piece(Pawn, White)), 26, true) == 100
    ensures SquareValue(Some(Piece(Rook, White)), 40, true) == 495
    ensures SquareValue(Some(Piece(Pawn, White)), 51, true) == 150
  {
    TableChoice(King, 2, true);
    TableChoice(Pawn, 19, true);
    TableChoice(Pawn, 26, true);
    TableChoice(Rook, 40, true);
    TableChoice(Pawn, 51, true);
  }
}
