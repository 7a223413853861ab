/**
 * The oldest searcher (move_generator.py): a quiescence search over captures
 * and checks ordered by the older capture score, and a fail-hard alpha-beta
 * minimax over the legal moves in generator order, in which White maximises
 * and Black minimises the older evaluator's score, with the root loop that
 * picks a move.
 *
 * Pushing a move and popping it again is modelled by descending to the child
 * node. The static score is the older evaluator's board value.
 */
module LegacyMoveGenerator {
  import opened Chess
  import opened Scores
  import opened GameTree
  import opened Ordering
  import opened AlphaBeta
  import opened BoardEval
  import opened LegacyEvaluate

  /** The static score: the older evaluation of the board, White's point of view. */
  function Static(n: Node): Score {
    Fin(BoardValue(n.pos.squares, false))
  }

  // ---------------------------------------------------------------------
  // The moves quiescence searches.

  /** Whether quiescence searches move `m` at `n`: at a checkmate every move, otherwise captures and checks. */
  predicate Dequiets(n: Node, m: Move) {
    n.checkmate || m.isCapture || m.givesCheck
  }

  function DequietTest(n: Node): Move -> bool {
    m => Dequiets(n, m)
  }

  /** Each move with the key that sorts it by ascending older capture score. */
  function LostKeyed(b: Board, ms: seq<Move>): (ds: seq<Decorated>)
    ensures |ds| == |ms|
    ensures forall i :: 0 <= i < |ms| ==> ds[i] == Decorated(ms[i], SortKey(LostValue(b, ms[i]), 0))
    ensures MovesOf(ds) == ms
  {
    seq(|ms|, i requires 0 <= i < |ms| => Decorated(ms[i], SortKey(LostValue(b, ms[i]), 0)))
  }

  /** The moves quiescence searches, in generator order. */
  function DequietCandidates(n: Node): (r: seq<Move>)
    ensures forall m :: m in r <==> m in Moves(n) && Dequiets(n, m)
  {
    FilterMembers(Moves(n), DequietTest(n), true);
    Select(Moves(n), DequietTest(n))
  }

  /** The captures and checks (every move at a checkmate), lowest older capture score first. */
  function GetDequietMoves(n: Node): seq<Move> {
    MovesOf(SortBy(LostKeyed(n.pos.squares, DequietCandidates(n))))
  }

  /**
   * The dequieting moves are the candidates, each as often as it occurs,
   * sorted by ascending older capture score, with moves of equal score in
   * generator order.
   */
  lemma GetDequietMovesSpec(n: Node)
    ensures multiset(GetDequietMoves(n)) == multiset(DequietCandidates(n))
    ensures forall m :: m in GetDequietMoves(n) <==> m in Moves(n) && Dequiets(n, m)
    ensures forall i, j :: 0 <= i < j < |GetDequietMoves(n)| ==>
      LostValue(n.pos.squares, GetDequietMoves(n)[i]) <= LostValue(n.pos.squares, GetDequietMoves(n)[j])
    ensures forall k :: Filter(SortBy(LostKeyed(n.pos.squares, DequietCandidates(n))), KeyOf, k)
                     == Filter(LostKeyed(n.pos.squares, DequietCandidates(n)), KeyOf, k)
  {
    var b := n.pos.squares;
    var ds := LostKeyed(b, DequietCandidates(n));
    SortBySorted(ds);
    SortByPermutesMoves(ds);
    var r := GetDequietMoves(n);
    SameMembers(r, DequietCandidates(n));
    forall i | 0 <= i < |r|
      ensures SortBy(ds)[i].key == SortKey(LostValue(b, r[i]), 0)
    {
      assert SortBy(ds)[i] in multiset(SortBy(ds));
      var j :| 0 <= j < |ds| && ds[j] == SortBy(ds)[i];
    }
    forall k {
      SortByStable(ds, k);
    }
  }

  lemma DequietMovesOfNode(n: Node)
    ensures MovesOfNode(n, GetDequietMoves(n))
  {
    GetDequietMovesSpec(n);
  }

  // ---------------------------------------------------------------------
  // The searches.

  function QuiesceScore(n: Node, depth: int, alpha: Score, beta: Score, maximizing: bool): Score
    decreases n, 1
  {
    if n.gameOver || depth == 0 then Static(n)
    else
      var moves := GetDequietMoves(n);
      DequietMovesOfNode(n);
      if |moves| == 0 then Static(n)
      else if maximizing then QuiesceMaxLoop(n, depth, moves, 0, alpha, beta)
      else QuiesceMinLoop(n, depth, moves, 0, alpha, beta)
  }

  /** The maximizer's quiescence loop from move `i` on: alpha rises with each score, and the loop stops once it reaches beta. */
  function QuiesceMaxLoop(n: Node, depth: int, moves: seq<Move>, i: nat, alpha: Score, beta: Score): Score
    requires MovesOfNode(n, moves) && i <= |moves|
    decreases n, 0, |moves| - i
  {
    if i == |moves| then alpha
    else
      var alpha' := Max(alpha, QuiesceScore(Child(n, moves[i]), depth - 1, alpha, beta, false));
      if Le(beta, alpha') then alpha'
      else QuiesceMaxLoop(n, depth, moves, i + 1, alpha', beta)
  }

  /** The minimizer's quiescence loop from move `i` on: beta falls with each score, and the loop stops once it reaches alpha. */
  function QuiesceMinLoop(n: Node, depth: int, moves: seq<Move>, i: nat, alpha: Score, beta: Score): Score
    requires MovesOfNode(n, moves) && i <= |moves|
    decreases n, 0, |moves| - i
  {
    if i == |moves| then beta
    else
      var beta' := Min(beta, QuiesceScore(Child(n, moves[i]), depth - 1, alpha, beta, true));
      if Le(beta', alpha) then beta'
      else QuiesceMinLoop(n, depth, moves, i + 1, alpha, beta')
  }

  /** The depth quiescence is started with below the minimax horizon. */
  const QuiesceDepth := 3

  function MinimaxScore(n: Node, depth: int, alpha: Score, beta: Score, maximizing: bool): Score
    decreases n, 1
  {
    if n.variantWin && maximizing then PosInf
    else if n.variantLoss && maximizing then NegInf
    else if n.variantWin && !maximizing then NegInf
    else if n.variantLoss && !maximizing then PosInf
    else if n.gameOver then Static(n)
    else if depth == 0 then QuiesceScore(n, QuiesceDepth, alpha, beta, maximizing)
    else if maximizing then MaxLoop(n, depth, Moves(n), 0, alpha, beta)
    else MinLoop(n, depth, Moves(n), 0, alpha, beta)
  }

  /** The maximizer's minimax loop from move `i` on. */
  function MaxLoop(n: Node, depth: int, moves: seq<Move>, i: nat, alpha: Score, beta: Score): Score
    requires MovesOfNode(n, moves) && i <= |moves|
    decreases n, 0, |moves| - i
  {
    if i == |moves| then alpha
    else
      var alpha' := Max(alpha, MinimaxScore(Child(n, moves[i]), depth - 1, alpha, beta, false));
      if Le(beta, alpha') then alpha'
      else MaxLoop(n, depth, moves, i + 1, alpha', beta)
  }

  /** The minimizer's minimax loop from move `i` on. */
  function MinLoop(n: Node, depth: int, moves: seq<Move>, i: nat, alpha: Score, beta: Score): Score
    requires MovesOfNode(n, moves) && i <= |moves|
    decreases n, 0, |moves| - i
  {
    if i == |moves| then beta
    else
      var beta' := Min(beta, MinimaxScore(Child(n, moves[i]), depth - 1, alpha, beta, true));
      if Le(beta', alpha) then beta'
      else MinLoop(n, depth, moves, i + 1, alpha, beta')
  }

  /**
   * The value of playing `m`: the child searched one ply shallower with the
   * full window; `maximizing` is passed on unchanged, so the caller names the
   * side that moves at the child.
   */
  function MoveValue(n: Node, m: Move, depth: int, maximizing: bool): Score
    requires m in Moves(n)
  {
    MinimaxScore(Child(n, m), depth - 1, NegInf, PosInf, maximizing)
  }

  /** The value of each legal root move, searched for the side that replies. */
  function MoveValues(root: Node, depth: int): (vs: seq<Score>)
    ensures |vs| == |root.branches|
    ensures forall i :: 0 <= i < |vs| ==> vs[i] == MoveValue(root, Moves(root)[i], depth, root.pos.turn != White)
  {
    seq(|root.branches|, i requires 0 <= i < |root.branches| => MoveValue(root, Moves(root)[i], depth, root.pos.turn != White))
  }

  /**
   * The root choice: over the legal moves in generator order, White keeps a
   * move only when its value beats the best so far, Black only when it is
   * below it.
   */
  function NextMoveChoice(root: Node, depth: int): Option<Move> {
    var white := root.pos.turn == White;
    PickLoop(true, white, Moves(root), MoveValues(root, depth), 0, Pick(Worst(white), None)).best
  }

  // ---------------------------------------------------------------------
  // The search procedures.

  method Quiesce(n: Node, depth: int, alpha: Score, beta: Score, maximizing: bool) returns (r: Score)
    ensures r == QuiesceScore(n, depth, alpha, beta, maximizing)
    decreases n, 1
  {
    if n.gameOver || depth == 0 {
      var v := EvaluateBoard(n.pos.squares);
      return Fin(v);
    }
    var dequietMoves := GetDequietMoves(n);
    DequietMovesOfNode(n);
    if |dequietMoves| == 0 {
      var v := EvaluateBoard(n.pos.squares);
      return Fin(v);
    }
    if maximizing {
      r := QuiesceMax(n, depth, dequietMoves, alpha, beta);
    } else {
      r := QuiesceMin(n, depth, dequietMoves, alpha, beta);
    }
  }

  method QuiesceMax(n: Node, depth: int, moves: seq<Move>, alpha: Score, beta: Score) returns (a: Score)
    requires MovesOfNode(n, moves)
    ensures a == QuiesceMaxLoop(n, depth, moves, 0, alpha, beta)
    decreases n, 0
  {
    a := alpha;
    for i := 0 to |moves|
      invariant QuiesceMaxLoop(n, depth, moves, 0, alpha, beta) == QuiesceMaxLoop(n, depth, moves, i, a, beta)
    {
      var moveEval := Quiesce(Child(n, moves[i]), depth - 1, a, beta, false);
      a := Max(a, moveEval);
      if Le(beta, a) {
        return;
      }
    }
  }

  method QuiesceMin(n: Node, depth: int, moves: seq<Move>, alpha: Score, beta: Score) returns (b: Score)
    requires MovesOfNode(n, moves)
    ensures b == QuiesceMinLoop(n, depth, moves, 0, alpha, beta)
    decreases n, 0
  {
    b := beta;
    for i := 0 to |moves|
      invariant QuiesceMinLoop(n, depth, moves, 0, alpha, beta) == QuiesceMinLoop(n, depth, moves, i, alpha, b)
    {
      var moveEval := Quiesce(Child(n, moves[i]), depth - 1, alpha, b, true);
      b := Min(b, moveEval);
      if Le(b, alpha) {
        return;
      }
    }
  }

  method Minimax(n: Node, depth: int, alpha: Score, beta: Score, maximizing: bool) returns (r: Score)
    ensures r == MinimaxScore(n, depth, alpha, beta, maximizing)
    decreases n, 1
  {
    if n.variantWin && maximizing {
      return PosInf;
    } else if n.variantLoss && maximizing {
      return NegInf;
    } else if n.variantWin && !maximizing {
      return NegInf;
    } else if n.variantLoss && !maximizing {
      return PosInf;
    }
    if n.gameOver {
      var v := EvaluateBoard(n.pos.squares);
      return Fin(v);
    }
    if depth == 0 {
      r := Quiesce(n, QuiesceDepth, alpha, beta, maximizing);
      return;
    }
    var legalMoves := Moves(n);
    if maximizing {
      r := MinimaxMax(n, depth, legalMoves, alpha, beta);
    } else {
      r := MinimaxMin(n, depth, legalMoves, alpha, beta);
    }
  }

  method MinimaxMax(n: Node, depth: int, moves: seq<Move>, alpha: Score, beta: Score) returns (a: Score)
    requires MovesOfNode(n, moves)
    ensures a == MaxLoop(n, depth, moves, 0, alpha, beta)
    decreases n, 0
  {
    a := alpha;
    for i := 0 to |moves|
      invariant MaxLoop(n, depth, moves, 0, alpha, beta) == MaxLoop(n, depth, moves, i, a, beta)
    {
      var moveEval := Minimax(Child(n, moves[i]), depth - 1, a, beta, false);
      a := Max(a, moveEval);
      if Le(beta, a) {
        return;
      }
    }
  }

  method MinimaxMin(n: Node, depth: int, moves: seq<Move>, alpha: Score, beta: Score) returns (b: Score)
    requires MovesOfNode(n, moves)
    ensures b == MinLoop(n, depth, moves, 0, alpha, beta)
    decreases n, 0
  {
    b := beta;
    for i := 0 to |moves|
      invariant MinLoop(n, depth, moves, 0, alpha, beta) == MinLoop(n, depth, moves, i, alpha, b)
    {
      var moveEval := Minimax(Child(n, moves[i]), depth - 1, alpha, b, true);
      b := Min(b, moveEval);
      if Le(b, alpha) {
        return;
      }
    }
  }

  method EvaluateMove(n: Node, m: Move, depth: int, maximizing: bool) returns (v: Score)
    requires m in Moves(n)
    ensures v == MoveValue(n, m, depth, maximizing)
  {
    v := Minimax(Child(n, m), depth - 1, NegInf, PosInf, maximizing);
  }

  method NextMove(root: Node, depth: int) returns (bestMove: Option<Move>)
    ensures bestMove == NextMoveChoice(root, depth)
  {
    var color := root.pos.turn == White;
    var bestMoveValue := if color then NegInf else PosInf;
    bestMove := None;
    var legalMoves := Moves(root);
    ghost var values := MoveValues(root, depth);
    for i := 0 to |legalMoves|
      invariant PickLoop(true, color, legalMoves, values, 0, Pick(Worst(color), None))
             == PickLoop(true, color, legalMoves, values, i, Pick(bestMoveValue, bestMove))
    {
      var move := legalMoves[i];
      var moveValue := EvaluateMove(root, move, depth, !color);
      if color && Lt(bestMoveValue, moveValue) {
        bestMoveValue, bestMove := moveValue, Some(move);
      } else if !color && Lt(moveValue, bestMoveValue) {
        bestMoveValue, bestMove := moveValue, Some(move);
      }
    }
  }
}
