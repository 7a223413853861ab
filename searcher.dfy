/**
 * The negamax searcher (src/searcher.py): a fail-hard quiescence search and
 * a negamax search with alpha-beta cutoffs, both scoring from the side to
 * move, and the root call that picks a move.
 *
 * Scores are reals in the engine only because of the two infinities; here
 * they are `Score`s. The board the engine pushes moves onto and pops them off
 * again is modelled by descending to the child node, which leaves the parent
 * untouched. The static evaluator is the parameter `eval`. The search
 * functions take the two move orderings they call as parameters; the engine
 * below instantiates them with the move sorter's `PrioritizeLegalMoves` and
 * `GetMovesToDequiet`, and nothing proved here depends on more than their
 * answering with legal moves of the node.
 */
module Searcher {
  import opened Chess
  import opened Scores
  import opened GameTree
  import opened Evaluate
  import opened MoveSorter

  /**
   * What a search is run with: the static evaluator, the ordering of all
   * legal moves, the ordering of the noisy moves quiescence searches, and the
   * root depth the searcher was built with.
   */
  datatype SearchConfig = SearchConfig(
    eval: Position -> int,
    prioritize: Node --> seq<Move>,
    dequiet: Node --> seq<Move>,
    rootDepth: int)
  {
    ghost predicate Valid() {
      IsOrderer(prioritize) && IsOrderer(dequiet)
    }
  }

  /** The static score from the point of view of the side to move. */
  function StandPat(c: SearchConfig, n: Node): Score {
    Fin(c.eval(n.pos) * ColorMultiplier(n.pos.turn))
  }

  // ---------------------------------------------------------------------
  // Quiescence.

  function QuiescenceScore(c: SearchConfig, n: Node, depth: int, alpha: Score, beta: Score): Score
    requires c.Valid() && WellFormed(n)
    decreases n, 1
  {
    if n.checkmate then NegInf
    else
      var standPat := StandPat(c, n);
      if depth < -10 then standPat
      else if !n.inCheck && Le(beta, standPat) then beta
      else
        var alpha' := if n.inCheck then alpha else Max(alpha, standPat);
        var moves := c.dequiet(n);
        if |moves| == 0 then standPat
        else QLoop(c, n, depth, moves, 0, alpha', beta)
  }

  /** The quiescence move loop from move `i` on. */
  function QLoop(c: SearchConfig, n: Node, depth: int, moves: seq<Move>, i: nat, alpha: Score, beta: Score): Score
    requires c.Valid() && WellFormed(n) && MovesOfNode(n, moves) && i <= |moves|
    decreases n, 0, |moves| - i
  {
    if i == |moves| then alpha
    else
      ChildWellFormed(n, moves[i]);
      var moveEval := Neg(QuiescenceScore(c, Child(n, moves[i]), depth - 1, Neg(beta), Neg(alpha)));
      if Le(beta, moveEval) then beta
      else QLoop(c, n, depth, moves, i + 1, Max(alpha, moveEval), beta)
  }

  // ---------------------------------------------------------------------
  // Negamax.

  /** What a negamax call returns: a pair at the root, a bare score below it. */
  datatype NegamaxResult = Value(value: Score) | Pair(best: Option<Move>, value: Score)

  /** The state the negamax loop carries from one move to the next. */
  datatype NState = NState(alpha: Score, maxVal: Score, best: Option<Move>)

  function NegamaxSearch(c: SearchConfig, n: Node, depth: int, alpha: Score, beta: Score): NegamaxResult
    requires c.Valid() && WellFormed(n) && depth <= c.rootDepth
    decreases n, 1
  {
    if n.checkmate then Value(NegInf)
    else if depth == 0 then Value(QuiescenceScore(c, n, depth, alpha, beta))
    else
      var s := NLoop(c, n, depth, c.prioritize(n), 0, beta, NState(alpha, NegInf, None));
      if depth == c.rootDepth then Pair(s.best, s.maxVal) else Value(s.maxVal)
  }

  /** One step of the negamax loop: the child's score raises alpha, may become the best move, and raises the maximum. */
  function NStep(c: SearchConfig, depth: int, m: Move, moveEval: Score, s: NState): NState {
    NState(Max(s.alpha, moveEval),
           Max(s.maxVal, moveEval),
           if depth == c.rootDepth && Lt(s.maxVal, moveEval) then Some(m) else s.best)
  }

  /** The score of move `i` searched with the window (alpha, beta): the child's score in the window (-beta, -alpha), negated. */
  function NScore(c: SearchConfig, n: Node, depth: int, moves: seq<Move>, i: nat, beta: Score, alpha: Score): Score
    requires c.Valid() && WellFormed(n) && MovesOfNode(n, moves) && i < |moves| && depth <= c.rootDepth
    decreases n, 0, |moves| - i, 0
  {
    ChildWellFormed(n, moves[i]);
    Neg(NegamaxSearch(c, Child(n, moves[i]), depth - 1, Neg(beta), Neg(alpha)).value)
  }

  /** The negamax move loop from move `i` on, stopping once alpha reaches beta. */
  function NLoop(c: SearchConfig, n: Node, depth: int, moves: seq<Move>, i: nat, beta: Score, s: NState): NState
    requires c.Valid() && WellFormed(n) && MovesOfNode(n, moves) && i <= |moves| && depth <= c.rootDepth
    decreases n, 0, |moves| - i, 1
  {
    if i == |moves| then s
    else
      var s' := NStep(c, depth, moves[i], NScore(c, n, depth, moves, i, beta, s.alpha), s);
      if Le(beta, s'.alpha) then s' else NLoop(c, n, depth, moves, i + 1, beta, s')
  }

  /** One turn of the negamax loop, given the child's result for move `i`. */
  lemma NLoopAdvance(c: SearchConfig, n: Node, depth: int, moves: seq<Move>, i: nat, beta: Score, s: NState, r: NegamaxResult)
    requires c.Valid() && WellFormed(n) && MovesOfNode(n, moves) && i < |moves| && depth <= c.rootDepth
    requires WellFormed(Child(n, moves[i])) && r == NegamaxSearch(c, Child(n, moves[i]), depth - 1, Neg(beta), Neg(s.alpha))
    ensures var s' := NStep(c, depth, moves[i], Neg(r.value), s);
      NLoop(c, n, depth, moves, i, beta, s)
      == if Le(beta, s'.alpha) then s' else NLoop(c, n, depth, moves, i + 1, beta, s')
  {
  }

  // ---------------------------------------------------------------------
  // The root.

  datatype SearchOutcome =
    | Chosen(move: Move)
    /** The root search returned a bare score (a checkmated root, or depth 0), which cannot be unpacked. */
    | UnpackError
    /** No best move was found and there is no legal move to fall back on. */
    | NoMoveError

  function NextMoveChoice(c: SearchConfig, root: Node): SearchOutcome
    requires c.Valid() && WellFormed(root)
  {
    var prioritized := c.prioritize(root);
    var result := NegamaxSearch(c, root, c.rootDepth, NegInf, PosInf);
    if result.Value? then UnpackError
    else if result.best.Some? then Chosen(result.best.value)
    else if |prioritized| == 0 then NoMoveError
    else Chosen(prioritized[0])
  }

  /**
   * The searcher: the position to move in, the search depth and the static
   * evaluator, with the two move orderings it calls, fixed at construction to
   * the move sorter's.
   */
  class Engine {
    const board: Node
    const depth: int
    const eval: Position -> int
    const prioritize: Node --> seq<Move>
    const dequiet: Node --> seq<Move>

    constructor (board: Node, depth: int, eval: Position -> int)
      requires WellFormed(board)
      ensures this.board == board && this.depth == depth && this.eval == eval
      ensures prioritize == PrioritizeLegalMoves && dequiet == GetMovesToDequiet
      ensures Valid()
    {
      this.board := board;
      this.depth := depth;
      this.eval := eval;
      prioritize := PrioritizeLegalMoves;
      dequiet := GetMovesToDequiet;
      new;
      SorterOrderers();
    }

    ghost predicate Valid() {
      Config().Valid() && WellFormed(board)
    }

    /** The configuration the engine's methods search with. */
    function Config(): SearchConfig {
      SearchConfig(eval, prioritize, dequiet, depth)
    }

    method Quiescence(n: Node, depth: int, alpha: Score, beta: Score) returns (r: Score)
      requires Valid() && WellFormed(n)
      ensures r == QuiescenceScore(Config(), n, depth, alpha, beta)
      decreases n
    {
      if n.checkmate {
        return NegInf;
      }
      var standPat := StandPat(Config(), n);
      if depth < -10 {
        return standPat;
      }
      var a := alpha;
      if !n.inCheck {
        if Le(beta, standPat) {
          return beta;
        }
        a := Max(a, standPat);
      }
      var moves := dequiet(n);
      if |moves| == 0 {
        return standPat;
      }
      ghost var a0 := a;
      var i := 0;
      while i < |moves|
        invariant 0 <= i <= |moves|
        invariant QLoop(Config(), n, depth, moves, 0, a0, beta) == QLoop(Config(), n, depth, moves, i, a, beta)
      {
        var move := moves[i];
        ChildWellFormed(n, move);
        var childEval := Quiescence(Child(n, move), depth - 1, Neg(beta), Neg(a));
        var moveEval := Neg(childEval);
        if Le(beta, moveEval) {
          return beta;
        }
        a := Max(a, moveEval);
        i := i + 1;
      }
      return a;
    }

    method Negamax(n: Node, depth: int, alpha: Score, beta: Score) returns (r: NegamaxResult)
      requires Valid() && WellFormed(n) && depth <= this.depth
      ensures r == NegamaxSearch(Config(), n, depth, alpha, beta)
      decreases n, 1
    {
      if n.checkmate {
        return Value(NegInf);
      }
      if depth == 0 {
        var q := Quiescence(n, depth, alpha, beta);
        return Value(q);
      }
      var prioritizedMoves := prioritize(n);
      var maxVal, bestMove := SearchMoves(n, depth, prioritizedMoves, alpha, beta);
      if depth == this.depth {
        return Pair(bestMove, maxVal);
      }
      return Value(maxVal);
    }

    /**
     * The move loop of `Negamax`: searches each move in turn with the window
     * narrowed by the best score so far, and stops once alpha reaches beta.
     */
    method SearchMoves(n: Node, depth: int, moves: seq<Move>, alpha: Score, beta: Score) returns (maxVal: Score, bestMove: Option<Move>)
      requires Valid() && WellFormed(n) && MovesOfNode(n, moves) && depth <= this.depth
      ensures NLoop(Config(), n, depth, moves, 0, beta, NState(alpha, NegInf, None)).maxVal == maxVal
      ensures NLoop(Config(), n, depth, moves, 0, beta, NState(alpha, NegInf, None)).best == bestMove
      decreases n, 0
    {
      var a := alpha;
      maxVal, bestMove := NegInf, None;
      var i := 0;
      while i < |moves|
        invariant 0 <= i <= |moves|
        invariant NLoop(Config(), n, depth, moves, 0, beta, NState(alpha, NegInf, None))
               == NLoop(Config(), n, depth, moves, i, beta, NState(a, maxVal, bestMove))
      {
        var move := moves[i];
        ChildWellFormed(n, move);
        var child := Negamax(Child(n, move), depth - 1, Neg(beta), Neg(a));
        NLoopAdvance(Config(), n, depth, moves, i, beta, NState(a, maxVal, bestMove), child);
        var moveEval := Neg(child.value);
        a := Max(a, moveEval);
        if depth == this.depth && Lt(maxVal, moveEval) {
          bestMove := Some(move);
        }
        maxVal := Max(maxVal, moveEval);
        if Le(beta, a) {
          return;
        }
        i := i + 1;
      }
    }

    method NextMove() returns (r: SearchOutcome)
      requires Valid()
      ensures r == NextMoveChoice(Config(), board)
    {
      var prioritizedMoves := prioritize(board);
      var result := Negamax(board, depth, NegInf, PosInf);
      if result.Value? {
        return UnpackError;
      }
      var bestMove := result.best;
      if bestMove.None? {
        if |prioritizedMoves| == 0 {
          return NoMoveError;
        }
        return Chosen(prioritizedMoves[0]);
      }
      return Chosen(bestMove.value);
    }
  }
}
