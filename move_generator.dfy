/**
 * The max/min searcher (src/move_generator.py): moves split into noisy and
 * quiet ones and each half sorted by ordering value, a quiescence search and
 * an alpha-beta minimax in which White maximises and Black minimises the
 * static score, and the root loop that picks a move.
 *
 * The board the engine pushes moves onto and pops them off again is modelled
 * by descending to the child node. The static evaluator and the two move
 * orderings the searches call are the parameters gathered in `Setup`; the
 * instance `EngineSetup` uses the orderings defined here, and nothing the
 * search proofs use depends on more than their answering with legal moves.
 */
module MoveGenerator {
  import opened Chess
  import opened Scores
  import opened GameTree
  import opened Ordering
  import opened AlphaBeta
  import Evaluate
  import MoveSorter

  // ---------------------------------------------------------------------
  // Grouping moves by type.

  const NonquietType := "nonquiet"
  const QuietType := "quiet"

  /** A move is noisy when it captures or gives check. */
  predicate IsNoisy(m: Move) {
    m.isCapture || m.givesCheck
  }

  /** The group a move belongs to: noisy moves are non-quiet, all others quiet. */
  function DetermineMoveType(m: Move): (t: string)
    ensures t == NonquietType || t == QuietType
    ensures t == NonquietType <==> IsNoisy(m)
  {
    if m.isCapture || m.givesCheck then NonquietType else QuietType
  }

  /**
   * The grouping loop over a dictionary that holds exactly the two group
   * names: each element is appended to the list of its key, so each list ends
   * up holding exactly the elements with its key, in input order, and the two
   * lists together hold every element once. A key outside the two names
   * would fail the dictionary lookup, so callers must not produce one.
   */
  method GroupBy<T>(xs: seq<T>, fn: T -> string) returns (groups: map<string, seq<T>>)
    requires forall i :: 0 <= i < |xs| ==> fn(xs[i]) == NonquietType || fn(xs[i]) == QuietType
    ensures groups.Keys == {NonquietType, QuietType}
    ensures groups[NonquietType] == Filter(xs, fn, NonquietType)
    ensures groups[QuietType] == Filter(xs, fn, QuietType)
    ensures multiset(groups[NonquietType] + groups[QuietType]) == multiset(xs)
  {
    groups := map[NonquietType := [], QuietType := []];
    for i := 0 to |xs|
      invariant groups.Keys == {NonquietType, QuietType}
      invariant groups[NonquietType] == Filter(xs[..i], fn, NonquietType)
      invariant groups[QuietType] == Filter(xs[..i], fn, QuietType)
    {
      var key := fn(xs[i]);
      assert key in groups;
      FilterSnoc(xs[..i], xs[i], fn, NonquietType);
      FilterSnoc(xs[..i], xs[i], fn, QuietType);
      assert xs[..i + 1] == xs[..i] + [xs[i]];
      groups := groups[key := groups[key] + [xs[i]]];
    }
    assert xs[..|xs|] == xs;
    FilterPartition2(xs, fn, NonquietType, QuietType);
  }

  // ---------------------------------------------------------------------
  // The two orderings.

  /** The legal moves of one group, in generator order. */
  function Kind(n: Node, t: string): (r: seq<Move>)
    ensures forall m :: m in r <==> m in Moves(n) && DetermineMoveType(m) == t
  {
    FilterMembers(Moves(n), DetermineMoveType, t);
    Filter(Moves(n), DetermineMoveType, t)
  }

  /** The noisy legal moves, in generator order. */
  function Noisy(n: Node): (r: seq<Move>)
    ensures forall m :: m in r <==> m in Moves(n) && IsNoisy(m)
  {
    FilterMembers(Moves(n), IsNoisy, true);
    Select(Moves(n), IsNoisy)
  }

  lemma AllLegalOfMembers(n: Node, ms: seq<Move>)
    requires MovesLegal(n)
    requires forall m :: m in ms ==> m in Moves(n)
    ensures MoveSorter.AllLegal(n.pos, ms)
  {
    forall i | 0 <= i < |ms|
      ensures LegalOn(n.pos.squares, ms[i])
    {
      assert ms[i] in Moves(n);
    }
  }

  /** The non-quiet moves sorted by value, then the quiet moves sorted by value. */
  function PrioritizeLegalMoves(n: Node): seq<Move>
    requires MovesLegal(n)
  {
    AllLegalOfMembers(n, Kind(n, NonquietType));
    AllLegalOfMembers(n, Kind(n, QuietType));
    MoveSorter.SortMovesByValue(n.pos, Kind(n, NonquietType))
    + MoveSorter.SortMovesByValue(n.pos, Kind(n, QuietType))
  }

  /** The captures and checks, sorted by value. */
  function GetMovesToDequiet(n: Node): seq<Move>
    requires MovesLegal(n)
  {
    AllLegalOfMembers(n, Noisy(n));
    MoveSorter.SortMovesByValue(n.pos, Noisy(n))
  }

  /** Two selections that keep the same elements are equal. */
  lemma {:induction false} FilterSameTest<T, K, L>(xs: seq<T>, key: T -> K, k: K, key': T -> L, k': L)
    requires forall x :: key(x) == k <==> key'(x) == k'
    ensures Filter(xs, key, k) == Filter(xs, key', k')
  {
    if |xs| > 0 {
      FilterSameTest(xs[..|xs| - 1], key, k, key', k');
    }
  }

  /**
   * The moves searched to quieten a position are the non-quiet group sorted by
   * value, so they are exactly the first part of the prioritized moves.
   */
  lemma DequietIsNonquietPart(n: Node)
    requires MovesLegal(n)
    ensures Noisy(n) == Kind(n, NonquietType)
    ensures MoveSorter.AllLegal(n.pos, Kind(n, QuietType))
    ensures PrioritizeLegalMoves(n) == GetMovesToDequiet(n) + MoveSorter.SortMovesByValue(n.pos, Kind(n, QuietType))
  {
    FilterSameTest(Moves(n), IsNoisy, true, DetermineMoveType, NonquietType);
    AllLegalOfMembers(n, Kind(n, QuietType));
  }

  /** A sequence sorted by value, highest first, of legal moves. */
  predicate ByValue(p: Position, ms: seq<Move>)
    requires MoveSorter.AllLegal(p, ms)
  {
    forall i, j :: 0 <= i < j < |ms| ==> Evaluate.EvaluateMoveValue(p, ms[i]) >= Evaluate.EvaluateMoveValue(p, ms[j])
  }

  /**
   * The moves searched to quieten a position: each legal capture and check
   * exactly once, no quiet move, highest ordering value first.
   */
  lemma GetMovesToDequietSpec(n: Node)
    requires MovesLegal(n)
    ensures multiset(GetMovesToDequiet(n)) == multiset(Noisy(n))
    ensures forall m :: m in GetMovesToDequiet(n) <==> m in Moves(n) && IsNoisy(m)
    ensures MoveSorter.AllLegal(n.pos, GetMovesToDequiet(n)) && ByValue(n.pos, GetMovesToDequiet(n))
  {
    AllLegalOfMembers(n, Noisy(n));
    MoveSorter.SortMovesByValueSpec(n.pos, Noisy(n));
    SameMembers(GetMovesToDequiet(n), Noisy(n));
  }

  /** In noisy moves followed by quiet moves, the noisy ones are exactly those before the join. */
  lemma NoisyFirst(a: seq<Move>, b: seq<Move>)
    requires forall m :: m in a ==> IsNoisy(m)
    requires forall m :: m in b ==> !IsNoisy(m)
    ensures forall i :: 0 <= i < |a + b| ==> (IsNoisy((a + b)[i]) <==> i < |a|)
  {
    forall i | 0 <= i < |a + b|
      ensures IsNoisy((a + b)[i]) <==> i < |a|
    {
      if i < |a| {
        assert (a + b)[i] == a[i];
      } else {
        assert (a + b)[i] == b[i - |a|];
      }
    }
  }

  /** The sorted groups, each a permutation of its group; the prioritized moves are the two joined. */
  lemma SortedKinds(n: Node)
    requires MovesLegal(n)
    ensures MoveSorter.AllLegal(n.pos, Kind(n, NonquietType)) && MoveSorter.AllLegal(n.pos, Kind(n, QuietType))
    ensures multiset(MoveSorter.SortMovesByValue(n.pos, Kind(n, NonquietType))) == multiset(Kind(n, NonquietType))
    ensures multiset(MoveSorter.SortMovesByValue(n.pos, Kind(n, QuietType))) == multiset(Kind(n, QuietType))
    ensures PrioritizeLegalMoves(n)
         == MoveSorter.SortMovesByValue(n.pos, Kind(n, NonquietType)) + MoveSorter.SortMovesByValue(n.pos, Kind(n, QuietType))
  {
    AllLegalOfMembers(n, Kind(n, NonquietType));
    AllLegalOfMembers(n, Kind(n, QuietType));
    MoveSorter.SortMovesByValueSpec(n.pos, Kind(n, NonquietType));
    MoveSorter.SortMovesByValueSpec(n.pos, Kind(n, QuietType));
  }

  lemma PrioritizedPermutes(n: Node)
    requires MovesLegal(n)
    ensures multiset(PrioritizeLegalMoves(n)) == multiset(Moves(n))
  {
    SortedKinds(n);
    FilterPartition2(Moves(n), DetermineMoveType, NonquietType, QuietType);
  }

  lemma PrioritizedNoisyFirst(n: Node)
    requires MovesLegal(n)
    ensures forall i :: 0 <= i < |PrioritizeLegalMoves(n)| ==>
      (IsNoisy(PrioritizeLegalMoves(n)[i]) <==> i < |Kind(n, NonquietType)|)
  {
    SortedKinds(n);
    var a := MoveSorter.SortMovesByValue(n.pos, Kind(n, NonquietType));
    var b := MoveSorter.SortMovesByValue(n.pos, Kind(n, QuietType));
    SameMembers(a, Kind(n, NonquietType));
    SameMembers(b, Kind(n, QuietType));
    assert |a| == |Kind(n, NonquietType)| by {
      assert |multiset(a)| == |multiset(Kind(n, NonquietType))|;
    }
    NoisyFirst(a, b);
  }

  /**
   * The prioritized moves are a permutation of the legal moves in which every
   * capture or check comes before every quiet move.
   */
  lemma PrioritizeLegalMovesSpec(n: Node)
    requires MovesLegal(n)
    ensures multiset(PrioritizeLegalMoves(n)) == multiset(Moves(n))
    ensures forall m :: m in PrioritizeLegalMoves(n) <==> m in Moves(n)
    ensures forall i, j :: 0 <= i < j < |PrioritizeLegalMoves(n)| && IsNoisy(PrioritizeLegalMoves(n)[j]) ==>
      IsNoisy(PrioritizeLegalMoves(n)[i])
  {
    PrioritizedPermutes(n);
    SameMembers(PrioritizeLegalMoves(n), Moves(n));
    PrioritizedNoisyFirst(n);
  }

  /** Within the prioritized moves, each group is sorted by value, highest first. */
  lemma PrioritizedGroupsByValue(n: Node)
    requires MovesLegal(n)
    ensures MoveSorter.AllLegal(n.pos, GetMovesToDequiet(n)) && ByValue(n.pos, GetMovesToDequiet(n))
    ensures MoveSorter.AllLegal(n.pos, Kind(n, QuietType))
    ensures var q := MoveSorter.SortMovesByValue(n.pos, Kind(n, QuietType));
      MoveSorter.AllLegal(n.pos, q) && ByValue(n.pos, q)
  {
    GetMovesToDequietSpec(n);
    AllLegalOfMembers(n, Kind(n, QuietType));
    MoveSorter.SortMovesByValueSpec(n.pos, Kind(n, QuietType));
  }

  /** Both orderings answer with legal moves of the node. */
  lemma GeneratorOrderers()
    ensures IsOrderer(PrioritizeLegalMoves) && IsOrderer(GetMovesToDequiet)
  {
    forall n | WellFormed(n)
      ensures MovesOfNode(n, PrioritizeLegalMoves(n)) && MovesOfNode(n, GetMovesToDequiet(n))
    {
      PrioritizeLegalMovesSpec(n);
      GetMovesToDequietSpec(n);
    }
  }

  // ---------------------------------------------------------------------
  // The searches.

  /** The static evaluator (White's point of view) and the two move orderings the searches call. */
  datatype Setup = Setup(
    eval: Position -> int,
    prioritize: Node --> seq<Move>,
    dequiet: Node --> seq<Move>)
  {
    ghost predicate Valid() {
      IsOrderer(prioritize) && IsOrderer(dequiet)
    }
  }

  /** The engine's own setup: the given evaluator and the orderings above. */
  function EngineSetup(eval: Position -> int): (c: Setup)
    ensures c.Valid()
  {
    GeneratorOrderers();
    Setup(eval, PrioritizeLegalMoves, GetMovesToDequiet)
  }

  /** The static score; it is White's point of view at every node. */
  function StandPat(c: Setup, n: Node): Score {
    Fin(c.eval(n.pos))
  }

  function QuiescenceScore(c: Setup, n: Node, depth: int, alpha: Score, beta: Score, maximizing: bool): Score
    requires c.Valid() && WellFormed(n)
    decreases n, 1
  {
    if maximizing && n.checkmate then NegInf
    else if !maximizing && n.checkmate then PosInf
    else if n.stalemate then Fin(0)
    else
      var standPat := StandPat(c, n);
      if depth == 0 then standPat
      else if maximizing && Le(beta, standPat) then beta
      else if !maximizing && Le(standPat, alpha) then alpha
      else
        var moves := c.dequiet(n);
        if |moves| == 0 then standPat
        else if maximizing then QMaxLoop(c, n, depth, moves, 0, Max(alpha, standPat), beta)
        else QMinLoop(c, n, depth, moves, 0, alpha, Min(beta, standPat))
  }

  /** The maximizer's quiescence loop from move `i` on. */
  function QMaxLoop(c: Setup, n: Node, depth: int, moves: seq<Move>, i: nat, alpha: Score, beta: Score): Score
    requires c.Valid() && WellFormed(n) && MovesOfNode(n, moves) && i <= |moves|
    decreases n, 0, |moves| - i
  {
    if i == |moves| then alpha
    else
      ChildWellFormed(n, moves[i]);
      var score := QuiescenceScore(c, Child(n, moves[i]), depth - 1, alpha, beta, false);
      if Le(beta, score) then beta
      else if Le(beta, alpha) then alpha
      else QMaxLoop(c, n, depth, moves, i + 1, Max(alpha, score), beta)
  }

  /** The minimizer's quiescence loop from move `i` on. */
  function QMinLoop(c: Setup, n: Node, depth: int, moves: seq<Move>, i: nat, alpha: Score, beta: Score): Score
    requires c.Valid() && WellFormed(n) && MovesOfNode(n, moves) && i <= |moves|
    decreases n, 0, |moves| - i
  {
    if i == |moves| then beta
    else
      ChildWellFormed(n, moves[i]);
      var score := QuiescenceScore(c, Child(n, moves[i]), depth - 1, alpha, beta, true);
      if Le(score, alpha) then alpha
      else if Le(beta, alpha) then beta
      else QMinLoop(c, n, depth, moves, i + 1, alpha, Min(beta, score))
  }

  /** The depth quiescence is started with below the minimax horizon. */
  const QuiescenceDepth := 5

  function MinimaxScore(c: Setup, n: Node, depth: int, alpha: Score, beta: Score, maximizing: bool, quiesce: bool): Score
    requires c.Valid() && WellFormed(n)
    decreases n, 1
  {
    if maximizing && n.checkmate then NegInf
    else if !maximizing && n.checkmate then PosInf
    else if n.stalemate then Fin(0)
    else if depth == 0 then QuiescenceScore(c, n, QuiescenceDepth, NegInf, PosInf, maximizing)
    else
      var moves := if !quiesce then c.prioritize(n) else c.dequiet(n);
      if maximizing then MaxLoop(c, n, depth, quiesce, moves, 0, alpha, beta, NegInf)
      else MinLoop(c, n, depth, quiesce, moves, 0, alpha, beta, PosInf)
  }

  /** The maximizer's minimax loop from move `i` on: alpha and the best value rise with each score. */
  function MaxLoop(c: Setup, n: Node, depth: int, quiesce: bool, moves: seq<Move>, i: nat, alpha: Score, beta: Score, maxEval: Score): Score
    requires c.Valid() && WellFormed(n) && MovesOfNode(n, moves) && i <= |moves|
    decreases n, 0, |moves| - i
  {
    if i == |moves| then maxEval
    else
      ChildWellFormed(n, moves[i]);
      var moveEval := MinimaxScore(c, Child(n, moves[i]), depth - 1, alpha, beta, false, quiesce);
      var alpha', maxEval' := Max(alpha, moveEval), Max(maxEval, moveEval);
      if Le(beta, alpha') then maxEval'
      else MaxLoop(c, n, depth, quiesce, moves, i + 1, alpha', beta, maxEval')
  }

  /** The minimizer's minimax loop from move `i` on: beta and the best value fall with each score. */
  function MinLoop(c: Setup, n: Node, depth: int, quiesce: bool, moves: seq<Move>, i: nat, alpha: Score, beta: Score, minEval: Score): Score
    requires c.Valid() && WellFormed(n) && MovesOfNode(n, moves) && i <= |moves|
    decreases n, 0, |moves| - i
  {
    if i == |moves| then minEval
    else
      ChildWellFormed(n, moves[i]);
      var moveEval := MinimaxScore(c, Child(n, moves[i]), depth - 1, alpha, beta, true, quiesce);
      var beta', minEval' := Min(beta, moveEval), Min(minEval, moveEval);
      if Le(beta', alpha) then minEval'
      else MinLoop(c, n, depth, quiesce, moves, i + 1, alpha, beta', minEval')
  }

  /** The value of playing `m`: the child searched one ply shallower with the full window, by the other side. */
  function MoveValue(c: Setup, n: Node, m: Move, depth: int, maximizing: bool): Score
    requires c.Valid() && WellFormed(n) && m in Moves(n)
  {
    ChildWellFormed(n, m);
    MinimaxScore(c, Child(n, m), depth - 1, NegInf, PosInf, !maximizing, false)
  }

  /** The value of each root move, for the side to move. */
  function MoveValues(c: Setup, root: Node, depth: int, moves: seq<Move>): (vs: seq<Score>)
    requires c.Valid() && WellFormed(root) && MovesOfNode(root, moves)
    ensures |vs| == |moves|
    ensures forall i :: 0 <= i < |moves| ==> vs[i] == MoveValue(c, root, moves[i], depth, root.pos.turn == White)
  {
    seq(|moves|, i requires 0 <= i < |moves| => MoveValue(c, root, moves[i], depth, root.pos.turn == White))
  }

  /**
   * The root choice: over the prioritized moves, White keeps a move whenever
   * its value is at least the best so far, Black whenever it is at most.
   */
  function NextMoveChoice(c: Setup, root: Node, depth: int): Option<Move>
    requires c.Valid() && WellFormed(root)
  {
    var white := root.pos.turn == White;
    var moves := c.prioritize(root);
    PickLoop(false, white, moves, MoveValues(c, root, depth, moves), 0, Pick(Worst(white), None)).best
  }

  // ---------------------------------------------------------------------
  // The search procedures.

  method Quiescence(c: Setup, n: Node, depth: int, alpha: Score, beta: Score, maximizing: bool) returns (r: Score)
    requires c.Valid() && WellFormed(n)
    ensures r == QuiescenceScore(c, n, depth, alpha, beta, maximizing)
    decreases n, 1
  {
    if maximizing && n.checkmate {
      return NegInf;
    } else if !maximizing && n.checkmate {
      return PosInf;
    } else if n.stalemate {
      return Fin(0);
    }
    var standPat := StandPat(c, n);
    if depth == 0 {
      return standPat;
    }
    var a, b := alpha, beta;
    if maximizing {
      if Le(b, standPat) {
        return b;
      }
      if Lt(a, standPat) {
        a := standPat;
      }
    } else {
      if Le(standPat, a) {
        return a;
      }
      if Lt(standPat, b) {
        b := standPat;
      }
    }
    var moves := c.dequiet(n);
    if |moves| == 0 {
      return StandPat(c, n);
    }
    if maximizing {
      r := QuiescenceMax(c, n, depth, moves, a, b);
    } else {
      r := QuiescenceMin(c, n, depth, moves, a, b);
    }
  }

  /** The maximizer's quiescence loop. */
  method QuiescenceMax(c: Setup, n: Node, depth: int, moves: seq<Move>, alpha: Score, beta: Score) returns (r: Score)
    requires c.Valid() && WellFormed(n) && MovesOfNode(n, moves)
    ensures r == QMaxLoop(c, n, depth, moves, 0, alpha, beta)
    decreases n, 0
  {
    var a := alpha;
    for i := 0 to |moves|
      invariant QMaxLoop(c, n, depth, moves, 0, alpha, beta) == QMaxLoop(c, n, depth, moves, i, a, beta)
    {
      var move := moves[i];
      ChildWellFormed(n, move);
      var score := Quiescence(c, Child(n, move), depth - 1, a, beta, false);
      if Le(beta, score) {
        return beta;
      }
      if Le(beta, a) {
        return a;
      }
      a := Max(a, score);
    }
    return a;
  }

  /** The minimizer's quiescence loop. */
  method QuiescenceMin(c: Setup, n: Node, depth: int, moves: seq<Move>, alpha: Score, beta: Score) returns (r: Score)
    requires c.Valid() && WellFormed(n) && MovesOfNode(n, moves)
    ensures r == QMinLoop(c, n, depth, moves, 0, alpha, beta)
    decreases n, 0
  {
    var b := beta;
    for i := 0 to |moves|
      invariant QMinLoop(c, n, depth, moves, 0, alpha, beta) == QMinLoop(c, n, depth, moves, i, alpha, b)
    {
      var move := moves[i];
      ChildWellFormed(n, move);
      var score := Quiescence(c, Child(n, move), depth - 1, alpha, b, true);
      if Le(score, alpha) {
        return alpha;
      }
      if Le(b, alpha) {
        return b;
      }
      b := Min(b, score);
    }
    return b;
  }

  method Minimax(c: Setup, n: Node, depth: int, alpha: Score, beta: Score, maximizing: bool, quiesce: bool) returns (r: Score)
    requires c.Valid() && WellFormed(n)
    ensures r == MinimaxScore(c, n, depth, alpha, beta, maximizing, quiesce)
    decreases n, 1
  {
    if maximizing && n.checkmate {
      return NegInf;
    } else if !maximizing && n.checkmate {
      return PosInf;
    } else if n.stalemate {
      return Fin(0);
    }
    if depth == 0 {
      r := Quiescence(c, n, QuiescenceDepth, NegInf, PosInf, maximizing);
      return;
    }
    var prioritizedMoves := if !quiesce then c.prioritize(n) else c.dequiet(n);
    if maximizing {
      r := MinimaxMax(c, n, depth, quiesce, prioritizedMoves, alpha, beta);
    } else {
      r := MinimaxMin(c, n, depth, quiesce, prioritizedMoves, alpha, beta);
    }
  }

  /** The maximizer's minimax loop, stopping once alpha reaches beta. */
  method MinimaxMax(c: Setup, n: Node, depth: int, quiesce: bool, moves: seq<Move>, alpha: Score, beta: Score) returns (maxEval: Score)
    requires c.Valid() && WellFormed(n) && MovesOfNode(n, moves)
    ensures maxEval == MaxLoop(c, n, depth, quiesce, moves, 0, alpha, beta, NegInf)
    decreases n, 0
  {
    var a := alpha;
    maxEval := NegInf;
    for i := 0 to |moves|
      invariant MaxLoop(c, n, depth, quiesce, moves, 0, alpha, beta, NegInf) == MaxLoop(c, n, depth, quiesce, moves, i, a, beta, maxEval)
    {
      var move := moves[i];
      ChildWellFormed(n, move);
      var moveEval := Minimax(c, Child(n, move), depth - 1, a, beta, false, quiesce);
      a := Max(a, moveEval);
      maxEval := Max(maxEval, moveEval);
      if Le(beta, a) {
        return;
      }
    }
  }

  /** The minimizer's minimax loop, stopping once beta reaches alpha. */
  method MinimaxMin(c: Setup, n: Node, depth: int, quiesce: bool, moves: seq<Move>, alpha: Score, beta: Score) returns (minEval: Score)
    requires c.Valid() && WellFormed(n) && MovesOfNode(n, moves)
    ensures minEval == MinLoop(c, n, depth, quiesce, moves, 0, alpha, beta, PosInf)
    decreases n, 0
  {
    var b := beta;
    minEval := PosInf;
    for i := 0 to |moves|
      invariant MinLoop(c, n, depth, quiesce, moves, 0, alpha, beta, PosInf) == MinLoop(c, n, depth, quiesce, moves, i, alpha, b, minEval)
    {
      var move := moves[i];
      ChildWellFormed(n, move);
      var moveEval := Minimax(c, Child(n, move), depth - 1, alpha, b, true, quiesce);
      b := Min(b, moveEval);
      minEval := Min(minEval, moveEval);
      if Le(b, alpha) {
        return;
      }
    }
  }

  method EvaluateMove(c: Setup, n: Node, m: Move, depth: int, maximizing: bool) returns (v: Score)
    requires c.Valid() && WellFormed(n) && m in Moves(n)
    ensures v == MoveValue(c, n, m, depth, maximizing)
  {
    ChildWellFormed(n, m);
    v := Minimax(c, Child(n, m), depth - 1, NegInf, PosInf, !maximizing, false);
  }

  method NextMove(c: Setup, root: Node, depth: int) returns (bestMove: Option<Move>)
    requires c.Valid() && WellFormed(root)
    ensures bestMove == NextMoveChoice(c, root, depth)
  {
    var color := root.pos.turn == White;
    var bestMoveValue := if color then NegInf else PosInf;
    bestMove := None;
    var prioritizedMoves := c.prioritize(root);
    ghost var values := MoveValues(c, root, depth, prioritizedMoves);
    for i := 0 to |prioritizedMoves|
      invariant PickLoop(false, color, prioritizedMoves, values, 0, Pick(Worst(color), None))
             == PickLoop(false, color, prioritizedMoves, values, i, Pick(bestMoveValue, bestMove))
    {
      var move := prioritizedMoves[i];
      var moveValue := EvaluateMove(c, root, move, depth, color);
      if color && Le(bestMoveValue, moveValue) {
        bestMoveValue, bestMove := moveValue, Some(move);
      } else if !color && Le(moveValue, bestMoveValue) {
        bestMoveValue, bestMove := moveValue, Some(move);
      }
    }
  }
}
