/**
 * What the max/min searcher's results mean. Each search is compared with the
 * same search done without cutoffs over the same moves (the unpruned value):
 * a result at or below alpha bounds that value from above, one strictly
 * inside the window is that value, and one at or above beta bounds it from
 * below. With the full window, as the root move loop uses it, the search
 * therefore returns the unpruned value, and the root move is picked by it.
 */
module MoveGeneratorFacts {
  import opened Chess
  import opened Scores
  import opened GameTree
  import opened AlphaBeta
  import opened MoveGenerator

  // ---------------------------------------------------------------------
  // Quiescence.

  /**
   * The exits before the move loop: a checkmated maximizer scores minus
   * infinity and a checkmated minimizer plus infinity, stalemate scores 0,
   * depth 0 and an empty list of noisy moves score stand-pat, and a stand-pat
   * at or beyond the side's bound returns that bound.
   */
  lemma QuiescenceExits(c: Setup, n: Node, depth: int, alpha: Score, beta: Score, maximizing: bool)
    requires c.Valid() && WellFormed(n)
    ensures var r := QuiescenceScore(c, n, depth, alpha, beta, maximizing);
      && (n.checkmate ==> r == if maximizing then NegInf else PosInf)
      && (!n.checkmate && n.stalemate ==> r == Fin(0))
      && (!n.checkmate && !n.stalemate && depth == 0 ==> r == StandPat(c, n))
      && (!n.checkmate && !n.stalemate && depth != 0 && maximizing && Le(beta, StandPat(c, n)) ==> r == beta)
      && (!n.checkmate && !n.stalemate && depth != 0 && !maximizing && Le(StandPat(c, n), alpha) ==> r == alpha)
      && (!n.checkmate && !n.stalemate && depth != 0 && |c.dequiet(n)| == 0
          && (maximizing ==> Lt(StandPat(c, n), beta)) && (!maximizing ==> Lt(alpha, StandPat(c, n))) ==>
            r == StandPat(c, n))
  {
  }

  /**
   * The unpruned quiescence value: past the same exits, the side to move may
   * stand pat or play any noisy move, the maximizer taking the greatest and
   * the minimizer the least of the choices.
   */
  function QuiescenceValue(c: Setup, n: Node, depth: int, maximizing: bool): Score
    requires c.Valid() && WellFormed(n)
    decreases n, 1
  {
    if maximizing && n.checkmate then NegInf
    else if !maximizing && n.checkmate then PosInf
    else if n.stalemate then Fin(0)
    else if depth == 0 || |c.dequiet(n)| == 0 then StandPat(c, n)
    else if maximizing then QVMax(c, n, depth, c.dequiet(n), 0, StandPat(c, n))
    else QVMin(c, n, depth, c.dequiet(n), 0, StandPat(c, n))
  }

  function QVMax(c: Setup, n: Node, depth: int, moves: seq<Move>, i: nat, acc: Score): Score
    requires c.Valid() && WellFormed(n) && MovesOfNode(n, moves) && i <= |moves|
    decreases n, 0, |moves| - i
  {
    if i == |moves| then acc
    else
      ChildWellFormed(n, moves[i]);
      QVMax(c, n, depth, moves, i + 1, Max(acc, QuiescenceValue(c, Child(n, moves[i]), depth - 1, false)))
  }

  function QVMin(c: Setup, n: Node, depth: int, moves: seq<Move>, i: nat, acc: Score): Score
    requires c.Valid() && WellFormed(n) && MovesOfNode(n, moves) && i <= |moves|
    decreases n, 0, |moves| - i
  {
    if i == |moves| then acc
    else
      ChildWellFormed(n, moves[i]);
      QVMin(c, n, depth, moves, i + 1, Min(acc, QuiescenceValue(c, Child(n, moves[i]), depth - 1, true)))
  }

  lemma {:induction false} QVMaxGrows(c: Setup, n: Node, depth: int, moves: seq<Move>, i: nat, acc: Score)
    requires c.Valid() && WellFormed(n) && MovesOfNode(n, moves) && i <= |moves|
    ensures Le(acc, QVMax(c, n, depth, moves, i, acc))
    decreases |moves| - i
  {
    if i < |moves| {
      ChildWellFormed(n, moves[i]);
      var acc' := Max(acc, QuiescenceValue(c, Child(n, moves[i]), depth - 1, false));
      QVMaxGrows(c, n, depth, moves, i + 1, acc');
      LeTrans(acc, acc', QVMax(c, n, depth, moves, i + 1, acc'));
    }
  }

  lemma {:induction false} QVMinShrinks(c: Setup, n: Node, depth: int, moves: seq<Move>, i: nat, acc: Score)
    requires c.Valid() && WellFormed(n) && MovesOfNode(n, moves) && i <= |moves|
    ensures Le(QVMin(c, n, depth, moves, i, acc), acc)
    decreases |moves| - i
  {
    if i < |moves| {
      ChildWellFormed(n, moves[i]);
      var acc' := Min(acc, QuiescenceValue(c, Child(n, moves[i]), depth - 1, true));
      QVMinShrinks(c, n, depth, moves, i + 1, acc');
      LeTrans(QVMin(c, n, depth, moves, i + 1, acc'), acc', acc);
    }
  }

  /** Quiescence in a non-empty window bounds the unpruned quiescence value as the window says. */
  lemma QuiescenceBounds(c: Setup, n: Node, depth: int, alpha: Score, beta: Score, maximizing: bool)
    requires c.Valid() && WellFormed(n) && Lt(alpha, beta)
    ensures WindowBounds(QuiescenceScore(c, n, depth, alpha, beta, maximizing), QuiescenceValue(c, n, depth, maximizing), alpha, beta)
    decreases n, 1
  {
    if !n.checkmate && !n.stalemate && depth != 0 {
      var sp := StandPat(c, n);
      var moves := c.dequiet(n);
      if maximizing {
        if Le(beta, sp) {
          if |moves| > 0 {
            QVMaxGrows(c, n, depth, moves, 0, sp);
            LeTrans(beta, sp, QuiescenceValue(c, n, depth, maximizing));
          }
        } else if |moves| > 0 {
          QMaxLoopBounds(c, n, depth, moves, 0, alpha, beta, Max(alpha, sp), sp);
        }
      } else {
        if Le(sp, alpha) {
          if |moves| > 0 {
            QVMinShrinks(c, n, depth, moves, 0, sp);
            LeTrans(QuiescenceValue(c, n, depth, maximizing), sp, alpha);
          }
        } else if |moves| > 0 {
          QMinLoopBounds(c, n, depth, moves, 0, alpha, beta, Min(beta, sp), sp);
        }
      }
    }
  }

  /**
   * The maximizer's loop, entered with alpha raised to `a` from `alpha0` and
   * with `acc` the unpruned value of what came before: `a` stays below beta,
   * bounds `acc`, and equals it once it is above `alpha0`.
   */
  lemma QMaxLoopBounds(c: Setup, n: Node, depth: int, moves: seq<Move>, i: nat, alpha0: Score, beta: Score, a: Score, acc: Score)
    requires c.Valid() && WellFormed(n) && MovesOfNode(n, moves) && i <= |moves|
    requires Le(alpha0, a) && Lt(a, beta) && Le(acc, a) && (Lt(alpha0, a) ==> acc == a)
    ensures WindowBounds(QMaxLoop(c, n, depth, moves, i, a, beta), QVMax(c, n, depth, moves, i, acc), alpha0, beta)
    decreases n, 0, |moves| - i
  {
    if i < |moves| {
      ChildWellFormed(n, moves[i]);
      var child := Child(n, moves[i]);
      var s := QuiescenceScore(c, child, depth - 1, a, beta, false);
      var m := QuiescenceValue(c, child, depth - 1, false);
      QuiescenceBounds(c, child, depth - 1, a, beta, false);
      var acc' := Max(acc, m);
      FailHardMaxStep(alpha0, beta, a, acc, s, m);
      if Le(beta, s) {
        QVMaxGrows(c, n, depth, moves, i + 1, acc');
        LeTrans(beta, acc', QVMax(c, n, depth, moves, i + 1, acc'));
      } else {
        QMaxLoopBounds(c, n, depth, moves, i + 1, alpha0, beta, Max(a, s), acc');
      }
    }
  }

  /** The minimizer's loop, symmetric to the maximizer's with beta lowered to `b`. */
  lemma QMinLoopBounds(c: Setup, n: Node, depth: int, moves: seq<Move>, i: nat, alpha: Score, beta0: Score, b: Score, acc: Score)
    requires c.Valid() && WellFormed(n) && MovesOfNode(n, moves) && i <= |moves|
    requires Le(b, beta0) && Lt(alpha, b) && Le(b, acc) && (Lt(b, beta0) ==> acc == b)
    ensures WindowBounds(QMinLoop(c, n, depth, moves, i, alpha, b), QVMin(c, n, depth, moves, i, acc), alpha, beta0)
    decreases n, 0, |moves| - i
  {
    if i < |moves| {
      ChildWellFormed(n, moves[i]);
      var child := Child(n, moves[i]);
      var s := QuiescenceScore(c, child, depth - 1, alpha, b, true);
      var m := QuiescenceValue(c, child, depth - 1, true);
      QuiescenceBounds(c, child, depth - 1, alpha, b, true);
      var acc' := Min(acc, m);
      FailHardMinStep(alpha, beta0, b, acc, s, m);
      if Le(s, alpha) {
        QVMinShrinks(c, n, depth, moves, i + 1, acc');
        LeTrans(QVMin(c, n, depth, moves, i + 1, acc'), acc', alpha);
      } else {
        QMinLoopBounds(c, n, depth, moves, i + 1, alpha, beta0, Min(b, s), acc');
      }
    }
  }

  /** With the full window, quiescence returns the unpruned quiescence value. */
  lemma QuiescenceFullWindow(c: Setup, n: Node, depth: int, maximizing: bool)
    requires c.Valid() && WellFormed(n)
    ensures QuiescenceScore(c, n, depth, NegInf, PosInf, maximizing) == QuiescenceValue(c, n, depth, maximizing)
  {
    QuiescenceBounds(c, n, depth, NegInf, PosInf, maximizing);
    FullWindowExact(QuiescenceScore(c, n, depth, NegInf, PosInf, maximizing), QuiescenceValue(c, n, depth, maximizing));
  }

  // ---------------------------------------------------------------------
  // Minimax.

  /**
   * The unpruned minimax value: past the same exits, quiescence from the
   * horizon, and otherwise the greatest (maximizer) or least (minimizer)
   * value over every searched move.
   */
  function MinimaxValue(c: Setup, n: Node, depth: int, maximizing: bool, quiesce: bool): Score
    requires c.Valid() && WellFormed(n)
    decreases n, 1
  {
    if maximizing && n.checkmate then NegInf
    else if !maximizing && n.checkmate then PosInf
    else if n.stalemate then Fin(0)
    else if depth == 0 then QuiescenceValue(c, n, QuiescenceDepth, maximizing)
    else
      var moves := if !quiesce then c.prioritize(n) else c.dequiet(n);
      if maximizing then MVMax(c, n, depth, quiesce, moves, 0, NegInf)
      else MVMin(c, n, depth, quiesce, moves, 0, PosInf)
  }

  function MVMax(c: Setup, n: Node, depth: int, quiesce: bool, moves: seq<Move>, i: nat, acc: Score): Score
    requires c.Valid() && WellFormed(n) && MovesOfNode(n, moves) && i <= |moves|
    decreases n, 0, |moves| - i
  {
    if i == |moves| then acc
    else
      ChildWellFormed(n, moves[i]);
      MVMax(c, n, depth, quiesce, moves, i + 1, Max(acc, MinimaxValue(c, Child(n, moves[i]), depth - 1, false, quiesce)))
  }

  function MVMin(c: Setup, n: Node, depth: int, quiesce: bool, moves: seq<Move>, i: nat, acc: Score): Score
    requires c.Valid() && WellFormed(n) && MovesOfNode(n, moves) && i <= |moves|
    decreases n, 0, |moves| - i
  {
    if i == |moves| then acc
    else
      ChildWellFormed(n, moves[i]);
      MVMin(c, n, depth, quiesce, moves, i + 1, Min(acc, MinimaxValue(c, Child(n, moves[i]), depth - 1, true, quiesce)))
  }

  lemma {:induction false} MVMaxGrows(c: Setup, n: Node, depth: int, quiesce: bool, moves: seq<Move>, i: nat, acc: Score)
    requires c.Valid() && WellFormed(n) && MovesOfNode(n, moves) && i <= |moves|
    ensures Le(acc, MVMax(c, n, depth, quiesce, moves, i, acc))
    decreases |moves| - i
  {
    if i < |moves| {
      ChildWellFormed(n, moves[i]);
      var acc' := Max(acc, MinimaxValue(c, Child(n, moves[i]), depth - 1, false, quiesce));
      MVMaxGrows(c, n, depth, quiesce, moves, i + 1, acc');
      LeTrans(acc, acc', MVMax(c, n, depth, quiesce, moves, i + 1, acc'));
    }
  }

  lemma {:induction false} MVMinShrinks(c: Setup, n: Node, depth: int, quiesce: bool, moves: seq<Move>, i: nat, acc: Score)
    requires c.Valid() && WellFormed(n) && MovesOfNode(n, moves) && i <= |moves|
    ensures Le(MVMin(c, n, depth, quiesce, moves, i, acc), acc)
    decreases |moves| - i
  {
    if i < |moves| {
      ChildWellFormed(n, moves[i]);
      var acc' := Min(acc, MinimaxValue(c, Child(n, moves[i]), depth - 1, true, quiesce));
      MVMinShrinks(c, n, depth, quiesce, moves, i + 1, acc');
      LeTrans(MVMin(c, n, depth, quiesce, moves, i + 1, acc'), acc', acc);
    }
  }

  /** At depth 0 minimax is quiescence with its own full window, whatever window minimax was given. */
  lemma MinimaxHorizon(c: Setup, n: Node, alpha: Score, beta: Score, maximizing: bool, quiesce: bool)
    requires c.Valid() && WellFormed(n) && !n.checkmate && !n.stalemate
    ensures MinimaxScore(c, n, 0, alpha, beta, maximizing, quiesce) == QuiescenceValue(c, n, QuiescenceDepth, maximizing)
  {
    QuiescenceFullWindow(c, n, QuiescenceDepth, maximizing);
  }

  /** Minimax in a non-empty window bounds the unpruned minimax value as the window says. */
  lemma MinimaxBounds(c: Setup, n: Node, depth: int, alpha: Score, beta: Score, maximizing: bool, quiesce: bool)
    requires c.Valid() && WellFormed(n) && Lt(alpha, beta)
    ensures WindowBounds(MinimaxScore(c, n, depth, alpha, beta, maximizing, quiesce),
                         MinimaxValue(c, n, depth, maximizing, quiesce), alpha, beta)
    decreases n, 1
  {
    if !n.checkmate && !n.stalemate {
      if depth == 0 {
        MinimaxHorizon(c, n, alpha, beta, maximizing, quiesce);
      } else {
        var moves := if !quiesce then c.prioritize(n) else c.dequiet(n);
        if maximizing {
          MaxLoopBounds(c, n, depth, quiesce, moves, 0, alpha, beta, alpha, NegInf, NegInf);
        } else {
          MinLoopBounds(c, n, depth, quiesce, moves, 0, alpha, beta, beta, PosInf, PosInf);
        }
      }
    }
  }

  /**
   * The maximizer's loop, entered with best value `mv`, alpha `a` (the entry
   * alpha raised to `mv`) below beta, and `acc` the unpruned value of what
   * came before: `mv` bounds `acc`, and equals it once it is above the entry
   * alpha.
   */
  lemma MaxLoopBounds(c: Setup, n: Node, depth: int, quiesce: bool, moves: seq<Move>, i: nat,
                      alpha0: Score, beta: Score, a: Score, mv: Score, acc: Score)
    requires c.Valid() && WellFormed(n) && MovesOfNode(n, moves) && i <= |moves|
    requires a == Max(alpha0, mv) && Lt(a, beta) && Le(acc, mv) && (Lt(alpha0, mv) ==> acc == mv)
    ensures WindowBounds(MaxLoop(c, n, depth, quiesce, moves, i, a, beta, mv), MVMax(c, n, depth, quiesce, moves, i, acc), alpha0, beta)
    decreases n, 0, |moves| - i
  {
    if i < |moves| {
      ChildWellFormed(n, moves[i]);
      var child := Child(n, moves[i]);
      var s := MinimaxScore(c, child, depth - 1, a, beta, false, quiesce);
      var m := MinimaxValue(c, child, depth - 1, false, quiesce);
      MinimaxBounds(c, child, depth - 1, a, beta, false, quiesce);
      var a', mv', acc' := Max(a, s), Max(mv, s), Max(acc, m);
      FailSoftMaxStep(alpha0, beta, mv, acc, s, m);
      if Le(beta, a') {
        MVMaxGrows(c, n, depth, quiesce, moves, i + 1, acc');
        LeTrans(mv', acc', MVMax(c, n, depth, quiesce, moves, i + 1, acc'));
      } else {
        MaxLoopBounds(c, n, depth, quiesce, moves, i + 1, alpha0, beta, a', mv', acc');
      }
    }
  }

  /** The minimizer's loop, symmetric to the maximizer's with beta lowered to `b`. */
  lemma MinLoopBounds(c: Setup, n: Node, depth: int, quiesce: bool, moves: seq<Move>, i: nat,
                      alpha: Score, beta0: Score, b: Score, mv: Score, acc: Score)
    requires c.Valid() && WellFormed(n) && MovesOfNode(n, moves) && i <= |moves|
    requires b == Min(beta0, mv) && Lt(alpha, b) && Le(mv, acc) && (Lt(mv, beta0) ==> acc == mv)
    ensures WindowBounds(MinLoop(c, n, depth, quiesce, moves, i, alpha, b, mv), MVMin(c, n, depth, quiesce, moves, i, acc), alpha, beta0)
    decreases n, 0, |moves| - i
  {
    if i < |moves| {
      ChildWellFormed(n, moves[i]);
      var child := Child(n, moves[i]);
      var s := MinimaxScore(c, child, depth - 1, alpha, b, true, quiesce);
      var m := MinimaxValue(c, child, depth - 1, true, quiesce);
      MinimaxBounds(c, child, depth - 1, alpha, b, true, quiesce);
      var b', mv', acc' := Min(b, s), Min(mv, s), Min(acc, m);
      FailSoftMinStep(alpha, beta0, mv, acc, s, m);
      if Le(b', alpha) {
        MVMinShrinks(c, n, depth, quiesce, moves, i + 1, acc');
        LeTrans(MVMin(c, n, depth, quiesce, moves, i + 1, acc'), acc', mv');
      } else {
        MinLoopBounds(c, n, depth, quiesce, moves, i + 1, alpha, beta0, b', mv', acc');
      }
    }
  }

  /** With the full window, minimax returns the unpruned minimax value. */
  lemma MinimaxFullWindow(c: Setup, n: Node, depth: int, maximizing: bool, quiesce: bool)
    requires c.Valid() && WellFormed(n)
    ensures MinimaxScore(c, n, depth, NegInf, PosInf, maximizing, quiesce) == MinimaxValue(c, n, depth, maximizing, quiesce)
  {
    MinimaxBounds(c, n, depth, NegInf, PosInf, maximizing, quiesce);
    FullWindowExact(MinimaxScore(c, n, depth, NegInf, PosInf, maximizing, quiesce), MinimaxValue(c, n, depth, maximizing, quiesce));
  }

  // ---------------------------------------------------------------------
  // The root.

  /** The unpruned value of each root move, for the side to move. */
  function UnprunedMoveValues(c: Setup, root: Node, depth: int, moves: seq<Move>): (vs: seq<Score>)
    requires c.Valid() && WellFormed(root) && MovesOfNode(root, moves)
    ensures |vs| == |moves|
  {
    seq(|moves|, i requires 0 <= i < |moves| =>
      ChildWellFormed(root, moves[i]);
      MinimaxValue(c, Child(root, moves[i]), depth - 1, root.pos.turn != White, false))
  }

  /** The value of a move is the unpruned value of its child, searched by the other side. */
  lemma MoveValuesAreUnpruned(c: Setup, root: Node, depth: int, moves: seq<Move>)
    requires c.Valid() && WellFormed(root) && MovesOfNode(root, moves)
    ensures MoveValues(c, root, depth, moves) == UnprunedMoveValues(c, root, depth, moves)
  {
    forall i | 0 <= i < |moves|
      ensures MoveValues(c, root, depth, moves)[i] == UnprunedMoveValues(c, root, depth, moves)[i]
    {
      ChildWellFormed(root, moves[i]);
      MinimaxFullWindow(c, Child(root, moves[i]), depth - 1, root.pos.turn != White, false);
    }
  }

  /**
   * The root choice: no move exactly when there is no prioritized move;
   * otherwise White's choice is the last prioritized move of greatest
   * unpruned value and Black's the last of least unpruned value.
   */
  lemma NextMoveChoiceSpec(c: Setup, root: Node, depth: int)
    requires c.Valid() && WellFormed(root)
    ensures var moves := c.prioritize(root);
      var vs := UnprunedMoveValues(c, root, depth, moves);
      var r := NextMoveChoice(c, root, depth);
      && (r.None? <==> |moves| == 0)
      && (r.Some? && root.pos.turn == White ==> exists k :: (0 <= k < |moves| && r == Some(moves[k])
            && (forall l :: 0 <= l < |moves| ==> Le(vs[l], vs[k]))
            && (forall l :: k < l < |moves| ==> Lt(vs[l], vs[k]))))
      && (r.Some? && root.pos.turn == Black ==> exists k :: (0 <= k < |moves| && r == Some(moves[k])
            && (forall l :: 0 <= l < |moves| ==> Le(vs[k], vs[l]))
            && (forall l :: k < l < |moves| ==> Lt(vs[k], vs[l]))))
  {
    var moves := c.prioritize(root);
    var vs := UnprunedMoveValues(c, root, depth, moves);
    MoveValuesAreUnpruned(c, root, depth, moves);
    if root.pos.turn == White {
      PickWhiteLoose(moves, vs);
      MaxOfBounds(NegInf, vs);
    } else {
      PickBlackLoose(moves, vs);
    }
  }
}
