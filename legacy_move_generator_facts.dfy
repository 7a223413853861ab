/**
 * What the older searcher's results mean. Its loops only ever raise alpha
 * (maximizer) or lower beta (minimizer) and return it. Each is compared with
 * the same search done without cutoffs (the unpruned value), as in the newer
 * searcher, and with the full window the root loop gets the unpruned value of
 * every move. In a game without variant outcomes every value is finite, so
 * the root loop's strict comparison still finds a move whenever there is one.
 */
module LegacyMoveGeneratorFacts {
  import opened Chess
  import opened Scores
  import opened GameTree
  import opened AlphaBeta
  import opened LegacyMoveGenerator

  // ---------------------------------------------------------------------
  // Quiescence.

  /**
   * The exits before the move loop: a finished game, depth 0 and a position
   * without captures or checks all score the static evaluation.
   */
  lemma QuiesceExits(n: Node, depth: int, alpha: Score, beta: Score, maximizing: bool)
    ensures var r := QuiesceScore(n, depth, alpha, beta, maximizing);
      (n.gameOver || depth == 0 || |GetDequietMoves(n)| == 0) ==> r == Static(n)
  {
  }

  /**
   * The loops never give back less than they were handed: the maximizer's
   * result is at least alpha and the minimizer's at most beta.
   */
  lemma QuiesceKeepsBound(n: Node, depth: int, alpha: Score, beta: Score, maximizing: bool)
    ensures var r := QuiesceScore(n, depth, alpha, beta, maximizing);
      !n.gameOver && depth != 0 && |GetDequietMoves(n)| > 0 ==> (if maximizing then Le(alpha, r) else Le(r, beta))
  {
    if !n.gameOver && depth != 0 && |GetDequietMoves(n)| > 0 {
      DequietMovesOfNode(n);
      if maximizing {
        QuiesceMaxKeepsAlpha(n, depth, GetDequietMoves(n), 0, alpha, beta);
      } else {
        QuiesceMinKeepsBeta(n, depth, GetDequietMoves(n), 0, alpha, beta);
      }
    }
  }

  lemma {:induction false} QuiesceMaxKeepsAlpha(n: Node, depth: int, moves: seq<Move>, i: nat, a: Score, beta: Score)
    requires MovesOfNode(n, moves) && i <= |moves|
    ensures Le(a, QuiesceMaxLoop(n, depth, moves, i, a, beta))
    decreases |moves| - i
  {
    if i < |moves| {
      var a' := Max(a, QuiesceScore(Child(n, moves[i]), depth - 1, a, beta, false));
      if !Le(beta, a') {
        QuiesceMaxKeepsAlpha(n, depth, moves, i + 1, a', beta);
        LeTrans(a, a', QuiesceMaxLoop(n, depth, moves, i + 1, a', beta));
      }
    }
  }

  lemma {:induction false} QuiesceMinKeepsBeta(n: Node, depth: int, moves: seq<Move>, i: nat, alpha: Score, b: Score)
    requires MovesOfNode(n, moves) && i <= |moves|
    ensures Le(QuiesceMinLoop(n, depth, moves, i, alpha, b), b)
    decreases |moves| - i
  {
    if i < |moves| {
      var b' := Min(b, QuiesceScore(Child(n, moves[i]), depth - 1, alpha, b, true));
      if !Le(b', alpha) {
        QuiesceMinKeepsBeta(n, depth, moves, i + 1, alpha, b');
        LeTrans(QuiesceMinLoop(n, depth, moves, i + 1, alpha, b'), b', b);
      }
    }
  }

  /**
   * The unpruned quiescence value: past the same exits, the greatest
   * (maximizer) or least (minimizer) unpruned value over every capture and
   * check. Unlike the newer searcher, standing pat is not one of the choices.
   */
  function QuiesceValue(n: Node, depth: int, maximizing: bool): Score
    decreases n, 1
  {
    if n.gameOver || depth == 0 then Static(n)
    else
      var moves := GetDequietMoves(n);
      DequietMovesOfNode(n);
      if |moves| == 0 then Static(n)
      else if maximizing then QVMax(n, depth, moves, 0, NegInf)
      else QVMin(n, depth, moves, 0, PosInf)
  }

  function QVMax(n: Node, depth: int, moves: seq<Move>, i: nat, acc: Score): Score
    requires MovesOfNode(n, moves) && i <= |moves|
    decreases n, 0, |moves| - i
  {
    if i == |moves| then acc
    else QVMax(n, depth, moves, i + 1, Max(acc, QuiesceValue(Child(n, moves[i]), depth - 1, false)))
  }

  function QVMin(n: Node, depth: int, moves: seq<Move>, i: nat, acc: Score): Score
    requires MovesOfNode(n, moves) && i <= |moves|
    decreases n, 0, |moves| - i
  {
    if i == |moves| then acc
    else QVMin(n, depth, moves, i + 1, Min(acc, QuiesceValue(Child(n, moves[i]), depth - 1, true)))
  }

  lemma {:induction false} QVMaxGrows(n: Node, depth: int, moves: seq<Move>, i: nat, acc: Score)
    requires MovesOfNode(n, moves) && i <= |moves|
    ensures Le(acc, QVMax(n, depth, moves, i, acc))
    decreases |moves| - i
  {
    if i < |moves| {
      var acc' := Max(acc, QuiesceValue(Child(n, moves[i]), depth - 1, false));
      QVMaxGrows(n, depth, moves, i + 1, acc');
      LeTrans(acc, acc', QVMax(n, depth, moves, i + 1, acc'));
    }
  }

  lemma {:induction false} QVMinShrinks(n: Node, depth: int, moves: seq<Move>, i: nat, acc: Score)
    requires MovesOfNode(n, moves) && i <= |moves|
    ensures Le(QVMin(n, depth, moves, i, acc), acc)
    decreases |moves| - i
  {
    if i < |moves| {
      var acc' := Min(acc, QuiesceValue(Child(n, moves[i]), depth - 1, true));
      QVMinShrinks(n, depth, moves, i + 1, acc');
      LeTrans(QVMin(n, depth, moves, i + 1, acc'), acc', acc);
    }
  }

  /** Quiescence in a non-empty window bounds the unpruned quiescence value as the window says. */
  lemma QuiesceBounds(n: Node, depth: int, alpha: Score, beta: Score, maximizing: bool)
    requires Lt(alpha, beta)
    ensures WindowBounds(QuiesceScore(n, depth, alpha, beta, maximizing), QuiesceValue(n, depth, maximizing), alpha, beta)
    decreases n, 1
  {
    if !n.gameOver && depth != 0 {
      var moves := GetDequietMoves(n);
      DequietMovesOfNode(n);
      if |moves| > 0 {
        if maximizing {
          QMaxLoopBounds(n, depth, moves, 0, alpha, beta, alpha, NegInf);
        } else {
          QMinLoopBounds(n, depth, moves, 0, alpha, beta, beta, PosInf);
        }
      }
    }
  }

  /**
   * The maximizer's loop, entered with alpha raised to `a` from `alpha0` and
   * with `acc` the unpruned value of what came before: `a` stays below beta,
   * bounds `acc`, and equals it once it is above `alpha0`.
   */
  lemma QMaxLoopBounds(n: Node, depth: int, moves: seq<Move>, i: nat, alpha0: Score, beta: Score, a: Score, acc: Score)
    requires MovesOfNode(n, moves) && i <= |moves|
    requires Le(alpha0, a) && Lt(a, beta) && Le(acc, a) && (Lt(alpha0, a) ==> acc == a)
    ensures WindowBounds(QuiesceMaxLoop(n, depth, moves, i, a, beta), QVMax(n, depth, moves, i, acc), alpha0, beta)
    decreases n, 0, |moves| - i
  {
    if i < |moves| {
      var child := Child(n, moves[i]);
      var s := QuiesceScore(child, depth - 1, a, beta, false);
      var m := QuiesceValue(child, depth - 1, false);
      QuiesceBounds(child, depth - 1, a, beta, false);
      var acc' := Max(acc, m);
      FailHardMaxStep(alpha0, beta, a, acc, s, m);
      if Le(beta, s) {
        QVMaxGrows(n, depth, moves, i + 1, acc');
        LeTrans(s, acc', QVMax(n, depth, moves, i + 1, acc'));
        LeTrans(beta, s, QVMax(n, depth, moves, i + 1, acc'));
      } else {
        QMaxLoopBounds(n, depth, moves, i + 1, alpha0, beta, Max(a, s), acc');
      }
    }
  }

  /** The minimizer's loop, symmetric to the maximizer's with beta lowered to `b`. */
  lemma QMinLoopBounds(n: Node, depth: int, moves: seq<Move>, i: nat, alpha: Score, beta0: Score, b: Score, acc: Score)
    requires MovesOfNode(n, moves) && i <= |moves|
    requires Le(b, beta0) && Lt(alpha, b) && Le(b, acc) && (Lt(b, beta0) ==> acc == b)
    ensures WindowBounds(QuiesceMinLoop(n, depth, moves, i, alpha, b), QVMin(n, depth, moves, i, acc), alpha, beta0)
    decreases n, 0, |moves| - i
  {
    if i < |moves| {
      var child := Child(n, moves[i]);
      var s := QuiesceScore(child, depth - 1, alpha, b, true);
      var m := QuiesceValue(child, depth - 1, true);
      QuiesceBounds(child, depth - 1, alpha, b, true);
      var acc' := Min(acc, m);
      FailHardMinStep(alpha, beta0, b, acc, s, m);
      if Le(s, alpha) {
        QVMinShrinks(n, depth, moves, i + 1, acc');
        LeTrans(QVMin(n, depth, moves, i + 1, acc'), acc', s);
        LeTrans(QVMin(n, depth, moves, i + 1, acc'), s, alpha);
      } else {
        QMinLoopBounds(n, depth, moves, i + 1, alpha, beta0, Min(b, s), acc');
      }
    }
  }

  /** With the full window, quiescence returns the unpruned quiescence value. */
  lemma QuiesceFullWindow(n: Node, depth: int, maximizing: bool)
    ensures QuiesceScore(n, depth, NegInf, PosInf, maximizing) == QuiesceValue(n, depth, maximizing)
  {
    QuiesceBounds(n, depth, NegInf, PosInf, maximizing);
    FullWindowExact(QuiesceScore(n, depth, NegInf, PosInf, maximizing), QuiesceValue(n, depth, maximizing));
  }

  // ---------------------------------------------------------------------
  // Minimax.

  /**
   * The exits before the move loop: a variant win scores plus infinity for
   * the maximizer and minus infinity for the minimizer, a variant loss the
   * reverse, a finished game the static evaluation, and depth 0 hands the
   * same window to a quiescence search three plies deep.
   */
  lemma MinimaxExits(n: Node, depth: int, alpha: Score, beta: Score, maximizing: bool)
    ensures var r := MinimaxScore(n, depth, alpha, beta, maximizing);
      && (n.variantWin ==> r == if maximizing then PosInf else NegInf)
      && (!n.variantWin && n.variantLoss ==> r == if maximizing then NegInf else PosInf)
      && (!n.variantWin && !n.variantLoss && n.gameOver ==> r == Static(n))
      && (!n.variantWin && !n.variantLoss && !n.gameOver && depth == 0 ==>
            r == QuiesceScore(n, 3, alpha, beta, maximizing))
  {
  }

  /**
   * The unpruned minimax value: past the same exits, the unpruned quiescence
   * value at the horizon, and otherwise the greatest (maximizer) or least
   * (minimizer) value over every legal move.
   */
  function MinimaxValue(n: Node, depth: int, maximizing: bool): Score
    decreases n, 1
  {
    if n.variantWin then (if maximizing then PosInf else NegInf)
    else if n.variantLoss then (if maximizing then NegInf else PosInf)
    else if n.gameOver then Static(n)
    else if depth == 0 then QuiesceValue(n, QuiesceDepth, maximizing)
    else if maximizing then MVMax(n, depth, Moves(n), 0, NegInf)
    else MVMin(n, depth, Moves(n), 0, PosInf)
  }

  function MVMax(n: Node, depth: int, moves: seq<Move>, i: nat, acc: Score): Score
    requires MovesOfNode(n, moves) && i <= |moves|
    decreases n, 0, |moves| - i
  {
    if i == |moves| then acc
    else MVMax(n, depth, moves, i + 1, Max(acc, MinimaxValue(Child(n, moves[i]), depth - 1, false)))
  }

  function MVMin(n: Node, depth: int, moves: seq<Move>, i: nat, acc: Score): Score
    requires MovesOfNode(n, moves) && i <= |moves|
    decreases n, 0, |moves| - i
  {
    if i == |moves| then acc
    else MVMin(n, depth, moves, i + 1, Min(acc, MinimaxValue(Child(n, moves[i]), depth - 1, true)))
  }

  lemma {:induction false} MVMaxGrows(n: Node, depth: int, moves: seq<Move>, i: nat, acc: Score)
    requires MovesOfNode(n, moves) && i <= |moves|
    ensures Le(acc, MVMax(n, depth, moves, i, acc))
    decreases |moves| - i
  {
    if i < |moves| {
      var acc' := Max(acc, MinimaxValue(Child(n, moves[i]), depth - 1, false));
      MVMaxGrows(n, depth, moves, i + 1, acc');
      LeTrans(acc, acc', MVMax(n, depth, moves, i + 1, acc'));
    }
  }

  lemma {:induction false} MVMinShrinks(n: Node, depth: int, moves: seq<Move>, i: nat, acc: Score)
    requires MovesOfNode(n, moves) && i <= |moves|
    ensures Le(MVMin(n, depth, moves, i, acc), acc)
    decreases |moves| - i
  {
    if i < |moves| {
      var acc' := Min(acc, MinimaxValue(Child(n, moves[i]), depth - 1, true));
      MVMinShrinks(n, depth, moves, i + 1, acc');
      LeTrans(MVMin(n, depth, moves, i + 1, acc'), acc', acc);
    }
  }

  /** Minimax in a non-empty window bounds the unpruned minimax value as the window says. */
  lemma MinimaxBounds(n: Node, depth: int, alpha: Score, beta: Score, maximizing: bool)
    requires Lt(alpha, beta)
    ensures WindowBounds(MinimaxScore(n, depth, alpha, beta, maximizing), MinimaxValue(n, depth, maximizing), alpha, beta)
    decreases n, 1
  {
    if !n.variantWin && !n.variantLoss && !n.gameOver {
      if depth == 0 {
        QuiesceBounds(n, QuiesceDepth, alpha, beta, maximizing);
      } else if maximizing {
        MaxLoopBounds(n, depth, Moves(n), 0, alpha, beta, alpha, NegInf);
      } else {
        MinLoopBounds(n, depth, Moves(n), 0, alpha, beta, beta, PosInf);
      }
    }
  }

  /** The maximizer's minimax loop, with the same invariant as the quiescence loop. */
  lemma MaxLoopBounds(n: Node, depth: int, moves: seq<Move>, i: nat, alpha0: Score, beta: Score, a: Score, acc: Score)
    requires MovesOfNode(n, moves) && i <= |moves|
    requires Le(alpha0, a) && Lt(a, beta) && Le(acc, a) && (Lt(alpha0, a) ==> acc == a)
    ensures WindowBounds(MaxLoop(n, depth, moves, i, a, beta), MVMax(n, depth, moves, i, acc), alpha0, beta)
    decreases n, 0, |moves| - i
  {
    if i < |moves| {
      var child := Child(n, moves[i]);
      var s := MinimaxScore(child, depth - 1, a, beta, false);
      var m := MinimaxValue(child, depth - 1, false);
      MinimaxBounds(child, depth - 1, a, beta, false);
      var acc' := Max(acc, m);
      FailHardMaxStep(alpha0, beta, a, acc, s, m);
      if Le(beta, s) {
        MVMaxGrows(n, depth, moves, i + 1, acc');
        LeTrans(s, acc', MVMax(n, depth, moves, i + 1, acc'));
        LeTrans(beta, s, MVMax(n, depth, moves, i + 1, acc'));
      } else {
        MaxLoopBounds(n, depth, moves, i + 1, alpha0, beta, Max(a, s), acc');
      }
    }
  }

  /** The minimizer's minimax loop, symmetric to the maximizer's. */
  lemma MinLoopBounds(n: Node, depth: int, moves: seq<Move>, i: nat, alpha: Score, beta0: Score, b: Score, acc: Score)
    requires MovesOfNode(n, moves) && i <= |moves|
    requires Le(b, beta0) && Lt(alpha, b) && Le(b, acc) && (Lt(b, beta0) ==> acc == b)
    ensures WindowBounds(MinLoop(n, depth, moves, i, alpha, b), MVMin(n, depth, moves, i, acc), alpha, beta0)
    decreases n, 0, |moves| - i
  {
    if i < |moves| {
      var child := Child(n, moves[i]);
      var s := MinimaxScore(child, depth - 1, alpha, b, true);
      var m := MinimaxValue(child, depth - 1, true);
      MinimaxBounds(child, depth - 1, alpha, b, true);
      var acc' := Min(acc, m);
      FailHardMinStep(alpha, beta0, b, acc, s, m);
      if Le(s, alpha) {
        MVMinShrinks(n, depth, moves, i + 1, acc');
        LeTrans(MVMin(n, depth, moves, i + 1, acc'), acc', s);
        LeTrans(MVMin(n, depth, moves, i + 1, acc'), s, alpha);
      } else {
        MinLoopBounds(n, depth, moves, i + 1, alpha, beta0, Min(b, s), acc');
      }
    }
  }

  /** With the full window, minimax returns the unpruned minimax value. */
  lemma MinimaxFullWindow(n: Node, depth: int, maximizing: bool)
    ensures MinimaxScore(n, depth, NegInf, PosInf, maximizing) == MinimaxValue(n, depth, maximizing)
  {
    MinimaxBounds(n, depth, NegInf, PosInf, maximizing);
    FullWindowExact(MinimaxScore(n, depth, NegInf, PosInf, maximizing), MinimaxValue(n, depth, maximizing));
  }

  // ---------------------------------------------------------------------
  // Games without variant outcomes.

  /**
   * A tree of standard chess: no node carries a variant win or loss, and a
   * node without legal moves is a finished game.
   */
  predicate StandardGame(n: Node)
    decreases n
  {
    && !n.variantWin && !n.variantLoss
    && (|n.branches| == 0 ==> n.gameOver)
    && forall i :: 0 <= i < |n.branches| ==> StandardGame(n.branches[i].child)
  }

  /** In standard chess every unpruned quiescence value is a finite evaluation. */
  lemma QuiesceValueFinite(n: Node, depth: int, maximizing: bool)
    requires StandardGame(n)
    ensures QuiesceValue(n, depth, maximizing).Fin?
    decreases n, 1
  {
    if !n.gameOver && depth != 0 {
      var moves := GetDequietMoves(n);
      DequietMovesOfNode(n);
      if |moves| > 0 {
        if maximizing {
          QVMaxFinite(n, depth, moves, 0, NegInf);
        } else {
          QVMinFinite(n, depth, moves, 0, PosInf);
        }
      }
    }
  }

  lemma QVMaxFinite(n: Node, depth: int, moves: seq<Move>, i: nat, acc: Score)
    requires StandardGame(n) && MovesOfNode(n, moves) && i <= |moves|
    requires !acc.PosInf? && (acc.Fin? || i < |moves|)
    ensures QVMax(n, depth, moves, i, acc).Fin?
    decreases n, 0, |moves| - i
  {
    if i < |moves| {
      QuiesceValueFinite(Child(n, moves[i]), depth - 1, false);
      QVMaxFinite(n, depth, moves, i + 1, Max(acc, QuiesceValue(Child(n, moves[i]), depth - 1, false)));
    }
  }

  lemma QVMinFinite(n: Node, depth: int, moves: seq<Move>, i: nat, acc: Score)
    requires StandardGame(n) && MovesOfNode(n, moves) && i <= |moves|
    requires !acc.NegInf? && (acc.Fin? || i < |moves|)
    ensures QVMin(n, depth, moves, i, acc).Fin?
    decreases n, 0, |moves| - i
  {
    if i < |moves| {
      QuiesceValueFinite(Child(n, moves[i]), depth - 1, true);
      QVMinFinite(n, depth, moves, i + 1, Min(acc, QuiesceValue(Child(n, moves[i]), depth - 1, true)));
    }
  }

  /** In standard chess every unpruned minimax value is a finite evaluation. */
  lemma MinimaxValueFinite(n: Node, depth: int, maximizing: bool)
    requires StandardGame(n)
    ensures MinimaxValue(n, depth, maximizing).Fin?
    decreases n, 1
  {
    if !n.gameOver {
      if depth == 0 {
        QuiesceValueFinite(n, QuiesceDepth, maximizing);
      } else if maximizing {
        MVMaxFinite(n, depth, Moves(n), 0, NegInf);
      } else {
        MVMinFinite(n, depth, Moves(n), 0, PosInf);
      }
    }
  }

  lemma MVMaxFinite(n: Node, depth: int, moves: seq<Move>, i: nat, acc: Score)
    requires StandardGame(n) && MovesOfNode(n, moves) && i <= |moves|
    requires !acc.PosInf? && (acc.Fin? || i < |moves|)
    ensures MVMax(n, depth, moves, i, acc).Fin?
    decreases n, 0, |moves| - i
  {
    if i < |moves| {
      MinimaxValueFinite(Child(n, moves[i]), depth - 1, false);
      MVMaxFinite(n, depth, moves, i + 1, Max(acc, MinimaxValue(Child(n, moves[i]), depth - 1, false)));
    }
  }

  lemma MVMinFinite(n: Node, depth: int, moves: seq<Move>, i: nat, acc: Score)
    requires StandardGame(n) && MovesOfNode(n, moves) && i <= |moves|
    requires !acc.NegInf? && (acc.Fin? || i < |moves|)
    ensures MVMin(n, depth, moves, i, acc).Fin?
    decreases n, 0, |moves| - i
  {
    if i < |moves| {
      MinimaxValueFinite(Child(n, moves[i]), depth - 1, true);
      MVMinFinite(n, depth, moves, i + 1, Min(acc, MinimaxValue(Child(n, moves[i]), depth - 1, true)));
    }
  }

  // ---------------------------------------------------------------------
  // The root.

  /** The unpruned value of each legal root move, for the side that replies. */
  function UnprunedMoveValues(root: Node, depth: int): (vs: seq<Score>)
    ensures |vs| == |root.branches|
  {
    seq(|root.branches|, i requires 0 <= i < |root.branches| =>
      MinimaxValue(Child(root, Moves(root)[i]), depth - 1, root.pos.turn != White))
  }

  /** The value of a move is the unpruned value of its child, searched by the other side. */
  lemma MoveValuesAreUnpruned(root: Node, depth: int)
    ensures MoveValues(root, depth) == UnprunedMoveValues(root, depth)
  {
    forall i | 0 <= i < |root.branches|
      ensures MoveValues(root, depth)[i] == UnprunedMoveValues(root, depth)[i]
    {
      MinimaxFullWindow(Child(root, Moves(root)[i]), depth - 1, root.pos.turn != White);
    }
  }

  /**
   * The root choice: White's choice is the first legal move of greatest
   * unpruned value and Black's the first of least unpruned value; there is
   * none exactly when every move is valued at the worst score for the side
   * to move.
   */
  lemma NextMoveChoiceSpec(root: Node, depth: int)
    ensures var moves := Moves(root);
      var vs := UnprunedMoveValues(root, depth);
      var r := NextMoveChoice(root, depth);
      && (root.pos.turn == White ==> (r.None? <==> forall l :: 0 <= l < |moves| ==> vs[l] == NegInf))
      && (root.pos.turn == Black ==> (r.None? <==> forall l :: 0 <= l < |moves| ==> vs[l] == PosInf))
      && (r.Some? && root.pos.turn == White ==> exists k :: (0 <= k < |moves| && r == Some(moves[k])
            && (forall l :: 0 <= l < |moves| ==> Le(vs[l], vs[k]))
            && (forall l :: 0 <= l < k ==> Lt(vs[l], vs[k]))))
      && (r.Some? && root.pos.turn == Black ==> exists k :: (0 <= k < |moves| && r == Some(moves[k])
            && (forall l :: 0 <= l < |moves| ==> Le(vs[k], vs[l]))
            && (forall l :: 0 <= l < k ==> Lt(vs[k], vs[l]))))
  {
    var moves := Moves(root);
    var vs := UnprunedMoveValues(root, depth);
    MoveValuesAreUnpruned(root, depth);
    if root.pos.turn == White {
      PickWhiteStrict(moves, vs);
      MaxOfBounds(NegInf, vs);
    } else {
      PickBlackStrict(moves, vs);
    }
  }

  /** In standard chess the older searcher finds a move exactly when there is a legal move. */
  lemma NextMoveFoundInStandardGame(root: Node, depth: int)
    requires StandardGame(root)
    ensures NextMoveChoice(root, depth).None? <==> |root.branches| == 0
  {
    NextMoveChoiceSpec(root, depth);
    var vs := UnprunedMoveValues(root, depth);
    if |root.branches| > 0 {
      MinimaxValueFinite(Child(root, Moves(root)[0]), depth - 1, root.pos.turn != White);
      assert vs[0].Fin?;
    }
  }
}
