/**
 * What the negamax searcher's results mean: the early exits of quiescence and
 * negamax, the fail-hard window of the quiescence loop, the scores the negamax
 * loop explores before a cutoff, and how the best value and the best move are
 * drawn from them. Both searches are then compared with the same searches done
 * without cutoffs over the same moves (the unpruned values): in a non-empty
 * window they bound those values as the window says, so the root call, made
 * with the full window, returns the unpruned value of the root and picks the
 * first move that reaches it.
 */
module SearcherFacts {
  import opened Chess
  import opened Scores
  import opened GameTree
  import opened Evaluate
  import opened MoveSorter
  import opened AlphaBeta
  import opened Searcher

  // ---------------------------------------------------------------------
  // Quiescence.

  /** The stand-pat score is the static score as seen by the side to move. */
  lemma StandPatPerspective(c: SearchConfig, n: Node)
    ensures n.pos.turn == White ==> StandPat(c, n) == Fin(c.eval(n.pos))
    ensures n.pos.turn == Black ==> StandPat(c, n) == Fin(-c.eval(n.pos))
  {
  }

  /**
   * The exits before the move loop: a checkmated side scores minus infinity,
   * the depth floor and an empty list of noisy moves score stand-pat, and a
   * side not in check whose stand-pat reaches beta fails high with beta.
   */
  lemma QuiescenceExits(c: SearchConfig, n: Node, depth: int, alpha: Score, beta: Score)
    requires c.Valid() && WellFormed(n)
    ensures n.checkmate ==> QuiescenceScore(c, n, depth, alpha, beta) == NegInf
    ensures !n.checkmate && depth < -10 ==> QuiescenceScore(c, n, depth, alpha, beta) == StandPat(c, n)
    ensures !n.checkmate && depth >= -10 && !n.inCheck && Le(beta, StandPat(c, n)) ==>
      QuiescenceScore(c, n, depth, alpha, beta) == beta
    ensures !n.checkmate && depth >= -10 && (n.inCheck || Lt(StandPat(c, n), beta)) && |c.dequiet(n)| == 0 ==>
      QuiescenceScore(c, n, depth, alpha, beta) == StandPat(c, n)
  {
  }

  /**
   * The quiescence loop is fail-hard: it returns beta as soon as a move
   * reaches it, and otherwise the raised alpha, which is at least the alpha it
   * started from and stays below beta.
   */
  lemma {:induction false} QLoopFailHard(c: SearchConfig, n: Node, depth: int, moves: seq<Move>, i: nat, alpha: Score, beta: Score)
    requires c.Valid() && WellFormed(n) && MovesOfNode(n, moves) && i <= |moves|
    requires Lt(alpha, beta)
    ensures QLoop(c, n, depth, moves, i, alpha, beta) == beta
         || (Le(alpha, QLoop(c, n, depth, moves, i, alpha, beta)) && Lt(QLoop(c, n, depth, moves, i, alpha, beta), beta))
    decreases |moves| - i
  {
    if i < |moves| {
      ChildWellFormed(n, moves[i]);
      var moveEval := Neg(QuiescenceScore(c, Child(n, moves[i]), depth - 1, Neg(beta), Neg(alpha)));
      if !Le(beta, moveEval) {
        var a := Max(alpha, moveEval);
        QLoopFailHard(c, n, depth, moves, i + 1, a, beta);
        var r := QLoop(c, n, depth, moves, i + 1, a, beta);
        if r != beta {
          LeTrans(alpha, a, r);
        }
      }
    }
  }

  /**
   * Once quiescence reaches its move loop with a non-empty window, its score is
   * beta or lies in [alpha, beta); a side not in check never scores below its
   * stand-pat there.
   */
  lemma QuiescenceWindow(c: SearchConfig, n: Node, depth: int, alpha: Score, beta: Score)
    requires c.Valid() && WellFormed(n) && !n.checkmate && depth >= -10 && Lt(alpha, beta)
    requires |c.dequiet(n)| > 0
    ensures var r := QuiescenceScore(c, n, depth, alpha, beta);
      r == beta || (Le(alpha, r) && Lt(r, beta) && (!n.inCheck ==> Le(StandPat(c, n), r)))
  {
    var sp := StandPat(c, n);
    var moves := c.dequiet(n);
    if n.inCheck {
      QLoopFailHard(c, n, depth, moves, 0, alpha, beta);
    } else if !Le(beta, sp) {
      var a := Max(alpha, sp);
      QLoopFailHard(c, n, depth, moves, 0, a, beta);
      var r := QLoop(c, n, depth, moves, 0, a, beta);
      if r != beta {
        LeTrans(alpha, a, r);
        LeTrans(sp, a, r);
      }
    }
  }

  // ---------------------------------------------------------------------
  // Negamax.

  /**
   * A checkmated side scores minus infinity, depth zero is quiescence with the
   * same window, only the root call returns a pair, and a node with no legal
   * move (that is not checkmate) scores minus infinity at any positive depth.
   */
  lemma NegamaxExits(c: SearchConfig, n: Node, depth: int, alpha: Score, beta: Score)
    requires c.Valid() && WellFormed(n) && depth <= c.rootDepth
    ensures n.checkmate ==> NegamaxSearch(c, n, depth, alpha, beta) == Value(NegInf)
    ensures !n.checkmate && depth == 0 ==>
      NegamaxSearch(c, n, depth, alpha, beta) == Value(QuiescenceScore(c, n, 0, alpha, beta))
    ensures depth != c.rootDepth ==> NegamaxSearch(c, n, depth, alpha, beta).Value?
    ensures !n.checkmate && depth != 0 && |n.branches| == 0 ==>
      NegamaxSearch(c, n, depth, alpha, beta).value == NegInf
  {
  }

  // ---------------------------------------------------------------------
  // The negamax move loop over abstract child scores.
  //
  // What the loop does with the scores does not depend on where they come
  // from, so it is first stated over any scorer: the score of move `j` when it
  // is searched with alpha `a` is `f(j, a)`.

  /** The negamax loop over `moves` from move `i` on, with child scores drawn from `f`. */
  function WLoop(f: (nat, Score) -> Score, c: SearchConfig, depth: int, moves: seq<Move>, i: nat, beta: Score, s: NState): NState
    requires i <= |moves|
    decreases |moves| - i
  {
    if i == |moves| then s
    else
      var s' := NStep(c, depth, moves[i], f(i, s.alpha), s);
      if Le(beta, s'.alpha) then s' else WLoop(f, c, depth, moves, i + 1, beta, s')
  }

  /** The scores that loop draws, in order, up to and including the first that lifts alpha to beta. */
  function WExplored(f: (nat, Score) -> Score, len: nat, i: nat, beta: Score, alpha: Score): (es: seq<Score>)
    requires i <= len
    ensures |es| <= len - i
    decreases len - i
  {
    if i == len then []
    else
      var e := f(i, alpha);
      [e] + if Le(beta, Max(alpha, e)) then [] else WExplored(f, len, i + 1, beta, Max(alpha, e))
  }

  /** Score `j` of the loop is drawn with alpha raised by every score before it. */
  lemma {:induction false} WExploredScore(f: (nat, Score) -> Score, len: nat, i: nat, beta: Score, alpha: Score, j: nat)
    requires i <= len && j < |WExplored(f, len, i, beta, alpha)|
    ensures var es := WExplored(f, len, i, beta, alpha);
      es[j] == f(i + j, MaxOf(alpha, es[..j]))
    decreases j
  {
    var es := WExplored(f, len, i, beta, alpha);
    var e := f(i, alpha);
    if j == 0 {
      assert es[..0] == [];
    } else {
      var a := Max(alpha, e);
      var rest := WExplored(f, len, i + 1, beta, a);
      assert es == [e] + rest;
      WExploredScore(f, len, i + 1, beta, a, j - 1);
      MaxOfPrefixCons(alpha, e, rest, j);
      assert es[j] == rest[j - 1];
    }
  }

  lemma {:induction false} WExploredCutoff(f: (nat, Score) -> Score, len: nat, i: nat, beta: Score, alpha: Score)
    requires i <= len
    ensures var es := WExplored(f, len, i, beta, alpha);
      && (i < len ==> |es| > 0)
      && (forall j :: 1 <= j < |es| ==> Lt(MaxOf(alpha, es[..j]), beta))
      && (|es| < len - i ==> Le(beta, MaxOf(alpha, es)))
    decreases len - i
  {
    var es := WExplored(f, len, i, beta, alpha);
    if |es| > 0 {
      var e := es[0];
      var a := Max(alpha, e);
      if Le(beta, a) {
        MaxOfCons(alpha, e, []);
      } else {
        var rest := WExplored(f, len, i + 1, beta, a);
        assert es == [e] + rest;
        WExploredCutoff(f, len, i + 1, beta, a);
        MaxOfCons(alpha, e, rest);
        forall j | 1 <= j < |es|
          ensures Lt(MaxOf(alpha, es[..j]), beta)
        {
          MaxOfPrefixCons(alpha, e, rest, j);
          if j == 1 {
            assert rest[..0] == [];
          }
        }
      }
    }
  }

  lemma {:induction false} WLoopResult(f: (nat, Score) -> Score, c: SearchConfig, depth: int, moves: seq<Move>, i: nat, beta: Score, s: NState)
    requires i <= |moves|
    ensures var r := WLoop(f, c, depth, moves, i, beta, s);
      var es := WExplored(f, |moves|, i, beta, s.alpha);
      var k := LastRise(s.maxVal, es);
      && r.alpha == MaxOf(s.alpha, es)
      && r.maxVal == MaxOf(s.maxVal, es)
      && r.best == if depth == c.rootDepth && k >= 0 then Some(moves[i + k]) else s.best
    decreases |moves| - i
  {
    if i < |moves| {
      var e := f(i, s.alpha);
      var s' := NStep(c, depth, moves[i], e, s);
      var es := WExplored(f, |moves|, i, beta, s.alpha);
      if Le(beta, s'.alpha) {
        assert es == [e] && es[1..] == [];
        MaxOfCons(s.alpha, e, []);
        MaxOfCons(s.maxVal, e, []);
      } else {
        var rest := WExplored(f, |moves|, i + 1, beta, s'.alpha);
        assert es == [e] + rest && es[1..] == rest;
        WLoopResult(f, c, depth, moves, i + 1, beta, s');
        MaxOfCons(s.alpha, e, rest);
        MaxOfCons(s.maxVal, e, rest);
      }
    }
  }

  // ---------------------------------------------------------------------
  // The negamax move loop itself.

  /** The child scores of the negamax loop: move `j` searched with the window (alpha, beta). */
  function Scorer(c: SearchConfig, n: Node, depth: int, moves: seq<Move>, beta: Score): (nat, Score) -> Score
    requires c.Valid() && WellFormed(n) && MovesOfNode(n, moves) && depth <= c.rootDepth
  {
    (j: nat, a: Score) => if j < |moves| then NScore(c, n, depth, moves, j, beta, a) else NegInf
  }

  /** The negamax loop is the loop over its own child scores. */
  lemma {:induction false} NLoopIsWLoop(c: SearchConfig, n: Node, depth: int, moves: seq<Move>, i: nat, beta: Score, s: NState)
    requires c.Valid() && WellFormed(n) && MovesOfNode(n, moves) && i <= |moves| && depth <= c.rootDepth
    ensures NLoop(c, n, depth, moves, i, beta, s) == WLoop(Scorer(c, n, depth, moves, beta), c, depth, moves, i, beta, s)
    decreases |moves| - i
  {
    if i < |moves| {
      var f := Scorer(c, n, depth, moves, beta);
      var s' := NStep(c, depth, moves[i], NScore(c, n, depth, moves, i, beta, s.alpha), s);
      assert f(i, s.alpha) == NScore(c, n, depth, moves, i, beta, s.alpha);
      if !Le(beta, s'.alpha) {
        NLoopIsWLoop(c, n, depth, moves, i + 1, beta, s');
      }
    }
  }

  /**
   * The scores the negamax loop sees from move `i` on, when alpha is `alpha`
   * on entry: each move's score in the window narrowed by the scores before
   * it, up to and including the first that lifts alpha to beta.
   */
  function Explored(c: SearchConfig, n: Node, depth: int, moves: seq<Move>, i: nat, beta: Score, alpha: Score): (es: seq<Score>)
    requires c.Valid() && WellFormed(n) && MovesOfNode(n, moves) && i <= |moves| && depth <= c.rootDepth
  {
    WExplored(Scorer(c, n, depth, moves, beta), |moves|, i, beta, alpha)
  }

  /** Explored score `j` is move `i + j` searched with alpha raised by every score explored before it. */
  lemma ExploredScore(c: SearchConfig, n: Node, depth: int, moves: seq<Move>, i: nat, beta: Score, alpha: Score, j: nat)
    requires c.Valid() && WellFormed(n) && MovesOfNode(n, moves) && i <= |moves| && depth <= c.rootDepth
    requires j < |Explored(c, n, depth, moves, i, beta, alpha)|
    ensures var es := Explored(c, n, depth, moves, i, beta, alpha);
      i + j < |moves| && es[j] == NScore(c, n, depth, moves, i + j, beta, MaxOf(alpha, es[..j]))
  {
    var f := Scorer(c, n, depth, moves, beta);
    var es := Explored(c, n, depth, moves, i, beta, alpha);
    assert es == WExplored(f, |moves|, i, beta, alpha);
    WExploredScore(f, |moves|, i, beta, alpha, j);
  }

  /**
   * The loop goes on while alpha stays below beta, and leaves moves unsearched
   * only once alpha has reached beta; it searches at least one move when there
   * is one.
   */
  lemma ExploredCutoff(c: SearchConfig, n: Node, depth: int, moves: seq<Move>, i: nat, beta: Score, alpha: Score)
    requires c.Valid() && WellFormed(n) && MovesOfNode(n, moves) && i <= |moves| && depth <= c.rootDepth
    ensures var es := Explored(c, n, depth, moves, i, beta, alpha);
      && |es| <= |moves| - i
      && (i < |moves| ==> |es| > 0)
      && (forall j :: 1 <= j < |es| ==> Lt(MaxOf(alpha, es[..j]), beta))
      && (|es| < |moves| - i ==> Le(beta, MaxOf(alpha, es)))
  {
    var f := Scorer(c, n, depth, moves, beta);
    assert Explored(c, n, depth, moves, i, beta, alpha) == WExplored(f, |moves|, i, beta, alpha);
    WExploredCutoff(f, |moves|, i, beta, alpha);
  }

  /**
   * The loop state after the last searched move, in terms of the explored
   * scores: alpha and the best value are running maxima over them, the best
   * move is left alone below the root, and at the root it is the move at
   * which the best value last rose strictly (left alone if it never rose).
   */
  lemma NLoopResult(c: SearchConfig, n: Node, depth: int, moves: seq<Move>, i: nat, beta: Score, s: NState)
    requires c.Valid() && WellFormed(n) && MovesOfNode(n, moves) && i <= |moves| && depth <= c.rootDepth
    ensures var r := NLoop(c, n, depth, moves, i, beta, s);
      var es := Explored(c, n, depth, moves, i, beta, s.alpha);
      var k := LastRise(s.maxVal, es);
      && r.alpha == MaxOf(s.alpha, es)
      && r.maxVal == MaxOf(s.maxVal, es)
      && i + k < |moves|
      && r.best == if depth == c.rootDepth && k >= 0 then Some(moves[i + k]) else s.best
  {
    var f := Scorer(c, n, depth, moves, beta);
    NLoopIsWLoop(c, n, depth, moves, i, beta, s);
    WLoopResult(f, c, depth, moves, i, beta, s);
    var r := WLoop(f, c, depth, moves, i, beta, s);
    var es := WExplored(f, |moves|, i, beta, s.alpha);
    assert Explored(c, n, depth, moves, i, beta, s.alpha) == es;
    assert NLoop(c, n, depth, moves, i, beta, s) == r;
  }

  // ---------------------------------------------------------------------
  // The root.

  /**
   * The root search: past a checkmate and depth zero, it returns the first
   * move (in prioritized order) whose score is the best score, or none when
   * every searched move scores minus infinity; the best score is the greatest
   * searched score.
   */
  lemma RootSearch(c: SearchConfig, root: Node)
    requires c.Valid() && WellFormed(root) && !root.checkmate && c.rootDepth != 0
    ensures var moves := c.prioritize(root);
      var es := Explored(c, root, c.rootDepth, moves, 0, PosInf, NegInf);
      var r := NegamaxSearch(c, root, c.rootDepth, NegInf, PosInf);
      && r.Pair?
      && r.value == MaxOf(NegInf, es)
      && (r.best.None? <==> r.value == NegInf)
      && (r.best.Some? ==> exists j :: 0 <= j < |es| && r.best == Some(moves[j]) && es[j] == r.value
                                       && forall k :: 0 <= k < j ==> Lt(es[k], es[j]))
  {
    var moves := c.prioritize(root);
    var es := Explored(c, root, c.rootDepth, moves, 0, PosInf, NegInf);
    NLoopResult(c, root, c.rootDepth, moves, 0, PosInf, NState(NegInf, NegInf, None));
    LastRiseSpec(NegInf, es);
    var k := LastRise(NegInf, es);
    if k >= 0 {
      assert 0 + k == k;
    }
  }

  /**
   * What the root call ends in: an unpacking error exactly when the root is
   * checkmate or the depth is zero; no move exactly when, otherwise, the
   * ordering offers no move, which for the engine's ordering means the root
   * has no legal move; otherwise the move the root search found, or the
   * first prioritized move when it found none; and any chosen move is a legal
   * move of the root.
   */
  lemma NextMoveOutcome(c: SearchConfig, root: Node)
    requires c.Valid() && WellFormed(root)
    ensures NextMoveChoice(c, root) == UnpackError <==> root.checkmate || c.rootDepth == 0
    ensures NextMoveChoice(c, root) == NoMoveError <==> !root.checkmate && c.rootDepth != 0 && |c.prioritize(root)| == 0
    ensures c.prioritize == PrioritizeLegalMoves ==>
      (NextMoveChoice(c, root) == NoMoveError <==> !root.checkmate && c.rootDepth != 0 && |root.branches| == 0)
    ensures NextMoveChoice(c, root).Chosen? ==> NextMoveChoice(c, root).move in Moves(root)
    ensures !root.checkmate && c.rootDepth != 0 ==>
      var best := NegamaxSearch(c, root, c.rootDepth, NegInf, PosInf).best;
      && (best.Some? ==> NextMoveChoice(c, root) == Chosen(best.value))
      && (best.None? && |c.prioritize(root)| > 0 ==> NextMoveChoice(c, root) == Chosen(c.prioritize(root)[0]))
  {
    var moves := c.prioritize(root);
    if !root.checkmate && c.rootDepth != 0 {
      RootSearch(c, root);
      if |moves| > 0 {
        assert moves[0] in moves;
      }
    }
    if c.prioritize == PrioritizeLegalMoves {
      PrioritizeLegalMovesSpec(root);
      assert |moves| == |Moves(root)| by {
        assert |multiset(moves)| == |multiset(Moves(root))|;
      }
    }
  }

  // ---------------------------------------------------------------------
  // The unpruned search.

  /** A child's bounds in the window (-beta, -alpha), negated, are bounds in the window (alpha, beta). */
  lemma NegWindow(r: Score, v: Score, alpha: Score, beta: Score)
    requires WindowBounds(r, v, Neg(beta), Neg(alpha))
    ensures WindowBounds(Neg(r), Neg(v), alpha, beta)
  {
    NegFlipsOrder(r, Neg(alpha));
    NegFlipsOrder(Neg(beta), r);
    NegFlipsOrder(v, r);
    NegFlipsOrder(r, v);
    NegTwice(alpha);
    NegTwice(beta);
  }

  /**
   * The unpruned quiescence value: past the same exits, the side to move
   * takes the greatest of the negated values of its noisy moves, and may also
   * stand pat when it is not in check.
   */
  function QuiescenceValue(c: SearchConfig, n: Node, depth: int): Score
    requires c.Valid() && WellFormed(n)
    decreases n, 1
  {
    if n.checkmate then NegInf
    else if depth < -10 || |c.dequiet(n)| == 0 then StandPat(c, n)
    else QVLoop(c, n, depth, c.dequiet(n), 0, if n.inCheck then NegInf else StandPat(c, n))
  }

  function QVLoop(c: SearchConfig, n: Node, depth: int, moves: seq<Move>, i: nat, acc: Score): Score
    requires c.Valid() && WellFormed(n) && MovesOfNode(n, moves) && i <= |moves|
    decreases n, 0, |moves| - i
  {
    if i == |moves| then acc
    else
      ChildWellFormed(n, moves[i]);
      QVLoop(c, n, depth, moves, i + 1, Max(acc, Neg(QuiescenceValue(c, Child(n, moves[i]), depth - 1))))
  }

  lemma {:induction false} QVLoopGrows(c: SearchConfig, n: Node, depth: int, moves: seq<Move>, i: nat, acc: Score)
    requires c.Valid() && WellFormed(n) && MovesOfNode(n, moves) && i <= |moves|
    ensures Le(acc, QVLoop(c, n, depth, moves, i, acc))
    decreases |moves| - i
  {
    if i < |moves| {
      ChildWellFormed(n, moves[i]);
      var acc' := Max(acc, Neg(QuiescenceValue(c, Child(n, moves[i]), depth - 1)));
      QVLoopGrows(c, n, depth, moves, i + 1, acc');
      LeTrans(acc, acc', QVLoop(c, n, depth, moves, i + 1, acc'));
    }
  }

  /** Quiescence in a non-empty window bounds the unpruned quiescence value as the window says. */
  lemma QuiescenceBounds(c: SearchConfig, n: Node, depth: int, alpha: Score, beta: Score)
    requires c.Valid() && WellFormed(n) && Lt(alpha, beta)
    ensures WindowBounds(QuiescenceScore(c, n, depth, alpha, beta), QuiescenceValue(c, n, depth), alpha, beta)
    decreases n, 1
  {
    if !n.checkmate && depth >= -10 {
      var sp := StandPat(c, n);
      var moves := c.dequiet(n);
      if |moves| > 0 {
        if n.inCheck {
          QLoopBounds(c, n, depth, moves, 0, alpha, beta, alpha, NegInf);
        } else if Le(beta, sp) {
          QVLoopGrows(c, n, depth, moves, 0, sp);
          LeTrans(beta, sp, QuiescenceValue(c, n, depth));
        } else {
          QLoopBounds(c, n, depth, moves, 0, alpha, beta, Max(alpha, sp), sp);
        }
      }
    }
  }

  /**
   * The quiescence loop, entered with alpha raised to `a` from `alpha0` and
   * with `acc` the unpruned value of what came before: `a` stays below beta,
   * bounds `acc`, and equals it once it is above `alpha0`.
   */
  lemma QLoopBounds(c: SearchConfig, n: Node, depth: int, moves: seq<Move>, i: nat, alpha0: Score, beta: Score, a: Score, acc: Score)
    requires c.Valid() && WellFormed(n) && MovesOfNode(n, moves) && i <= |moves|
    requires Le(alpha0, a) && Lt(a, beta) && Le(acc, a) && (Lt(alpha0, a) ==> acc == a)
    ensures WindowBounds(QLoop(c, n, depth, moves, i, a, beta), QVLoop(c, n, depth, moves, i, acc), alpha0, beta)
    decreases n, 0, |moves| - i
  {
    if i < |moves| {
      ChildWellFormed(n, moves[i]);
      var child := Child(n, moves[i]);
      var r := QuiescenceScore(c, child, depth - 1, Neg(beta), Neg(a));
      var v := QuiescenceValue(c, child, depth - 1);
      NegFlipsOrder(beta, a);
      QuiescenceBounds(c, child, depth - 1, Neg(beta), Neg(a));
      NegWindow(r, v, a, beta);
      var s, m := Neg(r), Neg(v);
      var acc' := Max(acc, m);
      FailHardMaxStep(alpha0, beta, a, acc, s, m);
      if Le(beta, s) {
        QVLoopGrows(c, n, depth, moves, i + 1, acc');
        LeTrans(beta, acc', QVLoop(c, n, depth, moves, i + 1, acc'));
      } else {
        QLoopBounds(c, n, depth, moves, i + 1, alpha0, beta, Max(a, s), acc');
      }
    }
  }

  /** With the full window, quiescence returns the unpruned quiescence value. */
  lemma QuiescenceFullWindow(c: SearchConfig, n: Node, depth: int)
    requires c.Valid() && WellFormed(n)
    ensures QuiescenceScore(c, n, depth, NegInf, PosInf) == QuiescenceValue(c, n, depth)
  {
    QuiescenceBounds(c, n, depth, NegInf, PosInf);
    FullWindowExact(QuiescenceScore(c, n, depth, NegInf, PosInf), QuiescenceValue(c, n, depth));
  }

  /**
   * The unpruned negamax value: past the same exits, the greatest of the
   * negated values of every prioritized move, and minus infinity when there
   * is none.
   */
  function NegamaxValue(c: SearchConfig, n: Node, depth: int): Score
    requires c.Valid() && WellFormed(n)
    decreases n, 1
  {
    if n.checkmate then NegInf
    else if depth == 0 then QuiescenceValue(c, n, 0)
    else NVLoop(c, n, depth, c.prioritize(n), 0, NegInf)
  }

  function NVLoop(c: SearchConfig, n: Node, depth: int, moves: seq<Move>, i: nat, acc: Score): Score
    requires c.Valid() && WellFormed(n) && MovesOfNode(n, moves) && i <= |moves|
    decreases n, 0, |moves| - i
  {
    if i == |moves| then acc
    else
      ChildWellFormed(n, moves[i]);
      NVLoop(c, n, depth, moves, i + 1, Max(acc, Neg(NegamaxValue(c, Child(n, moves[i]), depth - 1))))
  }

  lemma {:induction false} NVLoopGrows(c: SearchConfig, n: Node, depth: int, moves: seq<Move>, i: nat, acc: Score)
    requires c.Valid() && WellFormed(n) && MovesOfNode(n, moves) && i <= |moves|
    ensures Le(acc, NVLoop(c, n, depth, moves, i, acc))
    decreases |moves| - i
  {
    if i < |moves| {
      ChildWellFormed(n, moves[i]);
      var acc' := Max(acc, Neg(NegamaxValue(c, Child(n, moves[i]), depth - 1)));
      NVLoopGrows(c, n, depth, moves, i + 1, acc');
      LeTrans(acc, acc', NVLoop(c, n, depth, moves, i + 1, acc'));
    }
  }

  /** Negamax in a non-empty window bounds the unpruned negamax value as the window says. */
  lemma NegamaxBounds(c: SearchConfig, n: Node, depth: int, alpha: Score, beta: Score)
    requires c.Valid() && WellFormed(n) && depth <= c.rootDepth && Lt(alpha, beta)
    ensures WindowBounds(NegamaxSearch(c, n, depth, alpha, beta).value, NegamaxValue(c, n, depth), alpha, beta)
    decreases n, 1
  {
    if !n.checkmate {
      if depth == 0 {
        QuiescenceBounds(c, n, 0, alpha, beta);
      } else {
        NLoopBounds(c, n, depth, c.prioritize(n), 0, alpha, beta, NState(alpha, NegInf, None), NegInf);
      }
    }
  }

  /**
   * The negamax loop, entered with best value `s.maxVal`, alpha `s.alpha`
   * (the entry alpha raised to the best value) below beta, and `acc` the
   * unpruned value of what came before: the best value bounds `acc`, and
   * equals it once it is above the entry alpha.
   */
  lemma NLoopBounds(c: SearchConfig, n: Node, depth: int, moves: seq<Move>, i: nat, alpha0: Score, beta: Score, s: NState, acc: Score)
    requires c.Valid() && WellFormed(n) && MovesOfNode(n, moves) && i <= |moves| && depth <= c.rootDepth
    requires s.alpha == Max(alpha0, s.maxVal) && Lt(s.alpha, beta)
    requires Le(acc, s.maxVal) && (Lt(alpha0, s.maxVal) ==> acc == s.maxVal)
    ensures WindowBounds(NLoop(c, n, depth, moves, i, beta, s).maxVal, NVLoop(c, n, depth, moves, i, acc), alpha0, beta)
    decreases n, 0, |moves| - i
  {
    if i < |moves| {
      ChildWellFormed(n, moves[i]);
      var child := Child(n, moves[i]);
      var r := NegamaxSearch(c, child, depth - 1, Neg(beta), Neg(s.alpha)).value;
      var v := NegamaxValue(c, child, depth - 1);
      NegFlipsOrder(beta, s.alpha);
      NegamaxBounds(c, child, depth - 1, Neg(beta), Neg(s.alpha));
      NegWindow(r, v, s.alpha, beta);
      var e, m := Neg(r), Neg(v);
      assert e == NScore(c, n, depth, moves, i, beta, s.alpha);
      FailSoftMaxStep(alpha0, beta, s.maxVal, acc, e, m);
      var s' := NStep(c, depth, moves[i], e, s);
      var acc' := Max(acc, m);
      if Le(beta, s'.alpha) {
        NVLoopGrows(c, n, depth, moves, i + 1, acc');
        LeTrans(s'.maxVal, acc', NVLoop(c, n, depth, moves, i + 1, acc'));
      } else {
        NLoopBounds(c, n, depth, moves, i + 1, alpha0, beta, s', acc');
      }
    }
  }

  /** With the full window, negamax returns the unpruned negamax value. */
  lemma NegamaxFullWindow(c: SearchConfig, n: Node, depth: int)
    requires c.Valid() && WellFormed(n) && depth <= c.rootDepth
    ensures NegamaxSearch(c, n, depth, NegInf, PosInf).value == NegamaxValue(c, n, depth)
  {
    NegamaxBounds(c, n, depth, NegInf, PosInf);
    FullWindowExact(NegamaxSearch(c, n, depth, NegInf, PosInf).value, NegamaxValue(c, n, depth));
  }

  // ---------------------------------------------------------------------
  // The root, against the unpruned values.

  /** The unpruned score of each move for the side to move at `n`: its child's unpruned value, negated. */
  function ChildValues(c: SearchConfig, n: Node, depth: int, moves: seq<Move>): (vs: seq<Score>)
    requires c.Valid() && WellFormed(n) && MovesOfNode(n, moves)
    ensures |vs| == |moves|
  {
    seq(|moves|, j requires 0 <= j < |moves| =>
      ChildWellFormed(n, moves[j]);
      Neg(NegamaxValue(c, Child(n, moves[j]), depth - 1)))
  }

  /** The unpruned loop is the running maximum of the move values. */
  lemma {:induction false} NVLoopIsMaxOf(c: SearchConfig, n: Node, depth: int, moves: seq<Move>, i: nat, acc: Score)
    requires c.Valid() && WellFormed(n) && MovesOfNode(n, moves) && i <= |moves|
    ensures NVLoop(c, n, depth, moves, i, acc) == MaxOf(acc, ChildValues(c, n, depth, moves)[i..])
    decreases |moves| - i
  {
    var vs := ChildValues(c, n, depth, moves);
    if i < |moves| {
      ChildWellFormed(n, moves[i]);
      NVLoopIsMaxOf(c, n, depth, moves, i + 1, Max(acc, vs[i]));
      assert vs[i..][1..] == vs[i + 1..];
    }
  }

  /**
   * Past a checkmate and depth zero, the unpruned negamax value is the
   * greatest of the move values, and minus infinity when there is no move.
   */
  lemma NegamaxValueIsBestMoveValue(c: SearchConfig, n: Node, depth: int)
    requires c.Valid() && WellFormed(n) && !n.checkmate && depth != 0
    ensures NegamaxValue(c, n, depth) == MaxOf(NegInf, ChildValues(c, n, depth, c.prioritize(n)))
  {
    var vs := ChildValues(c, n, depth, c.prioritize(n));
    NVLoopIsMaxOf(c, n, depth, c.prioritize(n), 0, NegInf);
    assert vs[0..] == vs;
  }

  /** The score of move `k` searched with the window (alpha, beta) meets that window against its unpruned value. */
  lemma NScoreWindow(c: SearchConfig, n: Node, depth: int, moves: seq<Move>, k: nat, alpha: Score, beta: Score)
    requires c.Valid() && WellFormed(n) && MovesOfNode(n, moves) && k < |moves| && depth <= c.rootDepth
    requires Lt(alpha, beta)
    ensures WindowBounds(NScore(c, n, depth, moves, k, beta, alpha), ChildValues(c, n, depth, moves)[k], alpha, beta)
  {
    ChildWellFormed(n, moves[k]);
    var child := Child(n, moves[k]);
    NegFlipsOrder(beta, alpha);
    NegamaxBounds(c, child, depth - 1, Neg(beta), Neg(alpha));
    NegWindow(NegamaxSearch(c, child, depth - 1, Neg(beta), Neg(alpha)).value,
              NegamaxValue(c, child, depth - 1), alpha, beta);
  }

  /** Explored root score `k` meets the window it was searched with against its move's unpruned value. */
  lemma ExploredWindow(c: SearchConfig, root: Node, k: nat)
    requires c.Valid() && WellFormed(root) && c.rootDepth != 0
    requires var es := Explored(c, root, c.rootDepth, c.prioritize(root), 0, PosInf, NegInf);
      k < |es| && Lt(MaxOf(NegInf, es[..k]), PosInf)
    ensures var moves := c.prioritize(root);
      var es := Explored(c, root, c.rootDepth, moves, 0, PosInf, NegInf);
      k < |moves| && WindowBounds(es[k], ChildValues(c, root, c.rootDepth, moves)[k], MaxOf(NegInf, es[..k]), PosInf)
  {
    var moves := c.prioritize(root);
    var es := Explored(c, root, c.rootDepth, moves, 0, PosInf, NegInf);
    ExploredScore(c, root, c.rootDepth, moves, 0, PosInf, NegInf, k);
    NScoreWindow(c, root, c.rootDepth, moves, k, MaxOf(NegInf, es[..k]), PosInf);
  }

  /**
   * Against a score `ej` above the alpha `ak` a move was searched with: a
   * search result below `ej` means an unpruned value below `ej`, and a result
   * equal to `ej` is the unpruned value.
   */
  lemma RiseAgainstValue(ek: Score, vk: Score, ak: Score, ej: Score)
    requires WindowBounds(ek, vk, ak, PosInf) && Lt(ak, ej)
    ensures Lt(ek, ej) ==> Lt(vk, ej)
    ensures ek == ej ==> vk == ej
  {
  }

  /** Before the first score that reaches the maximum, the running maximum stays below it. */
  lemma PrefixMaxBelow(es: seq<Score>, j: nat, k: nat)
    requires k <= j < |es| && es[j] != NegInf && forall l :: 0 <= l < j ==> Lt(es[l], es[j])
    ensures Lt(MaxOf(NegInf, es[..k]), es[j])
  {
    var ak := MaxOf(NegInf, es[..k]);
    MaxOfBounds(NegInf, es[..k]);
    if ak != NegInf {
      assert ak in es[..k];
      var l :| 0 <= l < k && es[..k][l] == ak;
      assert es[l] == ak;
    }
  }

  /**
   * Explored root score `k`, at or before the score `j` that first reached
   * the root's best score: the one at `j` is the unpruned value of its move,
   * and every one before it belongs to a move of smaller unpruned value.
   */
  lemma ExploredAgainstValue(c: SearchConfig, root: Node, j: nat, k: nat)
    requires c.Valid() && WellFormed(root) && c.rootDepth != 0
    requires var es := Explored(c, root, c.rootDepth, c.prioritize(root), 0, PosInf, NegInf);
      && k <= j < |es| && es[j] != NegInf && forall l :: 0 <= l < j ==> Lt(es[l], es[j])
    ensures var moves := c.prioritize(root);
      var es := Explored(c, root, c.rootDepth, moves, 0, PosInf, NegInf);
      var vs := ChildValues(c, root, c.rootDepth, moves);
      j < |moves| && (k < j ==> Lt(vs[k], es[j])) && (k == j ==> vs[j] == es[j])
  {
    var moves := c.prioritize(root);
    var es := Explored(c, root, c.rootDepth, moves, 0, PosInf, NegInf);
    ExploredCutoff(c, root, c.rootDepth, moves, 0, PosInf, NegInf);
    PrefixMaxBelow(es, j, k);
    ExploredWindow(c, root, k);
    RiseAgainstValue(es[k], ChildValues(c, root, c.rootDepth, moves)[k], MaxOf(NegInf, es[..k]), es[j]);
  }

  /**
   * The root search against the unpruned values: its score is the unpruned
   * value of the root, the greatest of the move values; it names no move
   * exactly when that value is minus infinity; and otherwise it names the
   * first prioritized move whose unpruned value reaches it.
   */
  lemma RootSearchUnpruned(c: SearchConfig, root: Node)
    requires c.Valid() && WellFormed(root) && !root.checkmate && c.rootDepth != 0
    ensures var moves := c.prioritize(root);
      var vs := ChildValues(c, root, c.rootDepth, moves);
      var r := NegamaxSearch(c, root, c.rootDepth, NegInf, PosInf);
      && r.Pair?
      && r.value == NegamaxValue(c, root, c.rootDepth) == MaxOf(NegInf, vs)
      && (r.best.None? <==> r.value == NegInf)
      && (r.best.Some? ==> exists j :: 0 <= j < |moves| && r.best == Some(moves[j]) && vs[j] == r.value
                                       && forall k :: 0 <= k < j ==> Lt(vs[k], vs[j]))
  {
    var moves := c.prioritize(root);
    var vs := ChildValues(c, root, c.rootDepth, moves);
    var es := Explored(c, root, c.rootDepth, moves, 0, PosInf, NegInf);
    var r := NegamaxSearch(c, root, c.rootDepth, NegInf, PosInf);
    RootSearch(c, root);
    NegamaxFullWindow(c, root, c.rootDepth);
    NegamaxValueIsBestMoveValue(c, root, c.rootDepth);
    if r.best.Some? {
      var j :| 0 <= j < |es| && r.best == Some(moves[j]) && es[j] == r.value
               && forall k :: 0 <= k < j ==> Lt(es[k], es[j]);
      ExploredAgainstValue(c, root, j, j);
      forall k | 0 <= k < j
        ensures Lt(vs[k], vs[j])
      {
        ExploredAgainstValue(c, root, j, k);
      }
    }
  }

  /**
   * The move the engine plays, against the unpruned values: past a checkmate
   * and depth zero, the first prioritized move whose unpruned value is the
   * root's; when every move loses outright (the root's value is minus
   * infinity), the first prioritized move, and no move when there is none.
   */
  lemma NextMoveByValue(c: SearchConfig, root: Node)
    requires c.Valid() && WellFormed(root) && !root.checkmate && c.rootDepth != 0
    ensures var moves := c.prioritize(root);
      var vs := ChildValues(c, root, c.rootDepth, moves);
      var v := NegamaxValue(c, root, c.rootDepth);
      var choice := NextMoveChoice(c, root);
      && v == MaxOf(NegInf, vs)
      && (v == NegInf && |moves| == 0 ==> choice == NoMoveError)
      && (v == NegInf && |moves| > 0 ==> choice == Chosen(moves[0]))
      && (v != NegInf ==> exists j :: 0 <= j < |moves| && choice == Chosen(moves[j]) && vs[j] == v
                                     && forall k :: 0 <= k < j ==> Lt(vs[k], v))
  {
    RootSearchUnpruned(c, root);
  }
}
