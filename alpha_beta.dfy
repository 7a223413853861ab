/**
 * What the searchers share. Each window search is measured against the
 * unpruned search over the same moves, one move at a time; the negamax
 * searcher (src/searcher.py) uses the maximizer's steps on negated child
 * scores. In the two max/min searchers (src/move_generator.py and
 * move_generator.py) White maximises and Black minimises one score, and the
 * root move is picked by a loop that keeps the best value seen so far.
 */
module AlphaBeta {
  import opened Chess
  import opened Scores

  // ---------------------------------------------------------------------
  // Window bounds.

  /**
   * How a window search's result `v` in the window (alpha, beta) reflects the
   * unpruned value `m`: a result at or below alpha is an upper bound on `m`, a
   * result strictly inside the window is `m`, and a result at or above beta
   * is a lower bound on `m`.
   */
  predicate WindowBounds(v: Score, m: Score, alpha: Score, beta: Score) {
    && (Le(v, alpha) ==> Le(m, v))
    && (Lt(alpha, v) && Lt(v, beta) ==> m == v)
    && (Le(beta, v) ==> Le(v, m))
  }

  /** A search whose result is the unpruned value meets every window. */
  lemma ExactMeetsWindow(v: Score, alpha: Score, beta: Score)
    ensures WindowBounds(v, v, alpha, beta)
  {
  }

  /** In the full window (-inf, +inf) the bounds pin the result to the unpruned value. */
  lemma FullWindowExact(v: Score, m: Score)
    requires WindowBounds(v, m, NegInf, PosInf)
    ensures v == m
  {
  }

  lemma MaxAssoc(a: Score, b: Score, c: Score)
    ensures Max(Max(a, b), c) == Max(a, Max(b, c))
  {
  }

  lemma MinAssoc(a: Score, b: Score, c: Score)
    ensures Min(Min(a, b), c) == Min(a, Min(b, c))
  {
  }

  // One step of a move loop. Each lemma below takes the loop state on entry
  // to a move, the move's search result `s` in the loop's current window and
  // its unpruned value `m`, related as `WindowBounds` says, and shows that the
  // loop invariant of the search proofs survives the move (or, on a cutoff,
  // that the returned bound is still a bound).

  /**
   * A fail-hard maximizer: alpha `a` raised from the entry alpha `alpha0`,
   * below beta, at least the unpruned value `acc` so far, and equal to it
   * once above `alpha0`.
   */
  lemma FailHardMaxStep(alpha0: Score, beta: Score, a: Score, acc: Score, s: Score, m: Score)
    requires Le(alpha0, a) && Lt(a, beta) && Le(acc, a) && (Lt(alpha0, a) ==> acc == a)
    requires WindowBounds(s, m, a, beta)
    ensures Le(beta, s) ==> Le(beta, Max(acc, m))
    ensures Le(beta, Max(a, s)) <==> Le(beta, s)
    ensures Le(beta, s) ==> Max(a, s) == s && Le(s, Max(acc, m))
    ensures !Le(beta, s) ==> var a' := Max(a, s);
      Le(alpha0, a') && Lt(a', beta) && Le(Max(acc, m), a') && (Lt(alpha0, a') ==> Max(acc, m) == a')
  {
  }

  /** A fail-hard minimizer, symmetric to the maximizer. */
  lemma FailHardMinStep(alpha: Score, beta0: Score, b: Score, acc: Score, s: Score, m: Score)
    requires Le(b, beta0) && Lt(alpha, b) && Le(b, acc) && (Lt(b, beta0) ==> acc == b)
    requires WindowBounds(s, m, alpha, b)
    ensures Le(s, alpha) ==> Le(Min(acc, m), alpha)
    ensures Le(Min(b, s), alpha) <==> Le(s, alpha)
    ensures Le(s, alpha) ==> Min(b, s) == s && Le(Min(acc, m), s)
    ensures !Le(s, alpha) ==> var b' := Min(b, s);
      Le(b', beta0) && Lt(alpha, b') && Le(b', Min(acc, m)) && (Lt(b', beta0) ==> Min(acc, m) == b')
  {
  }

  /**
   * A fail-soft maximizer: best value `mv`, alpha the entry alpha raised to
   * `mv` and below beta, `mv` at least the unpruned value `acc` so far and
   * equal to it once above the entry alpha.
   */
  lemma FailSoftMaxStep(alpha0: Score, beta: Score, mv: Score, acc: Score, s: Score, m: Score)
    requires Lt(Max(alpha0, mv), beta) && Le(acc, mv) && (Lt(alpha0, mv) ==> acc == mv)
    requires WindowBounds(s, m, Max(alpha0, mv), beta)
    ensures var a', mv', acc' := Max(Max(alpha0, mv), s), Max(mv, s), Max(acc, m);
      && (Le(beta, a') ==> Le(beta, mv') && Le(mv', acc'))
      && (!Le(beta, a') ==> a' == Max(alpha0, mv') && Le(acc', mv') && (Lt(alpha0, mv') ==> acc' == mv'))
  {
    MaxAssoc(alpha0, mv, s);
  }

  /** A fail-soft minimizer, symmetric to the maximizer. */
  lemma FailSoftMinStep(alpha: Score, beta0: Score, mv: Score, acc: Score, s: Score, m: Score)
    requires Lt(alpha, Min(beta0, mv)) && Le(mv, acc) && (Lt(mv, beta0) ==> acc == mv)
    requires WindowBounds(s, m, alpha, Min(beta0, mv))
    ensures var b', mv', acc' := Min(Min(beta0, mv), s), Min(mv, s), Min(acc, m);
      && (Le(b', alpha) ==> Le(mv', alpha) && Le(acc', mv'))
      && (!Le(b', alpha) ==> b' == Min(beta0, mv') && Le(mv', acc') && (Lt(mv', beta0) ==> acc' == mv'))
  {
    MinAssoc(beta0, mv, s);
  }

  // ---------------------------------------------------------------------
  // Picking the root move.

  /** The best value seen so far and the move that gave it. */
  datatype Pick = Pick(value: Score, best: Option<Move>)

  /**
   * Whether `v` replaces the best value `bv`: for White a greater value, for
   * Black a smaller one, and, unless `strict`, an equal one too.
   */
  predicate Replaces(strict: bool, white: bool, bv: Score, v: Score) {
    if white then (if strict then Lt(bv, v) else Le(bv, v))
    else (if strict then Lt(v, bv) else Le(v, bv))
  }

  /** The root loop from move `i` on, given the value of every root move. */
  function PickLoop(strict: bool, white: bool, moves: seq<Move>, values: seq<Score>, i: nat, p: Pick): Pick
    requires |values| == |moves| && i <= |moves|
    decreases |moves| - i
  {
    if i == |moves| then p
    else
      var p' := if Replaces(strict, white, p.value, values[i]) then Pick(values[i], Some(moves[i])) else p;
      PickLoop(strict, white, moves, values, i + 1, p')
  }

  /** The value the root loop starts from: the worst score for the side to move. */
  function Worst(white: bool): Score {
    if white then NegInf else PosInf
  }

  function NegAll(xs: seq<Score>): (ys: seq<Score>)
    ensures |ys| == |xs|
    ensures forall i :: 0 <= i < |xs| ==> ys[i] == Neg(xs[i])
  {
    seq(|xs|, i requires 0 <= i < |xs| => Neg(xs[i]))
  }

  function NegPick(p: Pick): Pick {
    Pick(Neg(p.value), p.best)
  }

  /** One step of Black's loop is one step of White's on the negated values. */
  lemma NegStep(strict: bool, p: Pick, v: Score, m: Move)
    ensures NegPick(if Replaces(strict, false, p.value, v) then Pick(v, Some(m)) else p)
         == if Replaces(strict, true, Neg(p.value), Neg(v)) then Pick(Neg(v), Some(m)) else NegPick(p)
  {
    NegFlipsOrder(v, p.value);
    NegFlipsOrder(p.value, v);
  }

  lemma NegPickTwice(p: Pick)
    ensures NegPick(NegPick(p)) == p
  {
    NegTwice(p.value);
  }

  /** Black's loop is White's loop on the negated values. */
  lemma {:induction false} PickBlackIsNegated(strict: bool, moves: seq<Move>, values: seq<Score>, i: nat, p: Pick)
    requires |values| == |moves| && i <= |moves|
    ensures PickLoop(strict, false, moves, values, i, p)
         == NegPick(PickLoop(strict, true, moves, NegAll(values), i, NegPick(p)))
    decreases |moves| - i
  {
    if i < |moves| {
      var v := values[i];
      var p' := if Replaces(strict, false, p.value, v) then Pick(v, Some(moves[i])) else p;
      NegStep(strict, p, v, moves[i]);
      assert NegAll(values)[i] == Neg(v);
      PickBlackIsNegated(strict, moves, values, i + 1, p');
      NegPickTwice(PickLoop(strict, false, moves, values, i + 1, p'));
    }
  }

  /**
   * Where a running maximum started at `init` was last reached or exceeded:
   * the index of that element of `xs`, or -1 when every element is below `init`.
   */
  function LastReach(init: Score, xs: seq<Score>): (k: int)
    ensures -1 <= k < |xs|
    decreases |xs|
  {
    if |xs| == 0 then -1
    else
      var k := LastReach(Max(init, xs[0]), xs[1..]);
      if k >= 0 then k + 1 else if Le(init, xs[0]) then 0 else -1
  }

  /** A running maximum that nothing exceeds stays where it started. */
  lemma {:induction false} MaxOfAllBelow(init: Score, xs: seq<Score>)
    requires forall l :: 0 <= l < |xs| ==> Lt(xs[l], init)
    ensures MaxOf(init, xs) == init
    decreases |xs|
  {
    if |xs| > 0 {
      assert Max(init, xs[0]) == init;
      forall l | 0 <= l < |xs| - 1
        ensures Lt(xs[1..][l], init)
      {
        assert xs[1..][l] == xs[l + 1];
      }
      MaxOfAllBelow(init, xs[1..]);
    }
  }

  /**
   * The last reach is the last element equal to the maximum: it is at least
   * `init` and every later element is strictly smaller; there is none exactly
   * when every element is below `init`.
   */
  lemma {:induction false} LastReachSpec(init: Score, xs: seq<Score>)
    ensures LastReach(init, xs) == -1 <==> forall l :: 0 <= l < |xs| ==> Lt(xs[l], init)
    ensures var k := LastReach(init, xs);
      k >= 0 ==> xs[k] == MaxOf(init, xs) && Le(init, xs[k]) && forall l :: k < l < |xs| ==> Lt(xs[l], xs[k])
    decreases |xs|
  {
    if |xs| > 0 {
      var m := Max(init, xs[0]);
      var rest := xs[1..];
      LastReachSpec(m, rest);
      var k' := LastReach(m, rest);
      if k' >= 0 {
        var k := k' + 1;
        assert xs[k] == rest[k'];
        LeTrans(init, m, xs[k]);
        forall l | k < l < |xs|
          ensures Lt(xs[l], xs[k])
        {
          assert xs[l] == rest[l - 1];
        }
      } else if Le(init, xs[0]) {
        assert m == xs[0];
        MaxOfAllBelow(m, rest);
        forall l | 0 < l < |xs|
          ensures Lt(xs[l], xs[0])
        {
          assert xs[l] == rest[l - 1];
        }
      } else {
        forall l | 0 <= l < |xs|
          ensures Lt(xs[l], init)
        {
          if l > 0 {
            assert xs[l] == rest[l - 1];
          }
        }
      }
    }
  }

  /** White's loop from move `i` on, for either comparison, in terms of the running maximum. */
  lemma {:induction false} PickWhiteFrom(strict: bool, moves: seq<Move>, values: seq<Score>, i: nat, p: Pick)
    requires |values| == |moves| && i <= |moves|
    ensures var k := if strict then LastRise(p.value, values[i..]) else LastReach(p.value, values[i..]);
      PickLoop(strict, true, moves, values, i, p)
      == Pick(MaxOf(p.value, values[i..]), if k >= 0 then Some(moves[i + k]) else p.best)
    decreases |moves| - i
  {
    if i < |moves| {
      var v := values[i];
      var p' := if Replaces(strict, true, p.value, v) then Pick(v, Some(moves[i])) else p;
      assert p'.value == Max(p.value, v);
      assert values[i..][0] == v && values[i..][1..] == values[i + 1..];
      PickWhiteFrom(strict, moves, values, i + 1, p');
    }
  }

  /**
   * White with a strict comparison (the older searcher) keeps the first move
   * of greatest value, and finds none when every value is minus infinity.
   */
  lemma PickWhiteStrict(moves: seq<Move>, values: seq<Score>)
    requires |values| == |moves|
    ensures var p := PickLoop(true, true, moves, values, 0, Pick(NegInf, None));
      && p.value == MaxOf(NegInf, values)
      && (p.best.None? <==> forall l :: 0 <= l < |values| ==> values[l] == NegInf)
      && (p.best.Some? ==> exists k :: (0 <= k < |moves| && p.best == Some(moves[k]) && values[k] == p.value
            && forall l :: 0 <= l < k ==> Lt(values[l], values[k])))
  {
    PickWhiteFrom(true, moves, values, 0, Pick(NegInf, None));
    assert values[0..] == values;
    LastRiseSpec(NegInf, values);
    MaxOfBounds(NegInf, values);
    var k := LastRise(NegInf, values);
    if k >= 0 {
      assert values[k] != NegInf;
    } else {
      forall l | 0 <= l < |values|
        ensures values[l] == NegInf
      {
        assert Le(values[l], NegInf);
      }
    }
  }

  /**
   * White with a non-strict comparison (the newer searcher) keeps the last
   * move of greatest value, and finds one whenever there is a move.
   */
  lemma PickWhiteLoose(moves: seq<Move>, values: seq<Score>)
    requires |values| == |moves|
    ensures var p := PickLoop(false, true, moves, values, 0, Pick(NegInf, None));
      && p.value == MaxOf(NegInf, values)
      && (p.best.None? <==> |moves| == 0)
      && (p.best.Some? ==> exists k :: (0 <= k < |moves| && p.best == Some(moves[k]) && values[k] == p.value
            && forall l :: k < l < |moves| ==> Lt(values[l], values[k])))
  {
    PickWhiteFrom(false, moves, values, 0, Pick(NegInf, None));
    assert values[0..] == values;
    LastReachSpec(NegInf, values);
    if |values| > 0 {
      assert !Lt(values[0], NegInf);
    }
  }

  /**
   * Black with a strict comparison keeps the first move of least value, and
   * finds none when every value is plus infinity.
   */
  lemma PickBlackStrict(moves: seq<Move>, values: seq<Score>)
    requires |values| == |moves|
    ensures var p := PickLoop(true, false, moves, values, 0, Pick(PosInf, None));
      && (forall l :: 0 <= l < |values| ==> Le(p.value, values[l]))
      && (p.best.None? <==> forall l :: 0 <= l < |values| ==> values[l] == PosInf)
      && (p.best.Some? ==> exists k :: (0 <= k < |moves| && p.best == Some(moves[k]) && values[k] == p.value
            && forall l :: 0 <= l < k ==> Lt(values[k], values[l])))
  {
    var nv := NegAll(values);
    PickBlackIsNegated(true, moves, values, 0, Pick(PosInf, None));
    PickWhiteStrict(moves, nv);
    var q := PickLoop(true, true, moves, nv, 0, Pick(NegInf, None));
    MaxOfBounds(NegInf, nv);
    forall l | 0 <= l < |values|
      ensures Le(Neg(q.value), values[l])
    {
      NegFlipsOrder(nv[l], q.value);
      NegTwice(values[l]);
    }
    forall l | 0 <= l < |values|
      ensures values[l] == PosInf <==> nv[l] == NegInf
    {
    }
    if q.best.Some? {
      var k :| 0 <= k < |moves| && q.best == Some(moves[k]) && nv[k] == q.value
            && forall l :: 0 <= l < k ==> Lt(nv[l], nv[k]);
      NegTwice(values[k]);
      forall l | 0 <= l < k
        ensures Lt(values[k], values[l])
      {
        NegFlipsOrder(values[k], values[l]);
      }
    }
  }

  /**
   * Black with a non-strict comparison keeps the last move of least value,
   * and finds one whenever there is a move.
   */
  lemma PickBlackLoose(moves: seq<Move>, values: seq<Score>)
    requires |values| == |moves|
    ensures var p := PickLoop(false, false, moves, values, 0, Pick(PosInf, None));
      && (forall l :: 0 <= l < |values| ==> Le(p.value, values[l]))
      && (p.best.None? <==> |moves| == 0)
      && (p.best.Some? ==> exists k :: (0 <= k < |moves| && p.best == Some(moves[k]) && values[k] == p.value
            && forall l :: k < l < |moves| ==> Lt(values[k], values[l])))
  {
    var nv := NegAll(values);
    PickBlackIsNegated(false, moves, values, 0, Pick(PosInf, None));
    PickWhiteLoose(moves, nv);
    var q := PickLoop(false, true, moves, nv, 0, Pick(NegInf, None));
    MaxOfBounds(NegInf, nv);
    forall l | 0 <= l < |values|
      ensures Le(Neg(q.value), values[l])
    {
      NegFlipsOrder(nv[l], q.value);
      NegTwice(values[l]);
    }
    if q.best.Some? {
      var k :| 0 <= k < |moves| && q.best == Some(moves[k]) && nv[k] == q.value
            && forall l :: k < l < |moves| ==> Lt(nv[l], nv[k]);
      NegTwice(values[k]);
      forall l | k < l < |moves|
        ensures Lt(values[k], values[l])
      {
        NegFlipsOrder(values[k], values[l]);
      }
    }
  }
}
