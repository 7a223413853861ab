/**
 * Search scores. The engine uses floating-point infinities as sentinels and
 * otherwise whole-number centipawn values; here a score is an integer or one
 * of the two infinities, with the order, maximum, minimum and negation the
 * search applies to them.
 */
module Scores {

  datatype Score = NegInf | Fin(v: int) | PosInf

  predicate Le(a: Score, b: Score) {
    match (a, b)
    case (NegInf, _) => true
    case (_, PosInf) => true
    case (Fin(x), Fin(y)) => x <= y
    case _ => false
  }

  predicate Lt(a: Score, b: Score) {
    !Le(b, a)
  }

  function Max(a: Score, b: Score): (r: Score)
    ensures Le(a, r) && Le(b, r) && (r == a || r == b)
  {
    if Le(a, b) then b else a
  }

  function Min(a: Score, b: Score): (r: Score)
    ensures Le(r, a) && Le(r, b) && (r == a || r == b)
  {
    if Le(a, b) then a else b
  }

  function Neg(a: Score): Score {
    match a
    case NegInf => PosInf
    case PosInf => NegInf
    case Fin(x) => Fin(-x)
  }

  /** `Le` is a total order; these are the facts the search proofs use. */
  lemma LeTotal(a: Score, b: Score)
    ensures Le(a, b) || Le(b, a)
  {
  }

  lemma LeTrans(a: Score, b: Score, c: Score)
    requires Le(a, b) && Le(b, c)
    ensures Le(a, c)
  {
  }

  lemma LeAntisym(a: Score, b: Score)
    requires Le(a, b) && Le(b, a)
    ensures a == b
  {
  }

  lemma NegTwice(a: Score)
    ensures Neg(Neg(a)) == a
  {
  }

  lemma NegFlipsOrder(a: Score, b: Score)
    ensures Le(a, b) <==> Le(Neg(b), Neg(a))
  {
  }

  /** The greatest of `init` and the scores of `xs`, taken left to right as a running maximum. */
  function MaxOf(init: Score, xs: seq<Score>): Score
    decreases |xs|
  {
    if |xs| == 0 then init else MaxOf(Max(init, xs[0]), xs[1..])
  }

  /** The running maximum bounds `init` and every score, and is one of them. */
  lemma {:induction false} MaxOfBounds(init: Score, xs: seq<Score>)
    ensures Le(init, MaxOf(init, xs))
    ensures forall i :: 0 <= i < |xs| ==> Le(xs[i], MaxOf(init, xs))
    ensures MaxOf(init, xs) == init || MaxOf(init, xs) in xs
    decreases |xs|
  {
    if |xs| > 0 {
      var m := Max(init, xs[0]);
      MaxOfBounds(m, xs[1..]);
      var r := MaxOf(init, xs);
      LeTrans(init, m, r);
      LeTrans(xs[0], m, r);
      forall i | 1 <= i < |xs|
        ensures Le(xs[i], r)
      {
        assert xs[i] == xs[1..][i - 1];
      }
      if r != m {
        assert r in xs[1..];
      }
    }
  }

  lemma MaxOfCons(init: Score, e: Score, xs: seq<Score>)
    ensures MaxOf(init, [e] + xs) == MaxOf(Max(init, e), xs)
  {
    assert ([e] + xs)[1..] == xs;
  }

  /** The running maximum over a prefix of `[e] + xs` of length `j`, for `j` at least one. */
  lemma MaxOfPrefixCons(init: Score, e: Score, xs: seq<Score>, j: nat)
    requires 1 <= j <= |xs| + 1
    ensures MaxOf(init, ([e] + xs)[..j]) == MaxOf(Max(init, e), xs[..j - 1])
  {
    assert ([e] + xs)[..j] == [e] + xs[..j - 1];
    MaxOfCons(init, e, xs[..j - 1]);
  }

  /**
   * Where a running maximum started at `init` last rose strictly: the index
   * of that element of `xs`, or -1 when no element exceeds `init`.
   */
  function LastRise(init: Score, xs: seq<Score>): (k: int)
    ensures -1 <= k < |xs|
    decreases |xs|
  {
    if |xs| == 0 then -1
    else
      var k := LastRise(Max(init, xs[0]), xs[1..]);
      if k >= 0 then k + 1 else if Lt(init, xs[0]) then 0 else -1
  }

  /**
   * The last strict rise is the first element that reaches the maximum, every
   * element before it is strictly smaller, and there is none exactly when the
   * maximum is `init` itself.
   */
  lemma {:induction false} LastRiseSpec(init: Score, xs: seq<Score>)
    ensures LastRise(init, xs) == -1 <==> MaxOf(init, xs) == init
    ensures var k := LastRise(init, xs);
      k >= 0 ==> xs[k] == MaxOf(init, xs) && Lt(init, xs[k]) && forall l :: 0 <= l < k ==> Lt(xs[l], xs[k])
    decreases |xs|
  {
    if |xs| > 0 {
      var m := Max(init, xs[0]);
      var rest := xs[1..];
      LastRiseSpec(m, rest);
      var k' := LastRise(m, rest);
      if k' >= 0 {
        var k := k' + 1;
        assert xs[k] == rest[k'];
        forall l | 0 <= l < k
          ensures Lt(xs[l], xs[k])
        {
          if l > 0 {
            assert xs[l] == rest[l - 1];
          }
        }
      } else if !Lt(init, xs[0]) {
        assert m == init;
      }
    }
  }
}
